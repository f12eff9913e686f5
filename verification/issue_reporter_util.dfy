/**
 `normalizeGitHubUrl`: turns a repository, bugs or issues URL into the bare
 repository URL by removing known suffixes from the end, in a fixed order.
 */
module IssueReporterUtil {
  import opened Strings

  const GitSuffix := ".git"
  const NewSuffix := "/new"
  const IssuesSuffix := "/issues"

  /** The first step: one `.git` suffix is cut off (`substr(0, length - 4)`). */
  function StripGitSuffix(url: string): (r: string)
    ensures StartsWith(url, r)
    ensures EndsWith(url, GitSuffix) ==> r + GitSuffix == url
    ensures !EndsWith(url, GitSuffix) ==> r == url
  {
    if EndsWith(url, GitSuffix) then url[..|url| - 4] else url
  }

  /** `if (url.endsWith(suffix)) url = rtrim(url, suffix)`. */
  function TrimIfEndsWith(url: string, suffix: string): (r: string)
    requires |suffix| > 0
    ensures StartsWith(url, r)
    ensures !EndsWith(r, suffix)
    ensures !EndsWith(url, suffix) ==> r == url
  {
    if EndsWith(url, suffix) then RTrim(url, suffix) else url
  }

  /** The whole chain: `.git` once, then every trailing `/`, every trailing `/new`, every trailing `/issues`. */
  function NormalizeGitHubUrl(url: string): (r: string)
    ensures StartsWith(url, r)
    ensures !EndsWith(r, IssuesSuffix)
  {
    var noGit := StripGitSuffix(url);
    var noSlash := RTrim(noGit, "/");
    var noNew := TrimIfEndsWith(noSlash, NewSuffix);
    var noIssues := TrimIfEndsWith(noNew, IssuesSuffix);
    StartsWithTransitive(url, noGit, noSlash);
    StartsWithTransitive(url, noSlash, noNew);
    StartsWithTransitive(url, noNew, noIssues);
    noIssues
  }

  lemma StartsWithTransitive(a: string, b: string, c: string)
    requires StartsWith(a, b) && StartsWith(b, c)
    ensures StartsWith(a, c)
  {
    assert a[..|c|] == b[..|b|][..|c|];
  }

  /** None of the suffixes the normalisation looks for ends `url`. */
  predicate Normalized(url: string) {
    !EndsWith(url, GitSuffix) && !EndsWith(url, "/") && !EndsWith(url, NewSuffix) && !EndsWith(url, IssuesSuffix)
  }

  /** A URL that ends in none of the suffixes comes back unchanged. */
  lemma NormalizeLeavesNormalized(url: string)
    requires Normalized(url)
    ensures NormalizeGitHubUrl(url) == url
  {
  }

  /** The last character decides whether a one-character-longer suffix can match. */
  lemma LastCharRulesOut(s: string, suffix: string)
    requires |s| > 0 && |suffix| > 0 && s[|s| - 1] != suffix[|suffix| - 1]
    ensures !EndsWith(s, suffix)
  {
    if |suffix| <= |s| {
      assert s[|s| - |suffix|..][|suffix| - 1] == s[|s| - 1];
    }
  }

  /** Every trailing slash goes, not only the last one. */
  lemma StripsAllTrailingSlashes(base: string, k: nat)
    requires Normalized(base) && k >= 1
    ensures NormalizeGitHubUrl(base + Repeat("/", k)) == base
  {
    var url := base + Repeat("/", k);
    assert url == (base + Repeat("/", k - 1)) + "/";
    LastCharRulesOut(url, GitSuffix);
    RTrimRepeat(base, "/", k);
  }

  /** An issues page URL `<base>/issues/new` normalises to `<base>`: `/new` is removed before `/issues`. */
  lemma StripsIssuesNew(base: string)
    requires Normalized(base)
    ensures NormalizeGitHubUrl(base + IssuesSuffix + NewSuffix) == base
  {
    var url := base + IssuesSuffix + NewSuffix;
    LastCharRulesOut(url, GitSuffix);
    LastCharRulesOut(url, "/");
    assert url[|url| - 4..] == NewSuffix;
    var afterNew := base + IssuesSuffix;
    assert url[..|url| - 4] == afterNew;
    LastCharRulesOut(afterNew, NewSuffix);
    assert RTrim(url, NewSuffix) == afterNew;
    assert afterNew[|afterNew| - 7..] == IssuesSuffix;
    assert afterNew[..|afterNew| - 7] == base;
  }

  /** Only one `.git` is removed: a doubled suffix leaves the inner one in place. */
  lemma StripsGitOnce(base: string)
    requires Normalized(base)
    ensures NormalizeGitHubUrl(base + GitSuffix + GitSuffix) == base + GitSuffix
  {
    var url := base + GitSuffix + GitSuffix;
    assert url[..|url| - 4] == base + GitSuffix;
    var once := base + GitSuffix;
    LastCharRulesOut(once, "/");
    LastCharRulesOut(once, NewSuffix);
    LastCharRulesOut(once, IssuesSuffix);
  }

  /** The suffix steps look at the text only, so a repository named `new` loses its name. */
  lemma RepositoryNamedNew(owner: string)
    requires Normalized(owner)
    ensures NormalizeGitHubUrl(owner + NewSuffix) == owner
  {
    var url := owner + NewSuffix;
    LastCharRulesOut(url, GitSuffix);
    LastCharRulesOut(url, "/");
    assert url[..|url| - 4] == owner;
  }
}
