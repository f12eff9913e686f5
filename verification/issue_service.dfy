/**
 The web issue reporter (`WebIssueService`): where "Report Issue" sends the
 user. A core issue goes to the product's issue URL; an extension issue goes
 to the URL a registered handler provides, or else to the GitHub issues page
 derived from the extension's metadata. Opening a window and
 `encodeURIComponent` are not modelled: the URI that would be opened is the
 result, and the encoder is a parameter.
 */
module IssueService {
  import opened Strings
  import opened IssueReporterUtil

  /** The product configuration fields the reporter reads; `None` is an absent field. */
  datatype Product = Product(
    nameLong: string,
    reportIssueUrl: Option<string>,
    version: string,
    commit: Option<string>,
    embedderIdentifier: Option<string>)

  /** The extension description fields the reporter reads. */
  datatype Extension = Extension(
    id: string,
    isBuiltin: bool,
    bugsUrl: Option<string>,
    repositoryUrl: Option<string>,
    version: Option<string>)

  /** What a registered handler's `provideIssueUrl` does when asked: give a URI, or fail. */
  datatype HandlerReply = Provides(uri: string) | Fails

  type Handlers = map<string, HandlerReply>

  /** The result of `openReporter`: the URI opened, or the error thrown. */
  datatype Outcome =
    | Opened(uri: string)
    | NoReportIssueUrl(productName: string)
    | NoIssueUrlFor(extensionId: string)
    | ReadOfUndefined

  /** JavaScript truthiness of an optional string: present and non-empty. */
  predicate Truthy(s: Option<string>) {
    s.Some? && s.value != ""
  }

  /** The message of the error an outcome throws. */
  function ErrorMessage(o: Outcome): (m: string)
    ensures o.NoReportIssueUrl? ==> StartsWith(m, "No issue reporting URL configured for ")
    ensures o.NoIssueUrlFor? ==> StartsWith(m, "Unable to find issue reporting url for ")
    ensures o.NoReportIssueUrl? ==> m == "No issue reporting URL configured for " + o.productName + "."
    ensures o.NoIssueUrlFor? ==> m == "Unable to find issue reporting url for " + o.extensionId
    ensures o.Opened? <==> m == ""
  {
    match o
    case Opened(_) => ""
    case NoReportIssueUrl(name) => "No issue reporting URL configured for " + name + "."
    case NoIssueUrlFor(id) => "Unable to find issue reporting url for " + id
    case ReadOfUndefined => "Cannot read properties of undefined (reading 'isBuiltin')"
  }

  /** `registerIssueUriRequestHandler`: the handler for the id is set, replacing any earlier one. */
  function Register(handlers: Handlers, extensionId: string, reply: HandlerReply): (r: Handlers)
    ensures extensionId in r && r[extensionId] == reply
    ensures forall id :: id in handlers && id != extensionId ==> id in r && r[id] == handlers[id]
    ensures r.Keys == handlers.Keys + {extensionId}
  {
    handlers[extensionId := reply]
  }

  /** Disposing a registration deletes whatever handler the id has at that time. */
  function Dispose(handlers: Handlers, extensionId: string): (r: Handlers)
    ensures extensionId !in r
    ensures forall id :: id in handlers && id != extensionId ==> id in r && r[id] == handlers[id]
    ensures r.Keys == handlers.Keys - {extensionId}
  {
    handlers - {extensionId}
  }

  /** Disposing a registration undoes it when the id had no handler before. */
  lemma DisposeUndoesRegister(handlers: Handlers, extensionId: string, reply: HandlerReply)
    requires extensionId !in handlers
    ensures Dispose(Register(handlers, extensionId, reply), extensionId) == handlers
  {
  }

  /** The disposable of an earlier registration also removes a later registration for the same id. */
  lemma DisposeOfEarlierRemovesLater(handlers: Handlers, extensionId: string, first: HandlerReply, second: HandlerReply)
    ensures extensionId !in Dispose(Register(Register(handlers, extensionId, first), extensionId, second), extensionId)
  {
  }

  /** `/^https?:\/\/github\.com\/(.*)/`: the regular expression is anchored at the start only. */
  predicate IsGitHubUrl(url: string) {
    StartsWith(url, "http://github.com/") || StartsWith(url, "https://github.com/")
  }

  /** The first extension whose identifier equals the id (`filter(...)[0]`), if any. */
  function FindExtension(extensions: seq<Extension>, extensionId: string): (r: Option<Extension>)
    ensures r.Some? ==> r.value in extensions && r.value.id == extensionId
    ensures r.None? <==> forall e :: e in extensions ==> e.id != extensionId
    ensures r.Some? ==> exists i :: 0 <= i < |extensions| && extensions[i] == r.value
                                     && forall j :: 0 <= j < i ==> extensions[j].id != extensionId
    decreases |extensions|
  {
    if |extensions| == 0 then None
    else if extensions[0].id == extensionId then Some(extensions[0])
    else
      var r := FindExtension(extensions[1..], extensionId);
      assert r.Some? ==> exists i :: 0 <= i < |extensions| && extensions[i] == r.value
                                     && forall j :: 0 <= j < i ==> extensions[j].id != extensionId by {
        if r.Some? {
          var i :| 0 <= i < |extensions[1..]| && extensions[1..][i] == r.value
                   && forall j :: 0 <= j < i ==> extensions[1..][j].id != extensionId;
          assert extensions[i + 1] == r.value;
          forall j | 0 <= j < i + 1
            ensures extensions[j].id != extensionId
          {
            if j > 0 { assert extensions[j] == extensions[1..][j - 1]; }
          }
        }
      }
      r
  }

  /**
   `getExtensionGitHubUrl`: the normalised product issue URL for a builtin
   extension; otherwise the normalised bugs URL if it is a GitHub URL, else the
   normalised repository URL if that is one; else the empty string. With no
   extension every optional read gives nothing, so the result is empty.
   */
  function ExtensionGitHubUrl(product: Product, extension: Option<Extension>): (r: string)
    ensures extension.None? ==> r == ""
    ensures extension.Some? && extension.value.isBuiltin && Truthy(product.reportIssueUrl) ==>
      r == NormalizeGitHubUrl(product.reportIssueUrl.value)
    ensures r != "" && extension.Some? && !(extension.value.isBuiltin && Truthy(product.reportIssueUrl)) ==>
      (var e := extension.value;
       (e.bugsUrl.Some? && IsGitHubUrl(e.bugsUrl.value) && r == NormalizeGitHubUrl(e.bugsUrl.value)) ||
       (e.repositoryUrl.Some? && IsGitHubUrl(e.repositoryUrl.value) && r == NormalizeGitHubUrl(e.repositoryUrl.value)))
  {
    match extension
    case None => ""
    case Some(e) =>
      if e.isBuiltin && Truthy(product.reportIssueUrl) then NormalizeGitHubUrl(product.reportIssueUrl.value)
      else if Truthy(e.bugsUrl) && IsGitHubUrl(e.bugsUrl.value) then NormalizeGitHubUrl(e.bugsUrl.value)
      else if Truthy(e.repositoryUrl) && IsGitHubUrl(e.repositoryUrl.value) then NormalizeGitHubUrl(e.repositoryUrl.value)
      else ""
  }

  /**
   `getExtensionGitHubUrl` as written: `extension.isBuiltin` is read before
   the optional reads, so a missing extension throws (`None`) instead of
   yielding the empty string.
   */
  function ExtensionGitHubUrlAsWritten(product: Product, extension: Option<Extension>): (r: Option<string>)
    ensures r.None? <==> extension.None?
    ensures extension.Some? ==> r == Some(ExtensionGitHubUrl(product, extension))
  {
    match extension
    case None => None
    case Some(e) => Some(ExtensionGitHubUrl(product, extension))
  }

  /** A GitHub bugs URL wins over the repository URL for a non-builtin extension. */
  lemma BugsUrlPreferred(product: Product, e: Extension)
    requires !(e.isBuiltin && Truthy(product.reportIssueUrl))
    requires e.bugsUrl.Some? && IsGitHubUrl(e.bugsUrl.value)
    ensures ExtensionGitHubUrl(product, Some(e)) == NormalizeGitHubUrl(e.bugsUrl.value)
  {
  }

  /** The repository URL is used only when the bugs URL is missing or not on GitHub. */
  lemma RepositoryUrlFallback(product: Product, e: Extension)
    requires !(e.isBuiltin && Truthy(product.reportIssueUrl))
    requires !(e.bugsUrl.Some? && IsGitHubUrl(e.bugsUrl.value))
    requires e.repositoryUrl.Some? && IsGitHubUrl(e.repositoryUrl.value)
    ensures ExtensionGitHubUrl(product, Some(e)) == NormalizeGitHubUrl(e.repositoryUrl.value)
  {
  }

  /** The fixed lines of the issue body before the optional extension version. */
  function DescriptionHead(product: Product, userAgent: Option<string>): string {
    "ADD ISSUE DESCRIPTION HERE\n\nVersion: " + product.version
    + "\nCommit: " + (if product.commit.Some? then product.commit.value else "unknown")
    + "\nUser Agent: " + (if userAgent.Some? then userAgent.value else "unknown")
    + "\nEmbedder: " + (if product.embedderIdentifier.Some? then product.embedderIdentifier.value else "unknown")
    + "\n"
  }

  const DescriptionTail := "\n<!-- generated by web issue reporter -->"

  /** The issue body template: the product facts, then an extension version line when the version is non-empty. */
  function IssueDescription(product: Product, userAgent: Option<string>, extension: Option<Extension>): (d: string)
    ensures StartsWith(d, DescriptionHead(product, userAgent))
    ensures EndsWith(d, DescriptionTail)
    ensures |d| >= |DescriptionHead(product, userAgent)| + |DescriptionTail|
    ensures extension.Some? && Truthy(extension.value.version) ==>
      d[|DescriptionHead(product, userAgent)|..|d| - |DescriptionTail|] == "\nExtension version: " + extension.value.version.value
    ensures !(extension.Some? && Truthy(extension.value.version)) ==>
      |d| == |DescriptionHead(product, userAgent)| + |DescriptionTail|
  {
    var versionLine :=
      if extension.Some? && Truthy(extension.value.version) then "\nExtension version: " + extension.value.version.value
      else "";
    var d := DescriptionHead(product, userAgent) + versionLine + DescriptionTail;
    assert d[..|DescriptionHead(product, userAgent)|] == DescriptionHead(product, userAgent);
    assert d[|DescriptionHead(product, userAgent)|..|d| - |DescriptionTail|] == versionLine;
    d
  }

  /** The version line appears exactly when the extension has a non-empty version; otherwise the body is the core one. */
  lemma VersionLineOnlyWhenVersioned(product: Product, userAgent: Option<string>, e: Extension)
    ensures !Truthy(e.version) ==> IssueDescription(product, userAgent, Some(e)) == IssueDescription(product, userAgent, None)
    ensures Truthy(e.version) ==>
      IssueDescription(product, userAgent, Some(e))
        == DescriptionHead(product, userAgent) + "\nExtension version: " + e.version.value + DescriptionTail
  {
  }

  /** `getIssueUriFromStaticContent`: the base URI with the encoded body and the `web` label as query. */
  function IssueUriFromStaticContent(base: string, description: string, encode: string -> string): (u: string)
    ensures StartsWith(u, base + "?body=")
    ensures EndsWith(u, "&labels=web")
    ensures |u| == |base| + |"?body="| + |encode(description)| + |"&labels=web"|
    ensures u[|base| + |"?body="|..|u| - |"&labels=web"|] == encode(description)
  {
    var u := base + "?body=" + encode(description) + "&labels=web";
    assert u[..|base + "?body="|] == base + "?body=";
    assert u[|base| + |"?body="|..|u| - |"&labels=web"|] == encode(description);
    u
  }

  /** `!extensionId`: absent or empty. */
  predicate IsCoreIssue(extensionId: Option<string>) {
    !Truthy(extensionId)
  }

  /** The extension path once the id is known to be set and no handler produced a URI. */
  function ExtensionOutcome(product: Product, extensions: seq<Extension>, extensionId: string,
                            userAgent: Option<string>, encode: string -> string): (o: Outcome)
    ensures o.Opened? || o == NoIssueUrlFor(extensionId)
    ensures o.NoIssueUrlFor? <==> ExtensionGitHubUrl(product, FindExtension(extensions, extensionId)) == ""
    ensures o.Opened? ==>
      var selected := FindExtension(extensions, extensionId);
      o.uri == IssueUriFromStaticContent(ExtensionGitHubUrl(product, selected) + "/issues/new",
                                         IssueDescription(product, userAgent, selected), encode)
  {
    var selected := FindExtension(extensions, extensionId);
    var gitHubUrl := ExtensionGitHubUrl(product, selected);
    if gitHubUrl == "" then NoIssueUrlFor(extensionId)
    else Opened(IssueUriFromStaticContent(gitHubUrl + "/issues/new", IssueDescription(product, userAgent, selected), encode))
  }

  /** `openReporter`, with the corrected treatment of an id no installed extension has. */
  function OpenReporter(product: Product, handlers: Handlers, extensions: seq<Extension>,
                        extensionId: Option<string>, userAgent: Option<string>, encode: string -> string): (o: Outcome)
    ensures IsCoreIssue(extensionId) && Truthy(product.reportIssueUrl) ==>
      o == Opened(IssueUriFromStaticContent(product.reportIssueUrl.value, IssueDescription(product, userAgent, None), encode))
    ensures o.NoReportIssueUrl? <==> IsCoreIssue(extensionId) && !Truthy(product.reportIssueUrl)
    ensures o.NoReportIssueUrl? ==> o.productName == product.nameLong
    ensures o.NoIssueUrlFor? ==> !IsCoreIssue(extensionId) && o.extensionId == extensionId.value
    ensures !o.ReadOfUndefined?
    ensures !IsCoreIssue(extensionId) && extensionId.value in handlers && handlers[extensionId.value].Provides? ==>
      o == Opened(handlers[extensionId.value].uri)
    ensures !IsCoreIssue(extensionId) && !(extensionId.value in handlers && handlers[extensionId.value].Provides?) ==>
      var selected := FindExtension(extensions, extensionId.value);
      var gitHubUrl := ExtensionGitHubUrl(product, selected);
      && (o.NoIssueUrlFor? <==> gitHubUrl == "")
      && (gitHubUrl != "" ==>
            o == Opened(IssueUriFromStaticContent(gitHubUrl + "/issues/new", IssueDescription(product, userAgent, selected), encode)))
  {
    if IsCoreIssue(extensionId) then
      if Truthy(product.reportIssueUrl) then
        Opened(IssueUriFromStaticContent(product.reportIssueUrl.value, IssueDescription(product, userAgent, None), encode))
      else NoReportIssueUrl(product.nameLong)
    else
      var id := extensionId.value;
      if id in handlers && handlers[id].Provides? then Opened(handlers[id].uri)
      else ExtensionOutcome(product, extensions, id, userAgent, encode)
  }

  /** `openReporter` as written: an id that no installed extension has throws while reading `isBuiltin`. */
  function OpenReporterAsWritten(product: Product, handlers: Handlers, extensions: seq<Extension>,
                                 extensionId: Option<string>, userAgent: Option<string>, encode: string -> string): (o: Outcome)
    ensures o.ReadOfUndefined? <==>
      !IsCoreIssue(extensionId)
      && !(extensionId.value in handlers && handlers[extensionId.value].Provides?)
      && FindExtension(extensions, extensionId.value).None?
    ensures !o.ReadOfUndefined? ==> o == OpenReporter(product, handlers, extensions, extensionId, userAgent, encode)
  {
    if IsCoreIssue(extensionId) then OpenReporter(product, handlers, extensions, extensionId, userAgent, encode)
    else
      var id := extensionId.value;
      if id in handlers && handlers[id].Provides? then Opened(handlers[id].uri)
      else
        var selected := FindExtension(extensions, id);
        match ExtensionGitHubUrlAsWritten(product, selected)
        case None => ReadOfUndefined
        case Some(gitHubUrl) =>
          if gitHubUrl == "" then NoIssueUrlFor(id)
          else Opened(IssueUriFromStaticContent(gitHubUrl + "/issues/new", IssueDescription(product, userAgent, selected), encode))
  }

  /** A handler that provides a URI is used, whatever the product and the extension metadata say. */
  lemma HandlerTakesPriority(product: Product, handlers: Handlers, extensions: seq<Extension>,
                             id: string, userAgent: Option<string>, encode: string -> string)
    requires id != "" && id in handlers && handlers[id].Provides?
    ensures OpenReporter(product, handlers, extensions, Some(id), userAgent, encode) == Opened(handlers[id].uri)
  {
  }

  /** A failing handler is the same as no handler: the GitHub URL path is taken. */
  lemma FailingHandlerFallsThrough(product: Product, handlers: Handlers, extensions: seq<Extension>,
                                   id: string, userAgent: Option<string>, encode: string -> string)
    requires id != ""
    ensures OpenReporter(product, handlers[id := Fails], extensions, Some(id), userAgent, encode)
         == OpenReporter(product, Dispose(handlers, id), extensions, Some(id), userAgent, encode)
  {
  }

  /** A builtin extension reports to the normalised product issue URL. */
  lemma BuiltinUsesProductUrl(product: Product, extensions: seq<Extension>, e: Extension,
                              userAgent: Option<string>, encode: string -> string)
    requires e.id != "" && e.isBuiltin && Truthy(product.reportIssueUrl)
    requires FindExtension(extensions, e.id) == Some(e)
    requires NormalizeGitHubUrl(product.reportIssueUrl.value) != ""
    ensures OpenReporter(product, map[], extensions, Some(e.id), userAgent, encode)
         == Opened(IssueUriFromStaticContent(NormalizeGitHubUrl(product.reportIssueUrl.value) + "/issues/new",
                                             IssueDescription(product, userAgent, Some(e)), encode))
  {
  }

  /**
   The discrepancy: for an id with no handler and no installed extension, the
   code as written throws a TypeError, while the corrected reporter raises the
   intended "Unable to find issue reporting url" error.
   */
  lemma UnknownExtensionThrowsTypeError(product: Product, id: string, userAgent: Option<string>, encode: string -> string)
    requires id != ""
    ensures OpenReporterAsWritten(product, map[], [], Some(id), userAgent, encode) == ReadOfUndefined
    ensures OpenReporter(product, map[], [], Some(id), userAgent, encode) == NoIssueUrlFor(id)
  {
  }
}
