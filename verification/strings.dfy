/**
 Small string helpers shared by the models: the optional-value datatype,
 prefix/suffix tests, repetition, `rtrim` from the base string utilities,
 splitting on a separator and its inverse `Join`.
 */
module Strings {

  datatype Option<+T> = None | Some(value: T)

  /** Concatenation regroups freely; a named step for proofs over long concatenations. */
  lemma ConcatAssociative<X>(h: seq<X>, x: seq<X>, y: seq<X>)
    ensures h + (x + y) == (h + x) + y
  {
  }

  predicate StartsWith(s: string, p: string) {
    |p| <= |s| && s[..|p|] == p
  }

  predicate EndsWith(s: string, p: string) {
    |p| <= |s| && s[|s| - |p|..] == p
  }

  /** `p` written `k` times in a row. */
  function Repeat(p: string, k: nat): (r: string)
    ensures |r| == k * |p|
  {
    if k == 0 then "" else Repeat(p, k - 1) + p
  }

  /**
   `rtrim(haystack, needle)`: removes every trailing repetition of `needle`.
   An empty needle leaves the haystack alone.
   */
  function RTrim(s: string, needle: string): (r: string)
    ensures StartsWith(s, r)
    ensures |needle| > 0 ==> !EndsWith(r, needle)
    ensures |needle| == 0 || !EndsWith(s, needle) ==> r == s
    decreases |s|
  {
    if |needle| > 0 && EndsWith(s, needle) then RTrim(s[..|s| - |needle|], needle) else s
  }

  /** What `RTrim` removed is a whole number of needles. */
  lemma {:induction false} RTrimRemovesRepetitions(s: string, needle: string) returns (k: nat)
    ensures s == RTrim(s, needle) + Repeat(needle, k)
    ensures |needle| > 0 && EndsWith(s, needle) ==> k > 0
    decreases |s|
  {
    if |needle| > 0 && EndsWith(s, needle) {
      var t := s[..|s| - |needle|];
      var j := RTrimRemovesRepetitions(t, needle);
      k := j + 1;
      calc {
        RTrim(s, needle) + Repeat(needle, k);
        RTrim(t, needle) + (Repeat(needle, j) + needle);
        (RTrim(t, needle) + Repeat(needle, j)) + needle;
        t + needle;
        s;
      }
    } else {
      k := 0;
    }
  }

  /** When at least one needle was removed, the trimmed text followed by one needle is still a prefix. */
  lemma {:induction false} RTrimKeepsOneNeedle(s: string, needle: string)
    requires |needle| > 0 && EndsWith(s, needle)
    ensures StartsWith(s, RTrim(s, needle) + needle)
    decreases |s|
  {
    var x := s[..|s| - |needle|];
    assert s == x + needle;
    if EndsWith(x, needle) {
      RTrimKeepsOneNeedle(x, needle);
      var p := RTrim(x, needle) + needle;
      assert s[..|p|] == x[..|p|];
    }
  }

  /** Removing every trailing `needle` from `c` followed by `k` needles gives back `c`. */
  lemma {:induction false} RTrimRepeat(c: string, needle: string, k: nat)
    requires |needle| > 0 && !EndsWith(c, needle)
    ensures RTrim(c + Repeat(needle, k), needle) == c
    decreases k
  {
    if k > 0 {
      var s := c + Repeat(needle, k);
      assert s == (c + Repeat(needle, k - 1)) + needle;
      assert s[..|s| - |needle|] == c + Repeat(needle, k - 1);
      RTrimRepeat(c, needle, k - 1);
    } else {
      assert c + Repeat(needle, 0) == c;
    }
  }

  /**
   `s.split(sep)` as in JavaScript: there is always at least one part, no part
   contains the separator, and an empty string gives one empty part.
   */
  function Split(s: string, sep: char): (r: seq<string>)
    ensures |r| >= 1
    ensures forall i :: 0 <= i < |r| ==> sep !in r[i]
    decreases |s|
  {
    if |s| == 0 then [""]
    else
      var rest := Split(s[1..], sep);
      if s[0] == sep then [""] + rest else [[s[0]] + rest[0]] + rest[1..]
  }

  /** `parts.join(sep)`. */
  function Join(parts: seq<string>, sep: char): (r: string)
    decreases |parts|
  {
    if |parts| == 0 then ""
    else if |parts| == 1 then parts[0]
    else parts[0] + [sep] + Join(parts[1..], sep)
  }

  /** Joining the parts of a split gives back the text. */
  lemma {:induction false} JoinSplit(s: string, sep: char)
    ensures Join(Split(s, sep), sep) == s
    decreases |s|
  {
    if |s| > 0 {
      JoinSplit(s[1..], sep);
      var rest := Split(s[1..], sep);
      if s[0] != sep && |rest| > 1 {
        assert ([s[0]] + rest[0]) + [sep] + Join(rest[1..], sep) == [s[0]] + (rest[0] + [sep] + Join(rest[1..], sep));
      }
    }
  }

  /** Splitting a join of separator-free parts gives back the parts. */
  lemma {:induction false} SplitJoin(parts: seq<string>, sep: char)
    requires |parts| >= 1
    requires forall i :: 0 <= i < |parts| ==> sep !in parts[i]
    ensures Split(Join(parts, sep), sep) == parts
    decreases |parts|, |parts[0]|
  {
    if |parts[0]| == 0 {
      if |parts| > 1 {
        var j := Join(parts[1..], sep);
        calc {
          Split(Join(parts, sep), sep);
          { assert Join(parts, sep) == [sep] + j; }
          Split([sep] + j, sep);
          { assert ([sep] + j)[1..] == j; }
          [""] + Split(j, sep);
          { SplitJoin(parts[1..], sep); }
          [""] + parts[1..];
          { assert parts[0] == ""; }
          parts;
        }
      }
    } else {
      var c := parts[0][0];
      var shorter := [parts[0][1..]] + parts[1..];
      var j := Join(shorter, sep);
      assert c != sep by {
        assert c in parts[0];
      }
      calc {
        Split(Join(parts, sep), sep);
        { JoinOfFirstChar(parts, sep); }
        Split([c] + j, sep);
        { SplitOfChar(c, j, sep); }
        [[c] + Split(j, sep)[0]] + Split(j, sep)[1..];
        { SplitJoin(shorter, sep); }
        [[c] + shorter[0]] + shorter[1..];
        { assert parts[0] == [c] + shorter[0]; assert shorter[1..] == parts[1..]; }
        parts;
      }
    }
  }

  /** A join starts with the first character of its first part. */
  lemma JoinOfFirstChar(parts: seq<string>, sep: char)
    requires |parts| >= 1 && |parts[0]| > 0
    ensures Join(parts, sep) == [parts[0][0]] + Join([parts[0][1..]] + parts[1..], sep)
  {
    var shorter := [parts[0][1..]] + parts[1..];
    assert parts[0] == [parts[0][0]] + parts[0][1..];
    if |parts| > 1 {
      assert shorter[1..] == parts[1..];
    }
  }

  /** A character other than the separator joins the first part. */
  lemma SplitOfChar(c: char, s: string, sep: char)
    requires c != sep
    ensures Split([c] + s, sep) == [[c] + Split(s, sep)[0]] + Split(s, sep)[1..]
  {
    assert ([c] + s)[1..] == s;
  }

  predicate IsDigit(c: char) {
    '0' <= c <= '9'
  }

  /** Decimal rendering of a natural number, as `String(n)` prints it. */
  function NatToString(n: nat): (r: string)
    ensures |r| >= 1
    ensures forall i :: 0 <= i < |r| ==> IsDigit(r[i])
    ensures (r == "0") <==> (n == 0)
    decreases n
  {
    if n < 10 then ["0123456789"[n]] else NatToString(n / 10) + ["0123456789"[n % 10]]
  }

  /** Decimal rendering of an integer, with a leading `-` when negative. */
  function IntToString(n: int): (r: string)
    ensures |r| >= 1
    ensures (r == "0") <==> (n == 0)
    ensures n < 0 <==> r[0] == '-'
  {
    if n < 0 then "-" + NatToString(-n) else NatToString(n)
  }
}
