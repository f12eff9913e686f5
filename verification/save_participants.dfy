/**
 The text transforms the editor applies to a document when it is saved
 (`FinalNewLineParticipant`, `TrimFinalNewLinesParticipant`,
 `TrimWhitespaceParticipant`), stated on the document's full text and the
 model's end-of-line sequence.
 */
module SaveParticipants {
  import opened Strings

  /** The end-of-line sequences a text model uses. */
  predicate IsEol(eol: string) {
    eol == "\n" || eol == "\r\n"
  }

  /**
   `files.insertFinalNewline`: an empty document and one whose last line is
   already empty are left alone; otherwise one end-of-line is appended.
   */
  function InsertFinalNewline(text: string, eol: string): (r: string)
    requires IsEol(eol)
    ensures StartsWith(r, text)
    ensures r == "" || EndsWith(r, eol)
    ensures |text| > 0 && !EndsWith(text, eol) ==> |r| == |text| + |eol|
    ensures EndsWith(text, eol) ==> r == text
  {
    if |text| == 0 || EndsWith(text, eol) then text else text + eol
  }

  /**
   `files.trimFinalNewlines`: a run of trailing end-of-lines is cut back to
   one; text that does not end in an end-of-line keeps its last line.
   */
  function TrimFinalNewlines(text: string, eol: string): (r: string)
    requires IsEol(eol)
    ensures StartsWith(text, r)
    ensures !EndsWith(r, eol + eol)
    ensures EndsWith(r, eol) <==> EndsWith(text, eol)
    ensures !EndsWith(text, eol + eol) ==> r == text
  {
    if EndsWith(text, eol) then
      var body := RTrim(text, eol);
      EndsWithDoubled(text, eol);
      EndsWithAppended(body, eol);
      RTrimKeepsOneNeedle(text, eol);
      body + eol
    else text
  }

  /** `x + eol` ends in `eol + eol` exactly when `x` ends in `eol`. */
  lemma EndsWithAppended(x: string, eol: string)
    ensures EndsWith(x + eol, eol)
    ensures EndsWith(x + eol, eol + eol) <==> EndsWith(x, eol)
  {
    var s := x + eol;
    assert s[|s| - |eol|..] == eol;
    if EndsWith(x, eol) {
      assert s[|s| - 2 * |eol|..] == x[|x| - |eol|..] + eol;
    }
    if EndsWith(s, eol + eol) {
      assert x[|x| - |eol|..] == s[|s| - 2 * |eol|..|s| - |eol|];
    }
  }

  /** A text ending in one end-of-line ends in two exactly when its trim by one still ends in one. */
  lemma EndsWithDoubled(text: string, eol: string)
    requires EndsWith(text, eol)
    ensures var x := text[..|text| - |eol|];
      text == x + eol && (EndsWith(text, eol + eol) <==> EndsWith(x, eol))
  {
    var x := text[..|text| - |eol|];
    assert text == x + eol;
    EndsWithAppended(x, eol);
  }

  /** Any positive number of trailing end-of-lines after `c` collapses to one; `c` itself is untouched. */
  lemma CollapsesTrailingEols(c: string, eol: string, k: nat)
    requires IsEol(eol) && !EndsWith(c, eol) && k >= 1
    ensures TrimFinalNewlines(c + Repeat(eol, k), eol) == c + eol
  {
    var s := c + Repeat(eol, k);
    assert s == (c + Repeat(eol, k - 1)) + eol;
    assert EndsWith(s, eol) by {
      assert s[|s| - |eol|..] == eol;
    }
    RTrimRepeat(c, eol, k);
  }

  /** Saving twice trims no more than saving once. */
  lemma TrimFinalNewlinesIdempotent(text: string, eol: string)
    requires IsEol(eol)
    ensures TrimFinalNewlines(TrimFinalNewlines(text, eol), eol) == TrimFinalNewlines(text, eol)
  {
  }

  /** `n` saves in a row. */
  function TrimFinalNewlinesTimes(text: string, eol: string, n: nat): string
    requires IsEol(eol)
    decreases n
  {
    if n == 0 then text else TrimFinalNewlinesTimes(TrimFinalNewlines(text, eol), eol, n - 1)
  }

  /** Any positive number of saves has the effect of one. */
  lemma {:induction false} RepeatedSavesTrimOnce(text: string, eol: string, n: nat)
    requires IsEol(eol) && n >= 1
    ensures TrimFinalNewlinesTimes(text, eol, n) == TrimFinalNewlines(text, eol)
    decreases n
  {
    if n > 1 {
      RepeatedSavesTrimOnce(TrimFinalNewlines(text, eol), eol, n - 1);
      TrimFinalNewlinesIdempotent(text, eol);
    }
  }

  /** Inserting a final newline and then trimming final newlines leaves exactly one end-of-line. */
  lemma InsertThenTrimEndsInOneEol(text: string, eol: string)
    requires IsEol(eol) && |text| > 0
    ensures var r := TrimFinalNewlines(InsertFinalNewline(text, eol), eol);
      EndsWith(r, eol) && !EndsWith(r, eol + eol)
  {
  }

  /** Text whose last character is not a line feed does not end in an end-of-line. */
  lemma NotEndingInEol(c: string, eol: string)
    requires IsEol(eol) && |c| > 0 && c[|c| - 1] != '\n'
    ensures !EndsWith(c, eol)
  {
    if |eol| <= |c| {
      assert c[|c| - |eol|..][|eol| - 1] == c[|c| - 1];
    }
  }

  /** The insert-final-newline test, for either end-of-line sequence. */
  lemma InsertFinalNewlineScenario(eol: string)
    requires IsEol(eol)
    ensures InsertFinalNewline("", eol) == ""
    ensures InsertFinalNewline("Hello New Line" + eol, eol) == "Hello New Line" + eol
    ensures InsertFinalNewline("Hello New Line", eol) == "Hello New Line" + eol
    ensures var m := "Hello New Line" + eol + "Hello New Line" + eol + "Hello New Line";
      InsertFinalNewline(m, eol) == m + eol
  {
    EndsWithAppended("Hello New Line", eol);
    NotEndingInEol("Hello New Line", eol);
    var m := "Hello New Line" + eol + "Hello New Line" + eol + "Hello New Line";
    NotEndingInEol(m, eol);
  }

  /** The trim-final-newlines test: zero or one final end-of-line is kept. */
  lemma TrimFinalNewlinesKeepsScenario(eol: string)
    requires IsEol(eol)
    ensures TrimFinalNewlines("Trim New Line", eol) == "Trim New Line"
    ensures TrimFinalNewlines("Trim New Line" + eol, eol) == "Trim New Line" + eol
  {
    NotEndingInEol("Trim New Line", eol);
    EndsWithAppended("Trim New Line", eol);
  }

  /** `c` followed by two end-of-lines is `c` followed by `Repeat(eol, 2)`. */
  lemma TwoEols(c: string, eol: string)
    ensures c + eol + eol == c + Repeat(eol, 2)
  {
    assert Repeat(eol, 2) == eol + eol;
  }

  /** The trim-final-newlines test: two final end-of-lines become one. */
  lemma TrimFinalNewlinesTwoScenario(eol: string)
    requires IsEol(eol)
    ensures TrimFinalNewlines("Trim New Line" + eol + eol, eol) == "Trim New Line" + eol
  {
    NotEndingInEol("Trim New Line", eol);
    TwoEols("Trim New Line", eol);
    CollapsesTrailingEols("Trim New Line", eol, 2);
  }

  /** The trim-final-newlines test: three final end-of-lines after two lines become one. */
  lemma TrimFinalNewlinesThreeScenario(eol: string)
    requires IsEol(eol)
    ensures var t := "Trim New Line" + eol + "Trim New Line";
      TrimFinalNewlines(t + eol + eol + eol, eol) == t + eol
  {
    var t := "Trim New Line" + eol + "Trim New Line";
    NotEndingInEol(t, eol);
    TwoEols(t, eol);
    assert Repeat(eol, 3) == Repeat(eol, 2) + eol;
    assert t + eol + eol + eol == t + Repeat(eol, 3);
    CollapsesTrailingEols(t, eol, 3);
  }

  /** Ten saves of `Test` followed by two end-of-lines leave one end-of-line. */
  lemma TenSavesScenario(eol: string)
    requires IsEol(eol)
    ensures TrimFinalNewlinesTimes("Test" + eol + eol, eol, 10) == "Test" + eol
  {
    NotEndingInEol("Test", eol);
    TwoEols("Test", eol);
    CollapsesTrailingEols("Test", eol, 2);
    RepeatedSavesTrimOnce("Test" + eol + eol, eol, 10);
  }

  predicate IsBlank(c: char) {
    c == ' ' || c == '\t'
  }

  predicate IsLineBreak(c: char) {
    c == '\r' || c == '\n'
  }

  /** Length of the run of spaces and tabs at the front of `s`. */
  function LeadingBlanks(s: string): (n: nat)
    ensures n <= |s|
    ensures forall i :: 0 <= i < n ==> IsBlank(s[i])
    ensures n < |s| ==> !IsBlank(s[n])
    decreases |s|
  {
    if |s| > 0 && IsBlank(s[0]) then 1 + LeadingBlanks(s[1..]) else 0
  }

  /**
   `files.trimTrailingWhitespace`: every run of spaces and tabs that ends a
   line (it is followed by a line break or by the end of the text) is removed;
   other runs and every other character stay in place.
   */
  function TrimTrailingWhitespace(s: string): (r: string)
    ensures |r| <= |s|
    decreases |s|
  {
    if |s| == 0 then ""
    else if !IsBlank(s[0]) then [s[0]] + TrimTrailingWhitespace(s[1..])
    else
      var n := LeadingBlanks(s);
      if n == |s| || IsLineBreak(s[n]) then TrimTrailingWhitespace(s[n..])
      else s[..n] + TrimTrailingWhitespace(s[n..])
  }

  /** No line of `s` ends in a space or a tab. */
  predicate NoTrailingWhitespace(s: string) {
    forall i :: 0 <= i < |s| && IsBlank(s[i]) ==> i + 1 < |s| && !IsLineBreak(s[i + 1])
  }

  /** The characters of `s` other than spaces and tabs, in order. */
  function NonBlanks(s: string): (r: string)
    ensures forall i :: 0 <= i < |r| ==> !IsBlank(r[i])
    decreases |s|
  {
    if |s| == 0 then "" else (if IsBlank(s[0]) then "" else [s[0]]) + NonBlanks(s[1..])
  }

  lemma {:induction false} NonBlanksAppend(a: string, b: string)
    ensures NonBlanks(a + b) == NonBlanks(a) + NonBlanks(b)
    decreases |a|
  {
    if |a| > 0 {
      assert (a + b)[1..] == a[1..] + b;
      NonBlanksAppend(a[1..], b);
    } else {
      assert a + b == b;
    }
  }

  lemma {:induction false} NonBlanksOfBlanks(s: string)
    requires forall i :: 0 <= i < |s| ==> IsBlank(s[i])
    ensures NonBlanks(s) == ""
    decreases |s|
  {
    if |s| > 0 {
      NonBlanksOfBlanks(s[1..]);
    }
  }

  /** A line break or the end of the text follows a trimmed run, so the result starts the same way. */
  lemma {:induction false} TrimKeepsFirst(s: string)
    requires |s| > 0 && !IsBlank(s[0])
    ensures TrimTrailingWhitespace(s) == [s[0]] + TrimTrailingWhitespace(s[1..])
  {
  }

  /** After trimming, no line ends in a space or a tab. */
  lemma {:induction false} TrimLeavesNoTrailingWhitespace(s: string)
    ensures NoTrailingWhitespace(TrimTrailingWhitespace(s))
    decreases |s|
  {
    if |s| > 0 {
      if !IsBlank(s[0]) {
        TrimLeavesNoTrailingWhitespace(s[1..]);
      } else {
        var n := LeadingBlanks(s);
        TrimLeavesNoTrailingWhitespace(s[n..]);
        if !(n == |s| || IsLineBreak(s[n])) {
          var t := TrimTrailingWhitespace(s[n..]);
          TrimKeepsFirst(s[n..]);
          var r := s[..n] + t;
          forall i | 0 <= i < |r| && IsBlank(r[i])
            ensures i + 1 < |r| && !IsLineBreak(r[i + 1])
          {
            if i + 1 < n {
              assert r[i + 1] == s[i + 1];
            } else if i + 1 == n {
              assert r[i + 1] == t[0] == s[n];
            } else {
              assert r[i] == t[i - n];
            }
          }
        }
      }
    }
  }

  /** A text with no trailing whitespace is saved unchanged; with the lemma above, trimming is idempotent. */
  lemma TrimWithoutTrailingWhitespace(s: string)
    requires NoTrailingWhitespace(s)
    ensures TrimTrailingWhitespace(s) == s
  {
    TrimAfterCleanPrefix(s, "");
    assert s + "" == s;
  }

  /** Saving twice trims no more than saving once. */
  lemma TrimTrailingWhitespaceIdempotent(s: string)
    ensures TrimTrailingWhitespace(TrimTrailingWhitespace(s)) == TrimTrailingWhitespace(s)
  {
    TrimLeavesNoTrailingWhitespace(s);
    TrimWithoutTrailingWhitespace(TrimTrailingWhitespace(s));
  }

  /** What the trim removes are spaces and tabs only: every other character survives, in order. */
  lemma {:induction false} TrimKeepsNonBlanks(s: string)
    ensures NonBlanks(TrimTrailingWhitespace(s)) == NonBlanks(s)
    decreases |s|
  {
    if |s| > 0 {
      if !IsBlank(s[0]) {
        TrimKeepsNonBlanks(s[1..]);
        NonBlanksAppend([s[0]], TrimTrailingWhitespace(s[1..]));
      } else {
        var n := LeadingBlanks(s);
        TrimKeepsNonBlanks(s[n..]);
        assert s == s[..n] + s[n..];
        NonBlanksAppend(s[..n], s[n..]);
        NonBlanksOfBlanks(s[..n]);
        if !(n == |s| || IsLineBreak(s[n])) {
          NonBlanksAppend(s[..n], TrimTrailingWhitespace(s[n..]));
        }
      }
    }
  }

  lemma {:induction false} LeadingBlanksOfPrefix(a: string, b: string)
    requires LeadingBlanks(a) < |a|
    ensures LeadingBlanks(a + b) == LeadingBlanks(a)
    decreases |a|
  {
    if IsBlank(a[0]) {
      assert (a + b)[1..] == a[1..] + b;
      LeadingBlanksOfPrefix(a[1..], b);
    }
  }

  /** A suffix of a text without trailing whitespace has none either. */
  lemma CleanSuffix(a: string, k: nat)
    requires NoTrailingWhitespace(a) && k <= |a|
    ensures NoTrailingWhitespace(a[k..])
  {
    forall i | 0 <= i < |a[k..]| && IsBlank(a[k..][i])
      ensures i + 1 < |a[k..]| && !IsLineBreak(a[k..][i + 1])
    {
      assert a[k..][i] == a[k + i];
    }
  }

  lemma TrimOfKeptRun(s: string, n: nat)
    requires 0 < n < |s| && n == LeadingBlanks(s) && !IsLineBreak(s[n])
    ensures TrimTrailingWhitespace(s) == s[..n] + TrimTrailingWhitespace(s[n..])
  {
    assert IsBlank(s[0]);
  }

  /** In a text without trailing whitespace, a leading run of blanks ends before a character that is not a line break. */
  lemma CleanRunEnds(a: string)
    requires NoTrailingWhitespace(a) && |a| > 0 && IsBlank(a[0])
    ensures LeadingBlanks(a) < |a| && !IsLineBreak(a[LeadingBlanks(a)])
  {
    var n := LeadingBlanks(a);
    assert IsBlank(a[n - 1]);
  }

  lemma SlicesOfConcat<X>(a: seq<X>, b: seq<X>, k: nat)
    requires k <= |a|
    ensures (a + b)[..k] == a[..k] && (a + b)[k..] == a[k..] + b
  {
  }

  /** The kept part in front, then the tail of the first text, then the rest: that is the first text, then the rest. */
  lemma Regroup<X>(a: seq<X>, k: nat, rest: seq<X>)
    requires k <= |a|
    ensures a[..k] + (a[k..] + rest) == a + rest
  {
    assert a == a[..k] + a[k..];
  }

  /**
   Runs of spaces and tabs that do not end a line stay in place: a leading
   part of the text without trailing whitespace comes through the trim
   unchanged, whatever follows it.
   */
  lemma {:induction false} TrimAfterCleanPrefix(a: string, b: string)
    requires NoTrailingWhitespace(a)
    ensures TrimTrailingWhitespace(a + b) == a + TrimTrailingWhitespace(b)
    decreases |a|
  {
    if |a| == 0 {
      assert a + b == b;
    } else {
      var k: nat;
      if !IsBlank(a[0]) {
        k := 1;
        assert (a + b)[0] == a[0];
        TrimKeepsFirst(a + b);
        assert [(a + b)[0]] == (a + b)[..1];
      } else {
        k := LeadingBlanks(a);
        CleanRunEnds(a);
        LeadingBlanksOfPrefix(a, b);
        assert (a + b)[k] == a[k];
        TrimOfKeptRun(a + b, k);
      }
      assert TrimTrailingWhitespace(a + b) == (a + b)[..k] + TrimTrailingWhitespace((a + b)[k..]);
      CleanSuffix(a, k);
      TrimAfterCleanPrefix(a[k..], b);
      SlicesOfConcat(a, b, k);
      Regroup(a, k, TrimTrailingWhitespace(b));
    }
  }

  /** A run made only of blanks, followed by something else, is the whole leading run. */
  lemma {:induction false} LeadingBlanksOfBlanks(a: string, b: string)
    requires forall i :: 0 <= i < |a| ==> IsBlank(a[i])
    requires |b| > 0 ==> !IsBlank(b[0])
    ensures LeadingBlanks(a + b) == |a|
    decreases |a|
  {
    if |a| > 0 {
      assert (a + b)[1..] == a[1..] + b;
      LeadingBlanksOfBlanks(a[1..], b);
    } else {
      assert a + b == b;
    }
  }

  lemma TrimOfDroppedRun(s: string, n: nat)
    requires 0 < n == LeadingBlanks(s) && (n == |s| || IsLineBreak(s[n]))
    ensures TrimTrailingWhitespace(s) == TrimTrailingWhitespace(s[n..])
  {
    assert IsBlank(s[0]);
  }

  /** Text made only of spaces and tabs trims to nothing. */
  lemma TrimOfBlanks(q: string)
    requires forall i :: 0 <= i < |q| ==> IsBlank(q[i])
    ensures TrimTrailingWhitespace(q) == ""
  {
    if |q| > 0 {
      LeadingBlanksOfBlanks(q, "");
      assert q + "" == q;
      TrimOfDroppedRun(q, |q|);
    }
  }

  lemma BreakStepPlain(a: string, b: string)
    requires |a| > 0 && !IsBlank(a[0])
    requires TrimTrailingWhitespace(a[1..] + b) == TrimTrailingWhitespace(a[1..]) + TrimTrailingWhitespace(b)
    ensures TrimTrailingWhitespace(a + b) == TrimTrailingWhitespace(a) + TrimTrailingWhitespace(b)
  {
    assert (a + b)[0] == a[0];
    TrimKeepsFirst(a + b);
    TrimKeepsFirst(a);
    SlicesOfConcat(a, b, 1);
    ConcatAssociative([a[0]], TrimTrailingWhitespace(a[1..]), TrimTrailingWhitespace(b));
  }

  lemma BreakStepKept(a: string, b: string, n: nat)
    requires 0 < n == LeadingBlanks(a) < |a| && !IsLineBreak(a[n])
    requires TrimTrailingWhitespace(a[n..] + b) == TrimTrailingWhitespace(a[n..]) + TrimTrailingWhitespace(b)
    ensures TrimTrailingWhitespace(a + b) == TrimTrailingWhitespace(a) + TrimTrailingWhitespace(b)
  {
    LeadingBlanksOfPrefix(a, b);
    assert (a + b)[n] == a[n];
    TrimOfKeptRun(a + b, n);
    TrimOfKeptRun(a, n);
    SlicesOfConcat(a, b, n);
    ConcatAssociative(a[..n], TrimTrailingWhitespace(a[n..]), TrimTrailingWhitespace(b));
  }

  lemma BreakStepDropped(a: string, b: string, n: nat)
    requires 0 < n == LeadingBlanks(a) < |a| && IsLineBreak(a[n])
    requires TrimTrailingWhitespace(a[n..] + b) == TrimTrailingWhitespace(a[n..]) + TrimTrailingWhitespace(b)
    ensures TrimTrailingWhitespace(a + b) == TrimTrailingWhitespace(a) + TrimTrailingWhitespace(b)
  {
    LeadingBlanksOfPrefix(a, b);
    assert (a + b)[n] == a[n];
    TrimOfDroppedRun(a + b, n);
    TrimOfDroppedRun(a, n);
    SlicesOfConcat(a, b, n);
  }

  lemma BreakStepAllBlank(a: string, b: string)
    requires 0 < |a| == LeadingBlanks(a)
    requires |b| > 0 && IsLineBreak(b[0])
    ensures TrimTrailingWhitespace(a + b) == TrimTrailingWhitespace(a) + TrimTrailingWhitespace(b)
  {
    var n := |a|;
    LeadingBlanksOfBlanks(a, b);
    assert (a + b)[n] == b[0];
    TrimOfDroppedRun(a + b, n);
    TrimOfBlanks(a);
    assert (a + b)[n..] == b;
  }

  /** The trim of the text before a line break does not look past the break. */
  lemma {:induction false} TrimBeforeBreak(a: string, b: string)
    requires |b| > 0 && IsLineBreak(b[0])
    ensures TrimTrailingWhitespace(a + b) == TrimTrailingWhitespace(a) + TrimTrailingWhitespace(b)
    decreases |a|
  {
    if |a| == 0 {
      assert a + b == b;
    } else if !IsBlank(a[0]) {
      TrimBeforeBreak(a[1..], b);
      BreakStepPlain(a, b);
    } else {
      var n := LeadingBlanks(a);
      if n == |a| {
        BreakStepAllBlank(a, b);
      } else {
        TrimBeforeBreak(a[n..], b);
        if IsLineBreak(a[n]) {
          BreakStepDropped(a, b, n);
        } else {
          BreakStepKept(a, b, n);
        }
      }
    }
  }

  /**
   Lines are trimmed independently: the trim of a text with a line break in
   it is the trim of the part before, the break, and the trim of the part
   after. In particular the indentation that starts the next line survives.
   */
  lemma TrimSplitsAtLineBreak(a: string, c: char, b: string)
    requires IsLineBreak(c)
    ensures TrimTrailingWhitespace(a + [c] + b) == TrimTrailingWhitespace(a) + [c] + TrimTrailingWhitespace(b)
  {
    assert a + [c] + b == a + ([c] + b);
    TrimBeforeBreak(a, [c] + b);
    assert ([c] + b)[1..] == b;
    TrimKeepsFirst([c] + b);
  }

  /**
   On one line, the trim removes exactly the final run of spaces and tabs:
   `k` is the length of that run (everything from `|l| - k` on is blank, and
   the character before it, if any, is not).
   */
  lemma TrimOfLine(l: string, k: nat)
    requires forall i :: 0 <= i < |l| ==> !IsLineBreak(l[i])
    requires k <= |l|
    requires forall i :: |l| - k <= i < |l| ==> IsBlank(l[i])
    requires k < |l| ==> !IsBlank(l[|l| - k - 1])
    ensures TrimTrailingWhitespace(l) == l[..|l| - k]
  {
    var p, q := l[..|l| - k], l[|l| - k..];
    LineBodyIsClean(l, k);
    FinalRunIsBlank(l, k, q);
    TrimAfterCleanPrefix(p, q);
    TrimOfBlanks(q);
    assert l == p + q;
    assert p + "" == p;
  }

  lemma LineBodyIsClean(l: string, k: nat)
    requires forall i :: 0 <= i < |l| ==> !IsLineBreak(l[i])
    requires k <= |l|
    requires k < |l| ==> !IsBlank(l[|l| - k - 1])
    ensures NoTrailingWhitespace(l[..|l| - k])
  {
    var p := l[..|l| - k];
    forall i | 0 <= i < |p| && IsBlank(p[i])
      ensures i + 1 < |p| && !IsLineBreak(p[i + 1])
    {
      assert p[i] == l[i];
      if i + 1 < |p| { assert p[i + 1] == l[i + 1]; }
    }
  }

  lemma FinalRunIsBlank(l: string, k: nat, q: string)
    requires k <= |l| && q == l[|l| - k..]
    requires forall i :: |l| - k <= i < |l| ==> IsBlank(l[i])
    ensures forall i :: 0 <= i < |q| ==> IsBlank(q[i])
  {
    forall i | 0 <= i < |q|
      ensures IsBlank(q[i])
    {
      assert q[i] == l[|l| - k + i];
    }
  }

  /** The save test's shape across a line: `a` and a space, a break, then an indented `c`, saves as `a`, the break, the indented `c`. */
  lemma IndentAfterTrimmedLineSurvives()
    ensures TrimTrailingWhitespace("a \n  c") == "a\n  c"
  {
    TrimOfLine("a ", 1);
    assert "a "[..1] == "a";
    TrimOfLine("  c", 0);
    assert "  c"[..3] == "  c";
    assert "a \n  c" == "a " + ['\n'] + "  c";
    TrimSplitsAtLineBreak("a ", '\n', "  c");
  }

  /** A blank between two words survives; the one ending the line does not. */
  lemma InnerBlankSurvives(x: char, y: char)
    requires !IsBlank(x) && !IsLineBreak(x) && !IsBlank(y) && !IsLineBreak(y)
    ensures TrimTrailingWhitespace([x, ' ', y, ' ']) == [x, ' ', y]
  {
    var a := [x, ' ', y];
    assert NoTrailingWhitespace(a);
    assert [x, ' ', y, ' '] == a + [' '];
    TrimAfterCleanPrefix(a, [' ']);
    assert LeadingBlanks([' ']) == 1;
    assert [' '][1..] == [];
  }

  /** The whitespace test: `Test` followed by a space and a tab is saved as `Test`. */
  lemma TrimWhitespaceScenario()
    ensures TrimTrailingWhitespace("Test \t") == "Test"
  {
    assert LeadingBlanks(" \t") == 2;
    assert TrimTrailingWhitespace(" \t") == "";
    assert "Test \t"[4..] == " \t";
    assert TrimTrailingWhitespace("t \t") == "t";
    assert TrimTrailingWhitespace("st \t") == "st";
    assert TrimTrailingWhitespace("est \t") == "est";
  }
}
