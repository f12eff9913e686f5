/**
 Shell history readers of the integrated terminal: one parser per shell
 dialect (bash, zsh, fish, PowerShell) turning the text of a history file into
 the commands it records, oldest first, plus the platform gate and history
 file location that decide whether a file is read at all.

 Every parser works on the physical lines of the file (`content.split('\n')`).
 A logical command whose text is empty is not reported.
 */
module ShellHistory {
  import opened Strings

  datatype Shell = Bash | Zsh | Fish | Pwsh

  /** The operating system of the (remote or local) machine the shell runs on. */
  datatype OperatingSystem = Windows | Macintosh | Linux

  // ---------------------------------------------------------------------------
  // zsh extended-history header `: <epoch>:<elapsed>;`

  /** Number of decimal digits at the start of `s`. */
  function DigitRun(s: string): (n: nat)
    ensures n <= |s|
    ensures forall i :: 0 <= i < n ==> IsDigit(s[i])
    ensures n < |s| ==> !IsDigit(s[n])
    decreases |s|
  {
    if |s| > 0 && IsDigit(s[0]) then 1 + DigitRun(s[1..]) else 0
  }

  /** Length of the `: <epoch>:<elapsed>;` header that starts `line`, or 0 when there is none. */
  function ZshHeaderLength(line: string): (n: nat)
    ensures n <= |line|
  {
    if !StartsWith(line, ": ") then 0
    else
      var a := DigitRun(line[2..]);
      var i := 2 + a;
      if a == 0 || i >= |line| || line[i] != ':' then 0
      else
        var b := DigitRun(line[i + 1..]);
        var j := i + 1 + b;
        if b == 0 || j >= |line| || line[j] != ';' then 0 else j + 1
  }

  /** The header zsh writes in front of a command started at `epoch` that ran `elapsed` seconds. */
  function ZshHeader(epoch: nat, elapsed: nat): string {
    ": " + NatToString(epoch) + ":" + NatToString(elapsed) + ";"
  }

  /** A line without its zsh header; a line without a header is kept whole. */
  function StripZshHeader(line: string): (r: string)
    ensures EndsWith(line, r)
    ensures ZshHeaderLength(line) == 0 ==> r == line
  {
    line[ZshHeaderLength(line)..]
  }

  lemma {:induction false} DigitRunOfDigits(d: string, rest: string)
    requires forall i :: 0 <= i < |d| ==> IsDigit(d[i])
    requires |rest| > 0 && !IsDigit(rest[0])
    ensures DigitRun(d + rest) == |d|
    decreases |d|
  {
    if |d| > 0 {
      assert (d + rest)[1..] == d[1..] + rest;
      DigitRunOfDigits(d[1..], rest);
    } else {
      assert d + rest == rest;
    }
  }

  /** The header length when both digit runs and both separators are in place. */
  lemma ZshHeaderLengthOfRuns(line: string, a: nat, b: nat)
    requires StartsWith(line, ": ") && a > 0 && b > 0
    requires DigitRun(line[2..]) == a && 2 + a < |line| && line[2 + a] == ':'
    requires DigitRun(line[3 + a..]) == b && 3 + a + b < |line| && line[3 + a + b] == ';'
    ensures ZshHeaderLength(line) == 4 + a + b
  {
  }

  /** The header zsh writes is exactly what the parser strips, whatever the command. */
  lemma StripZshHeaderOfHeader(epoch: nat, elapsed: nat, cmd: string)
    ensures StripZshHeader(ZshHeader(epoch, elapsed) + cmd) == cmd
  {
    var e := NatToString(epoch);
    var n := NatToString(elapsed);
    assert ZshHeader(epoch, elapsed) + cmd == ": " + (e + (":" + (n + (";" + cmd))));
    StripHeaderOfDigits(e, n, cmd);
  }

  /** A header built from two non-empty digit runs is stripped whole. */
  lemma StripHeaderOfDigits(e: string, n: string, cmd: string)
    requires |e| > 0 && forall i :: 0 <= i < |e| ==> IsDigit(e[i])
    requires |n| > 0 && forall i :: 0 <= i < |n| ==> IsDigit(n[i])
    ensures StripZshHeader(": " + (e + (":" + (n + (";" + cmd))))) == cmd
  {
    var line := ": " + (e + (":" + (n + (";" + cmd))));
    HeaderLengthOfDigits(e, n, cmd);
    assert line[2..] == e + (":" + (n + (";" + cmd)));
    assert line[3 + |e|..] == n + (";" + cmd);
    assert line[4 + |e| + |n|..] == cmd;
  }

  lemma HeaderLengthOfDigits(e: string, n: string, cmd: string)
    requires |e| > 0 && forall i :: 0 <= i < |e| ==> IsDigit(e[i])
    requires |n| > 0 && forall i :: 0 <= i < |n| ==> IsDigit(n[i])
    ensures ZshHeaderLength(": " + (e + (":" + (n + (";" + cmd))))) == 4 + |e| + |n|
  {
    var afterColon := n + (";" + cmd);
    var afterEpoch := ":" + afterColon;
    var line := ": " + (e + afterEpoch);
    var i := 2 + |e|;
    assert line[2..] == e + afterEpoch;
    DigitRunOfDigits(e, afterEpoch);
    assert line[i] == ':';
    assert line[i + 1..] == afterColon;
    DigitRunOfDigits(n, ";" + cmd);
    assert line[i + 1 + |n|] == afterColon[|n|] == ';';
    ZshHeaderLengthOfRuns(line, |e|, |n|);
  }

  // ---------------------------------------------------------------------------
  // zsh and PowerShell: a trailing marker continues the command on the next line

  predicate EndsWithChar(s: string, c: char) {
    |s| > 0 && s[|s| - 1] == c
  }

  /** The first physical line of a command, with the zsh header removed when `stripHeader`. */
  function EntryStart(stripHeader: bool, line: string): string {
    if stripHeader then StripZshHeader(line) else line
  }

  /**
   Joins continued lines into commands. `pending` holds the text gathered so far
   (its trailing marker already removed) while the previous line was continued.
   A line ending in `marker` is continued: the marker is dropped and the next line
   is appended after a real newline. A file that ends inside a continuation still
   reports what was gathered.
   */
  function ContinuedCommands(lines: seq<string>, marker: char, stripHeader: bool, pending: Option<string>): (r: seq<string>)
    ensures forall i :: 0 <= i < |r| ==> r[i] != ""
    decreases |lines|
  {
    if |lines| == 0 then
      if pending.Some? && pending.value != "" then [pending.value] else []
    else
      var text := if pending.Some? then pending.value + "\n" + lines[0] else EntryStart(stripHeader, lines[0]);
      if EndsWithChar(text, marker) then
        ContinuedCommands(lines[1..], marker, stripHeader, Some(text[..|text| - 1]))
      else if text == "" then
        ContinuedCommands(lines[1..], marker, stripHeader, None)
      else
        [text] + ContinuedCommands(lines[1..], marker, stripHeader, None)
  }

  // ---------------------------------------------------------------------------
  // bash: a line that leaves a double quote open is joined with the next one

  /** Whether `line` holds an odd number of double quotes, i.e. toggles the quoted state. */
  function TogglesQuote(line: string): bool
    decreases |line|
  {
    if |line| == 0 then false
    else if line[0] == '"' then !TogglesQuote(line[1..])
    else TogglesQuote(line[1..])
  }

  /**
   Joins the lines of a bash history into commands. `pending` holds the text
   gathered so far while a double quote is open.
   */
  function BashCommands(lines: seq<string>, pending: Option<string>): (r: seq<string>)
    ensures forall i :: 0 <= i < |r| ==> r[i] != ""
    decreases |lines|
  {
    if |lines| == 0 then
      if pending.Some? && pending.value != "" then [pending.value] else []
    else
      var text := if pending.Some? then pending.value + "\n" + lines[0] else lines[0];
      var open := pending.Some? != TogglesQuote(lines[0]);
      if open then BashCommands(lines[1..], Some(text))
      else if text == "" then BashCommands(lines[1..], None)
      else [text] + BashCommands(lines[1..], None)
  }

  // ---------------------------------------------------------------------------
  // fish: `- cmd: <text>` records whose text escapes newlines as `\n`

  /** Number of backslashes immediately before position `i` of `s`. */
  function BackslashesBefore(s: string, i: nat): nat
    requires i <= |s|
    decreases i
  {
    if i > 0 && s[i - 1] == '\\' then 1 + BackslashesBefore(s, i - 1) else 0
  }

  /** Position `i` holds an `n` escaped as a newline: an odd run of backslashes precedes it. */
  predicate IsNewlineEscape(s: string, i: nat)
    requires i < |s|
  {
    s[i] == 'n' && BackslashesBefore(s, i) % 2 == 1
  }

  predicate HasNewlineEscape(s: string) {
    exists i :: 0 <= i < |s| && IsNewlineEscape(s, i)
  }

  /** Number of backslashes at the start of `s`. */
  function LeadingBackslashes(s: string): (n: nat)
    ensures n <= |s|
    ensures forall i :: 0 <= i < n ==> s[i] == '\\'
    ensures n < |s| ==> s[n] != '\\'
    decreases |s|
  {
    if |s| > 0 && s[0] == '\\' then 1 + LeadingBackslashes(s[1..]) else 0
  }

  /**
   `sanitizeFishHistoryCmd`: every `\n` escape (an `n` after an odd run of
   backslashes) becomes a real newline; the rest of the run stays as written.
   An `n` after an even run is left alone, as are all other characters.
   */
  function SanitizeFishHistoryCmd(s: string): (r: string)
    ensures |r| <= |s|
    decreases |s|
  {
    if |s| == 0 then ""
    else if s[0] != '\\' then [s[0]] + SanitizeFishHistoryCmd(s[1..])
    else
      var n := LeadingBackslashes(s);
      if n < |s| && s[n] == 'n' && n % 2 == 1 then s[..n - 1] + "\n" + SanitizeFishHistoryCmd(s[n + 1..])
      else s[..n] + SanitizeFishHistoryCmd(s[n..])
  }

  lemma {:induction false} BackslashesBeforeShift(s: string, k: nat, i: nat)
    requires 0 < k <= i <= |s|
    requires s[k - 1] != '\\'
    ensures BackslashesBefore(s, i) == BackslashesBefore(s[k..], i - k)
    decreases i
  {
    if i > k {
      assert s[k..][i - k - 1] == s[i - 1];
      BackslashesBeforeShift(s, k, i - 1);
    }
  }

  lemma {:induction false} BackslashesBeforeInRun(s: string, i: nat)
    requires i <= |s|
    requires forall j :: 0 <= j < i ==> s[j] == '\\'
    ensures BackslashesBefore(s, i) == i
    decreases i
  {
    if i > 0 {
      BackslashesBeforeInRun(s, i - 1);
    }
  }

  /** Dropping a first character that is not a backslash keeps the escape sites of the rest. */
  lemma EscapesAfterPlainChar(s: string)
    requires |s| > 0 && s[0] != '\\'
    ensures HasNewlineEscape(s) <==> HasNewlineEscape(s[1..])
  {
    if HasNewlineEscape(s) {
      var i :| 0 <= i < |s| && IsNewlineEscape(s, i);
      assert i > 0;
      BackslashesBeforeShift(s, 1, i);
      assert IsNewlineEscape(s[1..], i - 1);
    }
    if HasNewlineEscape(s[1..]) {
      var j :| 0 <= j < |s[1..]| && IsNewlineEscape(s[1..], j);
      BackslashesBeforeShift(s, 1, j + 1);
      assert IsNewlineEscape(s, j + 1);
    }
  }

  /** Past a maximal backslash run that is not an escape, the escape sites are those of the rest. */
  lemma EscapesAfterRun(s: string, n: nat)
    requires 0 < n <= |s|
    requires forall j :: 0 <= j < n ==> s[j] == '\\'
    requires n < |s| ==> s[n] != '\\'
    requires !(n < |s| && s[n] == 'n' && n % 2 == 1)
    ensures HasNewlineEscape(s) <==> HasNewlineEscape(s[n..])
  {
    if HasNewlineEscape(s) {
      var i :| 0 <= i < |s| && IsNewlineEscape(s, i);
      if i == n {
        BackslashesBeforeInRun(s, n);
        assert false;
      }
      assert i > n;
      BackslashesBeforeShift(s, n + 1, i);
      BackslashesBeforeShift(s[n..], 1, i - n);
      assert s[n..][1..] == s[n + 1..];
      assert IsNewlineEscape(s[n..], i - n);
    }
    if HasNewlineEscape(s[n..]) {
      var j :| 0 <= j < |s[n..]| && IsNewlineEscape(s[n..], j);
      assert j > 0;
      BackslashesBeforeShift(s, n + 1, n + j);
      BackslashesBeforeShift(s[n..], 1, j);
      assert s[n..][1..] == s[n + 1..];
      assert IsNewlineEscape(s, n + j);
    }
  }

  /**
   The parity rule: on a single-line record, the sanitized command contains a
   real newline exactly when some `n` is preceded by an odd run of backslashes.
   */
  lemma {:induction false} SanitizeNewlineParity(s: string)
    requires '\n' !in s
    ensures '\n' in SanitizeFishHistoryCmd(s) <==> HasNewlineEscape(s)
    decreases |s|
  {
    if |s| == 0 {
    } else if s[0] != '\\' {
      SanitizeNewlineParity(s[1..]);
      EscapesAfterPlainChar(s);
      var rest := SanitizeFishHistoryCmd(s[1..]);
      assert '\n' in [s[0]] + rest <==> '\n' in rest;
    } else {
      var n := LeadingBackslashes(s);
      if n < |s| && s[n] == 'n' && n % 2 == 1 {
        BackslashesBeforeInRun(s, n);
        assert IsNewlineEscape(s, n);
        var r := s[..n - 1] + "\n" + SanitizeFishHistoryCmd(s[n + 1..]);
        assert r[n - 1] == '\n';
      } else {
        assert '\n' !in s[n..];
        SanitizeNewlineParity(s[n..]);
        EscapesAfterRun(s, n);
        var rest := SanitizeFishHistoryCmd(s[n..]);
        assert '\n' !in s[..n];
        assert '\n' in s[..n] + rest <==> '\n' in rest;
      }
    }
  }

  const FishCommandTag: string := "- cmd:"

  /**
   The characters JavaScript's `trimStart` removes: the WhiteSpace code points
   of the ECMAScript grammar (tab, vertical tab, form feed, the byte order mark
   and the space separators of Unicode category Zs) and its LineTerminators
   (line feed, carriage return, line and paragraph separator).
   */
  predicate IsJsWhiteSpace(c: char) {
    || c == '\t' || c == '\n' || c == '\U{000B}' || c == '\U{000C}' || c == '\r'
    || c == ' ' || c == '\U{00A0}' || c == '\U{1680}' || '\U{2000}' <= c <= '\U{200A}'
    || c == '\U{2028}' || c == '\U{2029}' || c == '\U{202F}' || c == '\U{205F}'
    || c == '\U{3000}' || c == '\U{FEFF}'
  }

  /** `trimStart`: drops every leading JavaScript whitespace character. */
  function TrimStart(s: string): (r: string)
    ensures EndsWith(s, r)
    ensures |r| > 0 ==> !IsJsWhiteSpace(r[0])
    ensures forall i :: 0 <= i < |s| - |r| ==> IsJsWhiteSpace(s[i])
    decreases |s|
  {
    if |s| > 0 && IsJsWhiteSpace(s[0]) then
      var r := TrimStart(s[1..]);
      assert forall i :: 1 <= i < |s| - |r| ==> s[i] == s[1..][i - 1];
      r
    else s
  }

  /** The commands of a fish history: one per `- cmd:` line, all other lines ignored. */
  function FishCommands(lines: seq<string>): (r: seq<string>)
    ensures |r| <= |lines|
    ensures forall i :: 0 <= i < |r| ==> r[i] != ""
    decreases |lines|
  {
    if |lines| == 0 then []
    else
      var rest := FishCommands(lines[1..]);
      if StartsWith(lines[0], FishCommandTag) then
        var cmd := SanitizeFishHistoryCmd(TrimStart(lines[0][|FishCommandTag|..]));
        if cmd == "" then rest else [cmd] + rest
      else rest
  }

  // ---------------------------------------------------------------------------
  // Writers: the files each shell produces for a list of commands, and the
  // round trips showing the parsers read them back exactly

  /** A command a continuation dialect can record: non-empty, and no line of it ends with the marker. */
  predicate ContinuableCommand(cmd: string, marker: char) {
    var parts := Split(cmd, '\n');
    cmd != "" && forall i :: 0 <= i < |parts| ==> !EndsWithChar(parts[i], marker)
  }

  /** The lines of one command with the marker appended to every line but the last. */
  function MarkContinuations(parts: seq<string>, marker: char): (r: seq<string>)
    ensures |r| == |parts|
    decreases |parts|
  {
    if |parts| <= 1 then parts else [parts[0] + [marker]] + MarkContinuations(parts[1..], marker)
  }

  /** The physical lines of one recorded command; `header` goes in front of the first. */
  function ContinuedEntry(cmd: string, marker: char, header: string): seq<string> {
    var lines := MarkContinuations(Split(cmd, '\n'), marker);
    [header + lines[0]] + lines[1..]
  }

  function ContinuedEntries(cmds: seq<string>, marker: char, header: string): seq<string>
    decreases |cmds|
  {
    if |cmds| == 0 then [] else ContinuedEntry(cmds[0], marker, header) + ContinuedEntries(cmds[1..], marker, header)
  }

  /** The history zsh writes: each command behind a `: <epoch>:<elapsed>;` header, `\` before inner line breaks. */
  function WriteZshHistory(cmds: seq<string>, epoch: nat, elapsed: nat): string {
    Join(ContinuedEntries(cmds, '\\', ZshHeader(epoch, elapsed)), '\n')
  }

  /** The history PowerShell writes: a backtick before each inner line break. */
  function WritePwshHistory(cmds: seq<string>): string {
    Join(ContinuedEntries(cmds, '`', ""), '\n')
  }

  /** While a command is pending, a line without the marker completes it. */
  lemma PendingStops(line: string, rest: seq<string>, marker: char, stripHeader: bool, p: string)
    requires marker != '\n' && !EndsWithChar(line, marker)
    ensures ContinuedCommands([line] + rest, marker, stripHeader, Some(p))
         == [p + "\n" + line] + ContinuedCommands(rest, marker, stripHeader, None)
  {
    var text := p + "\n" + line;
    assert text[|text| - 1] == (if |line| > 0 then line[|line| - 1] else '\n');
    assert ([line] + rest)[1..] == rest;
  }

  /** While a command is pending, a line with the marker extends it. */
  lemma PendingContinues(line: string, rest: seq<string>, marker: char, stripHeader: bool, p: string)
    ensures ContinuedCommands([line + [marker]] + rest, marker, stripHeader, Some(p))
         == ContinuedCommands(rest, marker, stripHeader, Some(p + "\n" + line))
  {
    var text := p + "\n" + (line + [marker]);
    assert text[..|text| - 1] == p + "\n" + line;
    assert ([line + [marker]] + rest)[1..] == rest;
  }

  /** Outside a command, a first line without the marker is a whole command. */
  lemma StartStops(line: string, rest: seq<string>, marker: char, stripHeader: bool, first: string)
    requires EntryStart(stripHeader, line) == first && first != "" && !EndsWithChar(first, marker)
    ensures ContinuedCommands([line] + rest, marker, stripHeader, None)
         == [first] + ContinuedCommands(rest, marker, stripHeader, None)
  {
    assert ([line] + rest)[1..] == rest;
  }

  /** Outside a command, a first line with the marker starts one. */
  lemma StartContinues(line: string, rest: seq<string>, marker: char, stripHeader: bool, first: string)
    requires EntryStart(stripHeader, line) == first + [marker]
    ensures ContinuedCommands([line] + rest, marker, stripHeader, None)
         == ContinuedCommands(rest, marker, stripHeader, Some(first))
  {
    assert (first + [marker])[..|first|] == first;
    assert ([line] + rest)[1..] == rest;
  }

  lemma {:induction false} ContinuedTail(parts: seq<string>, marker: char, stripHeader: bool, p: string, rest: seq<string>)
    requires marker != '\n'
    requires |parts| >= 1
    requires forall i :: 0 <= i < |parts| ==> !EndsWithChar(parts[i], marker)
    ensures ContinuedCommands(MarkContinuations(parts, marker) + rest, marker, stripHeader, Some(p))
         == [p + "\n" + Join(parts, '\n')] + ContinuedCommands(rest, marker, stripHeader, None)
    decreases |parts|
  {
    if |parts| == 1 {
      assert MarkContinuations(parts, marker) == [parts[0]];
      PendingStops(parts[0], rest, marker, stripHeader, p);
    } else {
      var tail := MarkContinuations(parts[1..], marker) + rest;
      var q := p + "\n" + parts[0];
      calc {
        ContinuedCommands(MarkContinuations(parts, marker) + rest, marker, stripHeader, Some(p));
        { assert MarkContinuations(parts, marker) + rest == [parts[0] + [marker]] + tail; }
        ContinuedCommands([parts[0] + [marker]] + tail, marker, stripHeader, Some(p));
        { PendingContinues(parts[0], tail, marker, stripHeader, p); }
        ContinuedCommands(tail, marker, stripHeader, Some(q));
        { ContinuedTail(parts[1..], marker, stripHeader, q, rest); }
        [q + "\n" + Join(parts[1..], '\n')] + ContinuedCommands(rest, marker, stripHeader, None);
        { assert q + "\n" + Join(parts[1..], '\n') == p + "\n" + Join(parts, '\n'); }
        [p + "\n" + Join(parts, '\n')] + ContinuedCommands(rest, marker, stripHeader, None);
      }
    }
  }

  lemma ContinuedEntryParses(cmd: string, marker: char, stripHeader: bool, epoch: nat, elapsed: nat, header: string, rest: seq<string>)
    requires marker != '\n'
    requires ContinuableCommand(cmd, marker)
    requires if stripHeader then header == ZshHeader(epoch, elapsed) else header == ""
    ensures ContinuedCommands(ContinuedEntry(cmd, marker, header) + rest, marker, stripHeader, None)
         == [cmd] + ContinuedCommands(rest, marker, stripHeader, None)
  {
    var parts := Split(cmd, '\n');
    JoinSplit(cmd, '\n');
    var marked := MarkContinuations(parts, marker);
    var first := if |parts| == 1 then parts[0] else parts[0] + [marker];
    assert marked[0] == first;
    assert ContinuedEntry(cmd, marker, header) + rest == [header + first] + (marked[1..] + rest);
    assert EntryStart(stripHeader, header + first) == first by {
      if stripHeader {
        StripZshHeaderOfHeader(epoch, elapsed, first);
      } else {
        assert header + first == first;
      }
    }
    if |parts| == 1 {
      assert marked[1..] == [];
      assert rest == [] + rest;
      StartStops(header + first, rest, marker, stripHeader, first);
    } else {
      assert marked[1..] == MarkContinuations(parts[1..], marker);
      StartContinues(header + first, marked[1..] + rest, marker, stripHeader, parts[0]);
      ContinuedTail(parts[1..], marker, stripHeader, parts[0], rest);
      assert Join(parts, '\n') == parts[0] + "\n" + Join(parts[1..], '\n');
    }
  }

  lemma {:induction false} ContinuedEntriesParse(cmds: seq<string>, marker: char, stripHeader: bool, epoch: nat, elapsed: nat, header: string)
    requires marker != '\n'
    requires forall i :: 0 <= i < |cmds| ==> ContinuableCommand(cmds[i], marker)
    requires if stripHeader then header == ZshHeader(epoch, elapsed) else header == ""
    ensures ContinuedCommands(ContinuedEntries(cmds, marker, header), marker, stripHeader, None) == cmds
    decreases |cmds|
  {
    if |cmds| > 0 {
      ContinuedEntriesParse(cmds[1..], marker, stripHeader, epoch, elapsed, header);
      ContinuedEntryParses(cmds[0], marker, stripHeader, epoch, elapsed, header, ContinuedEntries(cmds[1..], marker, header));
    }
  }

  lemma {:induction false} ContinuedEntriesSingleLines(cmds: seq<string>, marker: char, header: string)
    requires marker != '\n' && '\n' !in header
    ensures forall i :: 0 <= i < |ContinuedEntries(cmds, marker, header)| ==> '\n' !in ContinuedEntries(cmds, marker, header)[i]
    decreases |cmds|
  {
    if |cmds| > 0 {
      ContinuedEntriesSingleLines(cmds[1..], marker, header);
      var parts := Split(cmds[0], '\n');
      MarkedSingleLines(parts, marker);
    }
  }

  lemma {:induction false} MarkedSingleLines(parts: seq<string>, marker: char)
    requires marker != '\n'
    requires forall i :: 0 <= i < |parts| ==> '\n' !in parts[i]
    ensures forall i :: 0 <= i < |parts| ==> '\n' !in MarkContinuations(parts, marker)[i]
    decreases |parts|
  {
    if |parts| > 1 {
      MarkedSingleLines(parts[1..], marker);
    }
  }

  lemma ParsesEmptyHistory(shell: Shell)
    ensures ParseHistory(shell, "") == []
  {
    var lines := Split("", '\n');
    assert lines == [""];
    assert lines[1..] == [];
    match shell
    case Bash =>
      assert BashCommands(lines, None) == BashCommands([], None);
    case Zsh =>
      assert ZshHeaderLength("") == 0;
      assert ContinuedCommands(lines, '\\', true, None) == ContinuedCommands([], '\\', true, None);
    case Pwsh =>
      assert ContinuedCommands(lines, '`', false, None) == ContinuedCommands([], '`', false, None);
    case Fish =>
      assert !StartsWith("", FishCommandTag);
  }

  /** zsh reads back exactly the commands it wrote, multi-line ones included. */
  lemma ZshRoundTrip(cmds: seq<string>, epoch: nat, elapsed: nat)
    requires forall i :: 0 <= i < |cmds| ==> ContinuableCommand(cmds[i], '\\')
    ensures ParseHistory(Zsh, WriteZshHistory(cmds, epoch, elapsed)) == cmds
  {
    var lines := ContinuedEntries(cmds, '\\', ZshHeader(epoch, elapsed));
    if |cmds| == 0 {
      ParsesEmptyHistory(Zsh);
    } else {
      ContinuedEntriesSingleLines(cmds, '\\', ZshHeader(epoch, elapsed));
      SplitJoin(lines, '\n');
      ContinuedEntriesParse(cmds, '\\', true, epoch, elapsed, ZshHeader(epoch, elapsed));
    }
  }

  /** PowerShell reads back exactly the commands it wrote, multi-line ones included. */
  lemma PwshRoundTrip(cmds: seq<string>)
    requires forall i :: 0 <= i < |cmds| ==> ContinuableCommand(cmds[i], '`')
    ensures ParseHistory(Pwsh, WritePwshHistory(cmds)) == cmds
  {
    var lines := ContinuedEntries(cmds, '`', "");
    if |cmds| == 0 {
      ParsesEmptyHistory(Pwsh);
    } else {
      ContinuedEntriesSingleLines(cmds, '`', "");
      SplitJoin(lines, '\n');
      ContinuedEntriesParse(cmds, '`', false, 0, 0, "");
    }
  }

  /**
   Whether the lines of one command, read while a double quote is `open` or not,
   leave a quote open at every inner line break and closed after the last line.
   */
  predicate QuotedContinuation(parts: seq<string>, open: bool)
    decreases |parts|
  {
    && |parts| >= 1
    && var after := open != TogglesQuote(parts[0]);
       if |parts| == 1 then !after else after && QuotedContinuation(parts[1..], true)
  }

  /** A command bash can record so that the reader recovers it: its line breaks all fall inside quotes. */
  predicate BashRecordable(cmd: string) {
    cmd != "" && QuotedContinuation(Split(cmd, '\n'), false)
  }

  function BashLines(cmds: seq<string>): seq<string>
    decreases |cmds|
  {
    if |cmds| == 0 then [] else Split(cmds[0], '\n') + BashLines(cmds[1..])
  }

  /** The history bash writes: the commands one after another, each on its own lines. */
  function WriteBashHistory(cmds: seq<string>): string {
    Join(BashLines(cmds), '\n')
  }

  lemma {:induction false} BashTail(parts: seq<string>, p: string, rest: seq<string>)
    requires QuotedContinuation(parts, true)
    ensures BashCommands(parts + rest, Some(p)) == [p + "\n" + Join(parts, '\n')] + BashCommands(rest, None)
    decreases |parts|
  {
    var lines := parts + rest;
    assert lines[0] == parts[0];
    assert lines[1..] == parts[1..] + rest;
    if |parts| > 1 {
      BashTail(parts[1..], p + "\n" + parts[0], rest);
      assert (p + "\n" + parts[0]) + "\n" + Join(parts[1..], '\n') == p + "\n" + Join(parts, '\n');
    }
  }

  lemma BashEntryParses(cmd: string, rest: seq<string>)
    requires BashRecordable(cmd)
    ensures BashCommands(Split(cmd, '\n') + rest, None) == [cmd] + BashCommands(rest, None)
  {
    var parts := Split(cmd, '\n');
    JoinSplit(cmd, '\n');
    var lines := parts + rest;
    assert lines[0] == parts[0];
    assert lines[1..] == parts[1..] + rest;
    if |parts| > 1 {
      BashTail(parts[1..], parts[0], rest);
    }
  }

  lemma {:induction false} BashLinesParse(cmds: seq<string>)
    requires forall i :: 0 <= i < |cmds| ==> BashRecordable(cmds[i])
    ensures BashCommands(BashLines(cmds), None) == cmds
    ensures forall i :: 0 <= i < |BashLines(cmds)| ==> '\n' !in BashLines(cmds)[i]
    decreases |cmds|
  {
    if |cmds| > 0 {
      BashLinesParse(cmds[1..]);
      BashEntryParses(cmds[0], BashLines(cmds[1..]));
    }
  }

  /** bash reads back exactly the commands it wrote, when each multi-line command breaks only inside quotes. */
  lemma BashRoundTrip(cmds: seq<string>)
    requires forall i :: 0 <= i < |cmds| ==> BashRecordable(cmds[i])
    ensures ParseHistory(Bash, WriteBashHistory(cmds)) == cmds
  {
    if |cmds| == 0 {
      ParsesEmptyHistory(Bash);
    } else {
      BashLinesParse(cmds);
      SplitJoin(BashLines(cmds), '\n');
    }
  }

  /** fish's escaping of a command for its history file: each line break is written as `\n`. */
  function EscapeNewlines(c: string): string
    decreases |c|
  {
    if |c| == 0 then "" else (if c[0] == '\n' then "\\n" else [c[0]]) + EscapeNewlines(c[1..])
  }

  /** Fish's escaping leaves no line break in a record. */
  lemma {:induction false} EscapedHasNoBreak(c: string)
    ensures '\n' !in EscapeNewlines(c)
    decreases |c|
  {
    if |c| > 0 {
      EscapedHasNoBreak(c[1..]);
      assert '\n' !in (if c[0] == '\n' then "\\n" else [c[0]]);
    }
  }

  /**
   A command fish can record so that the reader recovers it: it does not start
   with whitespace that `trimStart` would drop (a leading line break is written
   as `\n` and survives), and every line break or `n` in it follows an even run
   of backslashes (so no escape is read where none was written).
   */
  predicate FishRecordable(c: string) {
    && c != ""
    && (c[0] == '\n' || !IsJsWhiteSpace(c[0]))
    && EvenRunsBeforeBreaks(c)
  }

  /** The lines of a fish history: each command is paired with its own `when:` stamp. */
  function FishEntries(cmds: seq<string>, whens: seq<nat>): seq<string>
    requires |whens| == |cmds|
    decreases |cmds|
  {
    if |cmds| == 0 then []
    else ["- cmd: " + EscapeNewlines(cmds[0]), "  when: " + NatToString(whens[0])] + FishEntries(cmds[1..], whens[1..])
  }

  /** The history fish writes: a `- cmd:` record and a `when:` line per command. */
  function WriteFishHistory(cmds: seq<string>, whens: seq<nat>): string
    requires |whens| == |cmds|
  {
    Join(FishEntries(cmds, whens), '\n')
  }

  lemma {:induction false} EscapeNewlinesAppend(a: string, b: string)
    ensures EscapeNewlines(a + b) == EscapeNewlines(a) + EscapeNewlines(b)
    decreases |a|
  {
    if |a| > 0 {
      assert (a + b)[1..] == a[1..] + b;
      EscapeNewlinesAppend(a[1..], b);
    } else {
      assert a + b == b;
    }
  }

  lemma {:induction false} EscapeNewlinesKeepsLine(a: string)
    requires '\n' !in a
    ensures EscapeNewlines(a) == a
    decreases |a|
  {
    if |a| > 0 {
      EscapeNewlinesKeepsLine(a[1..]);
    }
  }

  lemma {:induction false} LeadingBackslashesOf(run: string, rest: string)
    requires forall i :: 0 <= i < |run| ==> run[i] == '\\'
    requires |rest| == 0 || rest[0] != '\\'
    ensures LeadingBackslashes(run + rest) == |run|
    decreases |run|
  {
    if |run| > 0 {
      assert (run + rest)[1..] == run[1..] + rest;
      LeadingBackslashesOf(run[1..], rest);
    } else {
      assert run + rest == rest;
    }
  }

  /** The recordable condition survives dropping a prefix that ends before a non-backslash. */
  lemma FishRecordableSuffix(c: string, k: nat)
    requires 0 < k < |c|
    requires c[k] != '\\' || c[k - 1] != '\\'
    requires EvenRunsBeforeBreaks(c)
    ensures EvenRunsBeforeBreaks(c[k..])
  {
    forall i | 0 <= i < |c[k..]| && (c[k..][i] == 'n' || c[k..][i] == '\n')
      ensures BackslashesBefore(c[k..], i) % 2 == 0
    {
      if i > 0 {
        if c[k - 1] != '\\' {
          BackslashesBeforeShift(c, k, k + i);
        } else {
          BackslashesBeforeShift(c, k + 1, k + i);
          BackslashesBeforeShift(c[k..], 1, i);
          assert c[k..][1..] == c[k + 1..];
        }
      }
    }
  }

  predicate EvenRunsBeforeBreaks(c: string) {
    forall i :: 0 <= i < |c| && (c[i] == 'n' || c[i] == '\n') ==> BackslashesBefore(c, i) % 2 == 0
  }

  /** Sanitizing undoes fish's escaping for any command whose newlines and `n`s follow even backslash runs. */
  lemma {:induction false} SanitizeUndoesEscape(c: string)
    requires EvenRunsBeforeBreaks(c)
    ensures SanitizeFishHistoryCmd(EscapeNewlines(c)) == c
    decreases |c|
  {
    if |c| == 0 {
      return;
    }
    var k := LeadingBackslashes(c);
    if k < |c| && c[k] == '\n' {
      assert BackslashesBefore(c, k) % 2 == 0;
      BackslashesBeforeInRun(c, k);
      if k + 1 < |c| {
        FishRecordableSuffix(c, k + 1);
      }
      SanitizeUndoesEscape(c[k + 1..]);
      SanitizeUndoesEscapeAtNewline(c, k);
    } else if k == 0 {
      if |c| > 1 {
        FishRecordableSuffix(c, 1);
      }
      SanitizeUndoesEscape(c[1..]);
      SanitizeUndoesEscapeAtPlain(c);
    } else {
      if k < |c| && c[k] == 'n' {
        assert BackslashesBefore(c, k) % 2 == 0;
        BackslashesBeforeInRun(c, k);
      }
      if k < |c| {
        FishRecordableSuffix(c, k);
      }
      SanitizeUndoesEscape(c[k..]);
      SanitizeUndoesEscapeAtRun(c, k);
    }
  }

  lemma SanitizeAtEscape(s: string, n: nat)
    requires 0 < n < |s| && n == LeadingBackslashes(s) && s[n] == 'n' && n % 2 == 1
    ensures SanitizeFishHistoryCmd(s) == s[..n - 1] + "\n" + SanitizeFishHistoryCmd(s[n + 1..])
  {
  }

  lemma SanitizeAtRun(s: string, n: nat)
    requires 0 < n <= |s| && n == LeadingBackslashes(s) && !(n < |s| && s[n] == 'n' && n % 2 == 1)
    ensures SanitizeFishHistoryCmd(s) == s[..n] + SanitizeFishHistoryCmd(s[n..])
  {
  }

  /** How fish writes a command that starts with a backslash run and then a line break. */
  lemma EscapeAtNewlineShape(c: string, k: nat)
    requires k == LeadingBackslashes(c) && k < |c| && c[k] == '\n'
    ensures var s := EscapeNewlines(c);
      && |s| > k + 1
      && LeadingBackslashes(s) == k + 1
      && s[k + 1] == 'n'
      && s[..k] == c[..k]
      && s[k + 2..] == EscapeNewlines(c[k + 1..])
  {
    assert c == c[..k] + (['\n'] + c[k + 1..]);
    EscapeOfRunThenBreak(c[..k], c[k + 1..]);
    RunBeforeEscape(EscapeNewlines(c), c[..k], EscapeNewlines(c[k + 1..]));
  }

  /** Fish writes a line break after a backslash run as the run, a backslash and an `n`. */
  lemma EscapeOfRunThenBreak(run: string, rest: string)
    requires forall i :: 0 <= i < |run| ==> run[i] == '\\'
    ensures EscapeNewlines(run + (['\n'] + rest)) == (run + "\\") + ("n" + EscapeNewlines(rest))
  {
    var tail := EscapeNewlines(rest);
    EscapeNewlinesAppend(run, ['\n'] + rest);
    BackslashRunKept(run);
    EscapeOfBreak(['\n'] + rest);
    assert (['\n'] + rest)[1..] == rest;
    Reassociate(run, tail);
  }

  lemma BackslashRunKept(run: string)
    requires forall i :: 0 <= i < |run| ==> run[i] == '\\'
    ensures EscapeNewlines(run) == run
  {
    assert '\n' !in run;
    EscapeNewlinesKeepsLine(run);
  }

  lemma Reassociate(run: string, tail: string)
    ensures run + ("\\n" + tail) == (run + "\\") + ("n" + tail)
  {
    assert "\\n" == "\\" + "n";
  }

  /** A line break is written as a backslash and an `n`. */
  lemma EscapeOfBreak(x: string)
    requires |x| > 0 && x[0] == '\n'
    ensures EscapeNewlines(x) == "\\n" + EscapeNewlines(x[1..])
  {
  }

  /** The parts of a text made of a backslash run, one more backslash, an `n` and a rest. */
  lemma RunBeforeEscape(s: string, run: string, rest: string)
    requires forall i :: 0 <= i < |run| ==> run[i] == '\\'
    requires s == (run + "\\") + ("n" + rest)
    ensures |s| > |run| + 1 && LeadingBackslashes(s) == |run| + 1 && s[|run| + 1] == 'n'
    ensures s[..|run|] == run && s[|run| + 2..] == rest
  {
    LeadingBackslashesOf(run + "\\", "n" + rest);
  }

  lemma SanitizeUndoesEscapeAtNewline(c: string, k: nat)
    requires k == LeadingBackslashes(c) && k < |c| && c[k] == '\n' && k % 2 == 0
    requires SanitizeFishHistoryCmd(EscapeNewlines(c[k + 1..])) == c[k + 1..]
    ensures SanitizeFishHistoryCmd(EscapeNewlines(c)) == c
  {
    var s := EscapeNewlines(c);
    EscapeAtNewlineShape(c, k);
    SanitizeAtEscape(s, k + 1);
    assert s[..k] == c[..k];
    assert SanitizeFishHistoryCmd(s[k + 2..]) == c[k + 1..];
    ReassembleAtBreak(SanitizeFishHistoryCmd(s), s[..k], SanitizeFishHistoryCmd(s[k + 2..]), c, k);
  }

  lemma ReassembleAtBreak(whole: string, front: string, back: string, c: string, k: nat)
    requires k < |c| && c[k] == '\n'
    requires whole == front + "\n" + back && front == c[..k] && back == c[k + 1..]
    ensures whole == c
  {
    assert c == c[..k] + "\n" + c[k + 1..];
  }

  lemma SanitizeUndoesEscapeAtPlain(c: string)
    requires |c| > 0 && c[0] != '\\' && c[0] != '\n'
    requires SanitizeFishHistoryCmd(EscapeNewlines(c[1..])) == c[1..]
    ensures SanitizeFishHistoryCmd(EscapeNewlines(c)) == c
  {
    var s := EscapeNewlines(c);
    assert s == [c[0]] + EscapeNewlines(c[1..]);
    assert s[1..] == EscapeNewlines(c[1..]);
  }

  lemma SanitizeUndoesEscapeAtRun(c: string, k: nat)
    requires k == LeadingBackslashes(c) && k > 0 && !(k < |c| && c[k] == '\n')
    requires k < |c| && c[k] == 'n' ==> k % 2 == 0
    requires SanitizeFishHistoryCmd(EscapeNewlines(c[k..])) == c[k..]
    ensures SanitizeFishHistoryCmd(EscapeNewlines(c)) == c
  {
    assert c == c[..k] + c[k..];
    SanitizeUndoesEscapeOfRun(c[..k], c[k..]);
  }

  /** A backslash run in front of text fish escapes correctly survives the round trip. */
  lemma SanitizeUndoesEscapeOfRun(run: string, tail: string)
    requires |run| > 0 && forall i :: 0 <= i < |run| ==> run[i] == '\\'
    requires |tail| == 0 || (tail[0] != '\\' && tail[0] != '\n')
    requires |tail| > 0 && tail[0] == 'n' ==> |run| % 2 == 0
    requires SanitizeFishHistoryCmd(EscapeNewlines(tail)) == tail
    ensures SanitizeFishHistoryCmd(EscapeNewlines(run + tail)) == run + tail
  {
    var escaped := EscapeNewlines(tail);
    EscapeNewlinesAppend(run, tail);
    BackslashRunKept(run);
    if |tail| > 0 {
      EscapeOfPlain(tail);
    }
    SanitizeAfterRun(run, escaped);
  }

  /** A character other than a line break is written as it is. */
  lemma EscapeOfPlain(x: string)
    requires |x| > 0 && x[0] != '\n'
    ensures |EscapeNewlines(x)| > 0 && EscapeNewlines(x)[0] == x[0]
  {
  }

  /** A backslash run that does not escape what follows it is kept as written. */
  lemma SanitizeAfterRun(run: string, e: string)
    requires |run| > 0 && forall i :: 0 <= i < |run| ==> run[i] == '\\'
    requires |e| == 0 || e[0] != '\\'
    requires |e| > 0 && e[0] == 'n' ==> |run| % 2 == 0
    ensures SanitizeFishHistoryCmd(run + e) == run + SanitizeFishHistoryCmd(e)
  {
    var s := run + e;
    LeadingBackslashesOf(run, e);
    assert s[..|run|] == run;
    assert s[|run|..] == e;
    SanitizeAtRun(s, |run|);
  }

  /** The `- cmd:` record fish writes for a command yields that command. */
  lemma FishRecordReads(c: string)
    requires FishRecordable(c)
    ensures StartsWith("- cmd: " + EscapeNewlines(c), FishCommandTag)
    ensures SanitizeFishHistoryCmd(TrimStart(("- cmd: " + EscapeNewlines(c))[|FishCommandTag|..])) == c
  {
    var escaped := EscapeNewlines(c);
    assert "- cmd: " + escaped == FishCommandTag + (" " + escaped);
    assert !IsJsWhiteSpace(escaped[0]) by {
      assert escaped == (if c[0] == '\n' then "\\n" else [c[0]]) + EscapeNewlines(c[1..]);
    }
    TrimStartOfSpace(escaped);
    SanitizeUndoesEscape(c);
  }

  /** One space in front of text that does not start with whitespace is all `trimStart` drops. */
  lemma TrimStartOfSpace(x: string)
    requires |x| > 0 && !IsJsWhiteSpace(x[0])
    ensures TrimStart(" " + x) == x
  {
    assert (" " + x)[1..] == x;
  }

  /** No line fish writes holds a line break, so the split into lines keeps the records whole. */
  lemma {:induction false} FishEntriesHaveNoBreaks(cmds: seq<string>, whens: seq<nat>)
    requires |whens| == |cmds|
    ensures forall i :: 0 <= i < |FishEntries(cmds, whens)| ==> '\n' !in FishEntries(cmds, whens)[i]
    decreases |cmds|
  {
    if |cmds| > 0 {
      FishEntriesHaveNoBreaks(cmds[1..], whens[1..]);
      var lines := FishEntries(cmds, whens);
      assert lines == ["- cmd: " + EscapeNewlines(cmds[0]), "  when: " + NatToString(whens[0])] + FishEntries(cmds[1..], whens[1..]);
      EscapedHasNoBreak(cmds[0]);
      assert '\n' !in "  when: " + NatToString(whens[0]);
    }
  }

  /** A `- cmd:` record followed by a line without the tag contributes its one command. */
  lemma FishCommandsOfRecord(record: string, stamp: string, rest: seq<string>, c: string)
    requires StartsWith(record, FishCommandTag) && |stamp| > 0 && stamp[0] != '-'
    requires c != "" && SanitizeFishHistoryCmd(TrimStart(record[|FishCommandTag|..])) == c
    ensures FishCommands([record, stamp] + rest) == [c] + FishCommands(rest)
  {
    var lines := [record, stamp] + rest;
    assert !StartsWith(stamp, FishCommandTag) by {
      assert FishCommandTag[0] == '-';
    }
    assert lines[1..] == [stamp] + rest;
    assert lines[1..][1..] == rest;
  }

  lemma {:induction false} FishEntriesParse(cmds: seq<string>, whens: seq<nat>)
    requires |whens| == |cmds|
    requires forall i :: 0 <= i < |cmds| ==> FishRecordable(cmds[i])
    ensures FishCommands(FishEntries(cmds, whens)) == cmds
    decreases |cmds|
  {
    if |cmds| > 0 {
      RecordableTail(cmds);
      FishEntriesParse(cmds[1..], whens[1..]);
      FishEntriesStep(cmds, whens);
      ConsOfTail(cmds);
    }
  }

  lemma RecordableTail(cmds: seq<string>)
    requires |cmds| > 0 && forall i :: 0 <= i < |cmds| ==> FishRecordable(cmds[i])
    ensures forall i :: 0 <= i < |cmds[1..]| ==> FishRecordable(cmds[1..][i])
  {
    forall i | 0 <= i < |cmds[1..]|
      ensures FishRecordable(cmds[1..][i])
    {
      assert cmds[1..][i] == cmds[i + 1];
    }
  }

  lemma ConsOfTail<X>(s: seq<X>)
    requires |s| > 0
    ensures [s[0]] + s[1..] == s
  {
  }

  /** The first record and its stamp give back the first command. */
  lemma FishEntriesStep(cmds: seq<string>, whens: seq<nat>)
    requires |whens| == |cmds| > 0 && FishRecordable(cmds[0])
    ensures FishCommands(FishEntries(cmds, whens)) == [cmds[0]] + FishCommands(FishEntries(cmds[1..], whens[1..]))
  {
    var record := "- cmd: " + EscapeNewlines(cmds[0]);
    var stamp := "  when: " + NatToString(whens[0]);
    assert stamp[0] == ' ';
    FishRecordReads(cmds[0]);
    FishCommandsOfRecord(record, stamp, FishEntries(cmds[1..], whens[1..]), cmds[0]);
  }

  /** fish reads back exactly the commands it wrote, multi-line ones included. */
  lemma FishRoundTrip(cmds: seq<string>, whens: seq<nat>)
    requires |whens| == |cmds|
    requires forall i :: 0 <= i < |cmds| ==> FishRecordable(cmds[i])
    ensures ParseHistory(Fish, WriteFishHistory(cmds, whens)) == cmds
  {
    if |cmds| == 0 {
      ParsesEmptyHistory(Fish);
    } else {
      FishEntriesParse(cmds, whens);
      FishEntriesHaveNoBreaks(cmds, whens);
      SplitJoin(FishEntries(cmds, whens), '\n');
    }
  }

  // ---------------------------------------------------------------------------
  // Dispatch, platform gate and history file location

  /** The commands recorded in the text of a history file of the given dialect. */
  function ParseHistory(shell: Shell, content: string): (r: seq<string>)
    ensures forall i :: 0 <= i < |r| ==> r[i] != ""
  {
    var lines := Split(content, '\n');
    match shell
    case Bash => BashCommands(lines, None)
    case Zsh => ContinuedCommands(lines, '\\', true, None)
    case Pwsh => ContinuedCommands(lines, '`', false, None)
    case Fish => FishCommands(lines)
  }

  /** Only PowerShell keeps a history the terminal reads on Windows. */
  predicate SupportedOn(shell: Shell, os: OperatingSystem) {
    shell == Pwsh || os != Windows
  }

  /** Environment variables; an unset or empty variable counts as missing. */
  type Environment = map<string, string>

  function EnvVar(env: Environment, name: string): Option<string> {
    if name in env && env[name] != "" then Some(env[name]) else None
  }

  /** A file below a folder taken from the environment; `relative` starts with the separator. */
  function UnderFolder(folder: Option<string>, relative: string): (r: Option<string>)
    ensures r.Some? <==> folder.Some?
    ensures r.Some? ==> StartsWith(r.value, folder.value) && EndsWith(r.value, relative)
  {
    if folder.Some? then
      var path := folder.value + relative;
      assert path[..|folder.value|] == folder.value && path[|path| - |relative|..] == relative;
      Some(path)
    else None
  }

  const BashHistoryFile: string := "/.bash_history"
  const ZshHistoryFile: string := "/.zsh_history"
  const FishHistoryFile: string := "/.local/share/fish/fish_history"
  const FishDataHomeHistoryFile: string := "/fish/fish_history"
  const PwshHistoryFile: string := "/.local/share/powershell/PSReadline/ConsoleHost_history.txt"
  const PwshWindowsHistoryFile: string := "\\Microsoft\\Windows\\PowerShell\\PSReadLine\\ConsoleHost_history.txt"

  /** Where each dialect keeps its history file; `None` when the folder's variable is missing. */
  function HistoryPath(shell: Shell, os: OperatingSystem, env: Environment): (r: Option<string>)
    ensures (shell == Bash || shell == Zsh || (shell == Pwsh && os != Windows)) ==>
      (r.Some? <==> EnvVar(env, "HOME").Some?) && (r.Some? ==> StartsWith(r.value, env["HOME"]))
    ensures shell == Fish ==> (r.Some? <==> EnvVar(env, "XDG_DATA_HOME").Some? || EnvVar(env, "HOME").Some?)
    ensures shell == Fish && EnvVar(env, "XDG_DATA_HOME").Some? ==>
      r.Some? && StartsWith(r.value, env["XDG_DATA_HOME"]) && EndsWith(r.value, FishDataHomeHistoryFile)
    ensures shell == Pwsh && os == Windows ==>
      (r.Some? <==> EnvVar(env, "APPDATA").Some?) && (r.Some? ==> StartsWith(r.value, env["APPDATA"]))
  {
    match shell
    case Bash => UnderFolder(EnvVar(env, "HOME"), BashHistoryFile)
    case Zsh => UnderFolder(EnvVar(env, "HOME"), ZshHistoryFile)
    case Fish =>
      if EnvVar(env, "XDG_DATA_HOME").Some? then UnderFolder(EnvVar(env, "XDG_DATA_HOME"), FishDataHomeHistoryFile)
      else UnderFolder(EnvVar(env, "HOME"), FishHistoryFile)
    case Pwsh =>
      if os == Windows then UnderFolder(EnvVar(env, "APPDATA"), PwshWindowsHistoryFile)
      else UnderFolder(EnvVar(env, "HOME"), PwshHistoryFile)
  }

  /**
   `fetchBashHistory`, `fetchZshHistory`, `fetchFishHistory`, `fetchPwshHistory`:
   `readFile` stands for the file service and answers `None` when the read fails.
   */
  function FetchHistory(shell: Shell, os: OperatingSystem, env: Environment, readFile: string -> Option<string>): (r: Option<seq<string>>)
    ensures !SupportedOn(shell, os) ==> r == None
    ensures r.Some? <==>
      SupportedOn(shell, os) && HistoryPath(shell, os, env).Some? && readFile(HistoryPath(shell, os, env).value).Some?
    ensures r.Some? ==> r.value == ParseHistory(shell, readFile(HistoryPath(shell, os, env).value).value)
  {
    if !SupportedOn(shell, os) then None
    else
      var path := HistoryPath(shell, os, env);
      if path.None? then None
      else
        var content := readFile(path.value);
        if content.None? then None else Some(ParseHistory(shell, content.value))
  }

  /** The history files the fetch tests expect for a home of `/home/user`. */
  lemma HistoryPathsOfTests()
    ensures HistoryPath(Bash, Linux, map["HOME" := "/home/user"]) == Some("/home/user" + BashHistoryFile)
    ensures HistoryPath(Zsh, Macintosh, map["HOME" := "/home/user"]) == Some("/home/user" + ZshHistoryFile)
    ensures HistoryPath(Fish, Linux, map["HOME" := "/home/user"]) == Some("/home/user" + FishHistoryFile)
    ensures HistoryPath(Fish, Linux, map["XDG_DATA_HOME" := "/home/user/data-home"]) ==
      Some("/home/user/data-home" + FishDataHomeHistoryFile)
    ensures HistoryPath(Pwsh, Linux, map["HOME" := "/home/user"]) == Some("/home/user" + PwshHistoryFile)
    ensures HistoryPath(Pwsh, Windows, map["APPDATA" := "C:\\AppData"]) == Some("C:\\AppData" + PwshWindowsHistoryFile)
    ensures HistoryPath(Bash, Linux, map[]) == None
  {
    assert EnvVar(map["HOME" := "/home/user"], "HOME") == Some("/home/user");
    assert EnvVar(map["HOME" := "/home/user"], "XDG_DATA_HOME") == None;
    assert EnvVar(map["XDG_DATA_HOME" := "/home/user/data-home"], "XDG_DATA_HOME") == Some("/home/user/data-home");
    assert EnvVar(map["APPDATA" := "C:\\AppData"], "APPDATA") == Some("C:\\AppData");
  }
}
