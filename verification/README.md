# Editor workbench helpers, modelled in Dafny

This project models six pieces of the editor's workbench. Each is a set of pure
functions over strings and sequences, with lemmas about how they behave.

- **Terminal command history** (`history_cache.dfy`, `history_parsers.dfy`).
  - `PersistedHistory` models the persisted history cache. It is an
    insertion-ordered key/value list, oldest entry first, with a limit that
    configuration can change. It is reloaded from storage by a new instance.
  - `ShellHistory` models the readers of the four shells' history files.
    - zsh: a `: <epoch>:<elapsed>;` header, and a trailing `\` that continues
      the command on the next line.
    - PowerShell: a trailing backtick that continues the command.
    - bash: a double quote left open joins the following lines.
    - fish: `- cmd:` records whose `\n` escapes follow the backslash-parity
      rule of `sanitizeFishHistoryCmd`.
  - It also models the platform gate (only PowerShell is read on Windows) and
    the location of each history file.
  - For every dialect there is a writer that produces the file the shell would
    write. A round-trip lemma shows that the reader recovers exactly the
    commands written. The fixture files of the history tests have the shape
    these writers produce for the tests' expected commands.
- **Save participants** (`save_participants.dfy`). These are the three text
  transforms applied when a file is saved:
  - insert a final newline;
  - trim repeated final newlines down to one;
  - trim trailing whitespace on every line.
- **`normalizeGitHubUrl`** (`issue_reporter_util.dfy`). It strips `.git`
  once, then every trailing `/`, every trailing `/new` and every trailing
  `/issues`. The `rtrim` it relies on lives in `strings.dfy`.
- **Web issue reporter** (`issue_service.dfy`). `openReporter` routes a
  report in one of three ways:
  - to the product's issue URL;
  - to a URL from a registered handler;
  - to the GitHub issues page derived from the extension's metadata.

  It also covers handler registration and the issue body template.
- **Minimap prebaked data** (`minimap_prebaked.dfy`). `decodeData` reads upper-case
  hexadecimal into bytes through `charTable`. It is written as a loop and as a
  function, and the commented-out `encodeData` is its inverse.
- **Workspace identifiers** (`workspaces.dfy`). These are the strings hashed
  for a workspace or folder id. Case folding applies off Linux. The creation
  stamp used as salt differs per platform. A local folder without a stat
  gets no id.

External effects are parameters of the functions that need them:
- reading a file: `readFile`;
- environment variables: an `Environment` map;
- `encodeURIComponent`: `encode`;
- the MD5 digest: `md5`;
- the user agent string: `userAgent`;
- a handler's asynchronous answer: `HandlerReply`.

The history and save-participant implementations are not part of this
model. For those two, the model states the behaviour that
`history.test.ts` and `saveParticipant.test.ts` assert.

## Model

| member | source | states |
|---|---|---|
| PersistedHistory.Add | src/vs/workbench/contrib/terminal/test/common/history.test.ts:66-92 | adding keeps the limit, makes the pair the newest entry, keeps only earlier entries with other keys, and preserves distinct keys |
| PersistedHistory.AddNewKeyAppends | src/vs/workbench/contrib/terminal/test/common/history.test.ts:66-76 | below the limit, a key not yet present is appended after all existing entries |
| PersistedHistory.ReAddMovesToEnd | src/vs/workbench/contrib/terminal/test/common/history.test.ts:66-81 | re-adding a present key moves it to the newest position without a duplicate; the count is unchanged |
| PersistedHistory.LruScenario | src/vs/workbench/contrib/terminal/test/common/history.test.ts:66-81 | adding foo, bar, foo leaves [bar, foo] |
| PersistedHistory.WithoutKeyRemovesAt | src/vs/workbench/contrib/terminal/test/common/history.test.ts:66-81 | with distinct keys, re-adding a key first removes exactly its one entry and keeps every other entry in its order |
| PersistedHistory.WithoutKey | src/vs/workbench/contrib/terminal/test/common/history.test.ts:66-81 | the entries without the key's entry: no result entry has the key, every other entry is kept, nothing is added, and with distinct keys exactly one entry goes when the key is present |
| PersistedHistory.TrimOldest | src/vs/workbench/contrib/terminal/test/common/history.test.ts:94-115 | the newest min(count, n) entries: the result is the suffix of that length |
| PersistedHistory.AddAll | src/vs/workbench/contrib/terminal/test/common/history.test.ts:117-124 | adding pairs in order keeps the limit; AddAllAppends states its content and AddAllValid its validity |
| PersistedHistory.AddNewKeyEvicts | src/vs/workbench/contrib/terminal/test/common/history.test.ts:83-92 | at the limit, a new key evicts exactly the oldest entry |
| PersistedHistory.SetLimit | src/vs/workbench/contrib/terminal/test/common/history.test.ts:94-115 | a new limit keeps the newest min(count, limit) entries at once; a larger limit changes no entry |
| PersistedHistory.LimitScenario | src/vs/workbench/contrib/terminal/test/common/history.test.ts:94-115 | entry counts through the limit changes 5 to 2 to 3: 5, 5, 2, 2, 2, 3, and finally the entries 7, 8, 9 |
| PersistedHistory.Load | src/vs/workbench/contrib/terminal/test/common/history.test.ts:117-124 | a new instance takes the configured limit; nothing stored gives an empty cache |
| PersistedHistory.LoadValid | src/vs/workbench/contrib/terminal/test/common/history.test.ts:117-124 | whatever was stored, a loaded cache has distinct keys and respects its limit |
| PersistedHistory.ReloadRestores | src/vs/workbench/contrib/terminal/test/common/history.test.ts:117-124 | a second instance over the same storage reloads exactly the entries the first persisted |
| ShellHistory.StripZshHeader | src/vs/workbench/contrib/terminal/test/common/history.test.ts:221-229 | the stripped line is a suffix of the line, and a line without a header is kept whole |
| ShellHistory.StripZshHeaderOfHeader | src/vs/workbench/contrib/terminal/test/common/history.test.ts:221-229 | the `: <epoch>:<elapsed>;` header is exactly what is stripped from an entry's first line |
| ShellHistory.ContinuedCommands | src/vs/workbench/contrib/terminal/test/common/history.test.ts:221-229 | the continuation reader never reports an empty command |
| ShellHistory.ZshRoundTrip | src/vs/workbench/contrib/terminal/test/common/history.test.ts:221-231 | zsh reads back the commands zsh wrote: headers stripped once per entry, trailing `\` dropped, lines joined with real newlines |
| ShellHistory.PwshRoundTrip | src/vs/workbench/contrib/terminal/test/common/history.test.ts:313-323 | PowerShell reads back the commands it wrote, with trailing backticks as continuations |
| ShellHistory.BashCommands | src/vs/workbench/contrib/terminal/test/common/history.test.ts:129-139 | the bash reader never reports an empty command |
| ShellHistory.BashRoundTrip | src/vs/workbench/contrib/terminal/test/common/history.test.ts:129-139 | bash reads back every command whose line breaks fall inside double quotes, empty inner lines included; other lines are one command each |
| ShellHistory.SanitizeFishHistoryCmd | src/vs/workbench/contrib/terminal/test/common/history.test.ts:565-613 | unescaping never lengthens the text |
| ShellHistory.SanitizeNewlineParity | src/vs/workbench/contrib/terminal/test/common/history.test.ts:565-613 | a record gains a real newline exactly when some `n` follows an odd run of backslashes, whatever `\r` surrounds it |
| ShellHistory.EscapedHasNoBreak | src/vs/workbench/contrib/terminal/test/common/history.test.ts:424-431 | fish's escaping leaves no line break in a record |
| ShellHistory.SanitizeUndoesEscape | src/vs/workbench/contrib/terminal/test/common/history.test.ts:565-591 | sanitizing fish's escaping of a recordable command gives the command back |
| ShellHistory.TrimStart | src/vs/workbench/contrib/terminal/test/common/history.test.ts:424-431 | fish's `trimStart` leaves a suffix of the text that does not start with a JavaScript whitespace or line-terminator character, and everything it drops is such a character |
| ShellHistory.FishCommands | src/vs/workbench/contrib/terminal/test/common/history.test.ts:424-431 | at most one command per line, none of them empty |
| ShellHistory.FishRoundTrip | src/vs/workbench/contrib/terminal/test/common/history.test.ts:424-431 | fish reads back the commands it wrote, each with its own `when:` stamp, multi-line ones included |
| ShellHistory.ParseHistory | src/vs/workbench/contrib/terminal/test/common/history.test.ts:126-431 | whichever dialect, no command read from a history file is empty |
| ShellHistory.FetchHistory | src/vs/workbench/contrib/terminal/test/common/history.test.ts:204-215 | bash, zsh and fish give nothing on Windows; otherwise a result exists exactly when the path resolves and the read succeeds, and it is the parse of the file |
| ShellHistory.HistoryPath | src/vs/workbench/contrib/terminal/test/common/history.test.ts:164-503 | bash, zsh and PowerShell off Windows: a path exactly when `HOME` is set, under `HOME`; fish: a path exactly when `XDG_DATA_HOME` or `HOME` is set, under `XDG_DATA_HOME` ending in `/fish/fish_history` when that is set; PowerShell on Windows: a path exactly when `APPDATA` is set, under `APPDATA` |
| ShellHistory.UnderFolder | src/vs/workbench/contrib/terminal/test/common/history.test.ts:164-503 | a file path exists exactly when its folder variable does, and starts with the folder and ends with the relative file name |
| ShellHistory.HistoryPathsOfTests | src/vs/workbench/contrib/terminal/test/common/history.test.ts:401-416 | the history file of each shell under `HOME`, `XDG_DATA_HOME` or `APPDATA`; none without the variable |
| SaveParticipants.InsertFinalNewline | src/vs/workbench/contrib/codeEditor/test/browser/saveParticipant.test.ts:44-66 | the text is kept as a prefix; the result is empty or ends in the EOL; one EOL is added to non-empty text lacking it, and nothing otherwise |
| SaveParticipants.InsertFinalNewlineScenario | src/vs/workbench/contrib/codeEditor/test/browser/saveParticipant.test.ts:44-66 | empty text and text ending in EOL unchanged; single- and multi-line text gain one EOL |
| SaveParticipants.TrimFinalNewlines | src/vs/workbench/contrib/codeEditor/test/browser/saveParticipant.test.ts:79-101 | the result is a prefix, never ends in two EOLs, ends in an EOL exactly when the text did, and is the text itself when it has at most one final EOL |
| SaveParticipants.CollapsesTrailingEols | src/vs/workbench/contrib/codeEditor/test/browser/saveParticipant.test.ts:91-101 | any run of k >= 1 final EOLs collapses to one and the content before it is untouched |
| SaveParticipants.TrimFinalNewlinesKeepsScenario | src/vs/workbench/contrib/codeEditor/test/browser/saveParticipant.test.ts:79-89 | zero or one final EOL is kept |
| SaveParticipants.TrimFinalNewlinesTwoScenario | src/vs/workbench/contrib/codeEditor/test/browser/saveParticipant.test.ts:91-95 | two final EOLs become one |
| SaveParticipants.TrimFinalNewlinesThreeScenario | src/vs/workbench/contrib/codeEditor/test/browser/saveParticipant.test.ts:97-101 | three final EOLs after two lines become one |
| SaveParticipants.TrimFinalNewlinesIdempotent | src/vs/workbench/contrib/codeEditor/test/browser/saveParticipant.test.ts:143-149 | trimming twice equals trimming once |
| SaveParticipants.RepeatedSavesTrimOnce | src/vs/workbench/contrib/codeEditor/test/browser/saveParticipant.test.ts:143-149 | any positive number of saves has the effect of one |
| SaveParticipants.TenSavesScenario | src/vs/workbench/contrib/codeEditor/test/browser/saveParticipant.test.ts:143-149 | ten saves of `Test` and two EOLs leave `Test` and one EOL |
| SaveParticipants.InsertThenTrimEndsInOneEol | src/vs/workbench/contrib/codeEditor/test/browser/saveParticipant.test.ts:56-101 | with both settings on, non-empty text is saved ending in exactly one EOL |
| SaveParticipants.TrimTrailingWhitespace | src/vs/workbench/contrib/codeEditor/test/browser/saveParticipant.test.ts:165-175 | the transform never lengthens the text; its content is pinned by the lemmas below, line by line |
| SaveParticipants.TrimLeavesNoTrailingWhitespace | src/vs/workbench/contrib/codeEditor/test/browser/saveParticipant.test.ts:165-175 | after trimming no line ends in a space or a tab |
| SaveParticipants.TrimWithoutTrailingWhitespace | src/vs/workbench/contrib/codeEditor/test/browser/saveParticipant.test.ts:165-175 | text with no trailing whitespace is saved unchanged |
| SaveParticipants.TrimTrailingWhitespaceIdempotent | src/vs/workbench/contrib/codeEditor/test/browser/saveParticipant.test.ts:165-175 | trimming twice equals trimming once |
| SaveParticipants.TrimKeepsNonBlanks | src/vs/workbench/contrib/codeEditor/test/browser/saveParticipant.test.ts:165-175 | only spaces and tabs are removed: every other character survives in order |
| SaveParticipants.TrimAfterCleanPrefix | src/vs/workbench/contrib/codeEditor/test/browser/saveParticipant.test.ts:165-175 | a leading part without trailing whitespace comes through unchanged, whatever follows it |
| SaveParticipants.TrimSplitsAtLineBreak | src/vs/workbench/contrib/codeEditor/test/browser/saveParticipant.test.ts:165-175 | lines are trimmed independently: the trim of a text around a line break is the trim before it, the break, and the trim after it, so the next line's indentation survives |
| SaveParticipants.TrimOfLine | src/vs/workbench/contrib/codeEditor/test/browser/saveParticipant.test.ts:165-175 | on a single line, exactly the final run of spaces and tabs is removed and everything before it is kept |
| SaveParticipants.IndentAfterTrimmedLineSurvives | src/vs/workbench/contrib/codeEditor/test/browser/saveParticipant.test.ts:165-175 | `a`, a space, a line break and an indented `c` save as `a`, the break and the indented `c` |
| SaveParticipants.InnerBlankSurvives | src/vs/workbench/contrib/codeEditor/test/browser/saveParticipant.test.ts:165-175 | two words with a space between them and a space after them keep the inner space and lose the last |
| SaveParticipants.TrimWhitespaceScenario | src/vs/workbench/contrib/codeEditor/test/browser/saveParticipant.test.ts:165-175 | `Test` followed by a space and a tab is saved as `Test` |
| Strings.RTrim | src/vs/platform/issue/common/issueReporterUtil.ts:15 | the result is a prefix that no longer ends in the needle; an empty needle or a text not ending in it is unchanged |
| Strings.RTrimRemovesRepetitions | src/vs/platform/issue/common/issueReporterUtil.ts:15 | what `rtrim` removes is a whole number of needles, at least one when the text ended in the needle |
| IssueReporterUtil.StripGitSuffix | src/vs/platform/issue/common/issueReporterUtil.ts:10-12 | exactly one `.git` is cut from the end when present |
| IssueReporterUtil.TrimIfEndsWith | src/vs/platform/issue/common/issueReporterUtil.ts:17-23 | the result is a prefix not ending in the suffix; unchanged when the suffix is absent |
| IssueReporterUtil.NormalizeGitHubUrl | src/vs/platform/issue/common/issueReporterUtil.ts:8-26 | the result is always a prefix of the input and never ends in `/issues` |
| IssueReporterUtil.NormalizeLeavesNormalized | src/vs/platform/issue/common/issueReporterUtil.ts:8-26 | an input ending in none of `.git`, `/`, `/new`, `/issues` is returned unchanged |
| IssueReporterUtil.StripsAllTrailingSlashes | src/vs/platform/issue/common/issueReporterUtil.ts:14-15 | every trailing slash is removed, not only one |
| IssueReporterUtil.StripsIssuesNew | src/vs/platform/issue/common/issueReporterUtil.ts:17-23 | `<base>/issues/new` normalises to `<base>` because `/new` goes before `/issues` |
| IssueReporterUtil.StripsGitOnce | src/vs/platform/issue/common/issueReporterUtil.ts:10-12 | a doubled `.git` keeps its inner `.git` |
| IssueReporterUtil.RepositoryNamedNew | src/vs/platform/issue/common/issueReporterUtil.ts:17-19 | the steps look at text only: `<owner>/new` loses the repository name `new` |
| IssueService.ErrorMessage | src/vs/workbench/services/issue/browser/issueService.ts:43-61 | the missing-product-URL error reads exactly `No issue reporting URL configured for <product name>.` and the extension error exactly `Unable to find issue reporting url for <extension id>`; an opened URI carries no message |
| IssueService.Register | src/vs/workbench/services/issue/browser/issueService.ts:68-69 | registering sets the id's handler and leaves other ids alone |
| IssueService.Dispose | src/vs/workbench/services/issue/browser/issueService.ts:70 | disposing deletes the id's entry and nothing else |
| IssueService.DisposeUndoesRegister | src/vs/workbench/services/issue/browser/issueService.ts:68-71 | register then dispose restores the registry when the id was free |
| IssueService.DisposeOfEarlierRemovesLater | src/vs/workbench/services/issue/browser/issueService.ts:68-71 | an earlier registration's disposable also removes a later handler for the same id |
| IssueService.FindExtension | src/vs/workbench/services/issue/browser/issueService.ts:58 | the selected extension is the first installed one with that id (no earlier one has it); there is none exactly when no installed extension has it |
| IssueService.ExtensionGitHubUrl | src/vs/workbench/services/issue/browser/issueService.ts:82-100 | builtin with a product URL gives that URL normalised; otherwise a non-empty result is a normalised GitHub bugs or repository URL; no extension gives empty |
| IssueService.BugsUrlPreferred | src/vs/workbench/services/issue/browser/issueService.ts:92-94 | a GitHub bugs URL wins over the repository URL |
| IssueService.RepositoryUrlFallback | src/vs/workbench/services/issue/browser/issueService.ts:95-97 | the repository URL is used only when the bugs URL is missing or not on GitHub |
| IssueService.ExtensionGitHubUrlAsWritten | src/vs/workbench/services/issue/browser/issueService.ts:82-84 | as written, a missing extension throws; otherwise it agrees with the corrected function |
| IssueService.IssueDescription | src/vs/workbench/services/issue/browser/issueService.ts:102-110 | the body starts with the product facts (`unknown` for absent ones) and ends with the generator marker; between them is exactly the line `Extension version: ` and the version when the extension has a non-empty version, and nothing otherwise |
| IssueService.VersionLineOnlyWhenVersioned | src/vs/workbench/services/issue/browser/issueService.ts:109 | without a non-empty version the body is the head and the marker alone; with one it is the head, a line break, `Extension version: ` and the version, then the marker |
| IssueService.IssueUriFromStaticContent | src/vs/workbench/services/issue/browser/issueService.ts:112 | the URI starts with the base and `?body=`, ends with `&labels=web`, and what lies between is exactly `encode` of the body |
| IssueService.ExtensionOutcome | src/vs/workbench/services/issue/browser/issueService.ts:57-65 | the GitHub path raises "Unable to find issue reporting url" for the id exactly when the extension's GitHub URL is empty; otherwise it opens the static-content URI built from that URL with `/issues/new` and the description of the selected extension |
| IssueService.OpenReporter | src/vs/workbench/services/issue/browser/issueService.ts:34-66 | a core issue opens the product URL and raises the missing-URL error exactly when that URL is unset; an extension whose handler gives a URI opens that URI; any other extension raises the error naming its id exactly when its GitHub URL is empty and otherwise opens the static-content URI built from `<GitHub URL>/issues/new`; nothing throws a TypeError |
| IssueService.HandlerTakesPriority | src/vs/workbench/services/issue/browser/issueService.ts:46-51 | a handler that provides a URI is used whatever the metadata says |
| IssueService.FailingHandlerFallsThrough | src/vs/workbench/services/issue/browser/issueService.ts:47-57 | a failing handler gives the same outcome as no handler |
| IssueService.BuiltinUsesProductUrl | src/vs/workbench/services/issue/browser/issueService.ts:83-85 | a builtin extension reports to the normalised product URL plus `/issues/new` |
| IssueService.OpenReporterAsWritten | src/vs/workbench/services/issue/browser/issueService.ts:58-83 | as written, the reporter throws on reading `isBuiltin` exactly when the id has no handler with a URI and no installed extension; otherwise it agrees with the corrected reporter |
| IssueService.UnknownExtensionThrowsTypeError | src/vs/workbench/services/issue/browser/issueService.ts:58-61 | for an unknown id the code as written throws a TypeError where the intended error is "Unable to find issue reporting url" |
| MinimapPreBaked.CharTable | src/vs/editor/browser/viewParts/minimap/minimapPreBaked.ts:8-25 | exactly the sixteen upper-case hex digits are listed, each with its own value |
| MinimapPreBaked.CharTableOfDigit | src/vs/editor/browser/viewParts/minimap/minimapPreBaked.ts:8-25 | the table maps the digit for v back to v |
| MinimapPreBaked.Nibble | src/vs/editor/browser/viewParts/minimap/minimapPreBaked.ts:30 | a lookup converts to a nibble in 0..15, with `undefined` as 0 |
| MinimapPreBaked.Combine | src/vs/editor/browser/viewParts/minimap/minimapPreBaked.ts:30 | the combined byte has the high nibble as its quotient by 16 and the low nibble as its remainder, so it never clamps |
| MinimapPreBaked.ShiftOrIsAddition | src/vs/editor/browser/viewParts/minimap/minimapPreBaked.ts:30 | `(hi << 4) \| (lo & 0xF)` is `16 * hi + lo` for nibbles, and the shift and the mask recover them |
| MinimapPreBaked.DecodeData | src/vs/editor/browser/viewParts/minimap/minimapPreBaked.ts:27-34 | the output has half the input length, byte k is `16 * hex(s[2k]) + hex(s[2k+1])`, and it equals the functional decoding |
| MinimapPreBaked.Decoded | src/vs/editor/browser/viewParts/minimap/minimapPreBaked.ts:28 | one byte per complete digit pair |
| MinimapPreBaked.DecodedPairs | src/vs/editor/browser/viewParts/minimap/minimapPreBaked.ts:29-31 | every byte of the functional decoding is the value of its digit pair |
| MinimapPreBaked.DecodedAppend | src/vs/editor/browser/viewParts/minimap/minimapPreBaked.ts:29-31 | decoding a concatenation after an even-length part decodes each part |
| MinimapPreBaked.DecodesPair | src/vs/editor/browser/viewParts/minimap/minimapPreBaked.ts:30 | a two-digit string decodes to the byte of its two nibbles |
| MinimapPreBaked.LowerCaseDecodesAsZero | src/vs/editor/browser/viewParts/minimap/minimapPreBaked.ts:30 | `ff` decodes as 0 and `F1` as 241 |
| MinimapPreBaked.OddLengthDropsLastDigit | src/vs/editor/browser/viewParts/minimap/minimapPreBaked.ts:28-31 | a trailing unpaired digit is ignored |
| MinimapPreBaked.EncodeData | src/vs/editor/browser/viewParts/minimap/minimapPreBaked.ts:37-44 | two upper-case hex digits per byte |
| MinimapPreBaked.PairOfEncodedByte | src/vs/editor/browser/viewParts/minimap/minimapPreBaked.ts:41 | the two digits written for a byte decode to that byte |
| MinimapPreBaked.DecodeEncode | src/vs/editor/browser/viewParts/minimap/minimapPreBaked.ts:37-44 | decoding an encoding gives the bytes back |
| MinimapPreBaked.EncodeDecode | src/vs/editor/browser/viewParts/minimap/minimapPreBaked.ts:37-44 | encoding the decoding of an even-length upper-case hex string gives it back |
| Workspaces.ToLower | src/vs/platform/workspaces/node/workspaces.ts:29 | same length; upper-case ASCII letters become lower-case and all else is kept |
| Workspaces.ToLowerIdempotent | src/vs/platform/workspaces/node/workspaces.ts:29 | lower-casing twice is lower-casing once |
| Workspaces.WorkspaceHashInput | src/vs/platform/workspaces/node/workspaces.ts:27-30 | on Linux the original fs path (file) or the URI text (otherwise) is hashed as is; elsewhere it is the lower-cased original fs path or lower-cased URI text |
| Workspaces.GetWorkspaceIdentifier | src/vs/platform/workspaces/node/workspaces.ts:24-39 | the identifier keeps the configuration URI and its id is the digest of the hashed text |
| Workspaces.WorkspaceIdIgnoresCaseOffLinux | src/vs/platform/workspaces/node/workspaces.ts:27-30 | off Linux, paths differing only in ASCII case give the same id |
| Workspaces.WorkspaceHashInputOnLinux | src/vs/platform/workspaces/node/workspaces.ts:27-28 | on Linux distinct paths give distinct hashed texts |
| Workspaces.FolderSalt | src/vs/platform/workspaces/node/workspaces.ts:67-78 | the inode on Linux, the birth time on macOS, the millisecond birth time rounded down on Windows (the birth time when that is not a number), and no stamp on other platforms |
| Workspaces.SaltText | src/vs/platform/workspaces/node/workspaces.ts:80 | a missing or zero stamp adds nothing, any other stamp its decimal text |
| Workspaces.FolderHashInput | src/vs/platform/workspaces/node/workspaces.ts:49-81 | remote folders hash their URI text; a local folder with a stat hashes its fs path followed by the text of the platform's salt (empty for a zero or missing stamp); a local folder without a stat has nothing to hash |
| Workspaces.GetSingleFolderWorkspaceIdentifier | src/vs/platform/workspaces/node/workspaces.ts:45-92 | no identifier exactly for a local folder without a stat; otherwise the folder URI with the digest of the hashed text |
| Workspaces.RemoteFolderIgnoresStat | src/vs/platform/workspaces/node/workspaces.ts:52-54 | a remote folder's identifier ignores platform and stat |
| Workspaces.RecreatedFolderHashesDifferently | src/vs/platform/workspaces/node/workspaces.ts:56-69 | on Linux a changed non-zero inode changes the hashed text of the same path |
| Workspaces.WindowsIgnoresSubMillisecond | src/vs/platform/workspaces/node/workspaces.ts:72-75 | on Windows, birth times within the same whole millisecond give the same id |
| Workspaces.OtherPlatformHasNoSalt | src/vs/platform/workspaces/node/workspaces.ts:67-80 | on other platforms the hashed text of a local folder is its path alone |
| Workspaces.IdentifierLength | src/vs/platform/workspaces/node/workspaces.ts:14-18 | with a hex MD5 digest, every non-empty id has the constant's length of 32 |
| Workspaces.IntToStringInjective | src/vs/platform/workspaces/node/workspaces.ts:80 | distinct stamps have distinct decimal texts |

## Left out

- The history readers and the persisted cache are not in the modelled source.
  - The model states what `history.test.ts` asserts.
  - Commands are not de-duplicated, because the tests show no repeated command. The round-trip lemmas therefore also cover lists with repeats; what the shell integration does with a repeated command is left open.
  - A logical command whose text is empty is not reported.
  - bash tracks double quotes only, because the tests show no other quoting.
- Reading history files is the parameter `readFile`, and the environment is a map.
  - Local and remote reads are modelled the same way: a path is resolved and then read.
  - The remote URI scheme and the remote agent connection are not modelled.
- The persisted cache's storage scope, its JSON serialisation and its configuration key are not modelled.
  - The cache's remove and clear operations are not modelled, because no test exercises them.
- `saveParticipants.ts` is not part of this model. The transforms are stated on the whole text with the model's end-of-line sequence, as the tests assert.
  - The undo/redo interplay (saveParticipant.test.ts lines 104-129 and 151-155) depends on the editor's text model and is not modelled.
  - The case of text made only of line breaks is not covered by the tests. The model keeps one end-of-line there.
  - The trim-whitespace transform treats `\r` and `\n` as line ends. Cursor positions are not modelled.
- `rtrim` comes from the base string utilities, which are not part of this model. `Strings.RTrim` follows its documented behaviour: it removes every trailing repetition of the needle.
- Issue reporter side effects are not modelled: opening a window, logging, cancellation and the asynchronous plumbing of handler calls.
  - `encodeURIComponent` is the parameter `encode`.
  - A handler's answer is the `HandlerReply` input, and its URI is already the string `toString(true)` returns.
  - `openProcessExplorer` only logs, so it is not modelled.
- The prebaked hex blobs and their `once` memoisation are data and caching, not logic.
- MD5 is the parameter `md5`.
  - Two `update` calls hash the concatenation of their inputs.
  - `createEmptyWorkspaceIdentifier` reads the clock and a random number, so it is not modelled.
  - `originalFSPath` is taken as a field of the URI, because its implementation is not part of this model.
- Workspaces.ToLower: lower-cases ASCII letters only. The full Unicode case mapping of `toLowerCase` is not modelled.
- Workspaces.FolderSalt: stat numbers are integers (and reals for `birthtimeMs`). A `NaN` birth time and the precision loss of very large inode numbers in JavaScript numbers are not modelled.

## Findings

| source | as written | input that shows it | evidently intended | confidence | as-written member | corrected member |
|---|---|---|---|---|---|---|
| src/vs/workbench/services/issue/browser/issueService.ts:83 | `getExtensionGitHubUrl` reads `extension.isBuiltin` on the first installed extension with the id (`filter(...)[0]`), which is `undefined` when no installed extension has it; lines 89-90 read the same object with `?.`, so an absent extension was expected | `openReporter({ extensionId: 'x.y' })` with no handler registered and no installed extension `x.y` | the "Unable to find issue reporting url for x.y" error of lines 60-61 instead of a TypeError | medium; not executed | IssueService.OpenReporterAsWritten | IssueService.OpenReporter |
