/**
 Workspace identifiers: the id of a multi-root workspace is the MD5 of its
 configuration file location, and the id of a single folder is the MD5 of the
 folder URI (remote) or of its path salted with a per-platform creation stamp
 (local). MD5 is a parameter `md5` from the text hashed to the hex digest; two
 `update` calls hash the concatenation of their inputs.
 */
module Workspaces {
  import opened Strings

  /** The platform the code runs on; `OtherPlatform` is none of the three checked. */
  datatype Platform = Linux | Macintosh | Windows | OtherPlatform

  const FileScheme := "file"

  /**
   The parts of a URI the identifiers read: its scheme, `fsPath`, the
   original-case file system path (`originalFSPath`) and `toString()`.
   */
  datatype Uri = Uri(scheme: string, fsPath: string, originalFsPath: string, text: string)

  /** The fields of a folder's `fs.Stats` the salt reads; `birthtime` is `birthtime.getTime()`. */
  datatype Stats = Stats(ino: int, birthtimeMs: Option<real>, birthtime: int)

  /** `NON_EMPTY_WORKSPACE_ID_LENGTH`: an MD5 digest of 128 bits printed as hexadecimal. */
  const NonEmptyWorkspaceIdLength: nat := 128 / 4

  /** `toLowerCase` on the ASCII letters. */
  function ToLower(s: string): (r: string)
    ensures |r| == |s|
    ensures forall i :: 0 <= i < |s| ==> (if 'A' <= s[i] <= 'Z' then r[i] as int == s[i] as int + 32 else r[i] == s[i])
  {
    seq(|s|, i requires 0 <= i < |s| => if 'A' <= s[i] <= 'Z' then (s[i] as int + 32) as char else s[i])
  }

  /** Lower-casing twice is lower-casing once. */
  lemma ToLowerIdempotent(s: string)
    ensures ToLower(ToLower(s)) == ToLower(s)
  {
  }

  /** The text hashed for a workspace configuration file. */
  function WorkspaceHashInput(platform: Platform, configPath: Uri): (r: string)
    ensures platform == Linux && configPath.scheme == FileScheme ==> r == configPath.originalFsPath
    ensures platform == Linux && configPath.scheme != FileScheme ==> r == configPath.text
    ensures platform != Linux && configPath.scheme == FileScheme ==> r == ToLower(configPath.originalFsPath)
    ensures platform != Linux && configPath.scheme != FileScheme ==> r == ToLower(configPath.text)
    ensures platform != Linux ==> ToLower(r) == r
  {
    var text := if configPath.scheme == FileScheme then configPath.originalFsPath else configPath.text;
    if platform == Linux then text
    else
      ToLowerIdempotent(text);
      ToLower(text)
  }

  datatype WorkspaceIdentifier = WorkspaceIdentifier(id: string, configPath: Uri)

  /** `getWorkspaceIdentifier`: the id is the hash of the configuration location; the location is kept. */
  function GetWorkspaceIdentifier(platform: Platform, configPath: Uri, md5: string -> string): (r: WorkspaceIdentifier)
    ensures r.configPath == configPath
    ensures r.id == md5(WorkspaceHashInput(platform, configPath))
  {
    WorkspaceIdentifier(md5(WorkspaceHashInput(platform, configPath)), configPath)
  }

  /** Off Linux, configuration paths that differ only in the case of ASCII letters give the same workspace. */
  lemma WorkspaceIdIgnoresCaseOffLinux(platform: Platform, a: Uri, b: Uri, md5: string -> string)
    requires platform != Linux
    requires a.scheme == FileScheme && b.scheme == FileScheme
    requires ToLower(a.originalFsPath) == ToLower(b.originalFsPath)
    ensures GetWorkspaceIdentifier(platform, a, md5).id == GetWorkspaceIdentifier(platform, b, md5).id
  {
  }

  /** On Linux, the original path is hashed as it is, so distinct paths give distinct hashed texts. */
  lemma WorkspaceHashInputOnLinux(a: Uri, b: Uri)
    requires a.scheme == FileScheme && b.scheme == FileScheme
    requires a.originalFsPath != b.originalFsPath
    ensures WorkspaceHashInput(Linux, a) != WorkspaceHashInput(Linux, b)
  {
  }

  /**
   The creation stamp of a local folder: the inode number on Linux (where
   `birthtime` is the change time), the birth time on macOS, the birth time in
   milliseconds rounded down on Windows (or the birth time when that is not a
   number), and nothing elsewhere.
   */
  function FolderSalt(platform: Platform, stat: Stats): (ctime: Option<int>)
    ensures ctime.None? <==> platform == OtherPlatform
    ensures platform == Linux ==> ctime == Some(stat.ino)
    ensures platform == Macintosh ==> ctime == Some(stat.birthtime)
    ensures platform == Windows && stat.birthtimeMs.Some? ==>
      ctime.Some? && ctime.value as real <= stat.birthtimeMs.value < ctime.value as real + 1.0
    ensures platform == Windows && stat.birthtimeMs.None? ==> ctime == Some(stat.birthtime)
  {
    match platform
    case Linux => Some(stat.ino)
    case Macintosh => Some(stat.birthtime)
    case Windows => if stat.birthtimeMs.Some? then Some(stat.birthtimeMs.value.Floor) else Some(stat.birthtime)
    case OtherPlatform => None
  }

  /** `ctime ? String(ctime) : ''`: a missing or zero stamp adds nothing. */
  function SaltText(ctime: Option<int>): (r: string)
    ensures r == "" <==> ctime.None? || ctime.value == 0
    ensures r != "" ==> r == IntToString(ctime.value)
  {
    if ctime.Some? && ctime.value != 0 then IntToString(ctime.value) else ""
  }

  /**
   The text hashed for a folder: the URI text for a remote folder; for a local
   folder its path followed by the salt, or nothing at all without a stat.
   */
  function FolderHashInput(platform: Platform, folder: Uri, stat: Option<Stats>): (r: Option<string>)
    ensures r.None? <==> folder.scheme == FileScheme && stat.None?
    ensures folder.scheme != FileScheme ==> r == Some(folder.text)
    ensures folder.scheme == FileScheme && stat.Some? ==>
      r.Some? && StartsWith(r.value, folder.fsPath)
      && r.value[|folder.fsPath|..] == SaltText(FolderSalt(platform, stat.value))
  {
    if folder.scheme != FileScheme then Some(folder.text)
    else if stat.None? then None
    else
      var input := folder.fsPath + SaltText(FolderSalt(platform, stat.value));
      assert input[..|folder.fsPath|] == folder.fsPath;
      Some(input)
  }

  datatype SingleFolderWorkspaceIdentifier = SingleFolderWorkspaceIdentifier(id: string, uri: Uri)

  /** `getSingleFolderWorkspaceIdentifier`: an identifier for the folder, or none for a local folder without a stat. */
  function GetSingleFolderWorkspaceIdentifier(platform: Platform, folder: Uri, stat: Option<Stats>, md5: string -> string)
    : (r: Option<SingleFolderWorkspaceIdentifier>)
    ensures r.None? <==> folder.scheme == FileScheme && stat.None?
    ensures r.Some? ==> r.value.uri == folder && r.value.id == md5(FolderHashInput(platform, folder, stat).value)
  {
    match FolderHashInput(platform, folder, stat)
    case None => None
    case Some(input) => Some(SingleFolderWorkspaceIdentifier(md5(input), folder))
  }

  /** A remote folder's identifier depends on its URI only: neither the platform nor the stat matters. */
  lemma RemoteFolderIgnoresStat(p: Platform, q: Platform, folder: Uri, s: Option<Stats>, t: Option<Stats>, md5: string -> string)
    requires folder.scheme != FileScheme
    ensures GetSingleFolderWorkspaceIdentifier(p, folder, s, md5) == GetSingleFolderWorkspaceIdentifier(q, folder, t, md5)
  {
  }

  /** The digits of distinct natural numbers differ. */
  lemma {:induction false} NatToStringInjective(a: nat, b: nat)
    requires NatToString(a) == NatToString(b)
    ensures a == b
    decreases a
  {
    var s := NatToString(a);
    NatToStringLength(a);
    NatToStringLength(b);
    if a >= 10 && b >= 10 {
      assert NatToString(a / 10) == s[..|s| - 1] == NatToString(b / 10);
      NatToStringInjective(a / 10, b / 10);
      DigitInjective(a % 10, b % 10);
    } else if a < 10 && b < 10 {
      DigitInjective(a, b);
    }
  }

  /** One digit exactly for the numbers below ten. */
  lemma NatToStringLength(n: nat)
    ensures |NatToString(n)| == 1 <==> n < 10
  {
    if n >= 10 {
      assert |NatToString(n)| == |NatToString(n / 10)| + 1;
    }
  }

  lemma DigitInjective(i: nat, j: nat)
    requires i < 10 && j < 10 && "0123456789"[i] == "0123456789"[j]
    ensures i == j
  {
    assert "0123456789"[i] as int == '0' as int + i;
    assert "0123456789"[j] as int == '0' as int + j;
  }

  lemma IntToStringInjective(a: int, b: int)
    requires IntToString(a) == IntToString(b)
    ensures a == b
  {
    if a < 0 && b < 0 {
      assert IntToString(a)[1..] == NatToString(-a);
      assert IntToString(b)[1..] == NatToString(-b);
      NatToStringInjective(-a, -b);
    } else if a >= 0 && b >= 0 {
      NatToStringInjective(a, b);
    }
  }

  /**
   A local folder deleted and recreated at the same path gets a different
   hashed text on Linux when its (non-zero) inode number changes, so the
   identifiers of the old and the new folder are told apart.
   */
  lemma RecreatedFolderHashesDifferently(folder: Uri, before: Stats, after: Stats)
    requires folder.scheme == FileScheme
    requires before.ino != 0 && after.ino != 0 && before.ino != after.ino
    ensures FolderHashInput(Linux, folder, Some(before)) != FolderHashInput(Linux, folder, Some(after))
  {
    var a := FolderHashInput(Linux, folder, Some(before)).value;
    var b := FolderHashInput(Linux, folder, Some(after)).value;
    if a == b {
      assert a[|folder.fsPath|..] == IntToString(before.ino);
      assert b[|folder.fsPath|..] == IntToString(after.ino);
      IntToStringInjective(before.ino, after.ino);
    }
  }

  /** On Windows, birth times in milliseconds within the same whole millisecond give the same identifier. */
  lemma WindowsIgnoresSubMillisecond(folder: Uri, s: Stats, t: Stats, md5: string -> string)
    requires s.birthtimeMs.Some? && t.birthtimeMs.Some? && s.birthtimeMs.value.Floor == t.birthtimeMs.value.Floor
    ensures GetSingleFolderWorkspaceIdentifier(Windows, folder, Some(s), md5)
         == GetSingleFolderWorkspaceIdentifier(Windows, folder, Some(t), md5)
  {
  }

  /** On a platform other than the three, a local folder's hashed text is its path alone. */
  lemma OtherPlatformHasNoSalt(folder: Uri, stat: Stats)
    requires folder.scheme == FileScheme
    ensures FolderHashInput(OtherPlatform, folder, Some(stat)) == Some(folder.fsPath)
  {
    assert folder.fsPath + "" == folder.fsPath;
  }

  /** When the hash yields a hex MD5 digest, every non-empty identifier has the length the constant gives. */
  lemma IdentifierLength(platform: Platform, configPath: Uri, folder: Uri, stat: Option<Stats>, md5: string -> string)
    requires forall s :: |md5(s)| == NonEmptyWorkspaceIdLength
    ensures |GetWorkspaceIdentifier(platform, configPath, md5).id| == 32
    ensures var r := GetSingleFolderWorkspaceIdentifier(platform, folder, stat, md5);
      r.Some? ==> |r.value.id| == 32
  {
  }
}
