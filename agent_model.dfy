/** The update pipeline of ota-agent/main.go as functions over an explicit
    world: the local files and the commands run so far. Everything the agent
    cannot decide itself (refusals by the host, what a URL serves, the digest
    of some bytes, whether a command exits 0) is read from an `Env`. The
    methods of `AgentHost.Host` carry these steps out one by one and are
    proved to agree with them. */
module AgentModel {
  import opened Common
  import opened GoText
  import opened GoPaths
  import opened Manifest

  /** The files of the host: path to contents. Directories and permission bits
      are not modelled. */
  type Disk = map<string, string>

  /** The outside world as the agent sees it. */
  datatype Env = Env(
    /** the host refuses `os.Rename(src, dst)` although `src` exists */
    renameRefused: (string, string) -> bool,
    /** the host refuses to create or write this path */
    createRefused: string -> bool,
    /** the host refuses to read this existing path */
    readRefused: string -> bool,
    /** what downloading a URL yields once retries are spent, None on failure */
    download: string -> Option<string>,
    /** SHA-256 of some contents as lower-case hex; not modelled further */
    sha256: string -> string,
    /** whether the n-th command the agent runs (from 0) exits with status 0 */
    commandSucceeds: (nat, seq<string>) -> bool,
    /** `url.Parse` accepts the URL */
    urlParses: string -> bool)

  /** The files, and the argument vectors of the commands run, oldest first. */
  datatype World = World(disk: Disk, runs: seq<seq<string>>)

  datatype IoError = Unreadable(path: string)

  // ---------------------------------------------------------------- primitives

  predicate CanRename(d: Disk, env: Env, src: string, dst: string)
  {
    src in d && !env.renameRefused(src, dst)
  }

  /** `os.Rename(src, dst)` when it succeeds: `dst` now holds what `src` held. */
  function Renamed(d: Disk, src: string, dst: string): Disk
    requires src in d
  {
    (d - {src})[dst := d[src]]
  }

  /** `readLocalVersion`: a missing file reads as "", any other read failure
      is an error, and contents come back trimmed. */
  function LocalVersion(d: Disk, env: Env, path: string): Result<string, IoError>
  {
    if path !in d then Success("")
    else if env.readRefused(path) then Failure(Unreadable(path))
    else Success(TrimSpace(d[path]))
  }

  /** A marker read where a read error counts as no version. */
  function LocalVersionOrNone(d: Disk, env: Env, path: string): string
  {
    var r := LocalVersion(d, env, path);
    if r.Success? then r.value else ""
  }

  /** `writeLocalVersion`: the marker holds `v` and a newline; the flag says
      whether the write succeeded. */
  function WriteVersion(d: Disk, env: Env, path: string, v: string): (Disk, bool)
  {
    if env.createRefused(path) then (d, false) else (d[path := v + "\n"], true)
  }

  /** The sentinel `checkWritePermission` creates and removes. */
  function ProbePath(target: string): string
  {
    Join(Dir(target), ".ota-agent-write-test")
  }

  /** `checkWritePermission`: creating the sentinel succeeds, then it is
      removed (so a file of that name is gone afterwards). */
  function CheckWritePermission(d: Disk, env: Env, target: string): (Disk, bool)
  {
    var probe := ProbePath(target);
    if env.createRefused(probe) then (d, false) else (d - {probe}, true)
  }

  /** `downloadFile`: fetch first, then create `dest` with the body. */
  function DownloadFile(d: Disk, env: Env, url: string, dest: string): (Disk, bool)
  {
    var body := env.download(url);
    if body.None? || env.createRefused(dest) then (d, false)
    else (d[dest := body.value], true)
  }

  /** `fileSHA256`. */
  function FileSha256(d: Disk, env: Env, path: string): Result<string, IoError>
  {
    if path !in d || env.readRefused(path) then Failure(Unreadable(path))
    else Success(env.sha256(d[path]))
  }

  /** `runCommand`: a command line without fields succeeds without running
      anything; otherwise its fields are run and logged. */
  function RunCommand(runs: seq<seq<string>>, env: Env, cmdline: string): (seq<seq<string>>, bool)
  {
    var parts := Fields(cmdline);
    if parts == [] then (runs, true) else (runs + [parts], env.commandSucceeds(|runs|, parts))
  }

  // ------------------------------------------------------------ atomicReplace

  datatype ReplaceError = MoveFailed | BackupFailed | RenameFailed

  /** The files after `atomicReplace`, the backup path it reports, and its error. */
  datatype Replace = Replace(disk: Disk, backup: string, err: Option<ReplaceError>)

  function BackupPath(target: string): string
  {
    target + ".bak"
  }

  /** Where the new file sits just before the final rename: moved into the
      target's directory when it was elsewhere. */
  function Staged(newPath: string, target: string): string
  {
    if Dir(target) != Dir(newPath) then Join(Dir(target), Base(newPath)) else newPath
  }

  /** `atomicReplace(newPath, target)`. */
  function AtomicReplace(d: Disk, env: Env, newPath: string, target: string): Replace
  {
    var src := Staged(newPath, target);
    if Dir(target) != Dir(newPath) then
      if !CanRename(d, env, newPath, src) then Replace(d, "", Some(MoveFailed))
      else ReplaceStaged(Renamed(d, newPath, src), env, src, target)
    else ReplaceStaged(d, env, src, target)
  }

  /** `atomicReplace` from the point where the new file sits at `src` in the
      target's directory: back up the target if there is one, then rename. */
  function ReplaceStaged(d: Disk, env: Env, src: string, target: string): Replace
  {
    var bak := BackupPath(target);
    if target in d then
      var d2 := d - {bak};
      if !CanRename(d2, env, target, bak) then Replace(d2, "", Some(BackupFailed))
      else
        var d3 := Renamed(d2, target, bak);
        if CanRename(d3, env, src, target) then Replace(Renamed(d3, src, target), bak, None)
        else if CanRename(d3, env, bak, target) then Replace(Renamed(d3, bak, target), bak, Some(RenameFailed))
        else Replace(d3, bak, Some(RenameFailed))
    else if CanRename(d, env, src, target) then Replace(Renamed(d, src, target), "", None)
    else Replace(d, "", Some(RenameFailed))
  }

  /** Replacing an existing target in its own directory: the previous `.bak`
      is dropped, `target.bak` holds the old contents, `target` the new ones,
      the new file's old name is gone and nothing else changes. */
  lemma AtomicReplaceKeepsBackup(d: Disk, env: Env, newPath: string, target: string)
    requires Dir(newPath) == Dir(target) && newPath != target && newPath != BackupPath(target)
    requires newPath in d && target in d
    requires !env.renameRefused(target, BackupPath(target)) && !env.renameRefused(newPath, target)
    ensures var r := AtomicReplace(d, env, newPath, target);
      && r.err.None? && r.backup == BackupPath(target)
      && r.disk == (d - {newPath})[BackupPath(target) := d[target]][target := d[newPath]]
  {
    var bak := BackupPath(target);
    assert Staged(newPath, target) == newPath;
    assert bak != target;
    var d2 := d - {bak};
    var d3 := Renamed(d2, target, bak);
    assert newPath in d3;
    assert ReplaceStaged(d, env, newPath, target) == Replace(Renamed(d3, newPath, target), bak, None);
    assert Renamed(d3, newPath, target) == (d - {newPath})[bak := d[target]][target := d[newPath]];
  }

  /** Installing where no target existed: no backup is reported and the
      `.bak` path is left exactly as it was. */
  lemma AtomicReplaceFreshInstall(d: Disk, env: Env, newPath: string, target: string)
    requires Dir(newPath) == Dir(target) && newPath != target && newPath != BackupPath(target)
    requires target !in d
    ensures var r := AtomicReplace(d, env, newPath, target);
      && r.backup == ""
      && (BackupPath(target) in r.disk <==> BackupPath(target) in d)
      && (BackupPath(target) in d ==> r.disk[BackupPath(target)] == d[BackupPath(target)])
      && (r.err.None? <==> newPath in d && !env.renameRefused(newPath, target))
      && (r.err.None? ==> r.disk == (d - {newPath})[target := d[newPath]])
  {
    assert Staged(newPath, target) == newPath;
    assert BackupPath(target) != target;
  }

  /** When the final rename fails after the backup was made, the backup is
      renamed back so the target holds its old contents again. */
  lemma AtomicReplaceRestores(d: Disk, env: Env, newPath: string, target: string)
    requires Dir(newPath) == Dir(target) && newPath != target && newPath != BackupPath(target)
    requires target in d
    requires !env.renameRefused(target, BackupPath(target))
    requires !CanRename(Renamed(d - {BackupPath(target)}, target, BackupPath(target)), env, newPath, target)
    requires !env.renameRefused(BackupPath(target), target)
    ensures var r := AtomicReplace(d, env, newPath, target);
      && r.err == Some(RenameFailed) && r.backup == BackupPath(target)
      && target in r.disk && r.disk[target] == d[target]
      && BackupPath(target) !in r.disk
  {
    assert Staged(newPath, target) == newPath;
    assert BackupPath(target) != target;
  }

  lemma ReplaceStagedInstalls(d: Disk, env: Env, src: string, target: string)
    requires src in d && src != BackupPath(target)
    ensures var r := ReplaceStaged(d, env, src, target);
      r.err.None? ==> target in r.disk && r.disk[target] == d[src]
  {
    var bak := BackupPath(target);
    if target in d {
      var d2 := d - {bak};
      if CanRename(d2, env, target, bak) {
        var d3 := Renamed(d2, target, bak);
        if target != src {
          assert d3[src] == d[src];
        }
      }
    }
  }

  /** The backup `atomicReplace` reports is either none or `target.bak`. */
  lemma AtomicReplaceBackup(d: Disk, env: Env, newPath: string, target: string)
    ensures var r := AtomicReplace(d, env, newPath, target);
      r.backup == "" || r.backup == BackupPath(target)
  {
  }

  /** However it goes, when `atomicReplace` reports success the target holds
      the new file's contents. */
  lemma AtomicReplaceInstalls(d: Disk, env: Env, newPath: string, target: string)
    requires newPath in d && Staged(newPath, target) != BackupPath(target)
    ensures var r := AtomicReplace(d, env, newPath, target);
      r.err.None? ==> target in r.disk && r.disk[target] == d[newPath]
  {
    var src := Staged(newPath, target);
    if Dir(target) != Dir(newPath) {
      if CanRename(d, env, newPath, src) {
        ReplaceStagedInstalls(Renamed(d, newPath, src), env, src, target);
      }
    } else {
      ReplaceStagedInstalls(d, env, src, target);
    }
  }

  // ---------------------------------------------------------------- updateFile

  datatype UpdateError =
    | PermissionDenied
    | DownloadFailed
    | HashFailed(io: IoError)
    | ChecksumMismatch(got: string, want: string)
    | ReplaceFailed(step: ReplaceError)
    | RestartFailed

  /** The `(bool, error)` pair `updateFile` returns. */
  datatype FileOutcome = FileOutcome(updated: bool, err: Option<UpdateError>)

  datatype Step = Step(world: World, outcome: FileOutcome)

  /** The per-file marker `<versionFile>.<name>`. */
  function MarkerPath(versionFile: string, name: string): string
  {
    versionFile + "." + name
  }

  /** The download staging file `.tmp-<name>-<unix time>` beside the target. */
  function TempPath(file: FileUpdate, unixTime: int): string
  {
    Join(Dir(file.target), ".tmp-" + file.name + "-" + Itoa(unixTime))
  }

  /** The skip test: the wanted version is known and the marker says it. */
  predicate Current(d: Disk, env: Env, file: FileUpdate, fileVersion: string, versionFile: string)
  {
    fileVersion != "" && LocalVersionOrNone(d, env, MarkerPath(versionFile, file.name)) == fileVersion
  }

  /** `updateFile(file, fileVersion, versionFile, restartCmd)`, `unixTime`
      being the clock reading that names the staging file. */
  function UpdateFile(w: World, env: Env, file: FileUpdate, fileVersion: string, versionFile: string,
                      restartCmd: string, unixTime: int): Step
  {
    if Current(w.disk, env, file, fileVersion, versionFile) then Step(w, FileOutcome(false, None))
    else
      var (d1, permitted) := CheckWritePermission(w.disk, env, file.target);
      if !permitted then Step(World(d1, w.runs), FileOutcome(false, Some(PermissionDenied)))
      else Fetch(World(d1, w.runs), env, file, fileVersion, versionFile, restartCmd, TempPath(file, unixTime))
  }

  /** `updateFile` from the download on: fetch into `tmp` and verify the
      checksum, removing `tmp` on any failure. */
  function Fetch(w: World, env: Env, file: FileUpdate, fileVersion: string, versionFile: string,
                 restartCmd: string, tmp: string): Step
  {
    var (d2, fetched) := DownloadFile(w.disk, env, file.url, tmp);
    if !fetched then Step(World(d2 - {tmp}, w.runs), FileOutcome(false, Some(DownloadFailed)))
    else
      var sum := FileSha256(d2, env, tmp);
      if sum.Failure? then Step(World(d2 - {tmp}, w.runs), FileOutcome(false, Some(HashFailed(sum.error))))
      else if !EqualFold(sum.value, file.sha256) then
        Step(World(d2 - {tmp}, w.runs), FileOutcome(false, Some(ChecksumMismatch(sum.value, file.sha256))))
      else Install(World(d2, w.runs), env, file, fileVersion, versionFile, restartCmd, tmp)
  }

  /** `updateFile` once the staging file is verified: replace, advance the
      per-file marker, restart. */
  function Install(w: World, env: Env, file: FileUpdate, fileVersion: string, versionFile: string,
                   restartCmd: string, tmp: string): Step
  {
    var rep := AtomicReplace(w.disk, env, tmp, file.target);
    if rep.err.Some? then
      Step(World(rep.disk - {tmp}, w.runs), FileOutcome(false, Some(ReplaceFailed(rep.err.value))))
    else
      var d4 := if fileVersion != "" then WriteVersion(rep.disk, env, MarkerPath(versionFile, file.name), fileVersion).0
                else rep.disk;
      Restart(World(d4, w.runs), env, file.target, restartCmd, rep.backup)
  }

  /** `updateFile`'s last step: run the restart command; when it fails, rename
      the backup onto the target and, if that worked, run the command again. */
  function Restart(w: World, env: Env, target: string, restartCmd: string, backup: string): Step
  {
    if restartCmd == "" then Step(w, FileOutcome(true, None))
    else
      var (runs1, restarted) := RunCommand(w.runs, env, restartCmd);
      if restarted then Step(World(w.disk, runs1), FileOutcome(true, None))
      else if backup != "" && CanRename(w.disk, env, backup, target) then
        Step(World(Renamed(w.disk, backup, target), RunCommand(runs1, env, restartCmd).0),
             FileOutcome(false, Some(RestartFailed)))
      else Step(World(w.disk, runs1), FileOutcome(false, Some(RestartFailed)))
  }

  /** An entry whose marker already holds its (non-empty) version is skipped:
      no error, nothing updated, nothing changed. */
  lemma UpdateFileSkips(w: World, env: Env, file: FileUpdate, fileVersion: string, versionFile: string,
                        restartCmd: string, unixTime: int)
    requires fileVersion != ""
    requires LocalVersion(w.disk, env, MarkerPath(versionFile, file.name)) == Success(fileVersion)
    ensures UpdateFile(w, env, file, fileVersion, versionFile, restartCmd, unixTime)
         == Step(w, FileOutcome(false, None))
  {
  }

  /** The three endings of `Restart`: success keeps the files; a failure
      renames the backup onto the target and runs the command a second time
      exactly when there is a backup and the rename is allowed, and
      otherwise ran the command once and left the files. */
  lemma RestartOutcome(w: World, env: Env, target: string, restartCmd: string, backup: string)
    ensures var s := Restart(w, env, target, restartCmd, backup);
      && (s.outcome.err.None? ==> s.outcome.updated && s.world.disk == w.disk)
      && (s.outcome.err.Some? ==> s.outcome.err == Some(RestartFailed) && !s.outcome.updated)
      && (s.outcome.err.Some? ==> Fields(restartCmd) != [])
      && (s.outcome.err.Some? ==> |s.world.runs| == |w.runs| + 1 || |s.world.runs| == |w.runs| + 2)
      && (s.outcome.err.Some? ==>
            (|s.world.runs| == |w.runs| + 2 <==> backup != "" && CanRename(w.disk, env, backup, target)))
      && (s.outcome.err.Some? && |s.world.runs| == |w.runs| + 2 ==>
            && backup in w.disk && s.world.disk == Renamed(w.disk, backup, target)
            && s.world.runs == w.runs + [Fields(restartCmd), Fields(restartCmd)])
      && (s.outcome.err.Some? && |s.world.runs| == |w.runs| + 1 ==>
            s.world.disk == w.disk && s.world.runs == w.runs + [Fields(restartCmd)])
  {
    var s := Restart(w, env, target, restartCmd, backup);
    if restartCmd != "" {
      var parts := Fields(restartCmd);
      if parts == [] {
        assert RunCommand(w.runs, env, restartCmd) == (w.runs, true);
        assert s == Step(w, FileOutcome(true, None));
      } else {
        var runs1 := w.runs + [parts];
        var restarted := env.commandSucceeds(|w.runs|, parts);
        assert RunCommand(w.runs, env, restartCmd) == (runs1, restarted);
        if restarted {
          assert s == Step(World(w.disk, runs1), FileOutcome(true, None));
        } else if backup != "" && CanRename(w.disk, env, backup, target) {
          assert RunCommand(runs1, env, restartCmd).0 == runs1 + [parts];
          assert s == Step(World(Renamed(w.disk, backup, target), runs1 + [parts]),
                           FileOutcome(false, Some(RestartFailed)));
        } else {
          assert s == Step(World(w.disk, runs1), FileOutcome(false, Some(RestartFailed)));
        }
      }
    }
  }

  /** What `Install` leaves behind. */
  lemma InstallOutcome(w: World, env: Env, file: FileUpdate, fileVersion: string, versionFile: string,
                       restartCmd: string, tmp: string)
    ensures var s := Install(w, env, file, fileVersion, versionFile, restartCmd, tmp);
      && (s.outcome.err.None? || s.outcome.err.value.ReplaceFailed? || s.outcome.err.value.RestartFailed?)
      && (s.outcome.err.None? ==> s.outcome.updated)
  {
    var rep := AtomicReplace(w.disk, env, tmp, file.target);
    if rep.err.None? {
      var d4 := if fileVersion != "" then WriteVersion(rep.disk, env, MarkerPath(versionFile, file.name), fileVersion).0
                else rep.disk;
      RestartOutcome(World(d4, w.runs), env, file.target, restartCmd, rep.backup);
    }
  }

  /** A failed download, an unreadable staging file or a checksum mismatch
      leaves every file as it was except the removed staging file and the
      removed permission sentinel; no command runs and no marker moves. */
  lemma UpdateFileVerifyGate(w: World, env: Env, file: FileUpdate, fileVersion: string, versionFile: string,
                             restartCmd: string, unixTime: int)
    ensures var s := UpdateFile(w, env, file, fileVersion, versionFile, restartCmd, unixTime);
      s.outcome.err.Some? && (s.outcome.err.value.DownloadFailed? || s.outcome.err.value.HashFailed?
                              || s.outcome.err.value.ChecksumMismatch?)
      ==> && s.outcome.updated == false
          && s.world.runs == w.runs
          && s.world.disk == w.disk - {ProbePath(file.target), TempPath(file, unixTime)}
  {
    var tmp := TempPath(file, unixTime);
    var probe := ProbePath(file.target);
    if !Current(w.disk, env, file, fileVersion, versionFile) && !env.createRefused(probe) {
      var d1 := w.disk - {probe};
      var (d2, fetched) := DownloadFile(d1, env, file.url, tmp);
      assert d2 - {tmp} == w.disk - {probe, tmp};
      if fetched && FileSha256(d2, env, tmp).Success? && EqualFold(FileSha256(d2, env, tmp).value, file.sha256) {
        InstallOutcome(World(d2, w.runs), env, file, fileVersion, versionFile, restartCmd, tmp);
      }
    }
  }

  /** A checksum that does not match (ignoring case) is rejected before the
      target is touched. */
  lemma UpdateFileRejectsMismatch(w: World, env: Env, file: FileUpdate, fileVersion: string, versionFile: string,
                                  restartCmd: string, unixTime: int)
    requires !Current(w.disk, env, file, fileVersion, versionFile)
    requires !env.createRefused(ProbePath(file.target)) && !env.createRefused(TempPath(file, unixTime))
    requires env.download(file.url).Some? && !env.readRefused(TempPath(file, unixTime))
    requires !EqualFold(env.sha256(env.download(file.url).value), file.sha256)
    requires file.target != ProbePath(file.target) && file.target != TempPath(file, unixTime)
    ensures var s := UpdateFile(w, env, file, fileVersion, versionFile, restartCmd, unixTime);
      && s.outcome == FileOutcome(false, Some(ChecksumMismatch(env.sha256(env.download(file.url).value), file.sha256)))
      && (file.target in s.world.disk <==> file.target in w.disk)
      && (file.target in w.disk ==> s.world.disk[file.target] == w.disk[file.target])
  {
    var tmp := TempPath(file, unixTime);
    var probe := ProbePath(file.target);
    var d1 := w.disk - {probe};
    var d2 := d1[tmp := env.download(file.url).value];
    assert DownloadFile(d1, env, file.url, tmp) == (d2, true);
    assert FileSha256(d2, env, tmp) == Success(env.sha256(env.download(file.url).value));
  }

  /** A restart, successful or not, leaves every file other than the target
      and the backup as it was. */
  lemma RestartKeeps(w: World, env: Env, target: string, restartCmd: string, backup: string, path: string)
    requires path != target && path != backup
    ensures var s := Restart(w, env, target, restartCmd, backup);
      && (path in s.world.disk <==> path in w.disk)
      && (path in w.disk ==> s.world.disk[path] == w.disk[path])
  {
    var s := Restart(w, env, target, restartCmd, backup);
    RestartOutcome(w, env, target, restartCmd, backup);
    if s.world.disk != w.disk {
      assert s.world.disk == Renamed(w.disk, backup, target);
    }
  }

  /** When `Install` reports success, the target holds what the staging
      file held. */
  lemma InstallInstalls(w: World, env: Env, file: FileUpdate, fileVersion: string, versionFile: string,
                        restartCmd: string, tmp: string)
    requires tmp in w.disk
    requires Staged(tmp, file.target) != BackupPath(file.target)
    requires file.target != MarkerPath(versionFile, file.name)
    ensures var s := Install(w, env, file, fileVersion, versionFile, restartCmd, tmp);
      s.outcome == FileOutcome(true, None) ==> file.target in s.world.disk && s.world.disk[file.target] == w.disk[tmp]
  {
    var rep := AtomicReplace(w.disk, env, tmp, file.target);
    AtomicReplaceInstalls(w.disk, env, tmp, file.target);
    if rep.err.None? {
      var d4 := if fileVersion != "" then WriteVersion(rep.disk, env, MarkerPath(versionFile, file.name), fileVersion).0
                else rep.disk;
      assert file.target in d4 && d4[file.target] == w.disk[tmp];
      var r := Restart(World(d4, w.runs), env, file.target, restartCmd, rep.backup);
      assert Install(w, env, file, fileVersion, versionFile, restartCmd, tmp) == r;
      RestartOutcome(World(d4, w.runs), env, file.target, restartCmd, rep.backup);
    }
  }

  /** When `Fetch` ends in success, the target holds the downloaded bytes and
      they passed the checksum. */
  lemma FetchInstallsVerified(w: World, env: Env, file: FileUpdate, fileVersion: string, versionFile: string,
                              restartCmd: string, tmp: string)
    requires Staged(tmp, file.target) != BackupPath(file.target)
    requires file.target != MarkerPath(versionFile, file.name)
    ensures var s := Fetch(w, env, file, fileVersion, versionFile, restartCmd, tmp);
      s.outcome == FileOutcome(true, None) ==>
        && env.download(file.url).Some?
        && file.target in s.world.disk
        && s.world.disk[file.target] == env.download(file.url).value
        && EqualFold(env.sha256(s.world.disk[file.target]), file.sha256)
  {
    var (d2, fetched) := DownloadFile(w.disk, env, file.url, tmp);
    var sum := FileSha256(d2, env, tmp);
    if fetched && sum.Success? && EqualFold(sum.value, file.sha256) {
      assert d2[tmp] == env.download(file.url).value;
      assert sum.value == env.sha256(d2[tmp]);
      assert Fetch(w, env, file, fileVersion, versionFile, restartCmd, tmp)
          == Install(World(d2, w.runs), env, file, fileVersion, versionFile, restartCmd, tmp);
      InstallInstalls(World(d2, w.runs), env, file, fileVersion, versionFile, restartCmd, tmp);
    }
  }

  /** When an entry reports success, its target holds exactly the bytes that
      were downloaded, and their digest matches the manifest's checksum. */
  lemma UpdateFileInstallsVerified(w: World, env: Env, file: FileUpdate, fileVersion: string, versionFile: string,
                                   restartCmd: string, unixTime: int)
    requires Staged(TempPath(file, unixTime), file.target) != BackupPath(file.target)
    requires file.target != MarkerPath(versionFile, file.name)
    ensures var s := UpdateFile(w, env, file, fileVersion, versionFile, restartCmd, unixTime);
      s.outcome == FileOutcome(true, None) ==>
        && env.download(file.url).Some?
        && file.target in s.world.disk
        && s.world.disk[file.target] == env.download(file.url).value
        && EqualFold(env.sha256(s.world.disk[file.target]), file.sha256)
  {
    var tmp := TempPath(file, unixTime);
    var probe := ProbePath(file.target);
    if !Current(w.disk, env, file, fileVersion, versionFile) && !env.createRefused(probe) {
      var w1 := World(w.disk - {probe}, w.runs);
      assert UpdateFile(w, env, file, fileVersion, versionFile, restartCmd, unixTime)
          == Fetch(w1, env, file, fileVersion, versionFile, restartCmd, tmp);
      FetchInstallsVerified(w1, env, file, fileVersion, versionFile, restartCmd, tmp);
    }
  }

  /** `Install` ending in `RestartFailed`: the marker was written before the
      restart and the rollback rename does not touch it. */
  lemma InstallRestartFailure(w: World, env: Env, file: FileUpdate, fileVersion: string, versionFile: string,
                              restartCmd: string, tmp: string)
    requires MarkerPath(versionFile, file.name) != file.target
    requires MarkerPath(versionFile, file.name) != BackupPath(file.target)
    ensures var s := Install(w, env, file, fileVersion, versionFile, restartCmd, tmp);
      s.outcome.err == Some(RestartFailed) ==>
        && !s.outcome.updated
        && Fields(restartCmd) != []
        && (fileVersion != "" && !env.createRefused(MarkerPath(versionFile, file.name))
            ==> MarkerPath(versionFile, file.name) in s.world.disk
                && s.world.disk[MarkerPath(versionFile, file.name)] == fileVersion + "\n")
        && (|s.world.runs| == |w.runs| + 1 || |s.world.runs| == |w.runs| + 2)
        && (|s.world.runs| == |w.runs| + 2 ==> file.target in s.world.disk)
  {
    var marker := MarkerPath(versionFile, file.name);
    var rep := AtomicReplace(w.disk, env, tmp, file.target);
    if rep.err.None? {
      AtomicReplaceBackup(w.disk, env, tmp, file.target);
      var d4 := if fileVersion != "" then WriteVersion(rep.disk, env, marker, fileVersion).0
                else rep.disk;
      assert fileVersion != "" && !env.createRefused(marker) ==> marker in d4 && d4[marker] == fileVersion + "\n";
      var r := Restart(World(d4, w.runs), env, file.target, restartCmd, rep.backup);
      assert Install(w, env, file, fileVersion, versionFile, restartCmd, tmp) == r;
      RestartOutcome(World(d4, w.runs), env, file.target, restartCmd, rep.backup);
      RestartKeeps(World(d4, w.runs), env, file.target, restartCmd, rep.backup, marker);
    }
  }

  /** A failing restart command: the entry reports `RestartFailed` without
      counting as updated, the per-file marker has already been moved to the
      new version, the command was run once or twice, and after two runs the
      target is present. When the second run happens, and what the target then
      holds, is stated by `RestartOutcome` and `UpdateFileRollback`. */
  lemma UpdateFileRestartFailure(w: World, env: Env, file: FileUpdate, fileVersion: string, versionFile: string,
                                 restartCmd: string, unixTime: int)
    requires MarkerPath(versionFile, file.name) != file.target
    requires MarkerPath(versionFile, file.name) != BackupPath(file.target)
    ensures var s := UpdateFile(w, env, file, fileVersion, versionFile, restartCmd, unixTime);
      s.outcome.err == Some(RestartFailed) ==>
        && !s.outcome.updated
        && Fields(restartCmd) != []
        && (fileVersion != "" && !env.createRefused(MarkerPath(versionFile, file.name))
            ==> MarkerPath(versionFile, file.name) in s.world.disk
                && s.world.disk[MarkerPath(versionFile, file.name)] == fileVersion + "\n")
        && (|s.world.runs| == |w.runs| + 1 || |s.world.runs| == |w.runs| + 2)
        && (|s.world.runs| == |w.runs| + 2 ==> file.target in s.world.disk)
  {
    var tmp := TempPath(file, unixTime);
    var probe := ProbePath(file.target);
    if !Current(w.disk, env, file, fileVersion, versionFile) && !env.createRefused(probe) {
      var d1 := w.disk - {probe};
      var (d2, fetched) := DownloadFile(d1, env, file.url, tmp);
      if fetched && FileSha256(d2, env, tmp).Success? && EqualFold(FileSha256(d2, env, tmp).value, file.sha256) {
        InstallRestartFailure(World(d2, w.runs), env, file, fileVersion, versionFile, restartCmd, tmp);
      }
    }
  }

  /** A failing restart after replacing an existing target in its own
      directory: when renaming `target.bak` back is allowed, the target holds
      its contents from before the update again, `.bak` is gone and the
      command has run twice; when that rename is refused, the new file stays
      and the command has run once. */
  lemma InstallRollback(w: World, env: Env, file: FileUpdate, fileVersion: string, versionFile: string,
                        restartCmd: string, tmp: string)
    requires Dir(tmp) == Dir(file.target) && tmp != file.target && tmp != BackupPath(file.target)
    requires tmp in w.disk && file.target in w.disk
    requires !env.renameRefused(file.target, BackupPath(file.target)) && !env.renameRefused(tmp, file.target)
    requires MarkerPath(versionFile, file.name) != file.target
    requires MarkerPath(versionFile, file.name) != BackupPath(file.target)
    ensures var s := Install(w, env, file, fileVersion, versionFile, restartCmd, tmp);
      s.outcome.err == Some(RestartFailed) ==>
        && (!env.renameRefused(BackupPath(file.target), file.target) ==>
              && file.target in s.world.disk && s.world.disk[file.target] == w.disk[file.target]
              && BackupPath(file.target) !in s.world.disk
              && s.world.runs == w.runs + [Fields(restartCmd), Fields(restartCmd)])
        && (env.renameRefused(BackupPath(file.target), file.target) ==>
              && file.target in s.world.disk && s.world.disk[file.target] == w.disk[tmp]
              && s.world.runs == w.runs + [Fields(restartCmd)])
  {
    var target := file.target;
    var bak := BackupPath(target);
    var marker := MarkerPath(versionFile, file.name);
    AtomicReplaceKeepsBackup(w.disk, env, tmp, target);
    var rep := AtomicReplace(w.disk, env, tmp, target);
    assert rep.err.None? && rep.backup == bak;
    assert rep.disk[bak] == w.disk[target] && rep.disk[target] == w.disk[tmp];
    var d4 := if fileVersion != "" then WriteVersion(rep.disk, env, marker, fileVersion).0 else rep.disk;
    assert bak in d4 && d4[bak] == w.disk[target];
    assert target in d4 && d4[target] == w.disk[tmp];
    var r := Restart(World(d4, w.runs), env, target, restartCmd, bak);
    assert Install(w, env, file, fileVersion, versionFile, restartCmd, tmp) == r;
    RestartOutcome(World(d4, w.runs), env, target, restartCmd, bak);
  }

  /** `InstallRollback` for the whole of `updateFile`: after a failing
      restart the target holds its contents from before the update whenever
      the backup could be renamed back. */
  lemma UpdateFileRollback(w: World, env: Env, file: FileUpdate, fileVersion: string, versionFile: string,
                           restartCmd: string, unixTime: int)
    requires Dir(TempPath(file, unixTime)) == Dir(file.target)
    requires TempPath(file, unixTime) != file.target && TempPath(file, unixTime) != BackupPath(file.target)
    requires file.target in w.disk && file.target != ProbePath(file.target)
    requires !env.renameRefused(file.target, BackupPath(file.target))
    requires !env.renameRefused(TempPath(file, unixTime), file.target)
    requires MarkerPath(versionFile, file.name) != file.target
    requires MarkerPath(versionFile, file.name) != BackupPath(file.target)
    ensures var s := UpdateFile(w, env, file, fileVersion, versionFile, restartCmd, unixTime);
      s.outcome.err == Some(RestartFailed) ==>
        && (!env.renameRefused(BackupPath(file.target), file.target) ==>
              && file.target in s.world.disk && s.world.disk[file.target] == w.disk[file.target]
              && BackupPath(file.target) !in s.world.disk
              && s.world.runs == w.runs + [Fields(restartCmd), Fields(restartCmd)])
        && (env.renameRefused(BackupPath(file.target), file.target) ==>
              && env.download(file.url).Some?
              && file.target in s.world.disk && s.world.disk[file.target] == env.download(file.url).value
              && s.world.runs == w.runs + [Fields(restartCmd)])
  {
    var tmp := TempPath(file, unixTime);
    var probe := ProbePath(file.target);
    if !Current(w.disk, env, file, fileVersion, versionFile) && !env.createRefused(probe) {
      var d1 := w.disk - {probe};
      var (d2, fetched) := DownloadFile(d1, env, file.url, tmp);
      if fetched && FileSha256(d2, env, tmp).Success? && EqualFold(FileSha256(d2, env, tmp).value, file.sha256) {
        assert d2 == d1[tmp := env.download(file.url).value];
        assert file.target in d2 && d2[file.target] == w.disk[file.target];
        assert UpdateFile(w, env, file, fileVersion, versionFile, restartCmd, unixTime)
            == Install(World(d2, w.runs), env, file, fileVersion, versionFile, restartCmd, tmp);
        InstallRollback(World(d2, w.runs), env, file, fileVersion, versionFile, restartCmd, tmp);
      }
    }
  }

  /** A restart failure is not retried: the marker was advanced before the
      restart, so the next attempt at the same version skips the entry,
      even when the old file was renamed back onto the target. */
  lemma RestartFailureNotRetried(w: World, env: Env, file: FileUpdate, fileVersion: string, versionFile: string,
                                 restartCmd: string, unixTime: int, unixTime2: int)
    requires MarkerPath(versionFile, file.name) != file.target
    requires MarkerPath(versionFile, file.name) != BackupPath(file.target)
    requires fileVersion != "" && Trimmed(fileVersion)
    requires !env.createRefused(MarkerPath(versionFile, file.name)) && !env.readRefused(MarkerPath(versionFile, file.name))
    ensures var s := UpdateFile(w, env, file, fileVersion, versionFile, restartCmd, unixTime);
      s.outcome.err == Some(RestartFailed) ==>
        UpdateFile(s.world, env, file, fileVersion, versionFile, restartCmd, unixTime2)
        == Step(s.world, FileOutcome(false, None))
  {
    var s := UpdateFile(w, env, file, fileVersion, versionFile, restartCmd, unixTime);
    if s.outcome.err == Some(RestartFailed) {
      UpdateFileRestartFailure(w, env, file, fileVersion, versionFile, restartCmd, unixTime);
      MarkerRoundTrip(fileVersion);
      UpdateFileSkips(s.world, env, file, fileVersion, versionFile, restartCmd, unixTime2);
    }
  }

  // -------------------------------------------------------------- checkUpdate

  datatype CycleError =
    | FetchFailed
    | InvalidConfig(reason: ValidationError)
    | GlobalRestartFailed
    | FileFailed(cause: UpdateError)

  /** The files and commands after one `checkUpdate`, and the error it returns. */
  datatype Cycle = Cycle(world: World, err: Option<CycleError>)

  /** The version an entry is installed under: its own, else the manifest's. */
  function EffectiveVersion(cfg: Config, f: FileUpdate): string
  {
    if f.version != "" then f.version else cfg.version
  }

  /** The world after the first entries of the loop, and their outcomes. */
  datatype Pass = Pass(world: World, outcomes: seq<FileOutcome>)

  /** A loop that hands each index in turn, with the world the earlier turns
      left, to `step`, and collects the outcomes in order. */
  function Scan(w: World, step: (World, nat) -> Step, n: nat): (p: Pass)
    ensures |p.outcomes| == n
  {
    if n == 0 then Pass(w, [])
    else
      var p := Scan(w, step, n - 1);
      var s := step(p.world, n - 1);
      Pass(s.world, p.outcomes + [s.outcome])
  }

  /** Entry `i` of the manifest handled on `w`, with its effective version,
      the manifest's restart command and the clock reading `clock(i)`.
      Indices past the manifest are never reached. */
  function Entry(w: World, env: Env, cfg: Config, versionFile: string, clock: nat -> int, i: nat): Step
  {
    if i < |cfg.files| then
      var f := cfg.files[i];
      UpdateFile(w, env, f, EffectiveVersion(cfg, f), versionFile, cfg.restartCmd, clock(i))
    else Step(w, FileOutcome(false, None))
  }

  function EntryStep(env: Env, cfg: Config, versionFile: string, clock: nat -> int): (World, nat) -> Step
  {
    (v: World, i: nat) => Entry(v, env, cfg, versionFile, clock, i)
  }

  /** `checkUpdate`'s loop over the first `n` entries, in manifest order; an
      entry's failure does not stop the ones after it. */
  function ProcessFiles(w: World, env: Env, cfg: Config, versionFile: string, clock: nat -> int, n: nat): Pass
    requires n <= |cfg.files|
  {
    Scan(w, EntryStep(env, cfg, versionFile, clock), n)
  }

  /** The entry reported success (the `updated` flag of the loop). */
  predicate Installed(o: FileOutcome)
  {
    o.err.None? && o.updated
  }

  predicate AnyInstalled(outcomes: seq<FileOutcome>)
  {
    exists i :: 0 <= i < |outcomes| && Installed(outcomes[i])
  }

  /** `lastErr`: the error of the last entry that failed. */
  function LastError(outcomes: seq<FileOutcome>): (e: Option<UpdateError>)
    ensures e.None? <==> forall i :: 0 <= i < |outcomes| ==> outcomes[i].err.None?
    ensures e.Some? ==> exists i :: 0 <= i < |outcomes| && outcomes[i].err == e
                          && forall j :: i < j < |outcomes| ==> outcomes[j].err.None?
  {
    if outcomes == [] then None
    else if outcomes[|outcomes| - 1].err.Some? then outcomes[|outcomes| - 1].err
    else LastError(outcomes[..|outcomes| - 1])
  }

  lemma AnyInstalledAppend(outcomes: seq<FileOutcome>, o: FileOutcome)
    ensures AnyInstalled(outcomes + [o]) <==> AnyInstalled(outcomes) || Installed(o)
  {
    var all := outcomes + [o];
    assert all[|outcomes|] == o;
    assert forall i :: 0 <= i < |outcomes| ==> all[i] == outcomes[i];
  }

  lemma LastErrorAppend(outcomes: seq<FileOutcome>, o: FileOutcome)
    ensures LastError(outcomes + [o]) == if o.err.Some? then o.err else LastError(outcomes)
  {
    assert (outcomes + [o])[..|outcomes|] == outcomes;
  }

  /** `checkUpdate(cfgURL, versionFile)`, where `fetched` is what `fetchConfig`
      returned (None when fetching or decoding failed). */
  function CheckUpdate(w: World, env: Env, fetched: Option<Config>, versionFile: string, clock: nat -> int): Cycle
  {
    if fetched.None? then Cycle(w, Some(FetchFailed))
    else
      var cfg := fetched.value;
      var invalid := ValidateConfig(cfg, env.urlParses);
      if invalid.Some? then Cycle(w, Some(InvalidConfig(invalid.value)))
      else if cfg.version == LocalVersionOrNone(w.disk, env, versionFile) then Cycle(w, None)
      else
        var p := ProcessFiles(w, env, cfg, versionFile, clock, |cfg.files|);
        Finish(p, env, cfg, versionFile)
  }

  /** `checkUpdate` after the loop: the global restart and the aggregate
      marker, both only when some entry was installed. */
  function Finish(p: Pass, env: Env, cfg: Config, versionFile: string): Cycle
  {
    var last := LastError(p.outcomes);
    var fileErr := if last.Some? then Some(FileFailed(last.value)) else None;
    if !AnyInstalled(p.outcomes) then Cycle(p.world, fileErr)
    else
      var (runs1, restarted) := if cfg.restartCmd != "" then RunCommand(p.world.runs, env, cfg.restartCmd)
                                else (p.world.runs, true);
      if !restarted then Cycle(World(p.world.disk, runs1), Some(GlobalRestartFailed))
      else Cycle(World(WriteVersion(p.world.disk, env, versionFile, cfg.version).0, runs1), fileErr)
  }

  lemma ScanStep(w: World, step: (World, nat) -> Step, n: nat)
    requires 0 < n
    ensures Scan(w, step, n).outcomes[..n - 1] == Scan(w, step, n - 1).outcomes
  {
    var p := Scan(w, step, n - 1);
    var s := step(p.world, n - 1);
    assert (p.outcomes + [s.outcome])[..n - 1] == p.outcomes;
  }

  lemma PrefixOfPrefix<T>(s: seq<T>, k: nat, m: nat)
    requires m <= k <= |s|
    ensures s[..k][..m] == s[..m]
  {
  }

  /** Later turns do not change the outcomes of earlier ones. */
  lemma {:induction false} ScanPrefix(w: World, step: (World, nat) -> Step, m: nat, n: nat)
    requires m <= n
    ensures Scan(w, step, n).outcomes[..m] == Scan(w, step, m).outcomes
  {
    var all := Scan(w, step, n).outcomes;
    if m < n {
      ScanPrefix(w, step, m, n - 1);
      ScanStep(w, step, n);
      PrefixOfPrefix(all, n - 1, m);
    } else {
      assert all[..m] == all;
    }
  }

  /** Turn `i` sees the world the turns before it left. */
  lemma ScanOrder(w: World, step: (World, nat) -> Step, n: nat, i: nat)
    requires i < n
    ensures Scan(w, step, n).outcomes[i] == step(Scan(w, step, i).world, i).outcome
  {
    ScanPrefix(w, step, i + 1, n);
    var all := Scan(w, step, n).outcomes;
    assert all[i] == all[..i + 1][i];
  }

  /** When every turn reports the quiet outcome, and a quiet turn changes
      nothing and does not depend on which of two steps is taken, the loop
      changes nothing and both steps give the same pass. */
  lemma {:induction false} ScanQuiet(w: World, step: (World, nat) -> Step, step2: (World, nat) -> Step, n: nat)
    requires forall i :: 0 <= i < n ==> Scan(w, step, n).outcomes[i] == FileOutcome(false, None)
    requires forall i: nat :: i < n && step(w, i).outcome == FileOutcome(false, None) ==>
               step(w, i).world == w && step2(w, i) == step(w, i)
    ensures Scan(w, step, n).world == w
    ensures Scan(w, step2, n) == Scan(w, step, n)
  {
    if n > 0 {
      var p := Scan(w, step, n - 1);
      var all := Scan(w, step, n);
      ScanStep(w, step, n);
      assert forall i :: 0 <= i < n - 1 ==> p.outcomes[i] == all.outcomes[..n - 1][i];
      ScanQuiet(w, step, step2, n - 1);
      assert all.outcomes[n - 1] == step(w, n - 1).outcome;
    }
  }

  /** One iteration of the loop: entry `n` handled on the world the first
      `n` entries left. */
  lemma ProcessFilesNext(w: World, env: Env, cfg: Config, versionFile: string, clock: nat -> int, n: nat)
    requires n < |cfg.files|
    ensures var p := ProcessFiles(w, env, cfg, versionFile, clock, n);
      var f := cfg.files[n];
      var s := UpdateFile(p.world, env, f, EffectiveVersion(cfg, f), versionFile, cfg.restartCmd, clock(n));
      ProcessFiles(w, env, cfg, versionFile, clock, n + 1) == Pass(s.world, p.outcomes + [s.outcome])
  {
    var p := ProcessFiles(w, env, cfg, versionFile, clock, n);
    assert EntryStep(env, cfg, versionFile, clock)(p.world, n) == Entry(p.world, env, cfg, versionFile, clock, n);
  }

  /** Entry `i` is handled on the world the entries before it left, with its
      effective version and the manifest's restart command. */
  lemma ProcessFilesOrder(w: World, env: Env, cfg: Config, versionFile: string,
                          clock: nat -> int, n: nat, i: nat)
    requires i < n <= |cfg.files|
    ensures var f := cfg.files[i];
      ProcessFiles(w, env, cfg, versionFile, clock, n).outcomes[i]
      == UpdateFile(ProcessFiles(w, env, cfg, versionFile, clock, i).world, env, f, EffectiveVersion(cfg, f),
                    versionFile, cfg.restartCmd, clock(i)).outcome
  {
    var step := EntryStep(env, cfg, versionFile, clock);
    ScanOrder(w, step, n, i);
    var v := Scan(w, step, i).world;
    assert step(v, i) == Entry(v, env, cfg, versionFile, clock, i);
  }

  /** A cycle that fails to fetch, rejects the manifest, or finds the
      aggregate marker already at the manifest's version changes nothing. */
  lemma CycleGates(w: World, env: Env, fetched: Option<Config>, versionFile: string, clock: nat -> int)
    ensures var c := CheckUpdate(w, env, fetched, versionFile, clock);
      && (fetched.None? ==> c == Cycle(w, Some(FetchFailed)))
      && (fetched.Some? && ValidateConfig(fetched.value, env.urlParses).Some? ==>
            c == Cycle(w, Some(InvalidConfig(ValidateConfig(fetched.value, env.urlParses).value))))
      && ((fetched.Some? && ValidateConfig(fetched.value, env.urlParses).None?
           && fetched.value.version == LocalVersionOrNone(w.disk, env, versionFile)) ==> c == Cycle(w, None))
      && (c.err.Some? && c.err.value.InvalidConfig? ==> fetched.Some? && !WellFormed(fetched.value, env.urlParses))
  {
    if fetched.Some? {
      ValidateConfigAccepts(fetched.value, env.urlParses);
    }
  }

  /** When no entry is installed, neither the global restart nor the
      aggregate marker happens: the cycle ends with the loop's world and the
      last entry error. */
  lemma CycleWithoutInstall(p: Pass, env: Env, cfg: Config, versionFile: string)
    requires forall i :: 0 <= i < |p.outcomes| ==> !Installed(p.outcomes[i])
    ensures var c := Finish(p, env, cfg, versionFile);
      && c.world == p.world
      && (c.err.None? <==> forall i :: 0 <= i < |p.outcomes| ==> p.outcomes[i].err.None?)
  {
  }

  /** When some entry was installed and the global restart succeeds, the
      aggregate marker is written even if other entries failed, and the
      cycle still returns the last entry error. */
  lemma CycleMarksAfterInstall(p: Pass, env: Env, cfg: Config, versionFile: string, i: nat)
    requires i < |p.outcomes| && Installed(p.outcomes[i])
    requires cfg.restartCmd == "" || Fields(cfg.restartCmd) == []
             || env.commandSucceeds(|p.world.runs|, Fields(cfg.restartCmd))
    requires !env.createRefused(versionFile)
    ensures var c := Finish(p, env, cfg, versionFile);
      && versionFile in c.world.disk && c.world.disk[versionFile] == cfg.version + "\n"
      && (c.err.None? <==> forall j :: 0 <= j < |p.outcomes| ==> p.outcomes[j].err.None?)
      && (c.err.Some? ==>
            && c.err.value.FileFailed?
            && exists j :: 0 <= j < |p.outcomes| && Some(c.err.value.cause) == p.outcomes[j].err
                           && forall k :: j < k < |p.outcomes| ==> p.outcomes[k].err.None?)
  {
    assert AnyInstalled(p.outcomes);
  }

  /** A failing global restart is reported as such and the aggregate marker
      is left alone. */
  lemma CycleGlobalRestartFails(p: Pass, env: Env, cfg: Config, versionFile: string, i: nat)
    requires i < |p.outcomes| && Installed(p.outcomes[i])
    requires Fields(cfg.restartCmd) != [] && !env.commandSucceeds(|p.world.runs|, Fields(cfg.restartCmd))
    ensures var c := Finish(p, env, cfg, versionFile);
      && c.err == Some(GlobalRestartFailed)
      && c.world == World(p.world.disk, p.world.runs + [Fields(cfg.restartCmd)])
  {
    assert AnyInstalled(p.outcomes);
    assert cfg.restartCmd != "";
  }

  /** Running a completed cycle again with the same manifest does nothing,
      provided the version has no surrounding white space (the marker is
      read back trimmed) and the aggregate marker can be written and read. */
  lemma CycleIdempotent(w: World, env: Env, cfg: Config, versionFile: string, clock: nat -> int, clock2: nat -> int)
    requires Trimmed(cfg.version)
    requires !env.createRefused(versionFile) && !env.readRefused(versionFile)
    requires CheckUpdate(w, env, Some(cfg), versionFile, clock).err.None?
    ensures var c := CheckUpdate(w, env, Some(cfg), versionFile, clock);
      CheckUpdate(c.world, env, Some(cfg), versionFile, clock2) == Cycle(c.world, None)
  {
    var c := CheckUpdate(w, env, Some(cfg), versionFile, clock);
    if cfg.version != LocalVersionOrNone(w.disk, env, versionFile) {
      var p := ProcessFiles(w, env, cfg, versionFile, clock, |cfg.files|);
      if AnyInstalled(p.outcomes) {
        assert c.world.disk[versionFile] == cfg.version + "\n";
        MarkerRoundTrip(cfg.version);
      } else {
        // nothing installed and no entry failed: only possible when every
        // entry was skipped, so the manifest's version was not written
        assert LastError(p.outcomes).None?;
        AllSkipped(w, env, cfg, versionFile, clock, clock2, |cfg.files|);
      }
    }
  }

  /** An entry that reports neither success nor an error was skipped: its
      marker already held its version and nothing changed. */
  lemma UpdateFileQuiet(w: World, env: Env, file: FileUpdate, fileVersion: string, versionFile: string,
                        restartCmd: string, unixTime: int)
    ensures var s := UpdateFile(w, env, file, fileVersion, versionFile, restartCmd, unixTime);
      && (s.outcome == FileOutcome(false, None) <==> Current(w.disk, env, file, fileVersion, versionFile))
      && (s.outcome == FileOutcome(false, None) ==> s.world == w)
  {
    var tmp := TempPath(file, unixTime);
    var probe := ProbePath(file.target);
    if !Current(w.disk, env, file, fileVersion, versionFile) && !env.createRefused(probe) {
      var d1 := w.disk - {probe};
      var (d2, fetched) := DownloadFile(d1, env, file.url, tmp);
      if fetched && FileSha256(d2, env, tmp).Success? && EqualFold(FileSha256(d2, env, tmp).value, file.sha256) {
        InstallOutcome(World(d2, w.runs), env, file, fileVersion, versionFile, restartCmd, tmp);
      }
    }
  }

  /** A loop in which every entry was skipped changes nothing, whatever the
      clock says. */
  lemma AllSkipped(w: World, env: Env, cfg: Config, versionFile: string,
                   clock: nat -> int, clock2: nat -> int, n: nat)
    requires n <= |cfg.files|
    requires forall i :: 0 <= i < n ==> ProcessFiles(w, env, cfg, versionFile, clock, n).outcomes[i] == FileOutcome(false, None)
    ensures ProcessFiles(w, env, cfg, versionFile, clock, n).world == w
    ensures ProcessFiles(w, env, cfg, versionFile, clock2, n) == ProcessFiles(w, env, cfg, versionFile, clock, n)
  {
    var step := EntryStep(env, cfg, versionFile, clock);
    var step2 := EntryStep(env, cfg, versionFile, clock2);
    assert ProcessFiles(w, env, cfg, versionFile, clock, n) == Scan(w, step, n);
    assert ProcessFiles(w, env, cfg, versionFile, clock2, n) == Scan(w, step2, n);
    forall i: nat | i < n && step(w, i).outcome == FileOutcome(false, None)
      ensures step(w, i).world == w && step2(w, i) == step(w, i)
    {
      EntryQuiet(w, env, cfg, versionFile, clock, clock2, i);
    }
    ScanQuiet(w, step, step2, n);
  }

  /** A skipped entry changes nothing and does not look at the clock. */
  lemma EntryQuiet(w: World, env: Env, cfg: Config, versionFile: string,
                   clock: nat -> int, clock2: nat -> int, i: nat)
    requires i < |cfg.files|
    ensures var s := Entry(w, env, cfg, versionFile, clock, i);
      s.outcome == FileOutcome(false, None) ==>
        s.world == w && Entry(w, env, cfg, versionFile, clock2, i) == s
  {
    var f := cfg.files[i];
    var fv := EffectiveVersion(cfg, f);
    UpdateFileQuiet(w, env, f, fv, versionFile, cfg.restartCmd, clock(i));
    if Current(w.disk, env, f, fv, versionFile) {
      UpdateFileSkips(w, env, f, fv, versionFile, cfg.restartCmd, clock2(i));
    }
  }

  /** Why `CycleIdempotent` needs a trimmed version: a manifest version with
      a leading blank is written verbatim but read back without it, so the
      next cycle sees a different version and runs the loop again. */
  lemma PaddedVersionRereadsDifferently(d: Disk, env: Env, versionFile: string)
    requires !env.createRefused(versionFile) && !env.readRefused(versionFile)
    ensures LocalVersionOrNone(WriteVersion(d, env, versionFile, " 1.0").0, env, versionFile) == "1.0" != " 1.0"
  {
    var v := " 1.0";
    MarkerReadBack(v);
    PaddedTrim();
    var d2 := WriteVersion(d, env, versionFile, v).0;
    assert d2[versionFile] == v + "\n";
  }

  lemma PaddedTrim()
    ensures TrimSpace(" 1.0") == "1.0"
  {
    var v := " 1.0";
    var u := "1.0";
    assert TrimLeft(v) == u by {
      assert v[1..] == u && IsSpace(v[0]) && !IsSpace(u[0]);
    }
    assert TrimRight(u) == u by {
      assert !IsSpace(u[2]);
    }
  }
}
