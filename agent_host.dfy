/** The agent's file and process operations (ota-agent/main.go) carried out
    step by step on a host whose files and command log change in place.
    Every method is proved to leave the host exactly as the corresponding
    function of `AgentModel` says, so the lemmas proved there hold of it. */
module AgentHost {
  import opened Common
  import opened GoText
  import opened GoPaths
  import opened Manifest
  import AgentModel

  type Disk = AgentModel.Disk

  class Host {
    /** The files of the host. */
    var disk: Disk
    /** The argument vectors of the commands run so far, oldest first. */
    var runs: seq<seq<string>>
    /** What the host refuses, what URLs serve, what commands exit with. */
    const env: AgentModel.Env

    constructor (files: Disk, env: AgentModel.Env)
      ensures disk == files && runs == [] && this.env == env
    {
      disk := files;
      runs := [];
      this.env := env;
    }

    function State(): AgentModel.World
      reads this
    {
      AgentModel.World(disk, runs)
    }

    // ------------------------------------------------------------ primitives

    /** `os.Rename`. */
    method Rename(src: string, dst: string) returns (ok: bool)
      modifies this
      ensures ok == AgentModel.CanRename(old(disk), env, src, dst)
      ensures disk == (if ok then AgentModel.Renamed(old(disk), src, dst) else old(disk))
      ensures runs == old(runs)
    {
      ok := AgentModel.CanRename(disk, env, src, dst);
      if ok {
        disk := (disk - {src})[dst := disk[src]];
      }
    }

    /** `os.Remove`, its error ignored as everywhere in the agent. */
    method Remove(path: string)
      modifies this
      ensures disk == old(disk) - {path} && runs == old(runs)
    {
      disk := disk - {path};
    }

    /** `os.WriteFile` / `os.Create` followed by a write. */
    method Create(path: string, contents: string) returns (ok: bool)
      modifies this
      ensures ok == !env.createRefused(path)
      ensures disk == (if ok then old(disk)[path := contents] else old(disk)) && runs == old(runs)
    {
      ok := !env.createRefused(path);
      if ok {
        disk := disk[path := contents];
      }
    }

    // ------------------------------------------------------ agent functions

    /** `readLocalVersion`. */
    method ReadLocalVersion(path: string) returns (r: Result<string, AgentModel.IoError>)
      ensures r == AgentModel.LocalVersion(disk, env, path)
      ensures r.Success? ==> Trimmed(r.value)
      ensures path !in disk ==> r == Success("")
    {
      if path !in disk {
        return Success("");
      }
      if env.readRefused(path) {
        return Failure(AgentModel.Unreadable(path));
      }
      r := Success(TrimSpace(disk[path]));
    }

    /** `writeLocalVersion`: the version and a newline. */
    method WriteLocalVersion(path: string, v: string) returns (ok: bool)
      modifies this
      ensures (disk, ok) == AgentModel.WriteVersion(old(disk), env, path, v) && runs == old(runs)
    {
      ok := Create(path, v + "\n");
    }

    /** `checkWritePermission`: create the sentinel next to the target and
      remove it again. */
    method CheckWritePermission(target: string) returns (ok: bool)
      modifies this
      ensures (disk, ok) == AgentModel.CheckWritePermission(old(disk), env, target) && runs == old(runs)
    {
      var probe := Join(Dir(target), ".ota-agent-write-test");
      ok := Create(probe, "");
      if ok {
        Remove(probe);
        assert disk == old(disk) - {probe};
      }
    }

    /** `downloadFile`: fetch (with its retries) and store the body at `dest`. */
    method DownloadFile(url: string, dest: string) returns (ok: bool)
      modifies this
      ensures (disk, ok) == AgentModel.DownloadFile(old(disk), env, url, dest) && runs == old(runs)
    {
      var body := env.download(url);
      if body.None? {
        return false;
      }
      ok := Create(dest, body.value);
    }

    /** `fileSHA256`. */
    method FileSha256(path: string) returns (r: Result<string, AgentModel.IoError>)
      ensures r == AgentModel.FileSha256(disk, env, path)
      ensures r.Success? ==> path in disk && r.value == env.sha256(disk[path])
    {
      if path !in disk || env.readRefused(path) {
        return Failure(AgentModel.Unreadable(path));
      }
      r := Success(env.sha256(disk[path]));
    }

    /** `runCommand`: split on white space; nothing to run is a success. */
    method RunCommand(cmdline: string) returns (ok: bool)
      modifies this
      ensures (runs, ok) == AgentModel.RunCommand(old(runs), env, cmdline) && disk == old(disk)
      ensures Fields(cmdline) == [] ==> ok && runs == old(runs)
      ensures Fields(cmdline) != [] ==> runs == old(runs) + [Fields(cmdline)]
    {
      var parts := Fields(cmdline);
      if |parts| == 0 {
        return true;
      }
      ok := env.commandSucceeds(|runs|, parts);
      runs := runs + [parts];
    }

    /** `atomicReplace(newPath, target)`. */
    method AtomicReplace(newPath: string, target: string) returns (backup: string, err: Option<AgentModel.ReplaceError>)
      modifies this
      ensures AgentModel.Replace(disk, backup, err) == AgentModel.AtomicReplace(old(disk), env, newPath, target)
      ensures runs == old(runs)
    {
      var src := newPath;
      if Dir(target) != Dir(newPath) {
        src := Join(Dir(target), Base(newPath));
        var moved := Rename(newPath, src);
        if !moved {
          return "", Some(AgentModel.MoveFailed);
        }
      }
      backup := target + ".bak";
      if target in disk {
        Remove(backup);
        var saved := Rename(target, backup);
        if !saved {
          return "", Some(AgentModel.BackupFailed);
        }
      } else {
        backup := "";
      }
      var installed := Rename(src, target);
      if !installed {
        if backup != "" {
          var _ := Rename(backup, target);
        }
        return backup, Some(AgentModel.RenameFailed);
      }
      err := None;
    }

    /** `updateFile(file, fileVersion, versionFile, restartCmd)` at clock
      reading `unixTime`. */
    method UpdateFile(file: FileUpdate, fileVersion: string, versionFile: string, restartCmd: string, unixTime: int)
      returns (updated: bool, err: Option<AgentModel.UpdateError>)
      modifies this
      ensures AgentModel.Step(State(), AgentModel.FileOutcome(updated, err))
           == AgentModel.UpdateFile(old(State()), env, file, fileVersion, versionFile, restartCmd, unixTime)
    {
      var marker := versionFile + "." + file.name;
      var local := ReadLocalVersion(marker);
      var localVer := if local.Success? then local.value else "";
      if fileVersion != "" && localVer == fileVersion {
        return false, None;
      }
      var permitted := CheckWritePermission(file.target);
      if !permitted {
        return false, Some(AgentModel.PermissionDenied);
      }
      var tmp := Join(Dir(file.target), ".tmp-" + file.name + "-" + Itoa(unixTime));
      var fetched := DownloadFile(file.url, tmp);
      if !fetched {
        Remove(tmp);
        return false, Some(AgentModel.DownloadFailed);
      }
      var sum := FileSha256(tmp);
      if sum.Failure? {
        Remove(tmp);
        return false, Some(AgentModel.HashFailed(sum.error));
      }
      if !EqualFold(sum.value, file.sha256) {
        Remove(tmp);
        return false, Some(AgentModel.ChecksumMismatch(sum.value, file.sha256));
      }
      assert AgentModel.UpdateFile(old(State()), env, file, fileVersion, versionFile, restartCmd, unixTime)
          == AgentModel.Install(State(), env, file, fileVersion, versionFile, restartCmd, tmp);
      updated, err := Install(file, fileVersion, versionFile, restartCmd, tmp);
    }

    /** `updateFile` once `tmp` holds the verified download. */
    method Install(file: FileUpdate, fileVersion: string, versionFile: string, restartCmd: string, tmp: string)
      returns (updated: bool, err: Option<AgentModel.UpdateError>)
      modifies this
      ensures AgentModel.Step(State(), AgentModel.FileOutcome(updated, err))
           == AgentModel.Install(old(State()), env, file, fileVersion, versionFile, restartCmd, tmp)
    {
      var backup, replaceErr := AtomicReplace(tmp, file.target);
      if replaceErr.Some? {
        Remove(tmp);
        return false, Some(AgentModel.ReplaceFailed(replaceErr.value));
      }
      if fileVersion != "" {
        var _ := WriteLocalVersion(versionFile + "." + file.name, fileVersion);
      }
      updated, err := Restart(file.target, restartCmd, backup);
    }

    /** `updateFile`'s restart and rollback. */
    method Restart(target: string, restartCmd: string, backup: string)
      returns (updated: bool, err: Option<AgentModel.UpdateError>)
      modifies this
      ensures AgentModel.Step(State(), AgentModel.FileOutcome(updated, err))
           == AgentModel.Restart(old(State()), env, target, restartCmd, backup)
    {
      if restartCmd != "" {
        var restarted := RunCommand(restartCmd);
        if !restarted {
          if backup != "" {
            var rolledBack := Rename(backup, target);
            if rolledBack {
              var _ := RunCommand(restartCmd);
            }
          }
          return false, Some(AgentModel.RestartFailed);
        }
      }
      return true, None;
    }

    /** `checkUpdate`'s loop: every entry in manifest order, with the
      `updated` flag and `lastErr` it keeps. */
    method UpdateEntries(cfg: Config, versionFile: string, clock: nat -> int)
      returns (updated: bool, lastErr: Option<AgentModel.UpdateError>)
      modifies this
      ensures var pass := AgentModel.ProcessFiles(old(State()), env, cfg, versionFile, clock, |cfg.files|);
        && State() == pass.world
        && updated == AgentModel.AnyInstalled(pass.outcomes)
        && lastErr == AgentModel.LastError(pass.outcomes)
    {
      ghost var start := State();
      ghost var pass := AgentModel.Pass(start, []);
      updated := false;
      lastErr := None;
      var i := 0;
      while i < |cfg.files|
        invariant 0 <= i <= |cfg.files|
        invariant pass == AgentModel.ProcessFiles(start, env, cfg, versionFile, clock, i)
        invariant State() == pass.world
        invariant updated == AgentModel.AnyInstalled(pass.outcomes)
        invariant lastErr == AgentModel.LastError(pass.outcomes)
      {
        var file := cfg.files[i];
        var fileVersion := if file.version != "" then file.version else cfg.version;
        assert fileVersion == AgentModel.EffectiveVersion(cfg, file);
        ghost var before := State();
        var success, fileErr := UpdateFile(file, fileVersion, versionFile, cfg.restartCmd, clock(i));
        ghost var outcome := AgentModel.FileOutcome(success, fileErr);
        ghost var step := AgentModel.UpdateFile(before, env, file, fileVersion, versionFile, cfg.restartCmd, clock(i));
        assert step.world == State() && step.outcome == outcome;
        AgentModel.ProcessFilesNext(start, env, cfg, versionFile, clock, i);
        AgentModel.AnyInstalledAppend(pass.outcomes, outcome);
        AgentModel.LastErrorAppend(pass.outcomes, outcome);
        pass := AgentModel.Pass(State(), pass.outcomes + [outcome]);
        if fileErr.Some? {
          lastErr := fileErr;
        } else if success {
          updated := true;
        }
        i := i + 1;
      }
    }

    /** `checkUpdate(cfgURL, versionFile)`; `fetched` is what `fetchConfig`
      returned and `clock(i)` the clock reading while entry `i` is handled. */
    method CheckUpdate(fetched: Option<Config>, versionFile: string, clock: nat -> int)
      returns (err: Option<AgentModel.CycleError>)
      modifies this
      ensures AgentModel.Cycle(State(), err) == AgentModel.CheckUpdate(old(State()), env, fetched, versionFile, clock)
    {
      if fetched.None? {
        return Some(AgentModel.FetchFailed);
      }
      var cfg := fetched.value;
      var invalid := ValidateConfig(cfg, env.urlParses);
      if invalid.Some? {
        return Some(AgentModel.InvalidConfig(invalid.value));
      }
      var local := ReadLocalVersion(versionFile);
      var localVer := if local.Success? then local.value else "";
      if cfg.version == localVer {
        return None;
      }
      ghost var start := State();
      var updated, lastErr := UpdateEntries(cfg, versionFile, clock);
      ghost var pass := AgentModel.ProcessFiles(start, env, cfg, versionFile, clock, |cfg.files|);
      assert AgentModel.CheckUpdate(start, env, fetched, versionFile, clock)
          == AgentModel.Finish(pass, env, cfg, versionFile);
      var fileErr := if lastErr.Some? then Some(AgentModel.FileFailed(lastErr.value)) else None;
      if updated && cfg.restartCmd != "" {
        var restarted := RunCommand(cfg.restartCmd);
        if !restarted {
          return Some(AgentModel.GlobalRestartFailed);
        }
      }
      if updated {
        var _ := WriteLocalVersion(versionFile, cfg.version);
      }
      err := fileErr;
    }
  }
}
