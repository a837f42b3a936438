# proj-ota: the update agent, its process supervisor and the manifest generator

proj-ota delivers binaries to devices over the air. It has three parts, and
this project models each of them.

- **The manifest generator** (`ota-server/update-version.py`). It turns
  `--file path:name:target` arguments into manifest entries and writes them
  as `version.yaml`. Each entry has a name, a download URL, a SHA-256, a
  target path and an optional version of its own. The document may also
  carry a global `restart_cmd`.
- **The agent** (`ota-agent/main.go`). It fetches the manifest and
  validates it. It compares the manifest's version with a local marker
  file. Then, entry by entry, it downloads the file, checks its digest,
  swaps it into place keeping a `.bak` backup, advances a per-file marker
  and runs the restart command. A restart that fails rolls the backup
  back. When some entry was installed, the agent runs the global restart
  and writes the aggregate marker.
- **The supervisor** (`ota-agent/process_manager.go`). It launches a
  command line and relaunches it when it exits, up to a limit. A registry
  keeps at most one managed command current.

Layout:

- `common.dfy`: `Option` and `Result`.
- `retry.dfy`: `retryHTTPRequest` on its own, as a loop over the replies
  of successive calls. The rest of the model does not call it. There,
  what a URL yields after the retries is an oracle of `Env`.
- `strings.dfy`: Python's `split`/`join` on one separator, with both round
  trips.
- `gotext.dfy`: the parts of Go's `strings` package the agent uses:
  `TrimSpace`, `Fields`, `EqualFold`, byte length, the digest format and
  decimal printing.
- `gopaths.dfy`: `filepath.Dir`, `Base` and `Join`.
- `manifest.dfy`: the manifest and `validateConfig`.
- `agent_model.dfy`: the agent's steps as functions over an explicit world.
  The world holds the files (a map from path to contents) and the log of
  commands run. Everything the agent cannot decide itself comes from an
  `Env`: host refusals, download results, digests, command exit status and
  `url.Parse`.
- `agent_host.dfy`: the same steps as methods of a `Host` class whose
  `disk` and `runs` fields change in place. Each method is proved to leave
  the host exactly as the matching `AgentModel` function says.
- `supervisor.dfy`: `ProcessManager` and the registry, as classes.
- `manifest_gen.dfy`: spec parsing, entry assembly, the choice of restart
  command, and `generate_yaml_config`.

Points where the model decides something the Go code and its comments leave open:

- A read error on a marker counts as "no version". This is what the code
  does with the error it gets.
- When every entry was skipped, no aggregate marker is written, so the next
  cycle runs the loop again. It skips every entry again and changes
  nothing (`AgentModel.CycleIdempotent`).
- A marker is written as the version plus a newline and read back trimmed.
  So a cycle repeats cleanly only for a version without surrounding white
  space (`AgentModel.PaddedVersionRereadsDifferently`).
- A restart that fails still leaves the per-file marker at the new version,
  because the marker is written before the restart. The next cycle
  therefore skips that entry even after a rollback
  (`AgentModel.RestartFailureNotRetried`).

## Model

| member | source | states |
|---|---|---|
| Retry.RetryHttpRequest | ota-agent/main.go:68-87 | At most `maxRetries` calls and one sleep fewer than calls. Success exactly when some call within the budget answers 200, and then the response is that of the last call made, with every earlier call failing. On failure all `maxRetries` calls were made and the error carries the count and the last call's failure. |
| GoText.TrimSpace | ota-agent/main.go:122-131 | The trimmed text starts and ends with a non-space. |
| GoText.TrimSpaceFixed | ota-agent/main.go:122-131 | Trimming leaves a string unchanged iff it has no white space at either end. |
| GoText.MarkerReadBack | ota-agent/main.go:122-139 | A written marker (version + "\n") reads back as the trimmed version. |
| GoText.MarkerRoundTrip | ota-agent/main.go:122-139 | A version without surrounding white space survives a write and a read of its marker. |
| GoText.FieldsEmpty | ota-agent/main.go:232-241 | A command line has no fields iff it is empty or all white space, which is when `runCommand` runs nothing. |
| GoText.FieldsCover | ota-agent/main.go:232-241 | The fields hold exactly the non-space characters of the command line, in order. |
| GoText.FieldsAreWords | ota-agent/main.go:232-241 | Every field is a non-empty run without white space. |
| GoText.FieldsOfWords | ota-agent/main.go:232-241 | Non-empty words without white space, joined by blanks, split back into exactly those words. So the fields break at white space and nowhere else. |
| GoText.Utf8Len | ota-agent/main.go:325-327 | The byte length used for the 100-byte version limit lies between one and four bytes per character, and is one per character for ASCII. |
| Manifest.ValidateConfigAccepts | ota-agent/main.go:320-362 | `validateConfig` accepts a manifest iff its version is non-empty and at most 100 bytes, it has entries, and every entry has a name, url and target, a parseable http(s) URL and a 64-digit hex digest. |
| Manifest.ValidateConfigReportsFirst | ota-agent/main.go:335-359 | A per-entry error names the first bad entry: every earlier entry is acceptable, and the error is the first check that entry fails. |
| Manifest.DuplicateNamesAccepted | ota-agent/main.go:320-362 | Entry names need not be distinct. |
| AgentHost.Host.Rename | ota-agent/main.go:278-317 | `os.Rename`: succeeds iff the source exists and the host allows it; the destination then holds the source's contents and the source is gone. |
| AgentHost.Host.Remove | ota-agent/main.go:278-317 | `os.Remove`: the path is gone and nothing else changes. |
| AgentHost.Host.Create | ota-agent/main.go:133-139 | Creating a file: the path holds the contents unless the host refuses. |
| AgentHost.Host.ReadLocalVersion | ota-agent/main.go:122-131 | A missing marker reads as ""; an unreadable one is an error; otherwise the trimmed contents, which are always trimmed. |
| AgentHost.Host.WriteLocalVersion | ota-agent/main.go:133-139 | The marker holds the version followed by a newline. |
| AgentHost.Host.CheckWritePermission | ota-agent/main.go:245-276 | Creating the sentinel beside the target decides the answer; the sentinel is removed again. |
| AgentHost.Host.DownloadFile | ota-agent/main.go:168-217 | The destination holds the downloaded body when the fetch and the create succeed; otherwise nothing changes. |
| AgentHost.Host.FileSha256 | ota-agent/main.go:219-230 | The digest of the file's contents, or an error when the file is missing or unreadable. |
| AgentHost.Host.RunCommand | ota-agent/main.go:232-241 | A command line without fields succeeds and runs nothing. Otherwise exactly its fields are run, as one new entry of the command log. |
| AgentHost.Host.AtomicReplace | ota-agent/main.go:278-317 | Leaves the files, the reported backup and the error as `AgentModel.AtomicReplace` says. |
| AgentModel.AtomicReplaceKeepsBackup | ota-agent/main.go:278-317 | Replacing an existing target: the old `.bak` is dropped, `.bak` holds the old contents, the target holds the new file, the new file's name is gone, and nothing else changes. |
| AgentModel.AtomicReplaceFreshInstall | ota-agent/main.go:290-308 | With no target yet: no backup is reported and `.bak` is untouched; success iff the rename is allowed, and then only the new file moves. |
| AgentModel.AtomicReplaceRestores | ota-agent/main.go:290-308 | A failed final rename after a backup renames the backup back, so the target holds its old contents and `.bak` is gone. |
| AgentModel.AtomicReplaceBackup | ota-agent/main.go:278-317 | The reported backup is either none or `target.bak`. |
| AgentModel.AtomicReplaceInstalls | ota-agent/main.go:278-317 | Whenever `atomicReplace` reports success, including across directories, the target holds the new file's contents. |
| AgentHost.Host.UpdateFile | ota-agent/main.go:365-454 | The files, command log and `(updated, err)` result are exactly `AgentModel.UpdateFile`'s. |
| AgentHost.Host.Install | ota-agent/main.go:414-451 | The replace, marker and restart part of `updateFile`, exactly as `AgentModel.Install`. |
| AgentHost.Host.Restart | ota-agent/main.go:435-451 | The restart and rollback part of `updateFile`, exactly as `AgentModel.Restart`. |
| AgentModel.UpdateFileSkips | ota-agent/main.go:367-383 | An entry whose marker already holds its non-empty version is skipped: no error, and nothing changes. |
| AgentModel.UpdateFileQuiet | ota-agent/main.go:365-454 | `updateFile` returns `(false, nil)` iff the entry was current, and then it changed nothing. |
| AgentModel.UpdateFileVerifyGate | ota-agent/main.go:393-411 | A failed download, an unreadable staging file or a checksum mismatch leaves no trace apart from removing the staging file and the sentinel. No command runs and no marker moves. |
| AgentModel.UpdateFileRejectsMismatch | ota-agent/main.go:403-411 | A digest that differs from the manifest's, ignoring case, is reported as a mismatch with both values, and the target is untouched. |
| AgentModel.UpdateFileInstallsVerified | ota-agent/main.go:365-454 | An entry reported as updated has its target holding exactly the downloaded bytes, whose digest matches the manifest's. |
| AgentModel.FetchInstallsVerified | ota-agent/main.go:396-432 | The same as `UpdateFileInstallsVerified`, from the download on. |
| AgentModel.InstallInstalls | ota-agent/main.go:416-432 | After a successful install the target holds the staging file's contents. |
| AgentModel.InstallOutcome | ota-agent/main.go:416-451 | After the checksum, the only errors are a failed replace or a failed restart, and no error means updated. |
| AgentModel.RestartOutcome | ota-agent/main.go:435-451 | Success keeps the files. On a failure of a non-empty command, the backup is renamed onto the target and the command is run a second time exactly when there is a backup and that rename is allowed. Otherwise the command ran once and nothing else changed. |
| AgentModel.RestartKeeps | ota-agent/main.go:435-451 | A restart leaves every file other than the target and the backup as it was. |
| AgentModel.InstallRestartFailure | ota-agent/main.go:428-451 | On a restart failure the per-file marker already holds the new version, and the command ran once or twice, with the target present after two runs. When the second run happens is stated by `InstallRollback`. |
| AgentModel.InstallRollback | ota-agent/main.go:416-451 | After replacing an existing target, a failing restart puts the old contents back. If renaming `.bak` back is allowed, the target holds its contents from before the update, `.bak` is gone and the command ran twice. If that rename is refused, the new file stays and the command ran once. |
| AgentModel.UpdateFileRollback | ota-agent/main.go:365-454 | The same as `InstallRollback`, for the whole of `updateFile`: after a failing restart the target holds its contents from before the update whenever the backup could be renamed back, and the downloaded file otherwise. |
| AgentModel.UpdateFileRestartFailure | ota-agent/main.go:365-454 | The same as `InstallRestartFailure`, for the whole of `updateFile`: the marker already holds the new version, and the command ran once or twice. |
| AgentModel.RestartFailureNotRetried | ota-agent/main.go:380-383 | After a restart failure, the next attempt at the same version skips the entry, because its marker was advanced. |
| AgentModel.LastError | ota-agent/main.go:489-506 | `lastErr` is none iff no entry failed; otherwise it is the error of the last entry that failed. |
| AgentHost.Host.UpdateEntries | ota-agent/main.go:489-506 | The loop leaves the host as `ProcessFiles` says; `updated` holds iff some entry was installed, and `lastErr` is the last entry error. |
| AgentModel.ProcessFilesNext | ota-agent/main.go:489-506 | One turn of the loop handles the next entry on the world the earlier entries left. |
| AgentModel.ProcessFilesOrder | ota-agent/main.go:489-506 | Entry `i` is handled, with its effective version and the manifest's restart command, on the world the entries before it left; a failure does not stop later entries. |
| AgentModel.AllSkipped | ota-agent/main.go:489-506 | A loop in which every entry was skipped changes nothing, whatever the clock reads. |
| AgentHost.Host.CheckUpdate | ota-agent/main.go:457-531 | The files, command log and returned error are exactly `AgentModel.CheckUpdate`'s. |
| AgentModel.CycleGates | ota-agent/main.go:457-487 | A failed fetch, a rejected manifest, or an aggregate marker already at the manifest's version each end the cycle with nothing changed. A rejection happens only for a manifest that is not well formed. |
| AgentModel.CycleWithoutInstall | ota-agent/main.go:509-531 | With no entry installed there is no global restart and no aggregate marker, and the cycle fails iff some entry failed. |
| AgentModel.CycleMarksAfterInstall | ota-agent/main.go:509-531 | With an entry installed and a global restart that succeeds, the aggregate marker is written even if other entries failed, and the last entry error is still returned. |
| AgentModel.CycleGlobalRestartFails | ota-agent/main.go:509-515 | A failing global restart is reported as such and the aggregate marker is left alone. |
| AgentModel.CycleIdempotent | ota-agent/main.go:457-531 | A second cycle on a manifest whose cycle succeeded changes nothing, when the version is trimmed and the marker is writable and readable. |
| AgentModel.PaddedVersionRereadsDifferently | ota-agent/main.go:122-139 | A version with a leading blank reads back without it, so the second cycle sees a different local version. |
| Supervisor.ProcessManager.constructor | ota-agent/process_manager.go:31-42 | A new manager is neither running nor stopped, has no restarts and no limit (-1), and a 3-second delay. |
| Supervisor.ProcessManager.SetMaxRestarts | ota-agent/process_manager.go:45-49 | Sets the limit and nothing else. |
| Supervisor.ProcessManager.SetRestartDelay | ota-agent/process_manager.go:52-56 | Sets the delay and nothing else. |
| Supervisor.ProcessManager.Start | ota-agent/process_manager.go:59-71 | Refused iff already running; otherwise running and not stopped. |
| Supervisor.ProcessManager.Stop | ota-agent/process_manager.go:74-112 | A no-op unless running and not stopped; otherwise stopped, the context cancelled, and not running. |
| Supervisor.ProcessManager.IsRunning | ota-agent/process_manager.go:115-119 | Running and not stopped, which under the invariant is just running. |
| Supervisor.ProcessManager.GetRestartCount | ota-agent/process_manager.go:122-126 | The restart count. |
| Supervisor.ProcessManager.StartProcess | ota-agent/process_manager.go:129-147 | A blank command line fails with "empty command" and leaves `cmd` alone. Otherwise `cmd` is its fields, and the launch succeeds iff exec can start it and the context is live. |
| Supervisor.ProcessManager.LaunchAndWait | ota-agent/process_manager.go:150-186 | Ends at once iff stopped. Otherwise it ends in a failed launch, which leaves the manager not running, iff the command is blank, exec refuses it or the context is cancelled. The failure is "empty command" iff the command is blank. It ends in a user stop iff the launch succeeds and a stop reaches the running manager before the process exits. |
| Supervisor.ProcessManager.RestartOrGiveUp | ota-agent/process_manager.go:188-217 | Gives up iff the limit is non-negative and already reached, leaving the manager not running. Otherwise it counts one restart. It ends in a stop during the delay iff a stop reaches the running manager then, and otherwise it launches again. |
| Supervisor.ProcessManager.MonitorIteration | ota-agent/process_manager.go:150-217 | Each ending holds iff its cause does: stopped beforehand, a failed launch, a stop while running, the limit already reached after an unasked exit, or a stop during the delay. Otherwise the turn relaunches. A turn that relaunches adds exactly one restart and one launch. The other turns end supervision, with the count and launches each ending records. |
| Supervisor.ProcessManager.Monitor | ota-agent/process_manager.go:150-218 | The count never decreases. Launches equal restarts, plus one when the process ended by a user stop or the limit. With a limit N the count never exceeds N, at most N + 1 processes are launched, and hitting the limit leaves the count at exactly N. With at least one event, supervision ends before launching iff the manager was stopped, and a blank command ends it with "empty command". A user stop or a stop during the delay needs a running manager. When the events run out, each of them launched a process and counted a restart, none refused the launch or stopped the running manager, and the command was not blank. Conversely, with a live non-blank command, undisturbed events and the limit out of reach, the events run out. |
| Supervisor.Registry.constructor | ota-agent/process_manager.go:221-225 | No manager and no command line. |
| Supervisor.Registry.StartManagedProcess | ota-agent/process_manager.go:229-258 | An empty command is refused and nothing changes. Otherwise the previous manager is stopped and a fresh running manager for the command becomes current, together with its command line. |
| Supervisor.Registry.EnsureManagedProcess | ota-agent/process_manager.go:262-284 | Never an error. An empty command does nothing. A running manager for the same command is kept, with its count. Otherwise a fresh manager is started, and either way a running manager for the command is current. |
| Supervisor.Registry.StopManagedProcess | ota-agent/process_manager.go:287-298 | The previous manager, if any, is no longer running, and both globals are cleared. |
| ManifestGen.PathName | ota-server/update-version.py:170 | `Path(p).name` is a single path component: it has no slash and is never `.`. |
| ManifestGen.PathNameBelow | ota-server/update-version.py:170 | The name of `dir/n` is `n`. |
| ManifestGen.PathNameBare | ota-server/update-version.py:170 | A bare file name is its own name. |
| ManifestGen.ParseFileSpec | ota-server/update-version.py:166-177 | Every parsed spec has a path, a name and a target. |
| ManifestGen.ParseFileSpecs | ota-server/update-version.py:165-177 | One entry per `--file` argument, in order, each parsed as `ParseFileSpec` says. |
| ManifestGen.ParseFullSpec | ota-server/update-version.py:166-177 | Parsing `path:name:target` gives back the three fields. |
| ManifestGen.ParseIgnoresRestartFlag | ota-server/update-version.py:172-177 | A fourth field changes nothing in the parsed entry. |
| ManifestGen.ParsePathOnly | ota-server/update-version.py:169-171 | A bare path gets the path's file name as its name and an empty target. |
| ManifestGen.ParsePathAndName | ota-server/update-version.py:169-171 | `path:name` gets the given name and an empty target. |
| ManifestGen.ParseIgnoresExtraFields | ota-server/update-version.py:166-177 | With three or more fields, the first three are the path, name and target, and any further fields change nothing. |
| ManifestGen.AssembleFileConfigs | ota-server/update-version.py:179-214 | The assembly loop computes `AssembleAll`. No files is an error, and so is the first entry without a path. |
| ManifestGen.AssembleFromEntries | ota-server/update-version.py:190-214 | Assembly succeeds iff every entry has a path, and then yields one entry per file, in order. |
| ManifestGen.AssembleFromFirstMissing | ota-server/update-version.py:191-193 | A failed assembly names the first entry without a path, by its name or "unknown". |
| ManifestGen.AssembleEntryFields | ota-server/update-version.py:196-214 | Each entry carries the command's version, the URL `<base>/ota/<app>/files/<file name>` and the digest of the copy. Its name is the given one, else the file name. Its target is the given one, else `/usr/local/bin/<name>`. |
| ManifestGen.EmptyNameFieldKept | ota-server/update-version.py:170-202 | An empty name field is kept as "", so the default target is `/usr/local/bin/` itself. |
| ManifestGen.RestartCmdPrecedence | ota-server/update-version.py:159-160 | A `restart_cmd` key in the configuration decides the restart line on its own, even when empty. Only an absent key falls back to `RESTART_CMD`. The line appears, last, iff the chosen command is non-empty. |
| ManifestGen.GenerateYamlConfig | ota-server/update-version.py:75-90 | The document is the manifest's lines joined by newlines, with one newline at the end. |
| ManifestGen.YamlLinesShape | ota-server/update-version.py:77-88 | The first lines are `version: "<v>"` and `files:`. A `restart_cmd` line appears iff the command is non-empty, and then it is the last line. |
| ManifestGen.FileBlockShape | ota-server/update-version.py:80-85 | An entry is the name, url, sha256 and target lines in that order, plus a version line iff it has its own version. |
| ManifestGen.BlocksInOrder | ota-server/update-version.py:79-85 | Entries appear in input order. |
| ManifestGen.OwnVersionLine | ota-server/update-version.py:84-85 | An entry has a `version:` line, right after its target, iff its version is set and differs from the manifest's. |
| ManifestGen.DocEndsWithOneNewline | ota-server/update-version.py:90 | The document ends in exactly one newline. |
| ManifestGen.DocSplitsIntoLines | ota-server/update-version.py:90 | When no value holds a newline, splitting the document on newlines gives back exactly its lines. |
| ManifestGen.AssembledHaveNoOwnVersion | ota-server/update-version.py:208-214 | Entries assembled by `main` carry the command's version, so none gets a `version:` line of its own. |

## Left out

- Fetching and decoding the manifest (`fetchConfig`, YAML decoding) are not modelled. `checkUpdate` receives their result as an `Option<Config>`.
- HTTP is not modelled. What a URL serves once `retryHTTPRequest` has run is an oracle of `Env`. Timeouts and the progress logger are left out.
- SHA-256 and `url.Parse` are oracles. Contents are strings, not bytes.
- Directories, `MkdirAll`, permission bits, `Chmod` and `filepath.Clean` are not modelled. Paths are compared as strings.
- The staging file's name takes the clock reading as a parameter, one reading per entry.
- Logging, `main` in both programs, `copy_binary`'s copying, and the writing of `version.yaml` are left out.
- The generator's JSON configuration file is not parsed. Its entries arrive as `FileSpec` values with optional keys, and its `restart_cmd` as an `Option`, where JSON null counts as absent.
- The generator's `app_name`/`version` presence checks and its command-line parsing are left out.
- Concurrency is not modelled: the mutex, the monitor goroutine, signals to the process and `Stop`'s 5-second wait. A `Stop` during the monitor's wait arrives as a flag of the monitor's `Event`.
- Supervisor.ProcessManager.Monitor: driven by a finite sequence of events, one per launched process; it returns None when the events run out.
- Supervisor.ProcessManager.Start: does not model closing the stop channel twice when a stopped manager is started and stopped again, nor `pm.cmd.Wait`'s exit code, which only changes a log message.
- Supervisor.ProcessManager.StartProcess: splits the command line once, when the manager is built, rather than on every launch. The command line never changes, so the result is the same.
- GoText.IsSpace: covers the characters `unicode.IsSpace` accepts. GoText.EqualFold folds ASCII letters only, which is enough for hex digests.
- ManifestGen.GenerateYamlConfig: writes values without escaping, as the source does. A value holding a quote or a newline gives a document that does not parse back. `DocSplitsIntoLines` therefore assumes values without newlines.
- ManifestGen.ParseFileSpec: values in a JSON configuration are taken to be strings, or absent.
