/** The manifest the agent fetches (`version.yaml` once decoded) and its
    validation (`validateConfig` in ota-agent/main.go). */
module Manifest {
  import opened Common
  import opened GoText

  /** One entry of `files`: `FileUpdate` in the agent. An empty `version`
      means the entry has none of its own. */
  datatype FileUpdate = FileUpdate(name: string, url: string, sha256: string, target: string, version: string)

  /** The decoded manifest: `Config` in the agent. An empty `restartCmd`
      means no restart command. */
  datatype Config = Config(version: string, files: seq<FileUpdate>, restartCmd: string)

  /** The first rule a manifest breaks; per-file rules carry the entry's index. */
  datatype ValidationError =
    | VersionRequired
    | VersionTooLong
    | FilesRequired
    | NameRequired(index: nat)
    | UrlRequired(index: nat)
    | TargetRequired(index: nat)
    | Sha256Required(index: nat)
    | UrlInvalid(index: nat)
    | UrlScheme(index: nat)
    | Sha256Format(index: nat)
  {
    predicate PerFile()
    {
      !(VersionRequired? || VersionTooLong? || FilesRequired?)
    }
  }

  /** Longest version accepted, in bytes. */
  const MaxVersionLen := 100

  predicate HttpUrl(url: string)
  {
    "http://" <= url || "https://" <= url
  }

  /** The checks on entry `i`, in the order the agent makes them. `urlParses`
      stands for `url.Parse` succeeding. */
  function FileError(f: FileUpdate, i: nat, urlParses: string -> bool): Option<ValidationError>
  {
    if f.name == "" then Some(NameRequired(i))
    else if f.url == "" then Some(UrlRequired(i))
    else if f.target == "" then Some(TargetRequired(i))
    else if f.sha256 == "" then Some(Sha256Required(i))
    else if !urlParses(f.url) then Some(UrlInvalid(i))
    else if !HttpUrl(f.url) then Some(UrlScheme(i))
    else if !IsHex64(f.sha256) then Some(Sha256Format(i))
    else None
  }

  /** The loop over the entries from `from` on, stopping at the first fault. */
  function FirstFileError(files: seq<FileUpdate>, from: nat, urlParses: string -> bool): Option<ValidationError>
    requires from <= |files|
    decreases |files| - from
  {
    if from == |files| then None
    else
      var e := FileError(files[from], from, urlParses);
      if e.Some? then e else FirstFileError(files, from + 1, urlParses)
  }

  /** `validateConfig`: None when the manifest is acceptable. */
  function ValidateConfig(cfg: Config, urlParses: string -> bool): Option<ValidationError>
  {
    if cfg.version == "" then Some(VersionRequired)
    else if Utf8Len(cfg.version) > MaxVersionLen then Some(VersionTooLong)
    else if |cfg.files| == 0 then Some(FilesRequired)
    else FirstFileError(cfg.files, 0, urlParses)
  }

  /** What an acceptable entry is, stated as one conjunction. */
  predicate WellFormedFile(f: FileUpdate, urlParses: string -> bool)
  {
    f.name != "" && f.url != "" && f.target != "" && urlParses(f.url)
    && HttpUrl(f.url) && IsHex64(f.sha256)
  }

  /** What an acceptable manifest is, stated as one conjunction. */
  predicate WellFormed(cfg: Config, urlParses: string -> bool)
  {
    && cfg.version != ""
    && Utf8Len(cfg.version) <= MaxVersionLen
    && |cfg.files| > 0
    && forall i :: 0 <= i < |cfg.files| ==> WellFormedFile(cfg.files[i], urlParses)
  }

  lemma FileErrorNone(f: FileUpdate, i: nat, urlParses: string -> bool)
    ensures FileError(f, i, urlParses).None? <==> WellFormedFile(f, urlParses)
    ensures FileError(f, i, urlParses).Some? ==> FileError(f, i, urlParses).value.PerFile()
    ensures FileError(f, i, urlParses).Some? ==> FileError(f, i, urlParses).value.index == i
  {
  }

  lemma {:induction false} FirstFileErrorNone(files: seq<FileUpdate>, from: nat, urlParses: string -> bool)
    requires from <= |files|
    ensures FirstFileError(files, from, urlParses).None?
        <==> forall i :: from <= i < |files| ==> WellFormedFile(files[i], urlParses)
    decreases |files| - from
  {
    if from < |files| {
      FileErrorNone(files[from], from, urlParses);
      FirstFileErrorNone(files, from + 1, urlParses);
    }
  }

  /** `validateConfig` returns nil exactly for the well-formed manifests. */
  lemma ValidateConfigAccepts(cfg: Config, urlParses: string -> bool)
    ensures ValidateConfig(cfg, urlParses).None? <==> WellFormed(cfg, urlParses)
  {
    FirstFileErrorNone(cfg.files, 0, urlParses);
  }

  lemma {:induction false} FirstFileErrorIsFirst(files: seq<FileUpdate>, from: nat, urlParses: string -> bool)
    requires from <= |files|
    requires FirstFileError(files, from, urlParses).Some?
    ensures var e := FirstFileError(files, from, urlParses).value;
      && e.PerFile() && from <= e.index < |files|
      && FileError(files[e.index], e.index, urlParses) == Some(e)
      && forall j :: from <= j < e.index ==> WellFormedFile(files[j], urlParses)
    decreases |files| - from
  {
    FileErrorNone(files[from], from, urlParses);
    if FileError(files[from], from, urlParses).None? {
      FirstFileErrorIsFirst(files, from + 1, urlParses);
    }
  }

  /** A rejected entry is reported by its index: every entry before it is
      acceptable, and the error is the first check that entry fails. */
  lemma ValidateConfigReportsFirst(cfg: Config, urlParses: string -> bool)
    requires ValidateConfig(cfg, urlParses).Some?
    requires ValidateConfig(cfg, urlParses).value.PerFile()
    ensures var e := ValidateConfig(cfg, urlParses).value;
      && e.index < |cfg.files|
      && FileError(cfg.files[e.index], e.index, urlParses) == Some(e)
      && forall j :: 0 <= j < e.index ==> WellFormedFile(cfg.files[j], urlParses)
  {
    FirstFileErrorIsFirst(cfg.files, 0, urlParses);
  }

  /** Names are not required to be distinct: a manifest listing the same name
      twice is accepted. */
  lemma DuplicateNamesAccepted()
    ensures var sum := seq(64, _ => 'a');
      var f := FileUpdate("app", "https://h/app", sum, "/usr/bin/app", "");
      ValidateConfig(Config("1.0.0", [f, f], ""), _ => true).None?
  {
    var sum := seq(64, _ => 'a');
    var f := FileUpdate("app", "https://h/app", sum, "/usr/bin/app", "");
    assert "https://" <= f.url;
    assert WellFormedFile(f, _ => true);
    ValidateConfigAccepts(Config("1.0.0", [f, f], ""), _ => true);
  }
}
