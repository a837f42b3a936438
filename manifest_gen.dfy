/** The manifest generator of ota-server/update-version.py: the parsing of
    `--file path:name:target[:restart]` specifications, the assembly of one
    manifest entry per file, the choice of the restart command, and
    `generate_yaml_config`, which writes the manifest the agent downloads as
    a line-oriented YAML document. */
module ManifestGen {
  import opened Common
  import opened Strings

  // ------------------------------------------------------------ path names

  /** The path components `pathlib` keeps: empty pieces (doubled or
      trailing slashes) and `.` pieces are dropped. */
  function Kept(pieces: seq<string>): (r: seq<string>)
    ensures |r| <= |pieces|
    ensures forall k :: 0 <= k < |r| ==> r[k] != "" && r[k] != "."
  {
    if pieces == [] then []
    else
      var last := pieces[|pieces| - 1];
      Kept(pieces[..|pieces| - 1]) + (if last == "" || last == "." then [] else [last])
  }

  /** `pathlib.Path(p).name`: the last component, "" when there is none
      (`""`, `.`, `/`). */
  function PathName(p: string): (name: string)
    ensures '/' !in name && name != "."
  {
    var pieces := Split(p, '/');
    var kept := Kept(pieces);
    if kept == [] then ""
    else
      assert kept[|kept| - 1] in pieces by { KeptFrom(pieces); }
      kept[|kept| - 1]
  }

  lemma {:induction false} KeptFrom(pieces: seq<string>)
    ensures forall k :: 0 <= k < |Kept(pieces)| ==> Kept(pieces)[k] in pieces
  {
    if pieces != [] {
      var init := pieces[..|pieces| - 1];
      KeptFrom(init);
      assert forall x :: x in init ==> x in pieces;
    }
  }

  lemma {:induction false} SplitAppend(a: string, sep: char, n: string)
    requires sep !in n
    ensures Split(a + [sep] + n, sep) == Split(a, sep) + [n]
    decreases |a|
  {
    var s := a + [sep] + n;
    var i := IndexOf(a, sep);
    if i < |a| {
      var tail := a[i + 1..];
      assert IndexOf(s, sep) == i by {
        assert s[i] == sep && forall k :: 0 <= k < i ==> s[k] == a[k];
        IndexOfIs(s, sep, i);
      }
      assert s[..i] == a[..i];
      assert s[i + 1..] == tail + [sep] + n;
      assert Split(s, sep) == [a[..i]] + Split(tail + [sep] + n, sep);
      assert Split(a, sep) == [a[..i]] + Split(tail, sep);
      SplitAppend(tail, sep, n);
      assert Split(s, sep) == [a[..i]] + (Split(tail, sep) + [n]);
    } else {
      assert IndexOf(s, sep) == |a| by { IndexOfAfter(a, sep, n); }
      assert s[..|a|] == a && s[|a| + 1..] == n;
      assert Split(n, sep) == [n] by {
        assert IndexOf(n, sep) == |n| by { IndexOfAbsent(n, sep); }
      }
      assert Split(s, sep) == [a] + [n];
      assert Split(a, sep) == [a];
    }
  }

  lemma {:induction false} IndexOfIs(s: string, c: char, i: nat)
    requires i < |s| && s[i] == c && forall k :: 0 <= k < i ==> s[k] != c
    ensures IndexOf(s, c) == i
  {
    if i > 0 {
      IndexOfIs(s[1..], c, i - 1);
    }
  }

  lemma {:induction false} IndexOfAbsent(s: string, c: char)
    requires c !in s
    ensures IndexOf(s, c) == |s|
  {
    if s != [] {
      assert c !in s[1..] by {
        assert forall x :: x in s[1..] ==> x in s;
      }
      IndexOfAbsent(s[1..], c);
    }
  }

  /** A file name below a directory is the name `pathlib` reports. */
  lemma PathNameBelow(dir: string, n: string)
    requires '/' !in n && n != "" && n != "."
    ensures PathName(dir + "/" + n) == n
  {
    SplitAppend(dir, '/', n);
    var pieces := Split(dir, '/');
    assert Split(dir + "/" + n, '/') == pieces + [n];
    assert (pieces + [n])[..|pieces|] == pieces;
  }

  /** A bare file name is its own name. */
  lemma PathNameBare(n: string)
    requires '/' !in n && n != "" && n != "."
    ensures PathName(n) == n
  {
    assert IndexOf(n, '/') == |n| by { IndexOfAbsent(n, '/'); }
    assert Split(n, '/') == [n];
    assert Kept([n]) == Kept([]) + [n];
  }

  // -------------------------------------------------- `--file` specifications

  /** One entry of the `files` list `main` builds: from `--file` all three
      keys are present; an entry of a JSON configuration may lack any of
      them. */
  datatype FileSpec = FileSpec(path: Option<string>, name: Option<string>, target: Option<string>)

  /** One `--file` argument: split on `:`; the name defaults to the path's
      file name, the target to "", and a fourth field (the restart flag) is
      read but thrown away. */
  function ParseFileSpec(spec: string): (f: FileSpec)
    ensures f.path.Some? && f.name.Some? && f.target.Some?
  {
    var parts := Split(spec, ':');
    var path := parts[0];
    FileSpec(Some(path),
             Some(if |parts| > 1 then parts[1] else PathName(path)),
             Some(if |parts| > 2 then parts[2] else ""))
  }

  /** `main`'s loop over the `--file` arguments, in order. */
  method ParseFileSpecs(specs: seq<string>) returns (files: seq<FileSpec>)
    ensures |files| == |specs|
    ensures forall k :: 0 <= k < |specs| ==> files[k] == ParseFileSpec(specs[k])
  {
    files := [];
    for i := 0 to |specs|
      invariant |files| == i
      invariant forall k :: 0 <= k < i ==> files[k] == ParseFileSpec(specs[k])
    {
      var parts := Split(specs[i], ':');
      var filePath := parts[0];
      var fileName := if |parts| > 1 then parts[1] else PathName(filePath);
      var fileTarget := if |parts| > 2 then parts[2] else "";
      var fileRestart := |parts| > 3 && (parts[3] == "true" || parts[3] == "1");
      files := files + [FileSpec(Some(filePath), Some(fileName), Some(fileTarget))];
    }
  }

  lemma JoinThree(a: string, b: string, c: string, sep: char)
    ensures Join([a, b, c], sep) == a + [sep] + b + [sep] + c
  {
    assert [a, b, c][1..] == [b, c] && [b, c][1..] == [c];
    assert Join([b, c], sep) == b + [sep] + c;
  }

  lemma JoinFour(a: string, b: string, c: string, d: string, sep: char)
    ensures Join([a, b, c, d], sep) == a + [sep] + b + [sep] + c + [sep] + d
  {
    assert [a, b, c, d][1..] == [b, c, d];
    JoinThree(b, c, d, sep);
  }

  /** Writing `path:name:target` (no field holding a `:`) and parsing it
      gives the three fields back. */
  lemma ParseFullSpec(path: string, name: string, target: string)
    requires ':' !in path && ':' !in name && ':' !in target
    ensures ParseFileSpec(path + ":" + name + ":" + target) == FileSpec(Some(path), Some(name), Some(target))
  {
    JoinThree(path, name, target, ':');
    SplitJoin([path, name, target], ':');
  }

  lemma JoinTwo(a: string, b: string, sep: char)
    ensures Join([a, b], sep) == a + [sep] + b
  {
    assert [a, b][1..] == [b];
  }

  /** `path:name`: the name is given and the target is empty. */
  lemma ParsePathAndName(path: string, name: string)
    requires ':' !in path && ':' !in name
    ensures ParseFileSpec(path + ":" + name) == FileSpec(Some(path), Some(name), Some(""))
  {
    JoinTwo(path, name, ':');
    SplitJoin([path, name], ':');
  }

  /** A specification of three or more fields: the first three are the
      path, the name and the target, and the fields after the third,
      however many, change nothing. */
  lemma ParseIgnoresExtraFields(parts: seq<string>)
    requires |parts| >= 3 && forall k :: 0 <= k < |parts| ==> ':' !in parts[k]
    ensures ParseFileSpec(Join(parts, ':')) == FileSpec(Some(parts[0]), Some(parts[1]), Some(parts[2]))
  {
    SplitJoin(parts, ':');
  }

  /** The restart flag in a fourth field changes nothing. */
  lemma ParseIgnoresRestartFlag(path: string, name: string, target: string, restart: string)
    requires ':' !in path && ':' !in name && ':' !in target && ':' !in restart
    ensures ParseFileSpec(path + ":" + name + ":" + target + ":" + restart)
         == ParseFileSpec(path + ":" + name + ":" + target)
  {
    JoinFour(path, name, target, restart, ':');
    SplitJoin([path, name, target, restart], ':');
    ParseFullSpec(path, name, target);
  }

  /** A bare path: the name is the path's file name and the target is empty. */
  lemma ParsePathOnly(path: string)
    requires ':' !in path
    ensures ParseFileSpec(path) == FileSpec(Some(path), Some(PathName(path)), Some(""))
  {
    SplitJoin([path], ':');
    assert Join([path], ':') == path;
  }

  // ------------------------------------------------------------ assembly

  /** One manifest entry as `generate_yaml_config` receives it; a `version`
      of "" stands for a missing or empty one. */
  datatype FileConfig = FileConfig(name: string, url: string, sha256: string, target: string, version: string)

  /** Why `main` stops before writing a manifest. */
  datatype AssemblyError =
    | NoFiles                   // "At least one file is required"
    | MissingPath(name: string) // "File path is required for file: <name>"

  const DefaultTargetDir: string := "/usr/local/bin/"

  /** `file.get('name', file_name)`. */
  function EntryName(spec: FileSpec, fileName: string): string
  {
    if spec.name.Some? then spec.name.value else fileName
  }

  /** `file.get("name", "unknown")`. */
  function NameOrUnknown(spec: FileSpec): string
  {
    if spec.name.Some? then spec.name.value else "unknown"
  }

  /** Where the file is served: `<base>/ota/<app>/files/<file name>`. */
  function FileUrl(baseUrl: string, appName: string, fileName: string): string
  {
    baseUrl + "/ota/" + appName + "/files/" + fileName
  }

  /** The body of `main`'s assembly loop for one entry. `digest(p)` is the
      SHA-256 of the copy of the file at `p`. */
  function AssembleEntry(spec: FileSpec, baseUrl: string, appName: string, version: string,
                         digest: string -> string): Result<FileConfig, AssemblyError>
  {
    if spec.path.None? then Failure(MissingPath(NameOrUnknown(spec)))
    else
      var fileName := PathName(spec.path.value);
      var name := EntryName(spec, fileName);
      var target := if spec.target.Some? && spec.target.value != "" then spec.target.value
                    else DefaultTargetDir + name;
      Success(FileConfig(name, FileUrl(baseUrl, appName, fileName), digest(spec.path.value), target, version))
  }

  /** `main` from the emptiness check to the end of the assembly loop: the
      first entry without a path stops everything. */
  function AssembleAll(files: seq<FileSpec>, baseUrl: string, appName: string, version: string,
                       digest: string -> string): Result<seq<FileConfig>, AssemblyError>
  {
    if files == [] then Failure(NoFiles) else AssembleFrom(files, baseUrl, appName, version, digest)
  }

  function AssembleFrom(files: seq<FileSpec>, baseUrl: string, appName: string, version: string,
                        digest: string -> string): Result<seq<FileConfig>, AssemblyError>
  {
    if files == [] then Success([])
    else
      var head := AssembleEntry(files[0], baseUrl, appName, version, digest);
      if head.Failure? then Failure(head.error)
      else
        var rest := AssembleFrom(files[1..], baseUrl, appName, version, digest);
        if rest.Failure? then rest else Success([head.value] + rest.value)
  }

  /** The assembly loop of `main`. */
  method AssembleFileConfigs(files: seq<FileSpec>, baseUrl: string, appName: string, version: string,
                             digest: string -> string) returns (r: Result<seq<FileConfig>, AssemblyError>)
    ensures r == AssembleAll(files, baseUrl, appName, version, digest)
  {
    if files == [] {
      return Failure(NoFiles);
    }
    var configs: seq<FileConfig> := [];
    var i := 0;
    assert files[0..] == files;
    ConsAllEmpty(AssembleFrom(files, baseUrl, appName, version, digest));
    while i < |files|
      invariant 0 <= i <= |files|
      invariant AssembleFrom(files, baseUrl, appName, version, digest)
             == ConsAll(configs, AssembleFrom(files[i..], baseUrl, appName, version, digest))
    {
      var file := files[i];
      if file.path.None? {
        AssembleFromFails(files, i, baseUrl, appName, version, digest);
        return Failure(MissingPath(NameOrUnknown(file)));
      }
      var fileName := PathName(file.path.value);
      var targetPath := if file.target.Some? then file.target.value else "";
      if targetPath == "" {
        targetPath := DefaultTargetDir + EntryName(file, fileName);
      }
      var sha := digest(file.path.value);
      var entry := FileConfig(EntryName(file, fileName), FileUrl(baseUrl, appName, fileName), sha, targetPath, version);
      assert AssembleEntry(file, baseUrl, appName, version, digest) == Success(entry);
      AssembleFromStep(files, i, configs, entry, baseUrl, appName, version, digest);
      configs := configs + [entry];
      i := i + 1;
    }
    assert files[|files|..] == [];
    assert configs + [] == configs;
    r := Success(configs);
  }

  /** `done` prepended to a successful result; a failure stays as it is. */
  function ConsAll(done: seq<FileConfig>, r: Result<seq<FileConfig>, AssemblyError>): Result<seq<FileConfig>, AssemblyError>
  {
    if r.Failure? then r else Success(done + r.value)
  }

  lemma ConsAllEmpty(r: Result<seq<FileConfig>, AssemblyError>)
    ensures ConsAll([], r) == r
  {
    if r.Success? {
      assert [] + r.value == r.value;
    }
  }

  lemma AssembleFromFails(files: seq<FileSpec>, i: nat, baseUrl: string, appName: string, version: string,
                          digest: string -> string)
    requires i < |files| && files[i].path.None?
    ensures AssembleFrom(files[i..], baseUrl, appName, version, digest)
         == Failure(MissingPath(NameOrUnknown(files[i])))
  {
    assert files[i..][0] == files[i];
  }

  lemma AssembleFromStep(files: seq<FileSpec>, i: nat, done: seq<FileConfig>, entry: FileConfig,
                         baseUrl: string, appName: string, version: string, digest: string -> string)
    requires i < |files|
    requires AssembleEntry(files[i], baseUrl, appName, version, digest) == Success(entry)
    ensures ConsAll(done, AssembleFrom(files[i..], baseUrl, appName, version, digest))
         == ConsAll(done + [entry], AssembleFrom(files[i + 1..], baseUrl, appName, version, digest))
  {
    assert files[i..][0] == files[i];
    assert files[i..][1..] == files[i + 1..];
    var rest := AssembleFrom(files[i + 1..], baseUrl, appName, version, digest);
    if rest.Success? {
      assert done + ([entry] + rest.value) == done + [entry] + rest.value;
    }
  }

  /** A successful assembly has one entry per file, in order, each built by
      `AssembleEntry`, and it succeeds exactly when every entry has a path. */
  lemma {:induction false} AssembleFromEntries(files: seq<FileSpec>, baseUrl: string, appName: string, version: string,
                                               digest: string -> string)
    ensures var r := AssembleFrom(files, baseUrl, appName, version, digest);
      && (r.Success? <==> forall k :: 0 <= k < |files| ==> files[k].path.Some?)
      && (r.Success? ==> |r.value| == |files|)
      && (r.Success? ==> forall k :: 0 <= k < |files| ==>
            Success(r.value[k]) == AssembleEntry(files[k], baseUrl, appName, version, digest))
  {
    if files != [] {
      var rest := files[1..];
      AssembleFromEntries(rest, baseUrl, appName, version, digest);
      assert forall k :: 1 <= k < |files| ==> files[k] == rest[k - 1];
      var head := AssembleEntry(files[0], baseUrl, appName, version, digest);
      var r := AssembleFrom(rest, baseUrl, appName, version, digest);
      if head.Success? && r.Success? {
        assert AssembleFrom(files, baseUrl, appName, version, digest) == Success([head.value] + r.value);
      }
    }
  }

  /** The position of the first entry without a path, `|files|` if none. */
  function FirstWithoutPath(files: seq<FileSpec>): (k: nat)
    ensures k <= |files|
    ensures k < |files| ==> files[k].path.None?
    ensures forall j :: 0 <= j < k ==> files[j].path.Some?
  {
    if files == [] || files[0].path.None? then 0 else 1 + FirstWithoutPath(files[1..])
  }

  /** A failed assembly names the first entry without a path. */
  lemma {:induction false} AssembleFromFirstMissing(files: seq<FileSpec>, baseUrl: string, appName: string,
                                                    version: string, digest: string -> string)
    ensures var r := AssembleFrom(files, baseUrl, appName, version, digest);
      var k := FirstWithoutPath(files);
      r.Failure? ==> k < |files| && r.error == MissingPath(NameOrUnknown(files[k]))
  {
    if files != [] && files[0].path.Some? {
      AssembleFromFirstMissing(files[1..], baseUrl, appName, version, digest);
    }
  }

  /** What each assembled entry holds: the command's version, the download
      URL under the application's `files/` directory named after the path's
      file name, and the given target unless it is missing or empty, in
      which case `/usr/local/bin/<name>`. */
  lemma AssembleEntryFields(spec: FileSpec, baseUrl: string, appName: string, version: string,
                            digest: string -> string)
    requires spec.path.Some?
    ensures var r := AssembleEntry(spec, baseUrl, appName, version, digest);
      var fileName := PathName(spec.path.value);
      && r.Success?
      && r.value.version == version
      && r.value.url == baseUrl + "/ota/" + appName + "/files/" + fileName
      && r.value.sha256 == digest(spec.path.value)
      && r.value.name == (if spec.name.Some? then spec.name.value else fileName)
      && (spec.target.Some? && spec.target.value != "" ==> r.value.target == spec.target.value)
      && (spec.target.None? || spec.target.value == "" ==> r.value.target == "/usr/local/bin/" + r.value.name)
  {
  }

  /** A `--file` argument with an empty name field gives an entry named ""
      whose default target is the directory `/usr/local/bin/` itself: the
      key is present, so the file name is not used. */
  lemma EmptyNameFieldKept(path: string, baseUrl: string, appName: string, version: string,
                           digest: string -> string)
    requires ':' !in path
    ensures var r := AssembleEntry(ParseFileSpec(path + "::"), baseUrl, appName, version, digest);
      r.Success? && r.value.name == "" && r.value.target == "/usr/local/bin/"
  {
    ParseFullSpec(path, "", "");
    assert path + "::" == path + ":" + "" + ":" + "";
  }

  // ------------------------------------------------------ restart command

  /** `restart_cmd`: the value under the configuration file's `restart_cmd`
      key whenever that key is present (None: absent, or JSON null), else
      the `RESTART_CMD` default. */
  function ChooseRestartCmd(fromConfig: Option<string>, envDefault: string): string
  {
    if fromConfig.Some? then fromConfig.value else envDefault
  }

  // ------------------------------------------------------ the YAML document

  function Quoted(s: string): string
  {
    "\"" + s + "\""
  }

  function VersionLine(version: string): string
  {
    "version: " + Quoted(version)
  }

  function RestartLine(cmd: string): string
  {
    "restart_cmd: '" + cmd + "'"
  }

  /** Whether an entry carries its own `version:` line: its version is set
      and differs from the manifest's. */
  predicate OwnVersion(f: FileConfig, version: string)
  {
    f.version != "" && f.version != version
  }

  /** The lines of one entry. */
  function FileBlock(f: FileConfig, version: string): seq<string>
  {
    ["  - name: " + Quoted(f.name),
     "    url: " + Quoted(f.url),
     "    sha256: " + Quoted(f.sha256),
     "    target: " + Quoted(f.target)]
    + (if OwnVersion(f, version) then ["    version: " + Quoted(f.version)] else [])
  }

  /** The entries' lines, entry after entry. */
  function Blocks(files: seq<FileConfig>, version: string): seq<string>
  {
    if files == [] then []
    else Blocks(files[..|files| - 1], version) + FileBlock(files[|files| - 1], version)
  }

  /** Every line of `generate_yaml_config`'s document, in order. */
  function YamlLines(files: seq<FileConfig>, version: string, restartCmd: string): seq<string>
  {
    [VersionLine(version), "files:"] + Blocks(files, version)
    + (if restartCmd != "" then [RestartLine(restartCmd)] else [])
  }

  /** `generate_yaml_config(files, version, app_name, restart_cmd)`. */
  method GenerateYamlConfig(files: seq<FileConfig>, version: string, appName: string, restartCmd: string)
    returns (doc: string)
    ensures doc == Join(YamlLines(files, version, restartCmd), '\n') + "\n"
  {
    var lines := [VersionLine(version), "files:"];
    for i := 0 to |files|
      invariant lines == [VersionLine(version), "files:"] + Blocks(files[..i], version)
    {
      var file := files[i];
      ghost var before := lines;
      lines := lines + ["  - name: " + Quoted(file.name), "    url: " + Quoted(file.url),
                        "    sha256: " + Quoted(file.sha256), "    target: " + Quoted(file.target)];
      if file.version != "" && file.version != version {
        lines := lines + ["    version: " + Quoted(file.version)];
      }
      assert lines == before + FileBlock(file, version);
      assert files[..i + 1][..i] == files[..i];
    }
    assert files[..|files|] == files;
    if restartCmd != "" {
      lines := lines + [RestartLine(restartCmd)];
    }
    assert lines == YamlLines(files, version, restartCmd);
    doc := Join(lines, '\n') + "\n";
  }

  /** An entry is four lines, or five when it carries its own version; the
      keys come in the order name, url, sha256, target, version. */
  lemma FileBlockShape(f: FileConfig, version: string)
    ensures var b := FileBlock(f, version);
      && |b| == (if OwnVersion(f, version) then 5 else 4)
      && b[0] == "  - name: \"" + f.name + "\""
      && b[1] == "    url: \"" + f.url + "\""
      && b[2] == "    sha256: \"" + f.sha256 + "\""
      && b[3] == "    target: \"" + f.target + "\""
      && (OwnVersion(f, version) ==> b[4] == "    version: \"" + f.version + "\"")
  {
  }

  lemma {:induction false} BlocksAppend(a: seq<FileConfig>, b: seq<FileConfig>, version: string)
    ensures Blocks(a + b, version) == Blocks(a, version) + Blocks(b, version)
  {
    if b != [] {
      var init := b[..|b| - 1];
      BlocksAppend(a, init, version);
      assert (a + b)[..|a + b| - 1] == a + init;
    } else {
      assert a + b == a;
    }
  }

  /** Entries appear in input order: the lines of entry `i` come after those
      of the entries before it and before those of the entries after it. */
  lemma BlocksInOrder(files: seq<FileConfig>, version: string, i: nat)
    requires i < |files|
    ensures Blocks(files, version)
         == Blocks(files[..i], version) + FileBlock(files[i], version) + Blocks(files[i + 1..], version)
  {
    assert files == files[..i] + [files[i]] + files[i + 1..];
    BlocksAppend(files[..i] + [files[i]], files[i + 1..], version);
    BlocksAppend(files[..i], [files[i]], version);
    assert Blocks([files[i]], version) == Blocks([], version) + FileBlock(files[i], version);
  }

  /** Every entry line is indented. */
  lemma {:induction false} BlocksIndented(files: seq<FileConfig>, version: string)
    ensures forall k :: 0 <= k < |Blocks(files, version)| ==>
      |Blocks(files, version)[k]| > 0 && Blocks(files, version)[k][0] == ' '
  {
    if files != [] {
      BlocksIndented(files[..|files| - 1], version);
    }
  }

  predicate IsRestartLine(line: string)
  {
    |line| >= 12 && line[..12] == "restart_cmd:"
  }

  lemma NotRestartLine(line: string)
    requires line != [] && line[0] != 'r'
    ensures !IsRestartLine(line)
  {
    if |line| >= 12 {
      assert line[..12][0] == line[0];
    }
  }

  /** The document opens with the manifest version and the `files:` key;
      a `restart_cmd` line appears exactly when the command is non-empty,
      and then it is the last line. */
  lemma YamlLinesShape(files: seq<FileConfig>, version: string, restartCmd: string)
    ensures var lines := YamlLines(files, version, restartCmd);
      && |lines| >= 2
      && lines[0] == "version: \"" + version + "\""
      && lines[1] == "files:"
      && ((exists k :: 0 <= k < |lines| && IsRestartLine(lines[k])) <==> restartCmd != "")
      && (restartCmd != "" ==> lines[|lines| - 1] == "restart_cmd: '" + restartCmd + "'")
  {
    var lines := YamlLines(files, version, restartCmd);
    var blocks := Blocks(files, version);
    BlocksIndented(files, version);
    assert forall k :: 2 <= k < 2 + |blocks| ==> lines[k] == blocks[k - 2];
    NotRestartLine(lines[0]);
    forall k | 2 <= k < 2 + |blocks|
      ensures !IsRestartLine(lines[k])
    {
      NotRestartLine(lines[k]);
    }
    if restartCmd != "" {
      assert IsRestartLine(lines[|lines| - 1]);
    }
  }

  /** Per-entry `version:` lines appear exactly for the entries whose
      version is set and differs from the manifest's. */
  lemma OwnVersionLine(files: seq<FileConfig>, version: string, i: nat)
    requires i < |files|
    ensures var lines := Blocks(files, version);
      var start := |Blocks(files[..i], version)|;
      && start + 4 <= |lines|
      && (OwnVersion(files[i], version) ==> start + 5 <= |lines|)
      && lines[start] == "  - name: \"" + files[i].name + "\""
      && (OwnVersion(files[i], version) ==> lines[start + 4] == "    version: \"" + files[i].version + "\"")
      && (!OwnVersion(files[i], version) ==> lines[start..start + 4] == FileBlock(files[i], version))
  {
    BlocksInOrder(files, version, i);
    FileBlockShape(files[i], version);
  }

  lemma {:induction false} JoinNonEmptyEnd(parts: seq<string>, sep: char)
    requires |parts| >= 1 && parts[|parts| - 1] != []
    ensures var s := Join(parts, sep);
      |s| >= |parts[|parts| - 1]| && s[|s| - 1] == parts[|parts| - 1][|parts[|parts| - 1]| - 1]
  {
    if |parts| > 1 {
      JoinNonEmptyEnd(parts[1..], sep);
    }
  }

  /** The document ends in exactly one newline: its last line is never
      empty. */
  lemma DocEndsWithOneNewline(files: seq<FileConfig>, version: string, restartCmd: string)
    ensures var doc := Join(YamlLines(files, version, restartCmd), '\n') + "\n";
      |doc| >= 2 && doc[|doc| - 1] == '\n' && doc[|doc| - 2] != '\n'
  {
    var lines := YamlLines(files, version, restartCmd);
    BlocksIndented(files, version);
    var last := lines[|lines| - 1];
    assert last != [] && last[|last| - 1] != '\n' by {
      if restartCmd != "" {
        assert last == RestartLine(restartCmd);
      } else if Blocks(files, version) == [] {
        assert last == "files:";
      } else {
        var f := files[|files| - 1];
        assert last == FileBlock(f, version)[|FileBlock(f, version)| - 1];
      }
    }
    JoinNonEmptyEnd(lines, '\n');
  }

  predicate NoNewline(s: string)
  {
    '\n' !in s
  }

  predicate EntryOneLine(f: FileConfig)
  {
    NoNewline(f.name) && NoNewline(f.url) && NoNewline(f.sha256) && NoNewline(f.target) && NoNewline(f.version)
  }

  lemma {:induction false} BlocksOneLine(files: seq<FileConfig>, version: string)
    requires forall k :: 0 <= k < |files| ==> EntryOneLine(files[k])
    ensures forall k :: 0 <= k < |Blocks(files, version)| ==> NoNewline(Blocks(files, version)[k])
  {
    if files != [] {
      BlocksOneLine(files[..|files| - 1], version);
    }
  }

  /** When no value holds a newline, splitting the document (without its
      final newline) on newlines gives back exactly its lines. */
  lemma DocSplitsIntoLines(files: seq<FileConfig>, version: string, restartCmd: string)
    requires NoNewline(version) && NoNewline(restartCmd)
    requires forall k :: 0 <= k < |files| ==> EntryOneLine(files[k])
    ensures var lines := YamlLines(files, version, restartCmd);
      var doc := Join(lines, '\n') + "\n";
      Split(doc[..|doc| - 1], '\n') == lines
  {
    var lines := YamlLines(files, version, restartCmd);
    var blocks := Blocks(files, version);
    BlocksOneLine(files, version);
    assert forall k :: 2 <= k < 2 + |blocks| ==> lines[k] == blocks[k - 2];
    assert forall k :: 0 <= k < |lines| ==> NoNewline(lines[k]);
    var doc := Join(lines, '\n') + "\n";
    assert doc[..|doc| - 1] == Join(lines, '\n');
    SplitJoin(lines, '\n');
  }

  // ------------------------------------------------------------ end to end

  /** Entries assembled by `main` all carry the command's version, so none
      gets a `version:` line of its own. */
  lemma AssembledHaveNoOwnVersion(files: seq<FileSpec>, baseUrl: string, appName: string, version: string,
                                  digest: string -> string)
    requires AssembleAll(files, baseUrl, appName, version, digest).Success?
    ensures var configs := AssembleAll(files, baseUrl, appName, version, digest).value;
      forall k :: 0 <= k < |configs| ==> !OwnVersion(configs[k], version)
  {
    AssembleFromEntries(files, baseUrl, appName, version, digest);
  }

  /** The restart command from the configuration file takes precedence
      whenever the key is present: a present command decides the
      `restart_cmd` line on its own, even when it is "" (then the manifest
      has no restart line whatever `RESTART_CMD` says); only an absent key
      falls back to `RESTART_CMD`. */
  lemma RestartCmdPrecedence(files: seq<FileConfig>, version: string, fromConfig: Option<string>, envDefault: string)
    ensures var lines := YamlLines(files, version, ChooseRestartCmd(fromConfig, envDefault));
      && (fromConfig.Some? ==>
            ((exists k :: 0 <= k < |lines| && IsRestartLine(lines[k])) <==> fromConfig.value != ""))
      && (fromConfig.Some? && fromConfig.value != "" ==>
            lines[|lines| - 1] == "restart_cmd: '" + fromConfig.value + "'")
      && (fromConfig.None? ==>
            ((exists k :: 0 <= k < |lines| && IsRestartLine(lines[k])) <==> envDefault != ""))
      && (fromConfig.None? && envDefault != "" ==>
            lines[|lines| - 1] == "restart_cmd: '" + envDefault + "'")
  {
    YamlLinesShape(files, version, ChooseRestartCmd(fromConfig, envDefault));
  }
}
