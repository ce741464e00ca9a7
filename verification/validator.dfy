/** Project validation (crates/forgekit-core/src/validator.rs).

    The project directory is seen through what the validator asks of it:
    the state of `forgekit.toml`, the kind of the entries `src` and
    `assets`, and the state of `Cargo.toml`. */
module Validator {
  import opened Common

  /** The fields of the loaded configuration that the validator reads. */
  datatype Config = Config(name: string, version: string)

  /** `forgekit.toml`: absent, failing to load with a message, or loaded. */
  datatype ConfigFile = NoConfig | Unloadable(message: string) | Loads(config: Config)

  datatype EntryKind = Directory | NotDirectory

  /** `Cargo.toml`: absent, unreadable, not TOML (with the parser's
      message), or TOML. */
  datatype CargoManifest = NoCargo | CargoUnreadable | CargoInvalid(message: string) | CargoValid

  datatype ProjectState = ProjectState(
    config: ConfigFile,
    entries: map<string, EntryKind>,   // names absent from the map do not exist
    cargo: CargoManifest)

  const REQUIRED_DIRS: seq<string> := ["src", "assets"]

  /** `validate_config_only`: the name is checked before the version. */
  function ValidateConfigOnly(c: Config): (r: Result<()>)
    ensures r.Ok? <==> c.name != [] && c.version != []
    ensures c.name == [] ==> r == Err(InvalidConfig("Project name is required"))
    ensures c.name != [] && c.version == [] ==> r == Err(InvalidConfig("Project version is required"))
  {
    if c.name == [] then Err(InvalidConfig("Project name is required"))
    else if c.version == [] then Err(InvalidConfig("Project version is required"))
    else Ok(())
  }

  /** The errors `validate_config` reports. */
  function ConfigErrors(f: ConfigFile): seq<string> {
    match f
    case NoConfig => ["forgekit.toml not found"]
    case Unloadable(m) => ["Invalid forgekit.toml: " + m]
    case Loads(c) =>
      (if c.name == [] then ["Project name is required in forgekit.toml"] else [])
      + (if c.version == [] then ["Project version is required in forgekit.toml"] else [])
  }

  /** A missing or unloadable manifest is one error and the fields are not
      looked at; a loaded one has one error per empty field. */
  lemma ConfigErrorsCount(f: ConfigFile)
    ensures f.NoConfig? ==> ConfigErrors(f) == ["forgekit.toml not found"]
    ensures f.Unloadable? ==> |ConfigErrors(f)| == 1
    ensures f.Loads? ==>
      |ConfigErrors(f)| == (if f.config.name == [] then 1 else 0) + (if f.config.version == [] then 1 else 0)
    ensures ConfigErrors(f) == [] <==> f.Loads? && ValidateConfigOnly(f.config).Ok?
  {
  }

  function EntryAt(entries: map<string, EntryKind>, name: string): Option<EntryKind> {
    if name in entries then Some(entries[name]) else None
  }

  /** The error `validate_structure` reports for one directory, if any. */
  function DirError(entries: map<string, EntryKind>, d: string): seq<string> {
    if EntryAt(entries, d) == Some(NotDirectory) then ["'" + d + "' exists but is not a directory"] else []
  }

  /** The warning `validate_structure` reports for one directory, if any. */
  function DirWarning(entries: map<string, EntryKind>, d: string): seq<string> {
    if EntryAt(entries, d).None? then ["Recommended directory '" + d + "' not found"] else []
  }

  function StructureErrors(entries: map<string, EntryKind>, dirs: seq<string>): seq<string>
    decreases |dirs|
  {
    if dirs == [] then [] else StructureErrors(entries, dirs[..|dirs| - 1]) + DirError(entries, dirs[|dirs| - 1])
  }

  function StructureWarnings(entries: map<string, EntryKind>, dirs: seq<string>): seq<string>
    decreases |dirs|
  {
    if dirs == [] then [] else StructureWarnings(entries, dirs[..|dirs| - 1]) + DirWarning(entries, dirs[|dirs| - 1])
  }

  /** A required entry that is not a directory is an error; a missing one
      or a directory is not. */
  lemma {:induction false} StructureErrorsSpec(entries: map<string, EntryKind>, dirs: seq<string>)
    ensures StructureErrors(entries, dirs) == [] <==>
      forall i :: 0 <= i < |dirs| ==> EntryAt(entries, dirs[i]) != Some(NotDirectory)
    decreases |dirs|
  {
    if dirs != [] {
      var init := dirs[..|dirs| - 1];
      StructureErrorsSpec(entries, init);
      assert forall i :: 0 <= i < |init| ==> init[i] == dirs[i];
    }
  }

  /** A required entry that is missing is warned about, and nothing else
      is. */
  lemma {:induction false} StructureWarningsSpec(entries: map<string, EntryKind>, dirs: seq<string>)
    ensures StructureWarnings(entries, dirs) == [] <==>
      forall i :: 0 <= i < |dirs| ==> EntryAt(entries, dirs[i]).Some?
    decreases |dirs|
  {
    if dirs != [] {
      var init := dirs[..|dirs| - 1];
      StructureWarningsSpec(entries, init);
      assert forall i :: 0 <= i < |init| ==> init[i] == dirs[i];
    }
  }

  function CargoErrors(c: CargoManifest): seq<string> {
    if c.CargoInvalid? then ["Invalid Cargo.toml: " + c.message] else []
  }

  function CargoWarnings(c: CargoManifest): seq<string> {
    if c.NoCargo? then ["Cargo.toml not found - dependencies cannot be validated"] else []
  }

  /** Everything `validate_project` reports, in order. */
  function Errors(s: ProjectState): seq<string> {
    ConfigErrors(s.config) + StructureErrors(s.entries, REQUIRED_DIRS) + CargoErrors(s.cargo)
  }

  function Warnings(s: ProjectState): seq<string> {
    StructureWarnings(s.entries, REQUIRED_DIRS) + CargoWarnings(s.cargo)
  }

  /** A project is reported valid exactly when its manifest loads with a
      name and a version, neither `src` nor `assets` is something other
      than a directory, and `Cargo.toml` is absent or parses; missing
      directories and a missing `Cargo.toml` are only warnings. */
  lemma ValidIff(s: ProjectState)
    ensures Errors(s) == [] <==>
      && s.config.Loads? && s.config.config.name != [] && s.config.config.version != []
      && EntryAt(s.entries, "src") != Some(NotDirectory)
      && EntryAt(s.entries, "assets") != Some(NotDirectory)
      && !s.cargo.CargoInvalid?
  {
    ConfigErrorsCount(s.config);
    StructureErrorsSpec(s.entries, REQUIRED_DIRS);
  }

  /** A missing manifest makes the project invalid, with the error naming
      `forgekit.toml`. */
  lemma MissingConfigInvalid(s: ProjectState)
    requires s.config.NoConfig?
    ensures Errors(s) != [] && Errors(s)[0] == "forgekit.toml not found"
  {
  }

  /** A missing `src` is the first warning. */
  lemma MissingSrcWarned(s: ProjectState)
    requires "src" !in s.entries
    ensures Warnings(s) != [] && Warnings(s)[0] == "Recommended directory 'src' not found"
  {
    assert REQUIRED_DIRS[..1] == ["src"];
    assert ["src"][..0] == [];
    assert EntryAt(s.entries, "src").None?;
    assert "Recommended directory '" + "src" + "' not found" == "Recommended directory 'src' not found";
    assert DirWarning(s.entries, "src") == ["Recommended directory 'src' not found"];
    assert StructureWarnings(s.entries, ["src"]) == [] + DirWarning(s.entries, "src");
  }

  /** A manifest with a name and a version, `src` and `assets` directories
      and no `Cargo.toml`: no errors and a single warning. */
  lemma CompleteProjectValid(name: string, version: string)
    requires name != [] && version != []
    ensures var s := ProjectState(Loads(Config(name, version)),
                                  map["src" := Directory, "assets" := Directory], NoCargo);
      && Errors(s) == []
      && Warnings(s) == ["Cargo.toml not found - dependencies cannot be validated"]
  {
    var entries := map["src" := Directory, "assets" := Directory];
    assert REQUIRED_DIRS[..1] == ["src"];
    assert ["src"][..0] == [];
    assert StructureErrors(entries, REQUIRED_DIRS) == [];
    assert StructureWarnings(entries, REQUIRED_DIRS) == [];
  }

  /** `ValidationReport` */
  class ValidationReport {
    var isValid: bool
    var errors: seq<string>
    var warnings: seq<string>

    /** The report is valid exactly when it holds no error. */
    ghost predicate Valid()
      reads this
    {
      isValid <==> errors == []
    }

    constructor ()
      ensures Valid()
      ensures isValid && errors == [] && warnings == []
    {
      isValid := true;
      errors := [];
      warnings := [];
    }

    /** `add_error` */
    method AddError(e: string)
      modifies this
      ensures old(Valid()) ==> Valid()
      ensures !isValid
      ensures errors == old(errors) + [e] && warnings == old(warnings)
    {
      isValid := false;
      errors := errors + [e];
    }

    /** `add_warning`: does not affect validity. */
    method AddWarning(w: string)
      modifies this
      ensures old(Valid()) ==> Valid()
      ensures isValid == old(isValid)
      ensures warnings == old(warnings) + [w] && errors == old(errors)
    {
      warnings := warnings + [w];
    }
  }

  /** `validate_config` */
  method ValidateConfig(f: ConfigFile, report: ValidationReport)
    modifies report
    ensures old(report.Valid()) ==> report.Valid()
    ensures report.errors == old(report.errors) + ConfigErrors(f)
    ensures report.warnings == old(report.warnings)
  {
    match f
    case NoConfig =>
      report.AddError("forgekit.toml not found");
    case Unloadable(m) =>
      report.AddError("Invalid forgekit.toml: " + m);
    case Loads(c) =>
      if c.name == [] {
        report.AddError("Project name is required in forgekit.toml");
      }
      if c.version == [] {
        report.AddError("Project version is required in forgekit.toml");
      }
  }

  /** One more directory examined adds its own error and warning. */
  lemma StructureStep(entries: map<string, EntryKind>, dirs: seq<string>, i: nat)
    requires i < |dirs|
    ensures StructureErrors(entries, dirs[..i + 1]) == StructureErrors(entries, dirs[..i]) + DirError(entries, dirs[i])
    ensures StructureWarnings(entries, dirs[..i + 1]) == StructureWarnings(entries, dirs[..i]) + DirWarning(entries, dirs[i])
  {
    assert dirs[..i + 1][..i] == dirs[..i];
  }

  /** `validate_structure` */
  method ValidateStructure(entries: map<string, EntryKind>, report: ValidationReport)
    modifies report
    ensures old(report.Valid()) ==> report.Valid()
    ensures report.errors == old(report.errors) + StructureErrors(entries, REQUIRED_DIRS)
    ensures report.warnings == old(report.warnings) + StructureWarnings(entries, REQUIRED_DIRS)
  {
    CheckDirectories(entries, REQUIRED_DIRS, report);
  }

  /** The loop of `validate_structure` over the required directories. */
  method CheckDirectories(entries: map<string, EntryKind>, dirs: seq<string>, report: ValidationReport)
    modifies report
    ensures old(report.Valid()) ==> report.Valid()
    ensures report.errors == old(report.errors) + StructureErrors(entries, dirs)
    ensures report.warnings == old(report.warnings) + StructureWarnings(entries, dirs)
  {
    var i := 0;
    while i < |dirs|
      invariant 0 <= i <= |dirs|
      invariant old(report.Valid()) ==> report.Valid()
      invariant report.errors == old(report.errors) + StructureErrors(entries, dirs[..i])
      invariant report.warnings == old(report.warnings) + StructureWarnings(entries, dirs[..i])
    {
      var d := dirs[i];
      StructureStep(entries, dirs, i);
      ghost var errors0, warnings0 := report.errors, report.warnings;
      if d !in entries {
        report.AddWarning("Recommended directory '" + d + "' not found");
      } else if entries[d] != Directory {
        report.AddError("'" + d + "' exists but is not a directory");
      }
      assert report.errors == errors0 + DirError(entries, d);
      assert report.warnings == warnings0 + DirWarning(entries, d);
      AppendAssoc(old(report.errors), StructureErrors(entries, dirs[..i]), DirError(entries, d));
      AppendAssoc(old(report.warnings), StructureWarnings(entries, dirs[..i]), DirWarning(entries, d));
      i := i + 1;
    }
    assert dirs[..i] == dirs;
  }

  /** `validate_dependencies`: an unreadable `Cargo.toml` aborts the
      validation. */
  method ValidateDependencies(c: CargoManifest, report: ValidationReport) returns (r: Result<()>)
    modifies report
    ensures old(report.Valid()) ==> report.Valid()
    ensures r.Err? <==> c.CargoUnreadable?
    ensures r.Err? ==> r.error == Io
    ensures r.Ok? ==> report.errors == old(report.errors) + CargoErrors(c)
    ensures r.Ok? ==> report.warnings == old(report.warnings) + CargoWarnings(c)
  {
    if c.NoCargo? {
      report.AddWarning("Cargo.toml not found - dependencies cannot be validated");
      return Ok(());
    }
    if c.CargoUnreadable? {
      return Err(Io);
    }
    if c.CargoInvalid? {
      report.AddError("Invalid Cargo.toml: " + c.message);
    }
    return Ok(());
  }

  /** `validate_project`: the manifest, then the directories, then
      `Cargo.toml`, all into one new report. */
  method ValidateProject(s: ProjectState) returns (r: Result<ValidationReport>)
    ensures r.Err? <==> s.cargo.CargoUnreadable?
    ensures r.Err? ==> r.error == Io
    ensures r.Ok? ==> fresh(r.value) && r.value.Valid()
    ensures r.Ok? ==> r.value.errors == Errors(s) && r.value.warnings == Warnings(s)
    ensures r.Ok? ==> (r.value.isValid <==> Errors(s) == [])
  {
    var report := new ValidationReport();
    ValidateConfig(s.config, report);
    assert report.errors == ConfigErrors(s.config) && report.warnings == [];
    ValidateStructure(s.entries, report);
    assert report.errors == ConfigErrors(s.config) + StructureErrors(s.entries, REQUIRED_DIRS);
    assert report.warnings == StructureWarnings(s.entries, REQUIRED_DIRS);
    var deps := ValidateDependencies(s.cargo, report);
    if deps.Err? {
      return Err(deps.error);
    }
    return Ok(report);
  }
}
