/** The package manager (crates/forgekit-core/src/package_manager.rs):
    downloads archives through the registry client, installs them under
    the project's `vendor` directory and records them in the manifest. */
module Packages {
  import opened Common
  import opened Manifest
  import Registry
  import Utf8

  /** `vendor/{name}-{version}`, where a package is installed. */
  function InstallDir(name: string, version: string): Path {
    ["vendor", name + "-" + version]
  }

  /** `vendor/{name}`, what removing a dependency deletes. */
  function RemovalDir(name: string): Path {
    ["vendor", name]
  }

  function ArchivePath(name: string, version: string): Path {
    InstallDir(name, version) + ["package.tar.gz"]
  }

  function SrcDir(name: string, version: string): Path {
    InstallDir(name, version) + ["src"]
  }

  function LibPath(name: string, version: string): Path {
    SrcDir(name, version) + ["lib.rs"]
  }

  /** The generated `src/lib.rs`. */
  const LIB_RS: string := "//! Auto-generated library file\npub fn hello() {\n    println!(\"Hello from {}!\", env!(\"CARGO_PKG_NAME\"));\n}\n"

  /** The bytes written to `src/lib.rs`. */
  function LibRs(): Bytes {
    Utf8.Encode(LIB_RS)
  }

  /** Removing `name` never touches what installing `name` at any version
      wrote: the two directories differ, and neither lies inside the other. */
  lemma RemovalMissesInstall(name: string, version: string, p: Path)
    requires InstallDir(name, version) <= p
    ensures RemovalDir(name) != InstallDir(name, version)
    ensures !(RemovalDir(name) <= p)
  {
    assert |RemovalDir(name)[1]| < |InstallDir(name, version)[1]|;
    assert p[1] == InstallDir(name, version)[1];
  }

  /** The directories created when `src` is created inside the install
      directory. */
  lemma InstallPrefixes(name: string, version: string)
    ensures Prefixes(["vendor"]) == {["vendor"]}
    ensures Prefixes(SrcDir(name, version)) == {["vendor"], InstallDir(name, version), SrcDir(name, version)}
  {
    var s := SrcDir(name, version);
    assert s[..1] == ["vendor"] && s[..2] == InstallDir(name, version) && s[..3] == s;
    assert ["vendor"][..1] == ["vendor"];
  }

  /** What installing needs of the project directory: a writable directory,
      no file where the install creates a directory, and no directory where
      it writes a file. */
  predicate InstallPossible(dirs: set<Path>, files: map<Path, Bytes>, readOnly: bool, name: string, version: string) {
    && !readOnly
    && ["vendor"] !in files && InstallDir(name, version) !in files && SrcDir(name, version) !in files
    && ArchivePath(name, version) !in dirs
    && LibPath(name, version) !in dirs
  }

  /** No file stands where the install directories go. */
  lemma NoFileOnInstallDirs(files: map<Path, Bytes>, name: string, version: string)
    ensures (forall q :: q in Prefixes(["vendor"]) ==> q !in files) <==> ["vendor"] !in files
    ensures (forall q :: q in Prefixes(SrcDir(name, version)) ==> q !in files)
            <==> ["vendor"] !in files && InstallDir(name, version) !in files && SrcDir(name, version) !in files
  {
    InstallPrefixes(name, version);
  }

  /** A project with no `vendor` directory yet can install any package. */
  lemma FreshProjectInstalls(name: string, version: string)
    ensures InstallPossible({}, map[], false, name, version)
    ensures InstallDir(name, version) !in {}
  {
  }

  /** The position of the first entry named `name`, or the number of
      entries when there is none. */
  function FirstNamed(deps: seq<Dependency>, name: string): (i: nat)
    ensures i <= |deps|
    ensures i < |deps| <==> HasDependency(deps, name)
    ensures i < |deps| ==> deps[i].name == name
    ensures forall j :: 0 <= j < i ==> deps[j].name != name
    decreases |deps|
  {
    if deps == [] then 0
    else if deps[0].name == name then 0
    else
      var i := 1 + FirstNamed(deps[1..], name);
      assert forall j :: 1 <= j < |deps| ==> deps[j] == deps[1..][j - 1];
      i
  }

  /** The entries `update_project_config` saves: the first entry of that
      name takes the new version; a new name is appended as a registry
      dependency. */
  function Upsert(deps: seq<Dependency>, name: string, version: string): seq<Dependency> {
    var i := FirstNamed(deps, name);
    if i < |deps| then deps[i := deps[i].(version := version)]
    else deps + [Dependency(name, version, Some("registry"))]
  }

  /** For a listed name only the version of its first entry changes;
      length, order, names, sources and every other entry stay. */
  lemma UpsertExisting(deps: seq<Dependency>, name: string, version: string)
    requires HasDependency(deps, name)
    ensures var r := Upsert(deps, name, version);
      && |r| == |deps|
      && (forall j :: 0 <= j < |r| ==> r[j].name == deps[j].name && r[j].source == deps[j].source)
      && r[FirstNamed(deps, name)].version == version
      && (forall j :: 0 <= j < |r| && j != FirstNamed(deps, name) ==> r[j] == deps[j])
      && (forall j :: 0 <= j < FirstNamed(deps, name) ==> deps[j].name != name)
  {
  }

  /** A new name is appended, with the registry as its source. */
  lemma UpsertNew(deps: seq<Dependency>, name: string, version: string)
    requires !HasDependency(deps, name)
    ensures Upsert(deps, name, version) == deps + [Dependency(name, version, Some("registry"))]
  {
  }

  /** Afterwards the first entry of that name carries the new version. */
  lemma UpsertLookup(deps: seq<Dependency>, name: string, version: string)
    ensures var r := Upsert(deps, name, version);
      HasDependency(r, name) && r[FirstNamed(r, name)].version == version
  {
    var r := Upsert(deps, name, version);
    var i := FirstNamed(deps, name);
    assert r[i].name == name;
    assert forall j :: 0 <= j < i ==> r[j] == deps[j];
  }

  /** Re-recording the version an entry already has changes nothing. */
  lemma UpsertUnchanged(deps: seq<Dependency>, name: string, version: string)
    requires HasDependency(deps, name) && deps[FirstNamed(deps, name)].version == version
    ensures Upsert(deps, name, version) == deps
  {
    var i := FirstNamed(deps, name);
    assert deps[i].(version := version) == deps[i];
  }

  /** Upserting keeps names unique. */
  lemma UpsertKeepsUnique(deps: seq<Dependency>, name: string, version: string)
    requires UniqueNames(deps)
    ensures UniqueNames(Upsert(deps, name, version))
  {
    var r := Upsert(deps, name, version);
    if !HasDependency(deps, name) {
      forall i, j | 0 <= i < j < |r|
        ensures r[i].name != r[j].name
      {
        if j == |deps| {
          assert r[i] == deps[i];
        }
      }
    }
  }

  /** Each entry of a manifest without repeated names is where
      `update_dependencies` finds it, so re-recording it changes nothing. */
  lemma UpsertOwnEntry(deps: seq<Dependency>, k: nat)
    requires UniqueNames(deps) && k < |deps|
    ensures Upsert(deps, deps[k].name, deps[k].version) == deps
  {
    var i := FirstNamed(deps, deps[k].name);
    assert i == k;
    UpsertUnchanged(deps, deps[k].name, deps[k].version);
  }

  /** What `install_package` leaves in the project tree, the failing step
      included, and its outcome: `vendor` is created, then the `src`
      directory inside the install directory, then the archive is copied
      in and `src/lib.rs` is written; the first step that fails ends it. */
  function InstallOutcome(t: Tree, readOnly: bool, name: string, version: string, archive: Bytes, lib: Bytes)
    : (r: (Tree, Result<()>))
    ensures r.1.Ok? <==> InstallPossible(t.dirs, t.files, readOnly, name, version)
    ensures r.1.Ok? ==> r.0 == Tree(t.dirs + Prefixes(SrcDir(name, version)),
                                    t.files[ArchivePath(name, version) := archive][LibPath(name, version) := lib])
    ensures r.1.Err? ==> r.1.error == Io
    ensures t.dirs <= r.0.dirs && t.files.Keys <= r.0.files.Keys
  {
    NoFileOnInstallDirs(t.files, name, version);
    InstallPrefixes(name, version);
    var (t1, vendor) := CreateDirAllIn(t, readOnly, ["vendor"]);
    if vendor.Err? then (t1, vendor)
    else
      var (t2, src) := CreateDirAllIn(t1, readOnly, SrcDir(name, version));
      if src.Err? then (t2, src)
      else
        var (t3, copied) := WriteFileIn(t2, readOnly, ArchivePath(name, version), archive);
        if copied.Err? then (t3, copied)
        else WriteFileIn(t3, readOnly, LibPath(name, version), lib)
  }

  /** What `update_project_config` leaves as the manifest, and its
      outcome: the loaded configuration with the entry upserted, saved. */
  function ConfigOutcome(m: ManifestFile, readOnly: bool, name: string, version: string): (r: (ManifestFile, Result<()>))
    ensures LoadConfig(m).Err? ==> r == (m, Err(LoadConfig(m).error))
    ensures r.1.Ok? <==> m.Stored? && !readOnly
    ensures r.1.Ok? ==> r.0 == Stored(m.config.(dependencies := Upsert(m.config.dependencies, name, version)))
    ensures r.1.Err? ==> r.0 == m
  {
    var loaded := LoadConfig(m);
    if loaded.Err? then (m, Err(loaded.error))
    else if readOnly then (m, Err(Io))
    else (Stored(loaded.value.(dependencies := Upsert(loaded.value.dependencies, name, version))), Ok(()))
  }

  /** What an add changes: the registry's archive cache, the project tree
      and the manifest. */
  datatype AddState = AddState(cache: map<string, Bytes>, tree: Tree, manifest: ManifestFile)

  /** What an add reads and never changes: the registry's base URL, its
      index file and whether its cache is writable, whether the project is
      writable, and the generated `src/lib.rs`. */
  datatype AddContext = AddContext(baseUrl: string, index: Registry.IndexFile, cacheReadOnly: bool,
                                   projectReadOnly: bool, lib: Bytes)

  /** What `add_dependency` leaves behind and its outcome: download, then
      install, then record; the first failing step ends it with its error,
      and what the earlier steps did stays. */
  function AddOutcome(st: AddState, c: AddContext, net: Registry.Network, name: string, version: string)
    : (r: (AddState, Result<()>))
    ensures var fetched := Registry.Fetch(st.cache, c.baseUrl, c.index, c.cacheReadOnly, net, name, version);
      && r.0.cache == fetched.0
      && (fetched.1.Err? ==> r == (st.(cache := fetched.0), Err(fetched.1.error)))
      && (r.1.Ok? <==> fetched.1.Ok?
                       && InstallPossible(st.tree.dirs, st.tree.files, c.projectReadOnly, name, version)
                       && st.manifest.Stored?)
    ensures r.1.Ok? ==>
      var cached := Registry.RegistryClient.CachePath(name, version);
      && cached in r.0.cache
      && r.0.tree == Tree(st.tree.dirs + Prefixes(SrcDir(name, version)),
                          st.tree.files[ArchivePath(name, version) := r.0.cache[cached]][LibPath(name, version) := c.lib])
      && r.0.manifest == Stored(st.manifest.config.(dependencies := Upsert(st.manifest.config.dependencies, name, version)))
    ensures r.1.Ok? ==> ArchivePath(name, version) in r.0.tree.files
    ensures r.1.Err? ==> r.0.manifest == st.manifest
    ensures st.tree.files.Keys <= r.0.tree.files.Keys
  {
    var (cache1, downloaded) := Registry.Fetch(st.cache, c.baseUrl, c.index, c.cacheReadOnly, net, name, version);
    if downloaded.Err? then (st.(cache := cache1), Err(downloaded.error))
    else
      var (tree2, installed) := InstallOutcome(st.tree, c.projectReadOnly, name, version, cache1[downloaded.value], c.lib);
      if installed.Err? then (AddState(cache1, tree2, st.manifest), Err(installed.error))
      else
        var (manifest3, recorded) := ConfigOutcome(st.manifest, c.projectReadOnly, name, version);
        (AddState(cache1, tree2, manifest3), recorded)
  }

  /** `update_dependencies` once the manifest is loaded: each entry of `ds`
      added in order, stopping at the first failure. The result is the
      state left, the outcome, and how many adds succeeded. */
  function UpdateAll(st: AddState, c: AddContext, net: Registry.Network, ds: seq<Dependency>)
    : (r: (AddState, Result<()>, nat))
    ensures r.2 <= |ds|
    ensures st.tree.files.Keys <= r.0.tree.files.Keys
    decreases |ds|
  {
    if ds == [] then (st, Ok(()), 0)
    else
      var (st1, r1, k1) := UpdateAll(st, c, net, ds[..|ds| - 1]);
      if r1.Err? then (st1, r1, k1)
      else
        var d := ds[|ds| - 1];
        var (st2, r2) := AddOutcome(st1, c, net, d.name, d.version);
        (st2, r2, if r2.Ok? then |ds| else |ds| - 1)
  }

  /** One more entry after a prefix that succeeded is one more add. */
  lemma UpdateAllStep(st: AddState, c: AddContext, net: Registry.Network, ds: seq<Dependency>, i: nat)
    requires i < |ds| && UpdateAll(st, c, net, ds[..i]).1.Ok?
    ensures var added := AddOutcome(UpdateAll(st, c, net, ds[..i]).0, c, net, ds[i].name, ds[i].version);
      UpdateAll(st, c, net, ds[..i + 1]) == (added.0, added.1, if added.1.Ok? then i + 1 else i)
  {
    assert ds[..i + 1][..i] == ds[..i];
  }

  /** The updates stop at the first failure: the first `k` adds succeed,
      and unless all do, the state and outcome are those of adding entry
      `k` after them. */
  lemma {:induction false} UpdateAllFirstFailure(st: AddState, c: AddContext, net: Registry.Network, ds: seq<Dependency>)
    ensures var (st', r, k) := UpdateAll(st, c, net, ds);
      && (r.Ok? <==> k == |ds|)
      && UpdateAll(st, c, net, ds[..k]).1.Ok?
      && (k < |ds| ==>
            (st', r) == AddOutcome(UpdateAll(st, c, net, ds[..k]).0, c, net, ds[k].name, ds[k].version))
    decreases |ds|
  {
    if ds == [] {
      assert ds[..0] == ds;
    } else {
      var n := |ds| - 1;
      var init := ds[..n];
      UpdateAllFirstFailure(st, c, net, init);
      var before := UpdateAll(st, c, net, init);
      assert ds[..n + 1] == ds;
      if before.1.Err? {
        UpdateAllStops(st, c, net, ds, n);
        assert ds[..before.2] == init[..before.2] && ds[before.2] == init[before.2];
      } else {
        assert before.2 == n && init[..n] == init;
        UpdateAllStep(st, c, net, ds, n);
      }
    }
  }

  /** Once a prefix of the entries has failed, the later entries are never
      tried. */
  lemma {:induction false} UpdateAllStops(st: AddState, c: AddContext, net: Registry.Network, ds: seq<Dependency>, n: nat)
    requires n <= |ds| && UpdateAll(st, c, net, ds[..n]).1.Err?
    ensures UpdateAll(st, c, net, ds) == UpdateAll(st, c, net, ds[..n])
    decreases |ds|
  {
    if n == |ds| {
      assert ds[..n] == ds;
    } else {
      var init := ds[..|ds| - 1];
      assert init[..n] == ds[..n];
      UpdateAllStops(st, c, net, init, n);
    }
  }

  /** Every entry added before the first failure has its archive in the
      project afterwards. */
  lemma {:induction false} UpdateAllArchives(st: AddState, c: AddContext, net: Registry.Network, ds: seq<Dependency>)
    ensures var (st', _, k) := UpdateAll(st, c, net, ds);
      forall j :: 0 <= j < k ==> ArchivePath(ds[j].name, ds[j].version) in st'.tree.files
    decreases |ds|
  {
    if ds != [] {
      var n := |ds| - 1;
      var init := ds[..n];
      UpdateAllArchives(st, c, net, init);
      var before := UpdateAll(st, c, net, init);
      var after := UpdateAll(st, c, net, ds);
      assert ds[..n + 1] == ds;
      if before.1.Err? {
        UpdateAllStops(st, c, net, ds, n);
        forall j | 0 <= j < after.2
          ensures ArchivePath(ds[j].name, ds[j].version) in after.0.tree.files
        {
          assert ds[j] == init[j];
        }
      } else {
        UpdateAllFirstFailure(st, c, net, init);
        UpdateAllStep(st, c, net, ds, n);
        var added := AddOutcome(before.0, c, net, ds[n].name, ds[n].version);
        assert before.0.tree.files.Keys <= added.0.tree.files.Keys;
        forall j | 0 <= j < after.2
          ensures ArchivePath(ds[j].name, ds[j].version) in after.0.tree.files
        {
          if j < n {
            assert ds[j] == init[j];
            assert ArchivePath(ds[j].name, ds[j].version) in before.0.tree.files;
          } else {
            assert j == n && added.1.Ok?;
            assert after.0 == added.0;
          }
        }
      }
    }
  }

  /** With no name listed twice, updating re-records every entry as it is:
      the manifest comes out unchanged, whether the updates succeed or not. */
  lemma {:induction false} UpdateAllKeepsManifest(st: AddState, c: AddContext, net: Registry.Network,
                                                  ds: seq<Dependency>, cfg: ProjectConfig)
    requires st.manifest == Stored(cfg) && UniqueNames(cfg.dependencies)
    requires forall j :: 0 <= j < |ds| ==> ds[j] in cfg.dependencies
    ensures UpdateAll(st, c, net, ds).0.manifest == Stored(cfg)
    decreases |ds|
  {
    if ds != [] {
      var init := ds[..|ds| - 1];
      assert forall j :: 0 <= j < |init| ==> init[j] == ds[j];
      UpdateAllKeepsManifest(st, c, net, init, cfg);
      var d := ds[|ds| - 1];
      var i :| 0 <= i < |cfg.dependencies| && cfg.dependencies[i] == d;
      UpsertOwnEntry(cfg.dependencies, i);
      assert cfg.(dependencies := cfg.dependencies) == cfg;
    }
  }

  /** `name - description`, one search result line. */
  function Summary(m: Registry.PackageMetadata): string {
    m.name + " - " + m.description
  }

  /** The result lines of a search, in its order. */
  function Summaries(ms: seq<Registry.PackageMetadata>): (r: seq<string>)
    ensures |r| == |ms| && forall i :: 0 <= i < |ms| ==> r[i] == Summary(ms[i])
  {
    seq(|ms|, i requires 0 <= i < |ms| => Summary(ms[i]))
  }

  /** The line of a local entry determines its name. */
  lemma LocalLineInjective(n: string, m: string)
    requires n + " - Package " + n == m + " - Package " + m
    ensures n == m
  {
    var a := n + " - Package " + n;
    var b := m + " - Package " + m;
    assert |a| == 2 * |n| + 11 && |b| == 2 * |m| + 11;
    assert a[..|n|] == n && b[..|m|] == m;
  }

  /** A local search shows each selected entry once, as `name - Package name`. */
  lemma LocalSummaries(baseUrl: string, ix: Registry.Index, query: string, ms: seq<Registry.PackageMetadata>)
    requires Registry.IsLocalResult(baseUrl, ix, query, ms)
    ensures forall s :: s in Summaries(ms) <==>
      exists n :: n in ix && Registry.Selected(ix, query, n) && s == n + " - Package " + n
    ensures forall i, j :: 0 <= i < j < |Summaries(ms)| ==> Summaries(ms)[i] != Summaries(ms)[j]
  {
    var r := Summaries(ms);
    forall i | 0 <= i < |ms|
      ensures r[i] == ms[i].name + " - Package " + ms[i].name
    {
      assert ms[i].description == "Package " + ms[i].name;
    }
    forall i, j | 0 <= i < j < |r|
      ensures r[i] != r[j]
    {
      if r[i] == r[j] {
        LocalLineInjective(ms[i].name, ms[j].name);
        assert false;
      }
    }
    forall n | n in ix && Registry.Selected(ix, query, n)
      ensures n + " - Package " + n in r
    {
      var i :| 0 <= i < |ms| && ms[i].name == n;
      assert r[i] == n + " - Package " + n;
    }
  }

  /** `PackageManager`: a registry client and the project directory. */
  class PackageManager {
    const registry: Registry.RegistryClient
    const project: ProjectDir
    /** The contents written to every installed `src/lib.rs`. */
    const libRs: Bytes

    constructor (registry: Registry.RegistryClient, project: ProjectDir)
      ensures this.registry == registry && this.project == project
      ensures libRs == LibRs()
    {
      this.registry := registry;
      this.project := project;
      libRs := LibRs();
    }

    /** What an add changes, as one value. */
    ghost function State(): AddState
      reads registry, project
    {
      AddState(registry.cacheFiles, project.Contents(), project.manifest)
    }

    /** What an add reads and leaves as it is, as one value. */
    ghost function Context(): AddContext
      reads registry, project
    {
      AddContext(registry.baseUrl, registry.indexFile, registry.readOnly, project.readOnly, libRs)
    }

    /** `install_package` as written: the archive is copied into the
        install directory before anything creates that directory, so
        installing a package for the first time fails. */
    method InstallPackageAsWritten(name: string, version: string, archive: Bytes) returns (r: Result<()>)
      requires project.Valid()
      modifies project
      ensures project.Valid()
      ensures project.manifest == old(project.manifest)
      ensures InstallDir(name, version) !in old(project.dirs) ==> r == Err(Io)
      ensures r.Ok? <==> old(InstallPossible(project.dirs, project.files, project.readOnly, name, version))
                         && InstallDir(name, version) in old(project.dirs)
      ensures r.Ok? ==> project.dirs == old(project.dirs) + Prefixes(SrcDir(name, version))
      ensures r.Ok? ==> project.files == old(project.files)[ArchivePath(name, version) := archive][LibPath(name, version) := libRs]
    {
      ghost var dirs0, files0 := project.dirs, project.files;
      ghost var possible := InstallPossible(dirs0, files0, project.readOnly, name, version);
      NoFileOnInstallDirs(files0, name, version);
      InstallPrefixes(name, version);
      var vendor := project.CreateDirAll(["vendor"]);
      if vendor.Err? {
        assert !possible;
        return vendor;
      }
      assert project.dirs == dirs0 + {["vendor"]};
      var copied := project.WriteFile(ArchivePath(name, version), archive);
      if copied.Err? {
        assert !possible || InstallDir(name, version) !in dirs0;
        return copied;
      }
      assert InstallDir(name, version) in dirs0;
      ghost var files1 := project.files;
      assert files1 == files0[ArchivePath(name, version) := archive];
      NoFileOnInstallDirs(files1, name, version);
      var src := project.CreateDirAll(SrcDir(name, version));
      if src.Err? {
        assert !possible;
        return src;
      }
      assert project.dirs == dirs0 + Prefixes(SrcDir(name, version));
      r := project.WriteFile(LibPath(name, version), libRs);
    }

    /** `install_package` with the source directory, and with it the
        install directory, created before the archive is copied in. */
    method InstallPackage(name: string, version: string, archive: Bytes) returns (r: Result<()>)
      requires project.Valid()
      modifies project
      ensures project.Valid()
      ensures project.manifest == old(project.manifest)
      ensures (project.Contents(), r) == InstallOutcome(old(project.Contents()), project.readOnly, name, version, archive, libRs)
    {
      var vendor := project.CreateDirAll(["vendor"]);
      if vendor.Err? {
        return vendor;
      }
      var src := project.CreateDirAll(SrcDir(name, version));
      if src.Err? {
        return src;
      }
      var copied := project.WriteFile(ArchivePath(name, version), archive);
      if copied.Err? {
        return copied;
      }
      r := project.WriteFile(LibPath(name, version), libRs);
    }

    /** `update_project_config` */
    method UpdateProjectConfig(name: string, version: string) returns (r: Result<()>)
      modifies project
      ensures project.Contents() == old(project.Contents())
      ensures (project.manifest, r) == ConfigOutcome(old(project.manifest), project.readOnly, name, version)
    {
      var config :- LoadConfig(project.manifest);
      var deps := config.dependencies;
      if exists k :: 0 <= k < |deps| && deps[k].name == name {
        var i := 0;
        while i < |deps|
          invariant 0 <= i <= |deps|
          invariant deps == config.dependencies
          invariant forall j :: 0 <= j < i ==> deps[j].name != name
        {
          if deps[i].name == name {
            deps := deps[i := deps[i].(version := version)];
            break;
          }
          i := i + 1;
        }
      } else {
        deps := deps + [Dependency(name, version, Some("registry"))];
      }
      assert deps == Upsert(config.dependencies, name, version);
      r := project.SaveConfig(config.(dependencies := deps));
      assert r.Ok? ==> r.value == ();
    }

    /** `remove_from_config` */
    method RemoveFromConfig(name: string) returns (r: Result<()>)
      modifies project
      ensures project.dirs == old(project.dirs) && project.files == old(project.files)
      ensures var loaded := LoadConfig(old(project.manifest));
        && (loaded.Err? ==> r == Err(loaded.error))
        && (r.Ok? <==> loaded.Ok? && !project.readOnly)
        && (r.Ok? ==> project.manifest == Stored(loaded.value.(dependencies := Without(loaded.value.dependencies, name))))
      ensures r.Err? ==> project.manifest == old(project.manifest)
    {
      var config :- LoadConfig(project.manifest);
      r := project.SaveConfig(config.(dependencies := Without(config.dependencies, name)));
    }

    /** `add_dependency`: download, then install, then record; a failing
        step stops the later ones. */
    method AddDependency(net: Registry.Network, name: string, version: string) returns (r: Result<()>)
      requires project.Valid()
      modifies registry, project
      ensures project.Valid()
      ensures Context() == old(Context())
      ensures (State(), r) == old(AddOutcome(State(), Context(), net, name, version))
    {
      var downloaded := registry.DownloadPackage(net, name, version);
      if downloaded.Err? {
        return Err(downloaded.error);
      }
      var archive := registry.cacheFiles[downloaded.value];
      var installed := InstallPackage(name, version, archive);
      if installed.Err? {
        return Err(installed.error);
      }
      r := UpdateProjectConfig(name, version);
    }

    /** `add_dependency` over `install_package` as written: adding a
        package whose install directory does not exist yet always fails,
        and the manifest is left as it was. */
    method AddDependencyAsWritten(net: Registry.Network, name: string, version: string) returns (r: Result<()>)
      requires project.Valid()
      modifies registry, project
      ensures project.Valid()
      ensures InstallDir(name, version) !in old(project.dirs) ==> r.Err? && project.manifest == old(project.manifest)
    {
      var downloaded := registry.DownloadPackage(net, name, version);
      if downloaded.Err? {
        return Err(downloaded.error);
      }
      var archive := registry.cacheFiles[downloaded.value];
      var installed := InstallPackageAsWritten(name, version, archive);
      if installed.Err? {
        return Err(installed.error);
      }
      r := UpdateProjectConfig(name, version);
    }

    /** `remove_dependency`: the manifest first; then `vendor/{name}`,
        only when it exists. */
    method RemoveDependency(name: string) returns (r: Result<()>)
      requires project.Valid()
      modifies project
      ensures project.Valid()
      ensures var loaded := LoadConfig(old(project.manifest));
        && (loaded.Err? ==> r == Err(loaded.error))
        && (r.Ok? <==> loaded.Ok? && !project.readOnly && RemovalDir(name) !in old(project.files))
        && (loaded.Ok? && !project.readOnly ==>
              project.manifest == Stored(loaded.value.(dependencies := Without(loaded.value.dependencies, name))))
      ensures r.Ok? ==> project.dirs == set q | q in old(project.dirs) && !(RemovalDir(name) <= q)
      ensures r.Ok? ==> project.files == map q | q in old(project.files) && !(RemovalDir(name) <= q) :: old(project.files)[q]
      ensures r.Err? ==> project.dirs == old(project.dirs) && project.files == old(project.files)
    {
      var _ :- RemoveFromConfig(name);
      var installPath := RemovalDir(name);
      if project.Exists(installPath) {
        var _ :- project.RemoveDirAll(installPath);
      } else {
        forall q | installPath <= q
          ensures q !in project.dirs && q !in project.files
        {
          AbsentBelow(project.dirs, project.files, installPath, q);
        }
        assert (set q | q in project.dirs && !(installPath <= q)) == project.dirs;
        assert (map q | q in project.files && !(installPath <= q) :: project.files[q]) == project.files;
      }
      return Ok(());
    }

    /** `update_dependencies`: every entry is added again at its recorded
        version, in order, stopping at the first failure. */
    method UpdateDependencies(net: Registry.Network) returns (r: Result<()>)
      requires project.Valid()
      modifies registry, project
      ensures project.Valid()
      ensures Context() == old(Context())
      ensures var loaded := LoadConfig(old(project.manifest));
        && (loaded.Err? ==> r == Err(loaded.error) && State() == old(State()))
        && (loaded.Ok? ==>
              var u := UpdateAll(old(State()), old(Context()), net, loaded.value.dependencies);
              State() == u.0 && r == u.1)
    {
      var config :- LoadConfig(project.manifest);
      r := AddEach(net, config.dependencies);
    }

    /** The loop of `update_dependencies`: `add_dependency` on each entry
        in turn until one fails. */
    method AddEach(net: Registry.Network, deps: seq<Dependency>) returns (r: Result<()>)
      requires project.Valid()
      modifies registry, project
      ensures project.Valid()
      ensures Context() == old(Context())
      ensures var u := UpdateAll(old(State()), old(Context()), net, deps);
        State() == u.0 && r == u.1
    {
      ghost var st0, c := State(), Context();
      var i := 0;
      while i < |deps|
        invariant 0 <= i <= |deps|
        invariant project.Valid()
        invariant Context() == c
        invariant UpdateAll(st0, c, net, deps[..i]) == (State(), Ok(()), i)
      {
        UpdateAllStep(st0, c, net, deps, i);
        var added := AddDependency(net, deps[i].name, deps[i].version);
        if added.Err? {
          UpdateAllStops(st0, c, net, deps, i + 1);
          return added;
        }
        i := i + 1;
      }
      assert deps[..i] == deps;
      return Ok(());
    }

    /** `search_packages`: each result as `name - description`. */
    method SearchPackages(net: Registry.Network, query: string, clock: Registry.Clock) returns (r: Result<seq<string>>)
      ensures Registry.LoadIndex(registry.indexFile).Err? ==> r == Err(Registry.LoadIndex(registry.indexFile).error)
      ensures registry.indexFile.Stored? && Registry.AnySelected(registry.indexFile.index, query) ==>
        var ix := registry.indexFile.index;
        && r.Ok? && r.value != []
        && (forall s :: s in r.value <==>
              exists n :: n in ix && Registry.Selected(ix, query, n) && s == n + " - Package " + n)
        && (forall i, j :: 0 <= i < j < |r.value| ==> r.value[i] != r.value[j])
      ensures registry.indexFile.NoIndex?
              || (registry.indexFile.Stored? && !Registry.AnySelected(registry.indexFile.index, query)) ==>
        var remote := Registry.RemoteSearch(net, query, clock);
        && (remote.Err? ==> r == Err(remote.error))
        && (remote.Ok? ==> r == Ok(Summaries(remote.value)))
    {
      var packages :- Registry.SearchPackages(registry.baseUrl, registry.indexFile, net, query, clock);
      if registry.indexFile.Stored? && Registry.AnySelected(registry.indexFile.index, query) {
        LocalSummaries(registry.baseUrl, registry.indexFile.index, query, packages);
      }
      return Ok(Summaries(packages));
    }

    /** `list_installed`: the directories directly under `vendor`, each
        once; none when `vendor` is absent. */
    method ListInstalled() returns (r: Result<seq<string>>)
      requires project.Valid()
      ensures ["vendor"] !in project.dirs && ["vendor"] !in project.files ==> r == Ok([])
      ensures ["vendor"] !in project.dirs && ["vendor"] in project.files ==> r == Err(Io)
      ensures ["vendor"] in project.dirs ==> r.Ok?
      ensures r.Ok? ==> forall n :: n in r.value <==> ["vendor", n] in project.dirs
      ensures r.Ok? ==> forall i, j :: 0 <= i < j < |r.value| ==> r.value[i] != r.value[j]
    {
      var vendor: Path := ["vendor"];
      if !project.Exists(vendor) {
        forall n
          ensures ["vendor", n] !in project.dirs
        {
          assert vendor <= ["vendor", n];
          AbsentBelow(project.dirs, project.files, vendor, ["vendor", n]);
        }
        return Ok([]);
      }
      if vendor !in project.dirs {
        return Err(Io);
      }
      var entries := (set p | p in project.dirs && |p| == 2 && p[0] == "vendor" :: p[1])
                   + (set p | p in project.files && |p| == 2 && p[0] == "vendor" :: p[1]);
      var remaining := entries;
      var packages: seq<string> := [];
      while remaining != {}
        invariant remaining <= entries
        invariant forall n :: n in packages <==> n in entries && n !in remaining && ["vendor", n] in project.dirs
        invariant forall i, j :: 0 <= i < j < |packages| ==> packages[i] != packages[j]
        decreases |remaining|
      {
        var name :| name in remaining;
        if ["vendor", name] in project.dirs {
          packages := packages + [name];
        }
        remaining := remaining - {name};
      }
      forall n | ["vendor", n] in project.dirs
        ensures n in entries
      {
        var p: Path := ["vendor", n];
        assert |p| == 2 && p[0] == "vendor" && p[1] == n;
      }
      return Ok(packages);
    }
  }
}
