/** The in-memory package registry and the dependency manager
    (crates/forgekit-core/src/dependencies.rs). */
module Dependencies {
  import opened Common
  import opened Text
  import opened Manifest

  datatype PackageVersion = PackageVersion(version: string, released: string, compatibleTargets: seq<string>, downloadUrl: string)

  datatype PackageInfo = PackageInfo(
    name: string,
    versions: seq<PackageVersion>,
    description: string,
    keywords: seq<string>,
    repository: Option<string>)

  datatype ResolvedDependency = ResolvedDependency(name: string, version: string, downloadUrl: string)

  /** The filter of `search_packages`: the name, the description or a
      keyword contains the query. */
  predicate Matches(p: PackageInfo, query: string) {
    Contains(p.name, query) || Contains(p.description, query)
    || exists i :: 0 <= i < |p.keywords| && Contains(p.keywords[i], query)
  }

  /** The position of the first version spelled exactly `req`, or the
      number of versions when there is none. */
  function FirstVersion(vs: seq<PackageVersion>, req: string): (i: nat)
    ensures i <= |vs|
    ensures i < |vs| ==> vs[i].version == req
    ensures forall j :: 0 <= j < i ==> vs[j].version != req
    decreases |vs|
  {
    if vs == [] then 0
    else if vs[0].version == req then 0
    else 1 + FirstVersion(vs[1..], req)
  }

  /** `resolve_version`: exact string match, first match wins. */
  function ResolveVersion(pkg: PackageInfo, req: string): (r: Result<PackageVersion>)
    ensures r.Ok? ==> r.value.version == req && r.value in pkg.versions
    ensures r.Err? ==> r.error == InvalidConfig("Version " + req + " not found for package " + pkg.name)
  {
    var i := FirstVersion(pkg.versions, req);
    if i < |pkg.versions| then Ok(pkg.versions[i])
    else Err(InvalidConfig("Version " + req + " not found for package " + pkg.name))
  }

  /** The resolved version is the first one spelled exactly as requested;
      resolution fails, naming the request and the package, exactly when
      no version is spelled so. */
  lemma ResolveVersionSpec(pkg: PackageInfo, req: string)
    ensures var r := ResolveVersion(pkg, req);
      && (r.Ok? <==> exists i :: 0 <= i < |pkg.versions| && pkg.versions[i].version == req)
      && (r.Ok? ==> r.value.version == req
                    && (exists i :: 0 <= i < |pkg.versions| && pkg.versions[i] == r.value
                          && forall j :: 0 <= j < i ==> pkg.versions[j].version != req))
      && (r.Err? ==> r.error == InvalidConfig("Version " + req + " not found for package " + pkg.name))
  {
    var i := FirstVersion(pkg.versions, req);
    if i < |pkg.versions| {
      assert pkg.versions[i] == ResolveVersion(pkg, req).value;
    }
  }

  /** A prefix of a version string does not select it: "1.2" does not
      resolve to "1.2.0". */
  lemma NoPrefixResolution()
    ensures ResolveVersion(PackageInfo("p", [PackageVersion("1.2.0", "", [], "")], "", [], None), "1.2")
            == Err(InvalidConfig("Version 1.2 not found for package p"))
  {
    var vs := [PackageVersion("1.2.0", "", [], "")];
    assert vs[0].version != "1.2";
    assert FirstVersion(vs[1..], "1.2") == 0;
    assert "Version " + "1.2" + " not found for package " + "p" == "Version 1.2 not found for package p";
  }

  /** `DependencyRegistry` */
  class DependencyRegistry {
    var packages: map<string, PackageInfo>

    constructor ()
      ensures packages == map[]
    {
      packages := map[];
    }

    /** Every package is filed under its own name. */
    ghost predicate Valid()
      reads this
    {
      forall n :: n in packages ==> packages[n].name == n
    }

    /** `find_package` */
    function FindPackage(name: string): (r: Option<PackageInfo>)
      reads this
      ensures r.Some? <==> name in packages
      ensures r.Some? ==> r.value == packages[name]
    {
      if name in packages then Some(packages[name]) else None
    }

    /** `add_package`: replaces any package of the same name. */
    method AddPackage(info: PackageInfo)
      requires Valid()
      modifies this
      ensures Valid()
      ensures packages == old(packages)[info.name := info]
      ensures FindPackage(info.name) == Some(info)
      ensures forall n :: n != info.name ==> FindPackage(n) == old(FindPackage(n))
    {
      packages := packages[info.name := info];
    }

    /** `search_packages`, as the set of packages it collects. */
    function SearchPackages(query: string): (r: set<PackageInfo>)
      reads this
      ensures forall p :: p in r ==> Matches(p, query)
      ensures r <= packages.Values
    {
      set p | p in packages.Values && Matches(p, query)
    }

    /** Search finds every matching package, and the empty query lists the
        whole registry. */
    lemma SearchComplete(query: string)
      ensures forall n :: n in packages && Matches(packages[n], query) ==> packages[n] in SearchPackages(query)
      ensures SearchPackages("") == packages.Values
    {
      forall p | p in packages.Values
        ensures Matches(p, "")
      {
        assert [] <= p.name;
      }
    }

    /** One dependency of `resolve_dependencies`. */
    function ResolveOne(dep: Dependency): (r: Result<ResolvedDependency>)
      reads this
      ensures r.Ok? ==> r.value.name == dep.name && r.value.version == dep.version
      ensures dep.name !in packages ==> r == Err(InvalidConfig("Package not found: " + dep.name))
    {
      match FindPackage(dep.name)
      case None => Err(InvalidConfig("Package not found: " + dep.name))
      case Some(pkg) =>
        match ResolveVersion(pkg, dep.version)
        case Err(e) => Err(e)
        case Ok(v) => Ok(ResolvedDependency(dep.name, v.version, v.downloadUrl))
    }

    /** A resolved dependency carries the download address of the first
        registered version spelled as the manifest asks. */
    lemma ResolveOneUrl(dep: Dependency)
      requires ResolveOne(dep).Ok?
      ensures dep.name in packages
      ensures var vs := packages[dep.name].versions;
        exists i :: 0 <= i < |vs| && vs[i].version == dep.version
          && ResolveOne(dep).value.downloadUrl == vs[i].downloadUrl
          && forall j :: 0 <= j < i ==> vs[j].version != dep.version
    {
      var vs := packages[dep.name].versions;
      var i := FirstVersion(vs, dep.version);
      assert ResolveOne(dep).value.downloadUrl == vs[i].downloadUrl;
    }

    /** `resolve_dependencies`: one record per dependency, in order; the
        first dependency that does not resolve decides the error. */
    method ResolveDependencies(deps: seq<Dependency>) returns (r: Result<seq<ResolvedDependency>>)
      ensures r.Ok? <==> forall i :: 0 <= i < |deps| ==> ResolveOne(deps[i]).Ok?
      ensures r.Ok? ==> |r.value| == |deps|
      ensures r.Ok? ==> forall i :: 0 <= i < |deps| ==> r.value[i] == ResolveOne(deps[i]).value
      ensures r.Err? ==>
        exists k :: 0 <= k < |deps| && ResolveOne(deps[k]).Err? && r.error == ResolveOne(deps[k]).error
                    && forall i :: 0 <= i < k ==> ResolveOne(deps[i]).Ok?
    {
      var resolved: seq<ResolvedDependency> := [];
      var i := 0;
      while i < |deps|
        invariant 0 <= i <= |deps|
        invariant |resolved| == i
        invariant forall j :: 0 <= j < i ==> ResolveOne(deps[j]).Ok? && resolved[j] == ResolveOne(deps[j]).value
      {
        var dep := deps[i];
        var package := FindPackage(dep.name);
        if package.None? {
          return Err(InvalidConfig("Package not found: " + dep.name));
        }
        var version := ResolveVersion(package.value, dep.version);
        if version.Err? {
          return Err(version.error);
        }
        resolved := resolved + [ResolvedDependency(dep.name, version.value.version, version.value.downloadUrl)];
        i := i + 1;
      }
      return Ok(resolved);
    }
  }

  /** The manifest `add_dependency` saves, or the error it stops with:
      a name already listed, a package the registry lacks, or a version
      it lacks. */
  function Added(c: ProjectConfig, packages: map<string, PackageInfo>, name: string, version: string): Result<ProjectConfig> {
    if HasDependency(c.dependencies, name) then Err(InvalidConfig("Dependency " + name + " already exists"))
    else if name !in packages then Err(InvalidConfig("Package " + name + " not found"))
    else match ResolveVersion(packages[name], version)
      case Err(e) => Err(e)
      case Ok(_) => Ok(c.(dependencies := c.dependencies + [Dependency(name, version, None)]))
  }

  /** A successful add appends exactly one entry, for a package and a
      version the registry has, after the unchanged earlier entries; a
      listed name is refused. */
  lemma AddedSpec(c: ProjectConfig, packages: map<string, PackageInfo>, name: string, version: string)
    ensures HasDependency(c.dependencies, name) ==>
      Added(c, packages, name, version) == Err(InvalidConfig("Dependency " + name + " already exists"))
    ensures Added(c, packages, name, version).Ok? ==>
      var d := Added(c, packages, name, version).value;
      && d.dependencies[..|c.dependencies|] == c.dependencies
      && d.dependencies[|c.dependencies|..] == [Dependency(name, version, None)]
      && d == c.(dependencies := d.dependencies)
      && name in packages
      && exists i :: 0 <= i < |packages[name].versions| && packages[name].versions[i].version == version
  {
    if name in packages {
      ResolveVersionSpec(packages[name], version);
    }
  }

  /** Adding through the manager never lists a name twice. */
  lemma AddedKeepsUnique(c: ProjectConfig, packages: map<string, PackageInfo>, name: string, version: string)
    requires UniqueNames(c.dependencies) && Added(c, packages, name, version).Ok?
    ensures UniqueNames(Added(c, packages, name, version).value.dependencies)
  {
    var deps := c.dependencies;
    var d := Added(c, packages, name, version).value.dependencies;
    assert d == deps + [Dependency(name, version, None)];
    forall i, j | 0 <= i < j < |d|
      ensures d[i].name != d[j].name
    {
      if j == |deps| {
        assert d[i] == deps[i];
      }
    }
  }

  /** Removing what was just added restores the manifest. */
  lemma RemoveUndoesAdd(c: ProjectConfig, packages: map<string, PackageInfo>, name: string, version: string)
    requires Added(c, packages, name, version).Ok?
    ensures Without(Added(c, packages, name, version).value.dependencies, name) == c.dependencies
  {
    var deps := c.dependencies;
    WithoutAppend(deps, [Dependency(name, version, None)], name);
    WithoutAbsent(deps, name);
    assert Without([Dependency(name, version, None)], name) == [];
    assert deps + [] == deps;
  }

  /** `DependencyManager`: manifest edits checked against its own registry.
      Installing and uninstalling are announcements only and change nothing. */
  class DependencyManager {
    const registry: DependencyRegistry

    constructor ()
      ensures fresh(registry) && registry.packages == map[]
    {
      registry := new DependencyRegistry();
    }

    /** `add_to_registry` */
    method AddToRegistry(info: PackageInfo)
      requires registry.Valid()
      modifies registry
      ensures registry.Valid()
      ensures registry.packages == old(registry.packages)[info.name := info]
    {
      registry.AddPackage(info);
    }

    /** `add_dependency`: checks run before anything is saved; a failed
        check or save leaves the manifest as it was. */
    method AddDependency(project: ProjectDir, name: string, version: string) returns (r: Result<()>)
      modifies project
      ensures project.dirs == old(project.dirs) && project.files == old(project.files)
      ensures var loaded := LoadConfig(old(project.manifest));
        && (loaded.Err? ==> r == Err(loaded.error))
        && (loaded.Ok? && Added(loaded.value, registry.packages, name, version).Err? ==>
              r == Err(Added(loaded.value, registry.packages, name, version).error))
        && (r.Ok? <==> loaded.Ok? && Added(loaded.value, registry.packages, name, version).Ok? && !project.readOnly)
        && (r.Ok? ==> project.manifest == Stored(Added(loaded.value, registry.packages, name, version).value))
      ensures r.Err? ==> project.manifest == old(project.manifest)
    {
      var config :- LoadConfig(project.manifest);
      if exists i :: 0 <= i < |config.dependencies| && config.dependencies[i].name == name {
        return Err(InvalidConfig("Dependency " + name + " already exists"));
      }
      var info := registry.FindPackage(name);
      if info.None? {
        return Err(InvalidConfig("Package " + name + " not found"));
      }
      var resolvedVersion := ResolveVersion(info.value, version);
      if resolvedVersion.Err? {
        return Err(resolvedVersion.error);
      }
      config := config.(dependencies := config.dependencies + [Dependency(name, version, None)]);
      r := project.SaveConfig(config);
    }

    /** `remove_dependency`: drops every entry of that name; an absent name
        is not an error. */
    method RemoveDependency(project: ProjectDir, name: string) returns (r: Result<()>)
      modifies project
      ensures project.dirs == old(project.dirs) && project.files == old(project.files)
      ensures var loaded := LoadConfig(old(project.manifest));
        && (loaded.Err? ==> r == Err(loaded.error))
        && (r.Ok? <==> loaded.Ok? && !project.readOnly)
        && (r.Ok? ==> project.manifest == Stored(loaded.value.(dependencies := Without(loaded.value.dependencies, name))))
      ensures r.Err? ==> project.manifest == old(project.manifest)
    {
      var config :- LoadConfig(project.manifest);
      config := config.(dependencies := Without(config.dependencies, name));
      r := project.SaveConfig(config);
    }

    /** `update_dependencies`: reads the manifest and only announces each
        entry. */
    method UpdateDependencies(project: ProjectDir) returns (r: Result<()>)
      ensures r.Ok? <==> project.manifest.Stored?
      ensures r.Err? ==> r.error == LoadConfig(project.manifest).error
    {
      var config :- LoadConfig(project.manifest);
      return Ok(());
    }

    /** `search_packages` */
    function SearchPackages(query: string): (r: set<PackageInfo>)
      reads this, registry
      ensures r == registry.SearchPackages(query)
    {
      registry.SearchPackages(query)
    }
  }
}
