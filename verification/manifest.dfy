/** The project manifest `forgekit.toml` (crates/forgekit-core/src/config.rs)
    and the project directory that holds it.

    The manifest is held decoded. The rest of the directory is a set of
    directories and a map of files, each named by its path components
    relative to the project root. A `readOnly` directory refuses every
    change. */
module Manifest {
  import opened Common

  datatype Dependency = Dependency(name: string, version: string, source: Option<string>)

  datatype BuildConfig = BuildConfig(target: string, optLevel: string, rustflags: seq<string>, outputDir: string)

  datatype ProjectConfig = ProjectConfig(
    name: string,
    version: string,
    description: Option<string>,
    authors: seq<string>,
    dependencies: seq<Dependency>,
    build: BuildConfig)

  /** The state of `forgekit.toml`. */
  datatype ManifestFile =
    | Missing
    | Unreadable
    | Malformed          // not a TOML project configuration
    | Stored(config: ProjectConfig)

  /** `ProjectConfig::load` */
  function LoadConfig(f: ManifestFile): (r: Result<ProjectConfig>)
    ensures r.Ok? <==> f.Stored?
    ensures r.Ok? ==> r.value == f.config
    ensures f.Malformed? ==> r == Err(Toml)
    ensures f.Missing? || f.Unreadable? ==> r == Err(Io)
  {
    match f
    case Missing => Err(Io)
    case Unreadable => Err(Io)
    case Malformed => Err(Toml)
    case Stored(c) => Ok(c)
  }

  predicate HasDependency(deps: seq<Dependency>, name: string) {
    exists i :: 0 <= i < |deps| && deps[i].name == name
  }

  /** No two entries share a name. */
  predicate UniqueNames(deps: seq<Dependency>) {
    forall i, j :: 0 <= i < j < |deps| ==> deps[i].name != deps[j].name
  }

  /** `deps.retain(|d| d.name != name)` */
  function Without(deps: seq<Dependency>, name: string): seq<Dependency>
    decreases |deps|
  {
    if deps == [] then []
    else (if deps[0].name == name then [] else [deps[0]]) + Without(deps[1..], name)
  }

  /** Removal works piecewise, so the kept entries stay in their order. */
  lemma {:induction false} WithoutAppend(a: seq<Dependency>, b: seq<Dependency>, name: string)
    ensures Without(a + b, name) == Without(a, name) + Without(b, name)
    decreases |a|
  {
    if a == [] {
      assert a + b == b;
    } else {
      assert (a + b)[1..] == a[1..] + b;
      WithoutAppend(a[1..], b, name);
    }
  }

  /** Exactly the entries with another name are kept. */
  lemma {:induction false} WithoutMembers(deps: seq<Dependency>, name: string)
    ensures forall d :: d in Without(deps, name) <==> d in deps && d.name != name
    decreases |deps|
  {
    if deps != [] {
      WithoutMembers(deps[1..], name);
      assert forall d :: d in deps <==> d == deps[0] || d in deps[1..];
    }
  }

  /** Removing an absent name changes nothing. */
  lemma {:induction false} WithoutAbsent(deps: seq<Dependency>, name: string)
    requires !HasDependency(deps, name)
    ensures Without(deps, name) == deps
    decreases |deps|
  {
    if deps != [] {
      assert deps[0].name != name;
      assert !HasDependency(deps[1..], name) by {
        forall i | 0 <= i < |deps| - 1
          ensures deps[1..][i].name != name
        {
          assert deps[1..][i] == deps[i + 1];
        }
      }
      WithoutAbsent(deps[1..], name);
      assert [deps[0]] + deps[1..] == deps;
    }
  }

  /** After removal no entry has the name, and removing again changes nothing. */
  lemma WithoutRemovesAll(deps: seq<Dependency>, name: string)
    ensures !HasDependency(Without(deps, name), name)
    ensures Without(Without(deps, name), name) == Without(deps, name)
  {
    var r := Without(deps, name);
    WithoutMembers(deps, name);
    forall i | 0 <= i < |r|
      ensures r[i].name != name
    {
      assert r[i] in r;
    }
    WithoutAbsent(r, name);
  }

  /** Removal keeps names unique. */
  lemma {:induction false} WithoutKeepsUnique(deps: seq<Dependency>, name: string)
    requires UniqueNames(deps)
    ensures UniqueNames(Without(deps, name))
    decreases |deps|
  {
    if deps != [] {
      WithoutKeepsUnique(deps[1..], name);
      WithoutMembers(deps[1..], name);
      var rest := Without(deps[1..], name);
      if deps[0].name != name {
        forall j | 0 <= j < |rest|
          ensures rest[j].name != deps[0].name
        {
          assert rest[j] in rest;
          var k :| 0 <= k < |deps[1..]| && deps[1..][k] == rest[j];
          assert deps[k + 1] == rest[j];
        }
      }
    }
  }

  /** A path, as its components below the project root. */
  type Path = seq<string>

  function Parent(p: Path): Path
    requires p != []
  {
    p[..|p| - 1]
  }

  /** The path and each of its ancestors below the root. */
  function Prefixes(p: Path): set<Path> {
    set i | 1 <= i <= |p| :: p[..i]
  }

  /** Directories and files form a tree below the root: the parent of every
      entry is a directory, and no path is both. */
  predicate WellFormed(dirs: set<Path>, files: map<Path, Bytes>) {
    && [] !in dirs && [] !in files
    && (forall p {:trigger Parent(p)} :: p in dirs && p != [] ==> Parent(p) == [] || Parent(p) in dirs)
    && (forall p {:trigger Parent(p)} :: p in files && p != [] ==> Parent(p) == [] || Parent(p) in dirs)
    && (forall p :: p in dirs ==> p !in files)
  }

  /** The ancestors of a path are closed under taking parents. */
  lemma PrefixesClosed(p: Path)
    ensures forall q :: q in Prefixes(p) ==> q != [] && (Parent(q) == [] || Parent(q) in Prefixes(p))
  {
    forall q | q in Prefixes(p)
      ensures q != [] && (Parent(q) == [] || Parent(q) in Prefixes(p))
    {
      var i :| 1 <= i <= |p| && q == p[..i];
      if i > 1 {
        assert Parent(q) == p[..i - 1];
      }
    }
  }

  /** Nothing lies below a path that is absent from a tree. */
  lemma {:induction false} AbsentBelow(dirs: set<Path>, files: map<Path, Bytes>, p: Path, q: Path)
    requires WellFormed(dirs, files) && p != [] && p !in dirs && p !in files && p <= q
    ensures q !in dirs && q !in files
    decreases |q|
  {
    if |q| > |p| {
      assert p <= Parent(q);
      AbsentBelow(dirs, files, p, Parent(q));
    } else {
      assert p == q;
    }
  }

  /** The directories and files of the project directory. */
  datatype Tree = Tree(dirs: set<Path>, files: map<Path, Bytes>)

  /** `create_dir_all` on a tree: the tree afterwards and the outcome. It
      succeeds when no file stands on the path or above it and the
      directory is writable or the path exists already. */
  function CreateDirAllIn(t: Tree, readOnly: bool, p: Path): (r: (Tree, Result<()>))
    ensures r.1.Ok? ==> r.0 == t.(dirs := t.dirs + Prefixes(p))
    ensures r.1.Err? ==> r == (t, Err(Io))
  {
    if (forall q :: q in Prefixes(p) ==> q !in t.files) && (!readOnly || Prefixes(p) <= t.dirs)
    then (t.(dirs := t.dirs + Prefixes(p)), Ok(()))
    else (t, Err(Io))
  }

  /** `write` on a tree: the parent must be a directory and the path must
      not be one. */
  function WriteFileIn(t: Tree, readOnly: bool, p: Path, content: Bytes): (r: (Tree, Result<()>))
    requires p != []
    ensures r.1.Ok? ==> r.0 == t.(files := t.files[p := content])
    ensures r.1.Err? ==> r == (t, Err(Io))
  {
    if !readOnly && (Parent(p) == [] || Parent(p) in t.dirs) && p !in t.dirs
    then (t.(files := t.files[p := content]), Ok(()))
    else (t, Err(Io))
  }

  /** The project directory. */
  class ProjectDir {
    var manifest: ManifestFile
    var dirs: set<Path>
    var files: map<Path, Bytes>
    const readOnly: bool

    ghost predicate Valid()
      reads this
    {
      WellFormed(dirs, files)
    }

    constructor (manifest: ManifestFile, dirs: set<Path>, files: map<Path, Bytes>, readOnly: bool)
      requires WellFormed(dirs, files)
      ensures Valid()
      ensures this.manifest == manifest && this.dirs == dirs && this.files == files
      ensures this.readOnly == readOnly
    {
      this.manifest := manifest;
      this.dirs := dirs;
      this.files := files;
      this.readOnly := readOnly;
    }

    /** The directories and files, as one value. */
    function Contents(): Tree
      reads this
    {
      Tree(dirs, files)
    }

    predicate IsDir(p: Path)
      reads this
    {
      p == [] || p in dirs
    }

    predicate Exists(p: Path)
      reads this
    {
      IsDir(p) || p in files
    }

    /** `ProjectConfig::save`: serialising a configuration cannot fail. */
    method SaveConfig(c: ProjectConfig) returns (r: Result<()>)
      modifies this
      ensures dirs == old(dirs) && files == old(files)
      ensures r.Ok? <==> !readOnly
      ensures r.Ok? ==> manifest == Stored(c)
      ensures r.Err? ==> r.error == Io && manifest == old(manifest)
    {
      if readOnly {
        return Err(Io);
      }
      manifest := Stored(c);
      return Ok(());
    }

    /** `create_dir_all`: succeeds when the directory already exists;
        otherwise it needs a writable directory and no file in the way. */
    method CreateDirAll(p: Path) returns (r: Result<()>)
      requires Valid()
      modifies this
      ensures Valid()
      ensures manifest == old(manifest) && files == old(files)
      ensures r.Ok? <==> (forall q :: q in Prefixes(p) ==> q !in files) && (!readOnly || Prefixes(p) <= old(dirs))
      ensures r.Ok? ==> dirs == old(dirs) + Prefixes(p)
      ensures r.Err? ==> r.error == Io && dirs == old(dirs)
      ensures (Contents(), r) == CreateDirAllIn(old(Contents()), readOnly, p)
    {
      var prefixes := Prefixes(p);
      if exists q :: q in prefixes && q in files {
        return Err(Io);
      }
      if prefixes <= dirs {
        return Ok(());
      }
      if readOnly {
        return Err(Io);
      }
      PrefixesClosed(p);
      dirs := dirs + prefixes;
      return Ok(());
    }

    /** `write` (and the writing half of `copy`): the parent must be a
        directory and the path must not be one. */
    method WriteFile(p: Path, content: Bytes) returns (r: Result<()>)
      requires Valid() && p != []
      modifies this
      ensures Valid()
      ensures manifest == old(manifest) && dirs == old(dirs)
      ensures r.Ok? <==> !readOnly && old(IsDir(Parent(p))) && p !in old(dirs)
      ensures r.Ok? ==> files == old(files)[p := content]
      ensures r.Err? ==> r.error == Io && files == old(files)
      ensures (Contents(), r) == WriteFileIn(old(Contents()), readOnly, p, content)
    {
      if readOnly || !IsDir(Parent(p)) || p in dirs {
        return Err(Io);
      }
      files := files[p := content];
      return Ok(());
    }

    /** `remove_dir_all`: the directory and everything below it go; a file
        in its place, or nothing at all (NotFound), is an error. */
    method RemoveDirAll(p: Path) returns (r: Result<()>)
      requires Valid() && p != []
      modifies this
      ensures Valid()
      ensures manifest == old(manifest)
      ensures r.Ok? <==> !readOnly && p in old(dirs)
      ensures r.Ok? ==> dirs == set q | q in old(dirs) && !(p <= q)
      ensures r.Ok? ==> files == map q | q in old(files) && !(p <= q) :: old(files)[q]
      ensures r.Err? ==> r.error == Io && dirs == old(dirs) && files == old(files)
    {
      if readOnly || p !in dirs {
        return Err(Io);
      }
      forall q | q != [] && p <= Parent(q)
        ensures p <= q
      {
        assert q[..|p|] == Parent(q)[..|p|];
      }
      dirs := set q | q in dirs && !(p <= q);
      files := map q | q in files && !(p <= q) :: files[q];
      return Ok(());
    }
  }
}
