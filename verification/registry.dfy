/** The package registry client (crates/forgekit-core/src/registry.rs),
    reduced to what it does with its decoded local index, its archive cache
    and the answers of the network.

    The index file `packages.json` is held decoded, as an `IndexFile`. The
    cache directory is a map from file name to contents. Each network
    request is a total function from its URL to an outcome, which may be an
    error. The clock is a `Clock`, the readings one call takes. */
module Registry {
  import opened Common
  import opened Text

  datatype VersionInfo = VersionInfo(
    version: string,
    gitRef: string,
    archiveUrl: string,
    published: string,
    checksum: string)

  datatype IndexEntry = IndexEntry(name: string, versions: map<string, VersionInfo>, latest: string)

  type Index = map<string, IndexEntry>

  datatype DependencySpec = DependencySpec(name: string, version: string, optional: bool, dev: bool)

  datatype PackageMetadata = PackageMetadata(
    name: string,
    version: string,
    description: string,
    authors: seq<string>,
    repository: string,
    license: string,
    keywords: seq<string>,
    categories: seq<string>,
    dependencies: seq<DependencySpec>,
    targets: seq<string>,
    releaseDate: string,
    downloads: nat)

  /** The state of `packages.json` in the index directory. */
  datatype IndexFile =
    | NoIndex          // the file does not exist
    | Unreadable       // reading it fails
    | Malformed        // it is not a JSON index
    | Stored(index: Index)

  /** Reading and decoding the index: `Ok(None)` when there is no file. */
  function LoadIndex(f: IndexFile): (r: Result<Option<Index>>)
    ensures r == Ok(None) <==> f.NoIndex?
    ensures f.Stored? <==> r.Ok? && r.value.Some?
    ensures r.Ok? && r.value.Some? ==> r.value.value == f.index
    ensures f.Unreadable? ==> r == Err(Io)
    ensures f.Malformed? ==> r == Err(Json)
  {
    match f
    case NoIndex => Ok(None)
    case Unreadable => Err(Io)
    case Malformed => Err(Json)
    case Stored(ix) => Ok(Some(ix))
  }

  // ----- the network -----

  /** One element of the `items` array of a repository search answer; a
      field that is missing or not a string is `None`. */
  datatype SearchItem = SearchItem(
    name: Option<string>,
    fullName: Option<string>,
    description: Option<string>,
    htmlUrl: Option<string>)

  /** The fields of a release answer the client reads. */
  datatype ReleaseInfo = ReleaseInfo(body: Option<string>, publishedAt: Option<string>)

  /** What each request returns, by URL. A search answer without an
      `items` array is `Ok(None)`. */
  datatype Network = Network(
    searchRepos: string -> Result<Option<seq<SearchItem>>>,
    release: string -> Result<ReleaseInfo>,
    archive: string -> Result<Bytes>)

  function OrElse(o: Option<string>, default: string): string {
    if o.Some? then o.value else default
  }

  function SearchUrl(query: string): string {
    "https://api.github.com/search/repositories?q=" + query + "+topic:forgekit-package&sort=stars&order=desc"
  }

  /** The repository a package name stands for: the name with every
      "forgekit-" removed. */
  function RepoOf(name: string): string {
    ReplaceAll(name, "forgekit-", "")
  }

  function ReleaseUrl(name: string, version: string): string {
    "https://api.github.com/repos/" + RepoOf(name) + "/releases/tags/v" + version
  }

  function ArchiveUrl(name: string, version: string): string {
    "https://github.com/" + RepoOf(name) + "/archive/refs/tags/v" + version + ".tar.gz"
  }

  // ----- local search -----

  /** The local-search filter: the name, or the `version` field of one of
      the entry's versions, contains the query. */
  predicate Selected(ix: Index, query: string, name: string)
    requires name in ix
  {
    Contains(name, query)
    || exists v :: v in ix[name].versions.Values && Contains(v.version, query)
  }

  /** The metadata a local index entry is presented as. */
  function LocalMetadata(baseUrl: string, name: string, entry: IndexEntry): (m: PackageMetadata)
    ensures m.name == name && m.version == entry.latest
    ensures entry.latest in entry.versions ==> m.releaseDate == entry.versions[entry.latest].published
    ensures entry.latest !in entry.versions ==> m.releaseDate == ""
  {
    PackageMetadata(
      name, entry.latest, "Package " + name, [], baseUrl + "/" + name, "MIT", [], [], [],
      ["ledokoz"],
      if entry.latest in entry.versions then entry.versions[entry.latest].published else "",
      0)
  }

  /** `rs` lists each selected entry of `ix` exactly once, as its local
      metadata, and nothing else. */
  ghost predicate IsLocalResult(baseUrl: string, ix: Index, query: string, rs: seq<PackageMetadata>) {
    && (forall i :: 0 <= i < |rs| ==>
          rs[i].name in ix && Selected(ix, query, rs[i].name)
          && rs[i] == LocalMetadata(baseUrl, rs[i].name, ix[rs[i].name]))
    && (forall n :: n in ix && Selected(ix, query, n) ==> exists i :: 0 <= i < |rs| && rs[i].name == n)
    && (forall i, j :: 0 <= i < j < |rs| ==> rs[i].name != rs[j].name)
  }

  ghost predicate AnySelected(ix: Index, query: string) {
    exists n :: n in ix && Selected(ix, query, n)
  }

  /** A local result is empty exactly when no entry is selected. */
  lemma LocalResultEmpty(baseUrl: string, ix: Index, query: string, rs: seq<PackageMetadata>)
    requires IsLocalResult(baseUrl, ix, query, rs)
    ensures rs == [] <==> !AnySelected(ix, query)
  {
    if rs != [] {
      assert rs[0].name in ix && Selected(ix, query, rs[0].name);
    }
  }

  /** The empty query selects every entry. */
  lemma EmptyQuerySelectsAll(ix: Index, name: string)
    requires name in ix
    ensures Selected(ix, "", name)
  {
  }

  /** `rs` is a local result for the names in `done`. */
  ghost predicate LocalResultSoFar(baseUrl: string, ix: Index, query: string, done: set<string>, rs: seq<PackageMetadata>) {
    && (forall i :: 0 <= i < |rs| ==>
          rs[i].name in done && rs[i].name in ix && Selected(ix, query, rs[i].name)
          && rs[i] == LocalMetadata(baseUrl, rs[i].name, ix[rs[i].name]))
    && (forall n :: n in done && n in ix && Selected(ix, query, n) ==> exists i :: 0 <= i < |rs| && rs[i].name == n)
    && (forall i, j :: 0 <= i < j < |rs| ==> rs[i].name != rs[j].name)
  }

  /** Visiting a selected name appends its metadata. */
  lemma LocalResultAppend(baseUrl: string, ix: Index, query: string, done: set<string>, rs: seq<PackageMetadata>,
                          name: string, m: PackageMetadata)
    requires LocalResultSoFar(baseUrl, ix, query, done, rs) && name in ix && name !in done
    requires Selected(ix, query, name) && m == LocalMetadata(baseUrl, name, ix[name])
    ensures LocalResultSoFar(baseUrl, ix, query, done + {name}, rs + [m])
  {
    var rs' := rs + [m];
    assert rs'[|rs|] == m && m.name == name;
    forall n | n in done + {name} && n in ix && Selected(ix, query, n)
      ensures exists i :: 0 <= i < |rs'| && rs'[i].name == n
    {
      if n != name {
        var i :| 0 <= i < |rs| && rs[i].name == n;
        assert rs'[i] == rs[i];
      }
    }
  }

  /** Visiting a name that is not selected changes nothing. */
  lemma LocalResultSkip(baseUrl: string, ix: Index, query: string, done: set<string>, rs: seq<PackageMetadata>, name: string)
    requires LocalResultSoFar(baseUrl, ix, query, done, rs) && name in ix && !Selected(ix, query, name)
    ensures LocalResultSoFar(baseUrl, ix, query, done + {name}, rs)
  {
  }

  /** `search_local_index` (registry.rs:161-197); the index is visited in
      an unspecified order. */
  method SearchLocalIndex(baseUrl: string, f: IndexFile, query: string) returns (r: Result<seq<PackageMetadata>>)
    ensures LoadIndex(f).Err? ==> r == Err(LoadIndex(f).error)
    ensures f.NoIndex? ==> r == Ok([])
    ensures f.Stored? ==> r.Ok? && IsLocalResult(baseUrl, f.index, query, r.value)
  {
    var loaded :- LoadIndex(f);
    if loaded.None? {
      return Ok([]);
    }
    var results := CollectLocal(baseUrl, loaded.value, query);
    return Ok(results);
  }

  /** The loop of `search_local_index` over the entries of the index. */
  method CollectLocal(baseUrl: string, ix: Index, query: string) returns (results: seq<PackageMetadata>)
    ensures IsLocalResult(baseUrl, ix, query, results)
  {
    results := [];
    var remaining := ix.Keys;
    ghost var done: set<string> := {};
    while remaining != {}
      invariant remaining !! done && remaining + done == ix.Keys
      invariant LocalResultSoFar(baseUrl, ix, query, done, results)
      decreases remaining
    {
      var name :| name in remaining;
      remaining := remaining - {name};
      if Selected(ix, query, name) {
        var m := LocalMetadata(baseUrl, name, ix[name]);
        LocalResultAppend(baseUrl, ix, query, done, results, name, m);
        results := results + [m];
      } else {
        LocalResultSkip(baseUrl, ix, query, done, results, name);
      }
      done := done + {name};
    }
  }

  // ----- remote search -----

  /** The clock as one call sees it: `clock(i)` is the time, as RFC 3339
      text, at the call's `i`-th reading. */
  type Clock = nat -> string

  /** How one search item is presented; `now` is the clock reading taken
      for it. */
  function RemoteMetadata(item: SearchItem, now: string): PackageMetadata {
    PackageMetadata(
      OrElse(item.name, "unknown"), "0.1.0", OrElse(item.description, ""),
      [FirstField(OrElse(item.fullName, ""), '/')], OrElse(item.htmlUrl, ""), "MIT",
      ["forgekit"], [], [], ["ledokoz"], now, 0)
  }

  function Min(a: nat, b: nat): nat {
    if a <= b then a else b
  }

  /** The answer of `search_github_packages`: the first 20 items, in order,
      the `i`-th stamped with the `i`-th clock reading. */
  function RemoteSearch(net: Network, query: string, clock: Clock): (r: Result<seq<PackageMetadata>>)
    ensures net.searchRepos(SearchUrl(query)).Err? <==> r.Err?
    ensures r.Ok? ==> |r.value| <= 20
    ensures r.Ok? && net.searchRepos(SearchUrl(query)).value.None? ==> r.value == []
    ensures r.Ok? && net.searchRepos(SearchUrl(query)).value.Some? ==>
      var items := net.searchRepos(SearchUrl(query)).value.value;
      |r.value| == Min(20, |items|)
      && forall i :: 0 <= i < |r.value| ==> r.value[i] == RemoteMetadata(items[i], clock(i))
  {
    var answer := net.searchRepos(SearchUrl(query));
    if answer.Err? then Err(answer.error)
    else if answer.value.None? then Ok([])
    else
      var items := answer.value.value;
      Ok(seq(Min(20, |items|), i requires 0 <= i < Min(20, |items|) => RemoteMetadata(items[i], clock(i))))
  }

  /** `search_github_packages` (registry.rs:200-240). */
  method SearchGithubPackages(net: Network, query: string, clock: Clock) returns (r: Result<seq<PackageMetadata>>)
    ensures r == RemoteSearch(net, query, clock)
  {
    var answer :- net.searchRepos(SearchUrl(query));
    var packages: seq<PackageMetadata> := [];
    if answer.Some? {
      var items := answer.value;
      var n := Min(20, |items|);
      var i := 0;
      while i < n
        invariant 0 <= i <= n
        invariant |packages| == i
        invariant forall j :: 0 <= j < i ==> packages[j] == RemoteMetadata(items[j], clock(j))
      {
        packages := packages + [RemoteMetadata(items[i], clock(i))];
        i := i + 1;
      }
      assert packages == RemoteSearch(net, query, clock).value;
    }
    return Ok(packages);
  }

  /** `search_packages` (registry.rs:146-158): local results when there are
      any; the remote search only when the local search found nothing. */
  method SearchPackages(baseUrl: string, f: IndexFile, net: Network, query: string, clock: Clock)
    returns (r: Result<seq<PackageMetadata>>)
    ensures LoadIndex(f).Err? ==> r == Err(LoadIndex(f).error)
    ensures f.Stored? && AnySelected(f.index, query) ==>
      r.Ok? && r.value != [] && IsLocalResult(baseUrl, f.index, query, r.value)
    ensures f.NoIndex? || (f.Stored? && !AnySelected(f.index, query)) ==>
      r == RemoteSearch(net, query, clock)
  {
    var local :- SearchLocalIndex(baseUrl, f, query);
    if f.Stored? {
      LocalResultEmpty(baseUrl, f.index, query, local);
    }
    if local != [] {
      return Ok(local);
    }
    r := SearchGithubPackages(net, query, clock);
  }

  // ----- package information -----

  /** The remote branch of `get_package_info` (registry.rs:308-337). */
  function RemoteInfo(net: Network, name: string, version: string): (r: Result<PackageMetadata>)
    ensures r.Err? <==> net.release(ReleaseUrl(name, version)).Err?
    ensures r.Ok? ==> r.value.name == name && r.value.version == version
  {
    var answer := net.release(ReleaseUrl(name, version));
    if answer.Err? then Err(answer.error)
    else
      Ok(PackageMetadata(
        name, version, OrElse(answer.value.body, "No description"), [FirstField(name, '/')],
        "https://github.com/" + name, "MIT", ["forgekit"], [], [], ["ledokoz"],
        OrElse(answer.value.publishedAt, ""), 0))
  }

  /** `get_package_info` (registry.rs:277-338): the local index first; a
      missing name or version falls through to the network, a failing read
      of the index does not. */
  function PackageInfo(baseUrl: string, f: IndexFile, net: Network, name: string, version: string): (r: Result<PackageMetadata>)
    ensures LoadIndex(f).Err? ==> r == Err(LoadIndex(f).error)
    ensures r.Ok? ==> r.value.name == name && r.value.version == version
  {
    var loaded := LoadIndex(f);
    if loaded.Err? then Err(loaded.error)
    else if loaded.value.Some? && name in loaded.value.value && version in loaded.value.value[name].versions then
      var info := loaded.value.value[name].versions[version];
      Ok(PackageMetadata(
        name, version, "Package " + name, [], baseUrl + "/" + name, "MIT", [], [], [],
        ["ledokoz"], info.published, 0))
    else RemoteInfo(net, name, version)
  }

  /** A local hit returns the requested name and version, dated by that
      version's `published`, without asking the network. */
  lemma PackageInfoLocalHit(baseUrl: string, ix: Index, net: Network, name: string, version: string)
    requires name in ix && version in ix[name].versions
    ensures var r := PackageInfo(baseUrl, Stored(ix), net, name, version);
      r.Ok? && r.value.name == name && r.value.version == version
      && r.value.releaseDate == ix[name].versions[version].published
  {
  }

  /** A missing index, a missing name or a missing version leaves the
      answer to the network. */
  lemma PackageInfoFallsThrough(baseUrl: string, f: IndexFile, net: Network, name: string, version: string)
    requires f.NoIndex? || (f.Stored? && (name !in f.index || version !in f.index[name].versions))
    ensures PackageInfo(baseUrl, f, net, name, version) == RemoteInfo(net, name, version)
  {
  }

  /** Whatever branch answers, the metadata is for the requested name and
      version. */
  lemma PackageInfoIsRequested(baseUrl: string, f: IndexFile, net: Network, name: string, version: string)
    ensures var r := PackageInfo(baseUrl, f, net, name, version);
      r.Ok? ==> r.value.name == name && r.value.version == version
  {
  }

  // ----- the sample index -----

  const SAMPLE_PACKAGES: seq<(string, string)> := [
    ("forgekit-serde", "0.1.0"),
    ("forgekit-tokio", "0.1.0"),
    ("forgekit-http", "0.1.0"),
    ("forgekit-gui", "0.1.0")
  ]

  /** The entry `update_index` writes for one sample package. */
  function SampleEntry(name: string, version: string, now: string): IndexEntry {
    IndexEntry(
      name,
      map[version := VersionInfo(
        version, "v" + version,
        "https://github.com/ledokoz-tech/" + name + "/archive/v" + version + ".tar.gz",
        now, "")],
      version)
  }

  /** What `update_index` promises about the entry it writes under `n`. */
  ghost predicate IsSampleEntry(n: string, e: IndexEntry, now: string) {
    && e.name == n
    && e.latest == "0.1.0"
    && e.versions.Keys == {"0.1.0"}
    && e.versions["0.1.0"].version == "0.1.0"
    && e.versions["0.1.0"].gitRef == "v0.1.0"
    && e.versions["0.1.0"].archiveUrl == "https://github.com/ledokoz-tech/" + n + "/archive/v0.1.0.tar.gz"
    && e.versions["0.1.0"].checksum == ""
    && e.versions["0.1.0"].published == now
  }

  /** The sample names are pairwise different, so no insertion of
      `update_index` overwrites another. */
  ghost predicate DistinctNames(ps: seq<(string, string)>) {
    forall i, j :: 0 <= i < j < |ps| ==> ps[i].0 != ps[j].0
  }

  /** Everything `update_index` promises about the index it writes: the
      `i`-th sample package is stamped with the `i`-th clock reading. */
  ghost predicate IsSampleIndex(ix: Index, clock: Clock) {
    && ix.Keys == (set p | p in SAMPLE_PACKAGES :: p.0)
    && forall i :: 0 <= i < |SAMPLE_PACKAGES| ==>
         IsSampleEntry(SAMPLE_PACKAGES[i].0, ix[SAMPLE_PACKAGES[i].0], clock(i))
  }

  /** Every package of the sample index is then found locally at 0.1.0,
      dated by the reading taken when its entry was built. */
  lemma SampleIndexServesLocally(baseUrl: string, ix: Index, net: Network, clock: Clock, i: nat)
    requires IsSampleIndex(ix, clock) && i < |SAMPLE_PACKAGES|
    ensures var name := SAMPLE_PACKAGES[i].0;
      PackageInfo(baseUrl, Stored(ix), net, name, "0.1.0")
         == Ok(PackageMetadata(name, "0.1.0", "Package " + name, [], baseUrl + "/" + name, "MIT",
                               [], [], [], ["ledokoz"], clock(i), 0))
  {
    assert SAMPLE_PACKAGES[i] in SAMPLE_PACKAGES;
  }

  /** The index built by inserting the entries of `ps` in order, the
      `i`-th built at the `i`-th clock reading. */
  function BuildIndex(ps: seq<(string, string)>, clock: Clock): Index
    decreases |ps|
  {
    if ps == [] then map[]
    else
      var (name, version) := ps[|ps| - 1];
      BuildIndex(ps[..|ps| - 1], clock)[name := SampleEntry(name, version, clock(|ps| - 1))]
  }

  /** The keys are the names of `ps`. */
  lemma {:induction false} BuildIndexKeys(ps: seq<(string, string)>, clock: Clock)
    ensures BuildIndex(ps, clock).Keys == set p | p in ps :: p.0
    decreases |ps|
  {
    if ps != [] {
      var init := ps[..|ps| - 1];
      var last := ps[|ps| - 1];
      BuildIndexKeys(init, clock);
      assert ps == init + [last];
      assert (set p | p in ps :: p.0) == (set p | p in init :: p.0) + {last.0};
    }
  }

  /** Entries of one version under distinct names: the `i`-th name maps to
      its sample entry built at reading `i`. */
  lemma {:induction false} BuildIndexUniform(ps: seq<(string, string)>, clock: Clock)
    requires forall i :: 0 <= i < |ps| ==> ps[i].1 == "0.1.0"
    requires DistinctNames(ps)
    ensures forall i :: 0 <= i < |ps| ==>
      ps[i].0 in BuildIndex(ps, clock) && BuildIndex(ps, clock)[ps[i].0] == SampleEntry(ps[i].0, "0.1.0", clock(i))
    decreases |ps|
  {
    if ps != [] {
      var init := ps[..|ps| - 1];
      var last := ps[|ps| - 1];
      assert forall i :: 0 <= i < |init| ==> init[i] == ps[i];
      BuildIndexUniform(init, clock);
      var ix0 := BuildIndex(init, clock);
      var ix := BuildIndex(ps, clock);
      assert ix == ix0[last.0 := SampleEntry(last.0, last.1, clock(|ps| - 1))];
      forall i | 0 <= i < |ps|
        ensures ps[i].0 in ix && ix[ps[i].0] == SampleEntry(ps[i].0, "0.1.0", clock(i))
      {
        if i < |init| {
          assert ps[i].0 != last.0;
          assert ix0[init[i].0] == SampleEntry(init[i].0, "0.1.0", clock(i));
        }
      }
    }
  }

  lemma SampleEntryShape(n: string, now: string)
    ensures IsSampleEntry(n, SampleEntry(n, "0.1.0", now), now)
  {
    assert "v" + "0.1.0" == "v0.1.0";
    AppendAssoc("https://github.com/ledokoz-tech/" + n, "/archive/v", "0.1.0");
    assert "/archive/v" + "0.1.0" + ".tar.gz" == "/archive/v0.1.0.tar.gz";
  }

  /** The sample index names exactly these four packages, all different. */
  lemma SampleNames()
    ensures (set p | p in SAMPLE_PACKAGES :: p.0)
         == {"forgekit-serde", "forgekit-tokio", "forgekit-http", "forgekit-gui"}
    ensures DistinctNames(SAMPLE_PACKAGES)
  {
    var ps := SAMPLE_PACKAGES;
    assert forall p :: p in ps <==> p == ps[0] || p == ps[1] || p == ps[2] || p == ps[3];
    assert ps[0].0[9] == 's' && ps[1].0[9] == 't' && ps[2].0[9] == 'h' && ps[3].0[9] == 'g';
  }

  /** The sample packages build an index of the promised shape. */
  lemma SampleIndexShape(clock: Clock)
    ensures IsSampleIndex(BuildIndex(SAMPLE_PACKAGES, clock), clock)
  {
    var ps := SAMPLE_PACKAGES;
    var ix := BuildIndex(ps, clock);
    assert forall i :: 0 <= i < |ps| ==> ps[i].1 == "0.1.0";
    SampleNames();
    BuildIndexKeys(ps, clock);
    BuildIndexUniform(ps, clock);
    forall i | 0 <= i < |ps|
      ensures IsSampleEntry(ps[i].0, ix[ps[i].0], clock(i))
    {
      SampleEntryShape(ps[i].0, clock(i));
    }
  }

  /** What `download_package` leaves in the cache directory, and its
      outcome: a cached archive is returned without any lookup; otherwise
      the package must be known (locally or remotely) and its archive is
      fetched and written to the cache path. */
  function Fetch(cache: map<string, Bytes>, baseUrl: string, f: IndexFile, readOnly: bool,
                 net: Network, name: string, version: string): (r: (map<string, Bytes>, Result<string>))
    ensures r.1.Ok? ==> r.1.value == RegistryClient.CachePath(name, version) && r.1.value in r.0
    ensures RegistryClient.CachePath(name, version) in cache ==> r == (cache, Ok(RegistryClient.CachePath(name, version)))
    ensures RegistryClient.CachePath(name, version) !in cache ==>
      && (r.1.Ok? <==> (PackageInfo(baseUrl, f, net, name, version).Ok?
                        && net.archive(ArchiveUrl(name, version)).Ok? && !readOnly))
      && (r.1.Ok? ==> r.0 == cache[RegistryClient.CachePath(name, version) := net.archive(ArchiveUrl(name, version)).value])
      && (r.1.Err? ==> r.0 == cache)
  {
    var path := RegistryClient.CachePath(name, version);
    if path in cache then (cache, Ok(path))
    else
      var info := PackageInfo(baseUrl, f, net, name, version);
      var bytes := net.archive(ArchiveUrl(name, version));
      if info.Err? then (cache, Err(info.error))
      else if bytes.Err? then (cache, Err(bytes.error))
      else if readOnly then (cache, Err(Io))
      else (cache[path := bytes.value], Ok(path))
  }

  /** The registry's directories: the archive cache and the index file. */
  class RegistryClient {
    const baseUrl: string
    /** A directory that refuses writes. */
    const readOnly: bool
    var cacheFiles: map<string, Bytes>
    var indexFile: IndexFile

    constructor (baseUrl: string, readOnly: bool, cacheFiles: map<string, Bytes>, indexFile: IndexFile)
      ensures this.baseUrl == baseUrl && this.readOnly == readOnly
      ensures this.cacheFiles == cacheFiles && this.indexFile == indexFile
    {
      this.baseUrl := baseUrl;
      this.readOnly := readOnly;
      this.cacheFiles := cacheFiles;
      this.indexFile := indexFile;
    }

    /** Name of the cached archive, inside the cache directory. */
    static function CachePath(name: string, version: string): string {
      name + "-" + version + ".tar.gz"
    }

    /** `download_package` (registry.rs:243-274), as `Fetch` describes it. */
    method DownloadPackage(net: Network, name: string, version: string) returns (r: Result<string>)
      modifies this
      ensures indexFile == old(indexFile)
      ensures (cacheFiles, r) == Fetch(old(cacheFiles), baseUrl, indexFile, readOnly, net, name, version)
    {
      var path := CachePath(name, version);
      if path in cacheFiles {
        return Ok(path);
      }
      var _ :- PackageInfo(baseUrl, indexFile, net, name, version);
      var bytes :- net.archive(ArchiveUrl(name, version));
      if readOnly {
        return Err(Io);
      }
      cacheFiles := cacheFiles[path := bytes];
      return Ok(path);
    }

    /** `update_index` (registry.rs:341-385): builds the sample index and
        writes it; each entry reads the clock once, in order. */
    method UpdateIndex(clock: Clock) returns (r: Result<()>)
      modifies this
      ensures cacheFiles == old(cacheFiles)
      ensures r.Ok? <==> !readOnly
      ensures r.Ok? ==> indexFile.Stored? && IsSampleIndex(indexFile.index, clock)
      ensures r.Err? ==> indexFile == old(indexFile)
    {
      var index: Index := map[];
      var i := 0;
      while i < |SAMPLE_PACKAGES|
        invariant 0 <= i <= |SAMPLE_PACKAGES|
        invariant index == BuildIndex(SAMPLE_PACKAGES[..i], clock)
      {
        var (name, version) := SAMPLE_PACKAGES[i];
        assert SAMPLE_PACKAGES[..i + 1][..i] == SAMPLE_PACKAGES[..i];
        index := index[name := SampleEntry(name, version, clock(i))];
        i := i + 1;
      }
      assert SAMPLE_PACKAGES[..i] == SAMPLE_PACKAGES;
      SampleIndexShape(clock);
      if readOnly {
        return Err(Io);
      }
      indexFile := Stored(index);
      return Ok(());
    }
  }

  /** `list_packages` (registry.rs:388-397): every package name of the
      index, once each, in an unspecified order; none without an index. */
  method ListPackages(f: IndexFile) returns (r: Result<seq<string>>)
    ensures LoadIndex(f).Err? ==> r == Err(LoadIndex(f).error)
    ensures f.NoIndex? ==> r == Ok([])
    ensures f.Stored? ==>
      && r.Ok? && |r.value| == |f.index.Keys|
      && (forall n :: n in r.value <==> n in f.index)
      && (forall i, j :: 0 <= i < j < |r.value| ==> r.value[i] != r.value[j])
  {
    var loaded :- LoadIndex(f);
    if loaded.None? {
      return Ok([]);
    }
    var names: seq<string> := [];
    var remaining := loaded.value.Keys;
    while remaining != {}
      invariant remaining <= loaded.value.Keys
      invariant forall n :: n in names <==> n in loaded.value && n !in remaining
      invariant forall i, j :: 0 <= i < j < |names| ==> names[i] != names[j]
      invariant |names| + |remaining| == |loaded.value.Keys|
      decreases remaining
    {
      var n :| n in remaining;
      names := names + [n];
      remaining := remaining - {n};
    }
    return Ok(names);
  }
}
