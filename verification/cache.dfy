/** The build artifact cache (crates/forgekit-core/src/cache.rs): keyed byte
    blobs held in memory and mirrored as `{key}.cache` files in the cache
    directory, with hit and miss counters.

    The directory is a map from file name to contents. Its faults are part
    of its state: `unreadable` names the files whose reads fail, and a
    `readOnly` directory refuses every write and removal. The pure functions
    `GetStep` .. `LoadStep` give the meaning of each operation on a
    `CacheState`; the class `BuildCache` performs them in place and is proved
    to agree with them. */
module Cache {
  import opened Common
  import opened Text
  import opened Glob

  /** Name of the file that holds `key` (cache.rs:83, 103). */
  function FileName(key: string): string {
    key + ".cache"
  }

  predicate IsCacheFile(name: string) {
    IsSuffix(".cache", name)
  }

  /** The key a cache file stands for: its name without one ".cache". */
  function KeyOf(name: string): (key: string)
    requires IsCacheFile(name)
    ensures FileName(key) == name
  {
    name[..|name| - 6]
  }

  lemma KeyOfFileName(key: string)
    ensures IsCacheFile(FileName(key)) && KeyOf(FileName(key)) == key
  {
    assert FileName(key)[..|key|] == key;
  }

  /** What cache.rs:127 and 182 actually compute, `trim_end_matches(".cache")`,
      which strips the suffix as many times as it repeats. */
  function TrimCacheSuffixes(name: string): (r: string)
    ensures |r| <= |name|
    decreases |name|
  {
    if IsCacheFile(name) then TrimCacheSuffixes(name[..|name| - 6]) else name
  }

  /** The stripping in the source loses keys that end in ".cache": the file
      written for "a.cache" is read back as the key "a", while the
      corrected `KeyOf` recovers every key. */
  lemma TrimCacheSuffixesLosesKey()
    ensures TrimCacheSuffixes(FileName("a.cache")) == "a"
    ensures KeyOf(FileName("a.cache")) == "a.cache"
  {
    assert FileName("a.cache") == "a.cache.cache";
    assert IsCacheFile("a.cache.cache");
    assert "a.cache.cache"[..7] == "a.cache";
    assert IsCacheFile("a.cache");
    assert "a.cache"[..1] == "a";
    assert !IsCacheFile("a");
    KeyOfFileName("a.cache");
  }

  /** `CacheStats` without the floating-point `hit_rate`. */
  datatype CacheStats = CacheStats(totalSize: nat, itemCount: nat, hits: nat, misses: nat)

  /** Everything the cache's behaviour depends on. */
  datatype CacheState = CacheState(
    memory: map<string, Bytes>,
    files: map<string, Bytes>,
    unreadable: set<string>,
    readOnly: bool,
    hits: nat,
    misses: nat)

  /** The memory/disk agreement: every entry held in memory is also the
      content of its file. */
  ghost predicate Agrees(s: CacheState) {
    forall k :: k in s.memory ==> FileName(k) in s.files && s.files[FileName(k)] == s.memory[k]
  }

  /** `get` (cache.rs:76-94): memory first, then the key's file, else a miss. */
  function GetStep(s: CacheState, key: string): (CacheState, Option<Bytes>) {
    if key in s.memory then
      (s.(hits := s.hits + 1), Some(s.memory[key]))
    else if FileName(key) in s.files && FileName(key) !in s.unreadable then
      var data := s.files[FileName(key)];
      (s.(memory := s.memory[key := data], hits := s.hits + 1), Some(data))
    else
      (s.(misses := s.misses + 1), None)
  }

  /** `set` (cache.rs:102-107): write the file, then the memory entry. */
  function SetStep(s: CacheState, key: string, value: Bytes): (CacheState, Result<()>) {
    if s.readOnly then (s, Err(Io))
    else (s.(files := s.files[FileName(key) := value], memory := s.memory[key := value]), Ok(()))
  }

  /** A cache file that `invalidate` deletes. */
  predicate Doomed(s: CacheState, pattern: string, name: string) {
    !s.readOnly && IsCacheFile(name) && GlobMatches(pattern, KeyOf(name))
  }

  /** `invalidate` (cache.rs:114-139): drop matching keys from memory, delete
      matching cache files (a failed deletion is ignored). */
  function InvalidateStep(s: CacheState, pattern: string): CacheState {
    s.(memory := map k | k in s.memory && !GlobMatches(pattern, k) :: s.memory[k],
       files := map f | f in s.files && !Doomed(s, pattern, f) :: s.files[f])
  }

  /** `clear` (cache.rs:142-151): memory is emptied before the directory is
      removed and recreated, so a refused removal still empties memory. */
  function ClearStep(s: CacheState): (CacheState, Result<()>) {
    if s.readOnly then (s.(memory := map[]), Err(Io))
    else (s.(memory := map[], files := map[]), Ok(()))
  }

  /** A file `load_from_disk` imports. */
  predicate Loadable(s: CacheState, name: string) {
    name in s.files && IsCacheFile(name) && name !in s.unreadable
  }

  /** Every readable cache file, keyed by its key. */
  function LoadedAmong(s: CacheState, names: set<string>): map<string, Bytes> {
    map f | f in names && Loadable(s, f) :: KeyOf(f) := s.files[f]
  }

  /** `load_from_disk` (cache.rs:171-194). */
  function LoadStep(s: CacheState): CacheState {
    s.(memory := s.memory + LoadedAmong(s, s.files.Keys))
  }

  /** Sum of the payload lengths of a map's entries. */
  ghost function TotalSize(m: map<string, Bytes>): nat
    decreases |m|
  {
    if m == map[] then 0
    else
      var k :| k in m;
      assert |(m - {k}).Keys| < |m.Keys| by { assert m.Keys == (m - {k}).Keys + {k}; }
      |m[k]| + TotalSize(m - {k})
  }

  /** The sum does not depend on the order entries are taken in. */
  lemma {:induction false} TotalSizeRemove(m: map<string, Bytes>, k: string)
    requires k in m
    ensures TotalSize(m) == |m[k]| + TotalSize(m - {k})
    decreases |m|
  {
    var j :| j in m && TotalSize(m) == |m[j]| + TotalSize(m - {j});
    if j != k {
      assert |(m - {j}).Keys| < |m.Keys| by { assert m.Keys == (m - {j}).Keys + {j}; }
      assert |(m - {k}).Keys| < |m.Keys| by { assert m.Keys == (m - {k}).Keys + {k}; }
      TotalSizeRemove(m - {j}, k);
      TotalSizeRemove(m - {k}, j);
      assert m - {j} - {k} == m - {k} - {j};
    }
  }

  /** Storing `v` under `k` changes the total by the size difference. */
  lemma TotalSizeUpdate(m: map<string, Bytes>, k: string, v: Bytes)
    ensures TotalSize(m[k := v]) == TotalSize(m - {k}) + |v|
  {
    TotalSizeRemove(m[k := v], k);
    assert m[k := v] - {k} == m - {k};
  }

  // ----- what the operations promise -----

  /** A successful `set` stores the value in memory and on disk and leaves
      the counters alone; it fails exactly when the directory refuses the
      write, and then nothing changes. */
  lemma SetStores(s: CacheState, k: string, v: Bytes)
    ensures SetStep(s, k, v).1.Ok? <==> !s.readOnly
    ensures SetStep(s, k, v).1.Err? ==> SetStep(s, k, v).0 == s
    ensures SetStep(s, k, v).1.Ok? ==>
      var t := SetStep(s, k, v).0;
      t.memory == s.memory[k := v] && t.files == s.files[FileName(k) := v]
      && t.hits == s.hits && t.misses == s.misses
  {
  }

  /** Every `get` bumps exactly one counter: hits when it returns a value,
      misses when it returns nothing. */
  lemma GetCountsOnce(s: CacheState, k: string)
    ensures var (t, r) := GetStep(s, k);
      && t.hits + t.misses == s.hits + s.misses + 1
      && (r.Some? <==> t.hits == s.hits + 1)
      && (r.None? <==> t.misses == s.misses + 1)
  {
  }

  /** A `get` that misses memory but finds a readable file loads it; a
      `get` finds nothing exactly when neither memory nor a readable file
      holds the key, and then changes nothing but the miss counter. */
  lemma GetFallsBackToDisk(s: CacheState, k: string)
    ensures k !in s.memory && FileName(k) in s.files && FileName(k) !in s.unreadable ==>
      GetStep(s, k).1 == Some(s.files[FileName(k)])
      && GetStep(s, k).0.memory == s.memory[k := s.files[FileName(k)]]
    ensures GetStep(s, k).1.None? <==>
      k !in s.memory && (FileName(k) !in s.files || FileName(k) in s.unreadable)
    ensures GetStep(s, k).1.None? ==> GetStep(s, k).0 == s.(misses := s.misses + 1)
  {
  }

  /** A `get` right after a successful `set` returns the stored value and
      counts one hit. */
  lemma GetAfterSet(s: CacheState, k: string, v: Bytes)
    requires !s.readOnly
    ensures var t := SetStep(s, k, v).0;
      GetStep(t, k).1 == Some(v)
      && GetStep(t, k).0.hits == s.hits + 1 && GetStep(t, k).0.misses == s.misses
  {
  }

  /** `invalidate` removes from memory and from disk exactly the keys the
      pattern matches; every other entry and every other file keeps its
      contents; counters are untouched. */
  lemma InvalidateRemovesMatches(s: CacheState, pattern: string, k: string)
    requires !s.readOnly
    ensures var t := InvalidateStep(s, pattern);
      && (k in t.memory <==> k in s.memory && !GlobMatches(pattern, k))
      && (k in t.memory ==> t.memory[k] == s.memory[k])
      && (FileName(k) in t.files <==> FileName(k) in s.files && !GlobMatches(pattern, k))
      && (FileName(k) in t.files ==> t.files[FileName(k)] == s.files[FileName(k)])
      && t.hits == s.hits && t.misses == s.misses
  {
    KeyOfFileName(k);
  }

  /** Invalidating "build_*" over the keys build_1, build_2 and test_1
      leaves only test_1. */
  lemma InvalidateBuildPrefix(s: CacheState)
    requires s.memory.Keys == {"build_1", "build_2", "test_1"}
    ensures InvalidateStep(s, "build_*").memory.Keys == {"test_1"}
  {
    assert "build_" + "*" == "build_*";
    PrefixStar("build_", "build_1");
    PrefixStar("build_", "build_2");
    PrefixStar("build_", "test_1");
    assert "build_"[5] != "test_1"[5];
  }

  /** Files that are not cache files survive any invalidation. */
  lemma InvalidateKeepsOtherFiles(s: CacheState, pattern: string, name: string)
    requires name in s.files && !IsCacheFile(name)
    ensures var t := InvalidateStep(s, pattern);
      name in t.files && t.files[name] == s.files[name]
  {
  }

  /** After a successful `clear` memory and disk are empty, counters are
      unchanged, and a `get` of any key is a miss. */
  lemma ClearEmpties(s: CacheState, k: string)
    requires !s.readOnly
    ensures var (t, r) := ClearStep(s);
      && r.Ok? && t.memory == map[] && t.files == map[]
      && t.hits == s.hits && t.misses == s.misses
      && GetStep(t, k).1.None? && GetStep(t, k).0.misses == s.misses + 1
  {
  }

  lemma LoadedAmongAt(s: CacheState, names: set<string>, k: string)
    ensures k in LoadedAmong(s, names) <==> FileName(k) in names && Loadable(s, FileName(k))
    ensures k in LoadedAmong(s, names) ==> LoadedAmong(s, names)[k] == s.files[FileName(k)]
  {
    KeyOfFileName(k);
    if k in LoadedAmong(s, names) {
      var f :| f in names && Loadable(s, f) && KeyOf(f) == k;
      assert f == FileName(k);
    }
  }

  /** `load_from_disk` puts every readable cache file's contents in memory
      under its key, replacing what memory held; keys without such a file
      keep their entries; files and counters are unchanged. */
  lemma LoadWarmsMemory(s: CacheState, k: string)
    ensures var t := LoadStep(s);
      && t.files == s.files && t.hits == s.hits && t.misses == s.misses
      && (Loadable(s, FileName(k)) ==> k in t.memory && t.memory[k] == s.files[FileName(k)])
      && (!Loadable(s, FileName(k)) ==>
            (k in t.memory <==> k in s.memory) && (k in s.memory ==> t.memory[k] == s.memory[k]))
  {
    LoadedAmongAt(s, s.files.Keys, k);
  }

  /** A file written straight into the directory is served by `get` after
      `load_from_disk` (the warm-up scenario), and loading counts nothing. */
  lemma WarmUpThenGet(s: CacheState, k: string, v: Bytes)
    requires FileName(k) !in s.unreadable
    ensures var t := LoadStep(s.(files := s.files[FileName(k) := v]));
      t.hits == s.hits && t.misses == s.misses && GetStep(t, k).1 == Some(v)
  {
    var s1 := s.(files := s.files[FileName(k) := v]);
    KeyOfFileName(k);
    LoadWarmsMemory(s1, k);
  }

  // ----- every operation keeps memory and disk in agreement -----

  lemma AgreementPreserved(s: CacheState, k: string, v: Bytes, pattern: string)
    requires Agrees(s)
    ensures Agrees(GetStep(s, k).0)
    ensures Agrees(SetStep(s, k, v).0)
    ensures Agrees(InvalidateStep(s, pattern))
    ensures Agrees(ClearStep(s).0)
    ensures Agrees(LoadStep(s))
  {
    GetAgrees(s, k);
    SetAgrees(s, k, v);
    InvalidateAgrees(s, pattern);
    LoadAgrees(s);
  }

  lemma GetAgrees(s: CacheState, k: string)
    requires Agrees(s)
    ensures Agrees(GetStep(s, k).0)
  {
  }

  lemma SetAgrees(s: CacheState, k: string, v: Bytes)
    requires Agrees(s)
    ensures Agrees(SetStep(s, k, v).0)
  {
    var t := SetStep(s, k, v).0;
    forall j | j in t.memory
      ensures FileName(j) in t.files && t.files[FileName(j)] == t.memory[j]
    {
      KeyOfFileName(j);
      KeyOfFileName(k);
    }
  }

  lemma InvalidateAgrees(s: CacheState, pattern: string)
    requires Agrees(s)
    ensures Agrees(InvalidateStep(s, pattern))
  {
    var t := InvalidateStep(s, pattern);
    forall j | j in t.memory
      ensures FileName(j) in t.files && t.files[FileName(j)] == t.memory[j]
    {
      KeyOfFileName(j);
    }
  }

  lemma LoadAgrees(s: CacheState)
    requires Agrees(s)
    ensures Agrees(LoadStep(s))
  {
    var u := LoadStep(s);
    forall j | j in u.memory
      ensures FileName(j) in u.files && u.files[FileName(j)] == u.memory[j]
    {
      LoadedAmongAt(s, s.files.Keys, j);
    }
  }

  /** The agreement is what the source's key stripping breaks: with
      `trim_end_matches`, a key ending in ".cache" is kept in memory while the
      pattern for the shorter key deletes its file. */
  lemma TrimmedInvalidationBreaksAgreement()
    ensures var key := "a.cache";
      !GlobMatches("a", key) && GlobMatches("a", TrimCacheSuffixes(FileName(key)))
  {
    TrimCacheSuffixesLosesKey();
    LiteralMatchesItself("a", "a.cache");
    LiteralMatchesItself("a", "a");
  }

  /** The cache: memory, the directory, and the counters, updated in place. */
  class BuildCache {
    var memory: map<string, Bytes>
    var files: map<string, Bytes>
    const unreadable: set<string>
    const readOnly: bool
    var hits: nat
    var misses: nat

    function State(): CacheState
      reads this
    {
      CacheState(memory, files, unreadable, readOnly, hits, misses)
    }

    ghost predicate Valid()
      reads this
    {
      Agrees(State())
    }

    /** `BuildCache::new` over a directory holding `existing` (empty if it
        did not exist and was created). */
    constructor (existing: map<string, Bytes>, unreadable: set<string>, readOnly: bool)
      ensures Valid()
      ensures memory == map[] && files == existing && hits == 0 && misses == 0
      ensures this.unreadable == unreadable && this.readOnly == readOnly
    {
      memory := map[];
      files := existing;
      this.unreadable := unreadable;
      this.readOnly := readOnly;
      hits, misses := 0, 0;
    }

    method Get(key: string) returns (r: Option<Bytes>)
      requires Valid()
      modifies this
      ensures Valid()
      ensures (State(), r) == GetStep(old(State()), key)
    {
      if key in memory {
        hits := hits + 1;
        return Some(memory[key]);
      }
      var name := FileName(key);
      if name in files && name !in unreadable {
        var data := files[name];
        memory := memory[key := data];
        hits := hits + 1;
        return Some(data);
      }
      misses := misses + 1;
      return None;
    }

    method Set(key: string, value: Bytes) returns (r: Result<()>)
      requires Valid()
      modifies this
      ensures Valid()
      ensures (State(), r) == SetStep(old(State()), key, value)
    {
      if readOnly {
        return Err(Io);
      }
      SetAgrees(State(), key, value);
      files := files[FileName(key) := value];
      memory := memory[key := value];
      return Ok(());
    }

    method Invalidate(pattern: string) returns (r: Result<()>)
      requires Valid() && Plain(pattern)
      modifies this
      ensures Valid()
      ensures r == Ok(()) && State() == InvalidateStep(old(State()), pattern)
    {
      ghost var s0 := State();
      var regex := RegexSource(pattern);
      CompileRegexSource(pattern);
      RetainUnmatched(memory, pattern);
      memory := map k | k in memory && !IsMatch(regex, k) :: memory[k];
      PruneFiles(pattern, regex, s0);
      assert State() == InvalidateStep(s0, pattern);
      InvalidateAgrees(s0, pattern);
      return Ok(());
    }

    /** The file loop of `invalidate`: deletes each cache file whose key
        the pattern matches, unless the directory is read-only. */
    method PruneFiles(pattern: string, regex: string, ghost s0: CacheState)
      requires Plain(pattern) && regex == RegexSource(pattern)
      requires files == s0.files && readOnly == s0.readOnly
      modifies this
      ensures files == InvalidateStep(s0, pattern).files
      ensures memory == old(memory) && hits == old(hits) && misses == old(misses)
    {
      var remaining := files.Keys;
      ghost var done: set<string> := {};
      PrunedNone(s0, pattern);
      while remaining != {}
        invariant remaining !! done && remaining + done == s0.files.Keys
        invariant files == Pruned(s0, pattern, done)
        invariant memory == old(memory) && hits == old(hits) && misses == old(misses)
        decreases remaining
      {
        var name :| name in remaining;
        remaining := remaining - {name};
        PrunedStep(s0, pattern, done, name);
        done := done + {name};
        if IsCacheFile(name) {
          var key := KeyOf(name);
          RegexSourceMatchesGlob(pattern, key);
          if IsMatch(regex, key) && !readOnly {
            files := files - {name};
          }
        }
      }
      PrunedAll(s0, pattern, done);
    }

    method Clear() returns (r: Result<()>)
      requires Valid()
      modifies this
      ensures Valid()
      ensures (State(), r) == ClearStep(old(State()))
    {
      memory := map[];
      if readOnly {
        return Err(Io);
      }
      files := map[];
      return Ok(());
    }

    /** `stats`: the entry count and payload total of memory, with the
        counters copied. */
    method Stats() returns (st: CacheStats)
      ensures st.itemCount == |memory|
      ensures st.totalSize == TotalSize(memory)
      ensures st.hits == hits && st.misses == misses
    {
      var total := 0;
      var rest := memory;
      while rest != map[]
        invariant total + TotalSize(rest) == TotalSize(memory)
        decreases |rest|
      {
        var k :| k in rest;
        TotalSizeRemove(rest, k);
        total := total + |rest[k]|;
        assert |(rest - {k}).Keys| < |rest.Keys| by { assert rest.Keys == (rest - {k}).Keys + {k}; }
        rest := rest - {k};
      }
      st := CacheStats(total, |memory|, hits, misses);
    }

    method LoadFromDisk() returns (r: Result<()>)
      requires Valid()
      modifies this
      ensures Valid()
      ensures r == Ok(()) && State() == LoadStep(old(State()))
    {
      ghost var s0 := State();
      var remaining := files.Keys;
      ghost var done: set<string> := {};
      LoadedAmongNone(s0);
      assert s0.memory + map[] == memory;
      while remaining != {}
        invariant remaining !! done && remaining + done == s0.files.Keys
        invariant files == s0.files && hits == s0.hits && misses == s0.misses
        invariant memory == s0.memory + LoadedAmong(s0, done)
        decreases remaining
      {
        var name :| name in remaining;
        remaining := remaining - {name};
        if IsCacheFile(name) && name !in unreadable {
          var key := KeyOf(name);
          LoadedAmongStep(s0, done, name);
          MergeUpdate(s0.memory, LoadedAmong(s0, done), key, files[name]);
          memory := memory[key := files[name]];
        } else {
          LoadedAmongSkip(s0, done, name);
        }
        done := done + {name};
      }
      assert State() == LoadStep(s0);
      LoadAgrees(s0);
      return Ok(());
    }
  }

  lemma LoadedAmongStep(s: CacheState, done: set<string>, name: string)
    requires Loadable(s, name)
    ensures LoadedAmong(s, done + {name}) == LoadedAmong(s, done)[KeyOf(name) := s.files[name]]
  {
    var l1, l0 := LoadedAmong(s, done + {name}), LoadedAmong(s, done)[KeyOf(name) := s.files[name]];
    forall k
      ensures k in l1 <==> k in l0
      ensures k in l1 ==> l1[k] == l0[k]
    {
      LoadedAmongAt(s, done + {name}, k);
      LoadedAmongAt(s, done, k);
      KeyOfFileName(k);
    }
  }

  lemma LoadedAmongSkip(s: CacheState, done: set<string>, name: string)
    requires !Loadable(s, name)
    ensures LoadedAmong(s, done + {name}) == LoadedAmong(s, done)
  {
    var l1, l0 := LoadedAmong(s, done + {name}), LoadedAmong(s, done);
    forall k
      ensures k in l1 <==> k in l0
      ensures k in l1 ==> l1[k] == l0[k]
    {
      LoadedAmongAt(s, done + {name}, k);
      LoadedAmongAt(s, done, k);
    }
  }

  /** The cache files an invalidation deletes. */
  function DoomedFiles(s: CacheState, pattern: string): set<string> {
    set f | f in s.files && Doomed(s, pattern, f)
  }

  /** The directory once the files in `done` have been examined. */
  function Pruned(s: CacheState, pattern: string, done: set<string>): map<string, Bytes> {
    map f | f in s.files && !(f in done && f in DoomedFiles(s, pattern)) :: s.files[f]
  }

  /** Examining one more name removes it when it is doomed. */
  lemma RemovedStep(m: map<string, Bytes>, done: set<string>, doomed: set<string>, name: string)
    ensures name in doomed ==>
      (map f | f in m && !(f in done + {name} && f in doomed) :: m[f])
      == (map f | f in m && !(f in done && f in doomed) :: m[f]) - {name}
    ensures name !in doomed ==>
      (map f | f in m && !(f in done + {name} && f in doomed) :: m[f])
      == (map f | f in m && !(f in done && f in doomed) :: m[f])
  {
  }

  lemma PrunedStep(s: CacheState, pattern: string, done: set<string>, name: string)
    requires name in s.files
    ensures Doomed(s, pattern, name) ==> Pruned(s, pattern, done + {name}) == Pruned(s, pattern, done) - {name}
    ensures !Doomed(s, pattern, name) ==> Pruned(s, pattern, done + {name}) == Pruned(s, pattern, done)
  {
    RemovedStep(s.files, done, DoomedFiles(s, pattern), name);
  }

  lemma PrunedAll(s: CacheState, pattern: string, done: set<string>)
    requires done == s.files.Keys
    ensures Pruned(s, pattern, done) == InvalidateStep(s, pattern).files
  {
  }

  /** Retaining the keys the compiled regex does not match retains exactly
      the keys the glob does not match. */
  lemma RetainUnmatched(m: map<string, Bytes>, pattern: string)
    requires Plain(pattern)
    ensures Compile(RegexSource(pattern)).Some?
    ensures (map k | k in m && !IsMatch(RegexSource(pattern), k) :: m[k])
         == (map k | k in m && !GlobMatches(pattern, k) :: m[k])
  {
    CompileRegexSource(pattern);
    forall k {
      RegexSourceMatchesGlob(pattern, k);
    }
  }

  lemma LoadedAmongNone(s: CacheState)
    ensures LoadedAmong(s, {}) == map[]
  {
  }

  lemma PrunedNone(s: CacheState, pattern: string)
    ensures Pruned(s, pattern, {}) == s.files
  {
  }

  lemma MergeUpdate(a: map<string, Bytes>, b: map<string, Bytes>, k: string, v: Bytes)
    ensures (a + b)[k := v] == a + b[k := v]
  {
  }
}
