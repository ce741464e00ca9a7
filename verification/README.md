# ForgeKit core, modelled in Dafny

ForgeKit is a build and packaging tool for Rust projects targeting the
Ledokoz platform. This project models the deterministic core of its
`forgekit-core` crate and proves what that core promises:

- the **build cache** (`BuildCache`): an in-memory map kept in step with a
  directory of `{key}.cache` files, hit and miss counters, glob-pattern
  invalidation, clearing, statistics and warm-up from disk; the glob-to-regex
  translation is proved to match exactly what the glob reading matches;
- the **package registry client** (`RegistryClient`) over a decoded
  `packages.json` index: local-first search, exact version lookup with a
  network fallback, the cache path of downloaded archives, the sample index
  written by `update_index`, and listing;
- **dependency resolution** (`DependencyRegistry`, `DependencyManager`) and
  **manifest edits** (`PackageManager`): exact-string version resolution,
  adding with duplicate rejection, removal, the upsert of
  `update_project_config`, the download → install → record order, and the
  `vendor/` layout;
- the **environment manager** (`EnvManager`): `.env` parsing with comments,
  trimming and quote stripping, layering of `.env` and `.env.{env}`,
  `${KEY}` / `$KEY` interpolation, required-variable validation and saving,
  with a save/load round trip;
- the **plugin manager** (`PluginManager`): registration, the name → version
  registry, and hook dispatch that stops at the first error;
- the **project validator** (`ValidationReport`, `ProjectValidator`): the
  error and warning rules over an abstract project directory;
- the **test-output parser** (`TestRunner::parse_test_output`, `TestReport`);
- the **secret wrapper** (`encrypt_secret` / `decrypt_secret`): the
  `encrypted:` prefix around Base64 (section 4 of RFC 4648, standard alphabet,
  `=` padding, canonical encodings only) of the UTF-8 bytes of the secret.

Each Rust file has one module: `Cache` (with `Glob` for the pattern
language), `Registry`, `Dependencies` (with `Manifest` for the `forgekit.toml`
records and the project directory), `Packages`, `Env`, `Plugins`, `Validator`,
`Testing` and `Secrets` (with `Utf8` and `Base64`). `Common` mirrors the error
type of `error.rs`, plus a `Network` variant that the model adds (see
"## Left out"); `Text` models the Rust string operations the core uses
(`contains`, `replace`, `trim`, `lines`, `split_whitespace`, `split_once`,
`matches().count()`, `join`, `parse::<usize>()`).

State that the source updates in place is a class: `BuildCache`,
`RegistryClient`, `DependencyRegistry`, `DependencyManager`, `PackageManager`,
the project directory `ProjectDir`, `EnvManager`, `PluginManager`,
`ValidationReport` and `TestReport`. Their methods are proved against
functions over values (`GetStep`, `InvalidateStep`, `ParseInto`, `Upsert`,
`AddOutcome`, `UpdateAll`, `FirstError`, `Errors`, `Summarize`, ...), and the
properties are proved as lemmas about those functions.

The file system is modelled as data: the cache directory is a map from file
name to bytes, plus a set of unreadable files and a read-only flag; the
project directory is a set of directories and a map of files that form a tree.
The network is a parameter record of total functions from URL to outcome,
and the clock is a `Clock`: `clock(i)` is the time at a call's `i`-th
reading, so every `Utc::now()` of a loop gets its own reading. Where the source iterates a
`HashMap`, results are stated as sets, or the iteration order is an explicit
parameter that lists each key exactly once.

## Model

| member | source | states |
|---|---|---|
| Cache.KeyOf | crates/forgekit-core/src/cache.rs:83-83 | the key a cache file stands for is its name with one `.cache` removed; writing a key's file name and reading it back gives the key |
| Cache.KeyOfFileName | crates/forgekit-core/src/cache.rs:102-104 | every key's file name `{key}.cache` is a cache file, and the key is recovered from it |
| Cache.TrimCacheSuffixes | crates/forgekit-core/src/cache.rs:127-127 | the source's `trim_end_matches(".cache")` only shortens the name |
| Cache.TrimCacheSuffixesLosesKey | crates/forgekit-core/src/cache.rs:182-182 | the key `a.cache` is stored as `a.cache.cache` but the source reads it back as `a`, while `KeyOf` gives back `a.cache` |
| Cache.TrimmedInvalidationBreaksAgreement | crates/forgekit-core/src/cache.rs:126-130 | with the source's stripping, invalidating `a` deletes the file of key `a.cache` although the pattern does not match that key |
| Cache.TotalSizeRemove | crates/forgekit-core/src/cache.rs:159-159 | the payload total does not depend on the order entries are summed in |
| Cache.TotalSizeUpdate | crates/forgekit-core/src/cache.rs:159-159 | storing a value changes the payload total by its size difference |
| Cache.SetStores | crates/forgekit-core/src/cache.rs:102-107 | a successful `set` stores the value in memory and on disk and leaves the counters; it fails exactly when the directory refuses the write, and then nothing changes |
| Cache.GetCountsOnce | crates/forgekit-core/src/cache.rs:76-94 | every `get` bumps exactly one counter: hits when it returns a value, misses otherwise |
| Cache.GetFallsBackToDisk | crates/forgekit-core/src/cache.rs:82-93 | a memory miss with a readable file loads the file into memory and returns it; `get` returns nothing exactly when neither holds the key, and then only the miss counter changes |
| Cache.GetAfterSet | crates/forgekit-core/src/cache.rs:226-235 | `get` right after a successful `set` returns the value and counts one hit |
| Cache.InvalidateRemovesMatches | crates/forgekit-core/src/cache.rs:114-139 | `invalidate` removes from memory and disk exactly the keys the pattern matches; every other entry and file keeps its contents; counters are untouched |
| Cache.InvalidateBuildPrefix | crates/forgekit-core/src/cache.rs:279-292 | invalidating `build_*` over `build_1`, `build_2`, `test_1` leaves only `test_1` |
| Cache.InvalidateKeepsOtherFiles | crates/forgekit-core/src/cache.rs:124-126 | files that are not cache files survive every invalidation |
| Cache.ClearEmpties | crates/forgekit-core/src/cache.rs:142-151 | after a successful `clear` memory and disk are empty, counters are unchanged, and every `get` is a miss |
| Cache.LoadedAmongAt | crates/forgekit-core/src/cache.rs:176-191 | a key is loaded exactly when its file is among those examined and readable, with the file's contents |
| Cache.LoadWarmsMemory | crates/forgekit-core/src/cache.rs:171-194 | `load_from_disk` puts every readable cache file's contents in memory under its key, overwriting memory; other keys keep their entries; files and counters are unchanged |
| Cache.WarmUpThenGet | crates/forgekit-core/src/cache.rs:295-305 | a file written directly into the directory is served by `get` after `load_from_disk` |
| Cache.AgreementPreserved | crates/forgekit-core/src/cache.rs:76-194 | `get`, `set`, `invalidate`, `clear` and `load_from_disk` all keep every memory entry equal to its file's contents |
| Cache.GetAgrees | crates/forgekit-core/src/cache.rs:76-94 | `get` only copies a file's contents into memory under its key, so every memory entry still equals its file |
| Cache.SetAgrees | crates/forgekit-core/src/cache.rs:102-107 | `set` writes memory and the key's file together, so every memory entry still equals its file |
| Cache.InvalidateAgrees | crates/forgekit-core/src/cache.rs:114-139 | `invalidate` removes a key from memory whenever it deletes that key's file, so what memory keeps still equals its file |
| Cache.LoadAgrees | crates/forgekit-core/src/cache.rs:171-194 | what `load_from_disk` puts in memory is each file's contents under its key |
| Cache.RetainUnmatched | crates/forgekit-core/src/cache.rs:115-118 | retaining the keys the compiled regex does not match retains exactly the keys the glob does not match |
| Cache.BuildCache.constructor | crates/forgekit-core/src/cache.rs:59-69 | a new cache has empty memory, zero counters and the directory's existing files |
| Cache.BuildCache.Get | crates/forgekit-core/src/cache.rs:76-94 | `get` performs `GetStep` on the cache state and keeps the agreement |
| Cache.BuildCache.Set | crates/forgekit-core/src/cache.rs:102-107 | `set` performs `SetStep` and keeps the agreement |
| Cache.BuildCache.Invalidate | crates/forgekit-core/src/cache.rs:114-139 | the two removal loops together perform `InvalidateStep`; the result is always Ok |
| Cache.BuildCache.PruneFiles | crates/forgekit-core/src/cache.rs:123-136 | the directory loop deletes exactly the cache files whose key the pattern matches, unless the directory is read-only; memory and counters are untouched |
| Cache.BuildCache.Clear | crates/forgekit-core/src/cache.rs:142-151 | `clear` performs `ClearStep`: memory is emptied even when removing the directory fails |
| Cache.BuildCache.Stats | crates/forgekit-core/src/cache.rs:154-168 | `item_count` is the number of memory entries, `total_size` the sum of their lengths, and the counters are copied |
| Cache.BuildCache.LoadFromDisk | crates/forgekit-core/src/cache.rs:171-194 | the directory loop performs `LoadStep` and always returns Ok |
| Glob.StagesTranslate | crates/forgekit-core/src/cache.rs:204-207 | the three replacements in their order equal a per-character translation |
| Glob.RegexSourceIsTranslate | crates/forgekit-core/src/cache.rs:203-209 | the regex source is the anchored per-character translation of the glob |
| Glob.CompileRegexSource | crates/forgekit-core/src/cache.rs:209-210 | every plain pattern compiles, so the match-all fallback is never taken |
| Glob.RegexSourceMatchesGlob | crates/forgekit-core/src/cache.rs:203-211 | the regex built from a plain pattern matches a key exactly when the glob reading does (`*` any run, `?` one character, `.` literal, anchored at both ends) |
| Glob.LiteralMatchesItself | crates/forgekit-core/src/cache.rs:205-205 | a pattern without wildcards, dots included, matches only itself |
| Glob.StarMatchesAll | crates/forgekit-core/src/cache.rs:206-206 | `*` matches every key without a line break |
| Glob.QuestionMatchesOne | crates/forgekit-core/src/cache.rs:207-207 | `?` matches exactly the one-character keys other than a line break |
| Glob.PrefixStar | crates/forgekit-core/src/cache.rs:279-292 | `lit*` matches exactly the keys that start with `lit` and continue without a line break |
| Registry.LoadIndex | crates/forgekit-core/src/registry.rs:163-167 | reading the index gives nothing when there is no file and the index when it is stored; an unreadable file is an I/O error and a malformed one a JSON error |
| Registry.LocalMetadata | crates/forgekit-core/src/registry.rs:174-191 | a local result carries the entry's name and `latest`, dated by that version's `published`, or "" when `latest` has no version record |
| Registry.LocalResultEmpty | crates/forgekit-core/src/registry.rs:169-172 | a local result is empty exactly when no entry's name or version string contains the query |
| Registry.EmptyQuerySelectsAll | crates/forgekit-core/src/registry.rs:170-170 | the empty query selects every entry |
| Registry.SearchLocalIndex | crates/forgekit-core/src/registry.rs:161-197 | one result per selected entry, each once, as its local metadata, and nothing else; no index gives no results; a bad index is an error |
| Registry.CollectLocal | crates/forgekit-core/src/registry.rs:169-192 | the loop over the index entries yields one result per selected entry, each once, as its local metadata, and nothing else |
| Registry.RemoteSearch | crates/forgekit-core/src/registry.rs:204-239 | the remote search fails exactly when the request fails, and returns at most 20 results, in the response's order, the i-th dated by the clock reading taken for it |
| Registry.SearchGithubPackages | crates/forgekit-core/src/registry.rs:200-240 | the loop over the response items computes `RemoteSearch` |
| Registry.SearchPackages | crates/forgekit-core/src/registry.rs:146-158 | local results whenever there are any; the remote search only when the local search found nothing; index errors are passed on |
| Registry.RemoteInfo | crates/forgekit-core/src/registry.rs:308-337 | the remote branch fails exactly when the release request fails, and otherwise names the requested package and version |
| Registry.PackageInfoLocalHit | crates/forgekit-core/src/registry.rs:288-303 | a local hit returns the requested name and version dated by that version's `published`, without the network |
| Registry.PackageInfoFallsThrough | crates/forgekit-core/src/registry.rs:283-309 | a missing index, name or version leaves the answer to the network |
| Registry.PackageInfoIsRequested | crates/forgekit-core/src/registry.rs:277-338 | whichever branch answers, the metadata is for the requested name and version |
| Registry.PackageInfo | crates/forgekit-core/src/registry.rs:277-338 | a failing read of the index is passed on and never answered from the network; any answer names the requested package and version |
| Registry.SampleIndexServesLocally | crates/forgekit-core/src/registry.rs:349-379 | every package of the written sample index is then found locally at 0.1.0, dated by the clock reading taken when its entry was built |
| Registry.SampleIndexShape | crates/forgekit-core/src/registry.rs:349-379 | the written index is keyed by exactly the sample package names, the i-th with the single version 0.1.0 as `latest`, `git_ref` v0.1.0, an empty checksum, its archive URL and the i-th clock reading |
| Registry.SampleNames | crates/forgekit-core/src/registry.rs:349-379 | the sample packages are exactly `forgekit-serde`, `forgekit-tokio`, `forgekit-http` and `forgekit-gui`, with no name twice |
| Registry.BuildIndexUniform | crates/forgekit-core/src/registry.rs:349-379 | inserting packages of version 0.1.0 with distinct names one by one maps the i-th name to its sample entry built at the i-th clock reading |
| Registry.BuildIndexKeys | crates/forgekit-core/src/registry.rs:349-379 | the index is keyed by exactly the names inserted |
| Registry.SampleEntryShape | crates/forgekit-core/src/registry.rs:349-379 | a sample entry has the single version 0.1.0 as `latest`, `git_ref` v0.1.0, an empty checksum, the clock reading and the archive URL under ledokoz-tech |
| Registry.RegistryClient.constructor | crates/forgekit-core/src/registry.rs:121-143 | a client over the given address, archive directory and index file |
| Registry.RegistryClient.DownloadPackage | crates/forgekit-core/src/registry.rs:243-274 | the archive cache afterwards and the outcome are those `Fetch` gives for the cache before; the index is untouched |
| Registry.Fetch | crates/forgekit-core/src/registry.rs:243-274 | a cached `{name}-{version}.tar.gz` is returned without any lookup; otherwise the download succeeds exactly when the package is known, its archive can be fetched and the cache is writable, and then the cache gains exactly that file with the fetched bytes; a failure leaves the cache as it was |
| Registry.RegistryClient.UpdateIndex | crates/forgekit-core/src/registry.rs:341-385 | a writable index file afterwards holds the sample index, each entry dated by its own clock reading; a refused write changes nothing, and the archive cache is untouched |
| Registry.ListPackages | crates/forgekit-core/src/registry.rs:388-397 | every package name of the index, each once, and nothing else; none without an index |
| Dependencies.FirstVersion | crates/forgekit-core/src/dependencies.rs:94-97 | the position of the first version spelled exactly as requested |
| Dependencies.ResolveVersionSpec | crates/forgekit-core/src/dependencies.rs:89-105 | the resolved version is the first one spelled exactly as requested; resolution fails, naming request and package, exactly when none is |
| Dependencies.ResolveVersion | crates/forgekit-core/src/dependencies.rs:89-103 | a resolved version is one of the package's, spelled exactly as requested; a failure names the request and the package |
| Dependencies.NoPrefixResolution | crates/forgekit-core/src/dependencies.rs:94-104 | "1.2" does not resolve to "1.2.0" |
| Dependencies.DependencyRegistry.constructor | crates/forgekit-core/src/dependencies.rs:42-46 | a new registry is empty |
| Dependencies.DependencyRegistry.FindPackage | crates/forgekit-core/src/dependencies.rs:52-54 | a package is found exactly when one is filed under the name |
| Dependencies.DependencyRegistry.AddPackage | crates/forgekit-core/src/dependencies.rs:48-50 | afterwards the package is found under its name, replacing any earlier one, and every other name finds what it found before |
| Dependencies.DependencyRegistry.SearchPackages | crates/forgekit-core/src/dependencies.rs:56-65 | only registered packages whose name, description or a keyword contains the query |
| Dependencies.DependencyRegistry.SearchComplete | crates/forgekit-core/src/dependencies.rs:56-65 | every matching package is found, and the empty query lists the whole registry |
| Dependencies.DependencyRegistry.ResolveOne | crates/forgekit-core/src/dependencies.rs:72-83 | a resolved dependency carries the requested name and version; an unknown package is "Package not found" |
| Dependencies.DependencyRegistry.ResolveOneUrl | crates/forgekit-core/src/dependencies.rs:76-82 | the download address is that of the first registered version spelled as requested |
| Dependencies.DependencyRegistry.ResolveDependencies | crates/forgekit-core/src/dependencies.rs:67-87 | one record per dependency in order when all resolve; otherwise the error of the first that does not |
| Dependencies.AddedSpec | crates/forgekit-core/src/dependencies.rs:131-176 | an already listed name is refused; a success appends exactly one `{name, version, no source}` entry after the unchanged entries, for a package and version the registry has |
| Dependencies.AddedKeepsUnique | crates/forgekit-core/src/dependencies.rs:141-170 | adding never lists a name twice |
| Dependencies.RemoveUndoesAdd | crates/forgekit-core/src/dependencies.rs:178-196 | removing what was just added restores the manifest |
| Dependencies.DependencyManager.constructor | crates/forgekit-core/src/dependencies.rs:121-125 | a new manager has an empty registry |
| Dependencies.DependencyManager.AddToRegistry | crates/forgekit-core/src/dependencies.rs:127-129 | the package is filed under its name |
| Dependencies.DependencyManager.AddDependency | crates/forgekit-core/src/dependencies.rs:131-176 | the manifest saved is `Added`'s; a duplicate, an unknown package or version, or a failed load or save leaves it unchanged |
| Dependencies.DependencyManager.RemoveDependency | crates/forgekit-core/src/dependencies.rs:178-196 | every entry of the name is dropped, the rest keep their order, and an absent name is no error |
| Dependencies.DependencyManager.UpdateDependencies | crates/forgekit-core/src/dependencies.rs:198-209 | succeeds exactly when the manifest loads, and changes nothing |
| Dependencies.DependencyManager.SearchPackages | crates/forgekit-core/src/dependencies.rs:228-230 | the registry's search |
| Manifest.LoadConfig | crates/forgekit-core/src/config.rs:67-72 | loading succeeds exactly when a manifest is stored; a malformed one is a TOML error, a missing or unreadable one an I/O error |
| Manifest.WithoutMembers | crates/forgekit-core/src/dependencies.rs:187-190 | removal keeps exactly the entries with another name |
| Manifest.WithoutAppend | crates/forgekit-core/src/package_manager.rs:156-157 | removal works piecewise, so the kept entries stay in order |
| Manifest.WithoutAbsent | crates/forgekit-core/src/package_manager.rs:156-157 | removing an absent name changes nothing |
| Manifest.WithoutRemovesAll | crates/forgekit-core/src/dependencies.rs:187-190 | afterwards no entry has the name, and removing again changes nothing |
| Manifest.WithoutKeepsUnique | crates/forgekit-core/src/dependencies.rs:187-190 | removal keeps names unique |
| Manifest.ProjectDir.SaveConfig | crates/forgekit-core/src/config.rs:74-78 | saving stores the configuration unless the directory is read-only, which is an I/O error |
| Manifest.CreateDirAllIn | crates/forgekit-core/src/package_manager.rs:96-97 | `create_dir_all` on a tree adds the path and its ancestors when it succeeds, and otherwise is an I/O error that changes nothing |
| Manifest.WriteFileIn | crates/forgekit-core/src/package_manager.rs:103-114 | `write` on a tree stores exactly that file when it succeeds, and otherwise is an I/O error that changes nothing |
| Manifest.ProjectDir.CreateDirAll | crates/forgekit-core/src/package_manager.rs:96-97 | `create_dir_all` succeeds exactly when no file is in the way and the directories exist or can be written, and then adds the path and its ancestors; tree and outcome are those of `CreateDirAllIn` |
| Manifest.ProjectDir.WriteFile | crates/forgekit-core/src/package_manager.rs:103-114 | a write needs a writable parent directory and no directory at the path, and then stores exactly that file; tree and outcome are those of `WriteFileIn` |
| Manifest.ProjectDir.RemoveDirAll | crates/forgekit-core/src/package_manager.rs:61-65 | `remove_dir_all` removes the directory and everything below it, and only that; a missing path (NotFound), a file in its place or a read-only project is Io |
| Packages.RemovalMissesInstall | crates/forgekit-core/src/package_manager.rs:61-65 | `vendor/{name}` is neither `vendor/{name}-{version}` nor an ancestor of anything installed there |
| Packages.InstallPrefixes | crates/forgekit-core/src/package_manager.rs:96-107 | creating `src` inside the install directory creates `vendor`, the install directory and `src` |
| Packages.NoFileOnInstallDirs | crates/forgekit-core/src/package_manager.rs:96-107 | no file stands where the install creates directories exactly when none stands at those three paths |
| Packages.FreshProjectInstalls | crates/forgekit-core/src/package_manager.rs:90-118 | a project without `vendor` can install any package, and its install directory does not exist beforehand |
| Packages.FirstNamed | crates/forgekit-core/src/package_manager.rs:130-137 | the position of the first entry with the name, or the length when none has it |
| Packages.UpsertExisting | crates/forgekit-core/src/package_manager.rs:130-137 | for a listed name only the version of its first entry changes; length, order, names, sources and other entries stay |
| Packages.UpsertNew | crates/forgekit-core/src/package_manager.rs:138-145 | a new name is appended with source `registry` |
| Packages.UpsertLookup | crates/forgekit-core/src/package_manager.rs:121-149 | afterwards the first entry with the name carries the new version |
| Packages.UpsertUnchanged | crates/forgekit-core/src/package_manager.rs:130-137 | recording the version the entry already has changes nothing |
| Packages.UpsertKeepsUnique | crates/forgekit-core/src/package_manager.rs:121-149 | upserting keeps names unique |
| Packages.UpsertOwnEntry | crates/forgekit-core/src/package_manager.rs:78-83 | re-recording any entry of a manifest without repeated names changes nothing, so a successful `update_dependencies` leaves the manifest as it was |
| Packages.Summaries | crates/forgekit-core/src/package_manager.rs:163-172 | one `name - description` line per result, in order |
| Packages.LocalSummaries | crates/forgekit-core/src/package_manager.rs:163-172 | a local search shows the line `name - Package name` of every selected entry, of nothing else, and no line twice |
| Packages.InstallOutcome | crates/forgekit-core/src/package_manager.rs:90-118 | installing succeeds exactly when the project is writable and no file or directory is in the way; then `vendor`, the install directory and `src` exist and exactly the archive and `src/lib.rs` are added; a failure is an I/O error; no step removes anything |
| Packages.ConfigOutcome | crates/forgekit-core/src/package_manager.rs:121-149 | a failed load is passed on; recording succeeds exactly when the manifest is stored and writable, and then holds `Upsert` of its entries; a failure leaves the manifest |
| Packages.AddOutcome | crates/forgekit-core/src/package_manager.rs:32-51 | download, then install, then record; a failed download changes only what the download did, and the add succeeds exactly when the download succeeds, the install is possible and the manifest is stored; then the project holds exactly the install's new directories, the cached archive and `src/lib.rs`, and the manifest records the version; a failure never changes the manifest; no file is removed |
| Packages.UpdateAll | crates/forgekit-core/src/package_manager.rs:72-87 | adding the entries in turn never removes a file and counts at most as many successful adds as entries |
| Packages.UpdateAllStep | crates/forgekit-core/src/package_manager.rs:78-84 | after a prefix that succeeded, one more entry is one more `add_dependency` |
| Packages.UpdateAllFirstFailure | crates/forgekit-core/src/package_manager.rs:78-84 | the update stops at the first failure: it succeeds exactly when all k entries were added; the first k adds succeed, and otherwise state and error are those of adding entry k after them |
| Packages.UpdateAllStops | crates/forgekit-core/src/package_manager.rs:78-84 | once a prefix of the entries has failed, the later entries are never tried |
| Packages.UpdateAllArchives | crates/forgekit-core/src/package_manager.rs:78-84 | every entry added before the first failure has its archive in the project afterwards |
| Packages.UpdateAllKeepsManifest | crates/forgekit-core/src/package_manager.rs:72-87 | with no name listed twice, updating leaves the manifest exactly as loaded, whether the updates succeed or not |
| Packages.PackageManager.constructor | crates/forgekit-core/src/package_manager.rs:21-30 | a manager over the given registry client and project directory, holding the UTF-8 bytes of the `src/lib.rs` template that installing writes |
| Packages.PackageManager.InstallPackageAsWritten | crates/forgekit-core/src/package_manager.rs:90-118 | as written, the archive copy precedes the creation of the install directory, so a first install of a version fails |
| Packages.PackageManager.InstallPackage | crates/forgekit-core/src/package_manager.rs:90-118 | the project tree afterwards and the outcome are those `InstallOutcome` gives for the tree before, with the generated `src/lib.rs`; the manifest is untouched |
| Packages.PackageManager.UpdateProjectConfig | crates/forgekit-core/src/package_manager.rs:121-149 | the manifest afterwards and the outcome are those `ConfigOutcome` gives for the manifest before; no other file changes |
| Packages.PackageManager.RemoveFromConfig | crates/forgekit-core/src/package_manager.rs:152-160 | the saved manifest holds the entries without the name; a failed load or save changes nothing |
| Packages.PackageManager.AddDependency | crates/forgekit-core/src/package_manager.rs:32-51 | the archive cache, project tree and manifest afterwards, and the outcome, are those `AddOutcome` gives for the state before; the registry's index and settings are untouched |
| Packages.PackageManager.AddDependencyAsWritten | crates/forgekit-core/src/package_manager.rs:32-51 | over `install_package` as written (line 103), adding a package whose install directory does not exist yet always fails and leaves the manifest as it was |
| Packages.PackageManager.RemoveDependency | crates/forgekit-core/src/package_manager.rs:54-69 | the manifest is edited first; then `vendor/{name}` and everything below it go, only when it exists |
| Packages.PackageManager.UpdateDependencies | crates/forgekit-core/src/package_manager.rs:72-87 | a manifest that fails to load is the error and nothing changes; otherwise the state afterwards and the outcome are those `UpdateAll` gives over the loaded entries, in their order |
| Packages.PackageManager.AddEach | crates/forgekit-core/src/package_manager.rs:78-84 | the loop over the entries computes `UpdateAll`: its state and outcome |
| Packages.PackageManager.SearchPackages | crates/forgekit-core/src/package_manager.rs:163-172 | the registry search's results as `name - description` lines, errors passed on; a local answer has one line per selected entry, none twice |
| Packages.PackageManager.ListInstalled | crates/forgekit-core/src/package_manager.rs:175-192 | the directories directly under `vendor`, each once; none without `vendor`; an I/O error when `vendor` is a file |
| Env.Unquote | crates/forgekit-core/src/env_manager.rs:92-98 | quote removal is undefined exactly for a value that is a single quote character |
| Env.UnquoteOneLayer | crates/forgekit-core/src/env_manager.rs:92-98 | exactly one layer of matching quotes is removed |
| Env.LoneQuotePanics | crates/forgekit-core/src/env_manager.rs:92-98 | `KEY="` or `KEY='` aborts the parse |
| Env.ParseLineSkips | crates/forgekit-core/src/env_manager.rs:78-89 | blank lines, comments and lines without `=` assign nothing |
| Env.ParseLineKey | crates/forgekit-core/src/env_manager.rs:87-89 | the key is split at the first `=`, so it holds no `=`, and it is trimmed |
| Env.ParseIntoOverrides | crates/forgekit-core/src/env_manager.rs:100-100 | parsing over existing variables overrides them with what the lines assign on their own |
| Env.EnvironmentFileWins | crates/forgekit-core/src/env_manager.rs:56-74 | the variables of `.env.{env}` override those of `.env`, and the others keep `.env`'s values |
| Env.InterpolateNoDollar | crates/forgekit-core/src/env_manager.rs:154-197 | text without `$` is returned unchanged |
| Env.InterpolateBraces | crates/forgekit-core/src/env_manager.rs:291-296 | with only that variable set, and a value without `$`, `${KEY}` after text without `$` becomes the key's value |
| Env.InterpolateDollar | crates/forgekit-core/src/env_manager.rs:299-304 | with only that variable set, and a value without `$`, `$KEY` at the end of text without `$` becomes the key's value |
| Env.DollarRun | crates/forgekit-core/src/env_manager.rs:164-194 | a `$` followed by an identifier run is replaced exactly when the whole run is the key |
| Env.ReplaceDollarVar | crates/forgekit-core/src/env_manager.rs:164-194 | the nested character scan computes the dollar pass for one key |
| Env.ReadIdent | crates/forgekit-core/src/env_manager.rs:172-179 | the inner scan stops at the first character that is not alphanumeric or `_`, returning the identifier run it consumed |
| Env.ParsePlainLine | crates/forgekit-core/src/env_manager.rs:77-105 | a plain `key=value` line is read as that assignment |
| Env.SaveLoadRoundTrip | crates/forgekit-core/src/env_manager.rs:316-329 | saving plain keys and values and loading the file again gives back the same variables |
| Env.Missing | crates/forgekit-core/src/env_manager.rs:209-214 | the missing list holds exactly the required names that are unset |
| Env.MissingEmpty | crates/forgekit-core/src/env_manager.rs:216-220 | nothing is missing exactly when every required name is set |
| Env.EnvManager.constructor | crates/forgekit-core/src/env_manager.rs:18-22 | a new manager has no variables |
| Env.EnvManager.ParseEnvContent | crates/forgekit-core/src/env_manager.rs:77-105 | the line loop applies the lines' assignments in order over the current variables, and reports an abort |
| Env.EnvManager.LoadFromFile | crates/forgekit-core/src/env_manager.rs:33-44 | a fresh manager holding the file's variables; a missing file gives none and an unreadable one an I/O error |
| Env.EnvManager.LoadForEnvironment | crates/forgekit-core/src/env_manager.rs:56-74 | `.env`, then `.env.{env}` over it |
| Env.EnvManager.LoadLayer | crates/forgekit-core/src/env_manager.rs:60-71 | one file read over the current variables, when it exists |
| Env.EnvManager.Get | crates/forgekit-core/src/env_manager.rs:116-118 | a value exactly when the key is set |
| Env.EnvManager.GetOr | crates/forgekit-core/src/env_manager.rs:121-126 | the default exactly when the key is unset, the value otherwise |
| Env.EnvManager.Set | crates/forgekit-core/src/env_manager.rs:129-131 | afterwards the key reads as the value, is contained, and every other key reads as before |
| Env.EnvManager.Contains | crates/forgekit-core/src/env_manager.rs:134-136 | a key is contained exactly when `get` finds a value for it |
| Env.EnvManager.Interpolate | crates/forgekit-core/src/env_manager.rs:154-197 | all `${KEY}` patterns key by key, then all `$KEY` patterns key by key; never an error |
| Env.EnvManager.ReplaceBraces | crates/forgekit-core/src/env_manager.rs:158-161 | the first loop replaces every `${KEY}`, key by key in iteration order |
| Env.EnvManager.ReplaceDollars | crates/forgekit-core/src/env_manager.rs:164-194 | the second loop applies the dollar pass key by key in iteration order |
| Env.EnvManager.ValidateRequired | crates/forgekit-core/src/env_manager.rs:208-223 | an error exactly when a required name is unset, naming every unset one in order |
| Env.EnvManager.SaveToFile | crates/forgekit-core/src/env_manager.rs:226-233 | one `key=value` line per variable; a read-only target is an I/O error |
| Plugins.DefaultsSucceed | crates/forgekit-core/src/plugin.rs:32-44 | default hooks succeed on every context; the example plugin is `example-plugin` 0.1.0 |
| Plugins.RegistryOfSpec | crates/forgekit-core/src/plugin.rs:63-67 | a name is registered exactly when some plugin has it, with the version of the last such plugin |
| Plugins.RegistrySize | crates/forgekit-core/src/plugin.rs:63-67 | registering n plugins names at most n of them |
| Plugins.SameNameKeepsLater | crates/forgekit-core/src/plugin.rs:64-66 | of two plugins with one name, the registry keeps the later version |
| Plugins.FirstErrorSpec | crates/forgekit-core/src/plugin.rs:78-99 | hooks succeed exactly when every plugin's hook does; all run then, and otherwise the error is that of the last hook run, after only successes |
| Plugins.DefaultHooksNeverFail | crates/forgekit-core/src/plugin.rs:182-189 | plugins with default hooks never fail a build or packaging phase |
| Plugins.PluginManager.constructor | crates/forgekit-core/src/plugin.rs:55-60 | a new manager has no plugins and lists none |
| Plugins.PluginManager.Register | crates/forgekit-core/src/plugin.rs:63-67 | the plugin runs after all earlier ones, the count grows by one, and the name maps to its version |
| Plugins.PluginManager.ListPlugins | crates/forgekit-core/src/plugin.rs:70-75 | exactly the registered (name, version) pairs |
| Plugins.PluginManager.PluginCount | crates/forgekit-core/src/plugin.rs:102-104 | the count is of registrations, never fewer than the registered names |
| Plugins.PluginManager.RunHooks | crates/forgekit-core/src/plugin.rs:78-83 | the loop returns the first error, runs exactly the hooks up to it, and otherwise returns Ok |
| Plugins.PluginManager.CallPreBuild | crates/forgekit-core/src/plugin.rs:78-83 | the first pre-build error in registration order, or Ok |
| Plugins.PluginManager.CallPostBuild | crates/forgekit-core/src/plugin.rs:86-91 | the first post-build error in registration order, or Ok |
| Plugins.PluginManager.CallPackage | crates/forgekit-core/src/plugin.rs:94-99 | the first packaging error in registration order, or Ok |
| Validator.ValidateConfigOnly | crates/forgekit-core/src/validator.rs:149-163 | Ok exactly when name and version are set; the name is reported first |
| Validator.ConfigErrorsCount | crates/forgekit-core/src/validator.rs:79-103 | a missing or unloadable manifest is one error and the fields are not examined; a loaded one has one error per empty field |
| Validator.StructureErrorsSpec | crates/forgekit-core/src/validator.rs:106-120 | a required entry that is not a directory is an error; a missing one or a directory is not |
| Validator.StructureWarningsSpec | crates/forgekit-core/src/validator.rs:106-120 | a missing required directory is warned about, and nothing else is |
| Validator.ValidIff | crates/forgekit-core/src/validator.rs:63-76 | a project is valid exactly when the manifest loads with name and version, `src` and `assets` are not non-directories, and `Cargo.toml` is absent or valid |
| Validator.MissingConfigInvalid | crates/forgekit-core/src/validator.rs:209-217 | a missing manifest makes the project invalid, the first error naming `forgekit.toml` |
| Validator.MissingSrcWarned | crates/forgekit-core/src/validator.rs:220-238 | a missing `src` is the first warning |
| Validator.CompleteProjectValid | crates/forgekit-core/src/validator.rs:241-262 | a complete project without `Cargo.toml` has no error and one warning |
| Validator.ValidationReport.constructor | crates/forgekit-core/src/validator.rs:24-30 | a new report is valid and empty |
| Validator.ValidationReport.AddError | crates/forgekit-core/src/validator.rs:33-36 | appends the error and makes the report invalid, keeping validity equal to having no errors |
| Validator.ValidationReport.AddWarning | crates/forgekit-core/src/validator.rs:39-41 | appends the warning and leaves validity alone |
| Validator.ValidateConfig | crates/forgekit-core/src/validator.rs:79-103 | appends exactly `ConfigErrors` |
| Validator.ValidateStructure | crates/forgekit-core/src/validator.rs:106-120 | the loop over `src` and `assets` appends exactly the structure errors and warnings |
| Validator.CheckDirectories | crates/forgekit-core/src/validator.rs:110-117 | for each directory in turn, a missing one adds a warning and a non-directory an error; the report's validity flag still says whether it holds an error |
| Validator.ValidateDependencies | crates/forgekit-core/src/validator.rs:123-146 | an unreadable `Cargo.toml` aborts with an I/O error; otherwise appends its error or warning |
| Validator.ValidateProject | crates/forgekit-core/src/validator.rs:63-76 | a new report holding exactly `Errors` and `Warnings` of the project, valid exactly when there is no error |
| Testing.TestReport.constructor | crates/forgekit-core/src/testing.rs:27-35 | all counts zero, so the counts add up and all tests passed |
| Testing.TestReport.AllPassed | crates/forgekit-core/src/testing.rs:38-40 | on a report whose passed and failed counts add up to the total, all passed exactly when every counted test passed |
| Testing.ScanSummaryTokens | crates/forgekit-core/src/testing.rs:215-225 | the token loop sets `passed` and `failed` from the numerals before `passed`/`failed` words |
| Testing.ScanOutputLine | crates/forgekit-core/src/testing.rs:210-231 | one line of output: a summary line sets the counts from its tokens, a `FAILED` line adds one failure, and the increment past the `usize` maximum is reported |
| Testing.ParseTestOutput | crates/forgekit-core/src/testing.rs:206-243 | the report's counts are those of `Summarize`; the program would overflow exactly where `Summarize` has none; a completed report's passed and failed counts add up to its total |
| Testing.SplitSpaced | crates/forgekit-core/src/testing.rs:214-214 | words joined by single spaces split back into the words |
| Testing.SummaryLineSets | crates/forgekit-core/src/testing.rs:212-226 | a summary line sets both counts, whatever was counted before |
| Testing.SummaryRoundTrip | crates/forgekit-core/src/testing.rs:305-312 | reading back cargo's summary for `p` passed and `f` failed gives total `p + f`, when some test ran |
| Testing.FailedLinesCounted | crates/forgekit-core/src/testing.rs:229-231 | without a summary line, each line saying `FAILED` is one failure and nothing is counted as passed |
| Text.ParseUsizeNatToString | crates/forgekit-core/src/testing.rs:217-224 | every count a summary can print parses back as a `usize` |
| Secrets.DecryptEncrypt | crates/forgekit-core/src/secrets.rs:45-50 | decrypting an encrypted secret gives it back |
| Secrets.EncryptDecrypt | crates/forgekit-core/src/secrets.rs:14-31 | a prefixed text decrypts exactly when it is the encryption of what it decrypts to |
| Secrets.DecryptPassesPlainText | crates/forgekit-core/src/secrets.rs:22-30 | text without `encrypted:` is returned unchanged |
| Secrets.DecryptFailures | crates/forgekit-core/src/secrets.rs:23-27 | non-Base64 text or non-UTF-8 bytes after the prefix are InvalidConfig errors, and nothing else fails |
| Secrets.NonUtf8SecretRejected | crates/forgekit-core/src/secrets.rs:26-27 | `encrypted:gA==` holds the lone byte 0x80 and is rejected |
| Secrets.EncryptSecret | crates/forgekit-core/src/secrets.rs:14-18 | the result carries the `encrypted:` prefix followed by four characters per three bytes of the UTF-8 text, the last group padded |
| Secrets.DecryptSecret | crates/forgekit-core/src/secrets.rs:21-31 | text without the prefix is returned unchanged; only prefixed text can fail, and always with an InvalidConfig error |
| Base64.DecodeEncode | crates/forgekit-core/src/secrets.rs:17-17 | every byte string's encoding decodes back to it |
| Base64.EncodeDecode | crates/forgekit-core/src/secrets.rs:24-24 | decoding accepts only canonical encodings: whatever it accepts is the encoding of its result |
| Base64.EncodeLength | crates/forgekit-core/src/secrets.rs:16-16 | the standard encoding has four characters per three bytes, the last group padded to four |
| Base64.TrailingBitsRejected | crates/forgekit-core/src/secrets.rs:24-24 | `Zg==` decodes to `f` and `Zh==`, with unused bits set, is rejected |
| Utf8.DecodeEncode | crates/forgekit-core/src/secrets.rs:17-17 | every string's bytes are valid UTF-8 and decode back to it |
| Utf8.EncodeDecode | crates/forgekit-core/src/secrets.rs:26-26 | valid UTF-8 is the encoding of the text it decodes to |
| Utf8.StrayContinuationRejected | crates/forgekit-core/src/secrets.rs:26-27 | a lone continuation byte is not UTF-8 |

## Left out

- Network access (the GitHub search and release APIs, archive downloads) is a parameter record of total functions from URL to outcome; request headers, client construction and JSON field extraction are not modelled, so a remote item's fields are taken as given.
- JSON and TOML encoding of `packages.json` and `forgekit.toml` is not modelled: files hold decoded values, or a malformed or unreadable marker.
- The clock (`chrono::Utc::now`) is a `Clock` parameter, one reading per call of `now`; that the readings are RFC 3339 text and increase is not modelled.
- `CacheStats.hit_rate` is floating point and is left out.
- Cache.BuildCache.Invalidate: only patterns made of characters other than regex metacharacters, apart from `*`, `?` and `.`, are modelled (`Plain`), because other characters reach the regex engine unescaped; the match-all fallback is then proved unreachable.
- Cache.BuildCache.constructor: creating a missing cache directory is not modelled; the constructor starts from the directory's contents.
- Cache.BuildCache.Set: a key is one file name, with no `/` and not absolute. A key with `/` names a file in a subdirectory of the cache directory, which the source cannot write unless that subdirectory exists; the flat model does not capture this.
- Cache.SetStores: stated for keys that are single file names (no `/`, not absolute); nested keys and the failure of `set` when their subdirectory is missing are not modelled.
- Cache.InvalidateRemovesMatches: the cache directory is flat; the source scans only its top level, so files of nested keys survive an invalidation, which is not modelled; keys are recovered with the corrected `KeyOf` (see Findings).
- Cache.LoadWarmsMemory: the cache directory is flat; the source loads only its top level, so nested keys are never loaded, which is not modelled; keys are recovered with the corrected `KeyOf` (see Findings).
- Cache.BuildCache.Invalidate: the cache directory is flat (see `Cache.InvalidateRemovesMatches`); keys are recovered from file names with the corrected `KeyOf`, not the source's repeated stripping (see Findings).
- Cache.BuildCache.PruneFiles: the cache directory is flat and keys are recovered with the corrected `KeyOf` (see Findings).
- Cache.BuildCache.LoadFromDisk: the cache directory is flat (see `Cache.LoadWarmsMemory`); keys are recovered with the corrected `KeyOf` (see Findings).
- Cache.AgreementPreserved: proved over the corrected `KeyOf`; with the source's stripping the agreement breaks (`TrimmedInvalidationBreaksAgreement`).
- Failed deletions during invalidation are ignored by the source, so the model deletes every matching cache file of a writable directory; file metadata errors and non-UTF-8 file names are not modelled.
- Integer widths: counters, sizes and counts are unbounded `nat`, except in the test-output parser, where `usize` parsing and the `failed += 1` and `passed + failed` overflows are modelled explicitly (as aborts, that is, debug-build semantics).
- Text.IsAlphanumeric: `char::is_alphanumeric` is modelled on ASCII letters and digits only; `char::is_whitespace` is the full Unicode White_Space set.
- Text.Lines: `str::lines` also strips a `\r` before each `\n`; the model does not, which is unobservable here because every caller trims or splits on whitespace afterwards.
- Env.EnvManager.ParseEnvContent: the slice panic on a value that is a single quote character is reported as `false` rather than aborting the program.
- `EnvManager::all` is the `vars` field itself.
- The `HashMap` iteration order of `interpolate`, `save_to_file`, registry search, `list_packages` and `list_plugins` is an explicit order parameter (each key exactly once) or the result is a set.
- Plugins are records of total hook functions; hook logging in `ExamplePlugin` is not modelled.
- `TestRunner::run_tests`, `run_tests_with_coverage`, `generate_coverage_report` and `generate_test_scaffold` spawn processes or write templates and are not modelled; `TestReport.duration` is not modelled, and the raw `output` field is carried but never filled from a process.
- `ProjectValidator::count_source_files` walks the directory tree and is not modelled.
- The `Config` type loaded by `validate_config` is not defined in `config.rs`; the model keeps only its name and version.
- `DependencyManager::install_dependency`, `uninstall_dependency` and `list_available_packages` are logging placeholders and are not modelled.
- Dependencies.DependencyRegistry.SearchPackages: the result is the set of matching packages, since the source's order follows `HashMap` iteration.
- Dependencies.DependencyManager.UpdateDependencies: the source only logs each entry, so the model states only that it succeeds exactly when the manifest loads.
- Packages.UpdateAllKeepsManifest: that updating leaves the manifest unchanged is stated for manifests without repeated names; with a repeated name the later entry's version is written into the first entry.
- Packages.PackageManager.AddDependency: built on the corrected `InstallPackage` (see Findings), so a first install succeeds; over the install as written, `AddDependencyAsWritten` shows that every add of a package whose install directory is missing fails.
- Packages.PackageManager.UpdateDependencies: built, through `AddDependency`, on the corrected `InstallPackage` (see Findings).
- Packages.PackageManager.AddEach: built, through `AddDependency`, on the corrected `InstallPackage` (see Findings).
- Packages.AddOutcome: describes the add over the corrected install order (`InstallOutcome`), not the one of line 103.
- `PackageManager::new` builds its own registry client and project root; here both are parameters.
- `PackageManager::update_registry`, `get_package_info` (a formatting wrapper), and the global-cache helpers `get_global_cache_dir`, `init_global_cache`, `clean_global_cache` and `list_cached_packages` are not modelled.
- Package names are single path components; paths are sequences of components.
- Packages.PackageManager.ListInstalled: errors reading an individual entry's file type are not modelled.
- `Common.Error.Network` is an addition of the model: `ForgeKitError` (error.rs:7-40) has no variant for HTTP client errors and no conversion from `reqwest::Error`, so the `?` on `reqwest` results at registry.rs:209-210, 267-268 and 315-316 has no conversion in the source; the model gives these failures this variant, and they come only from the error outcomes of the network parameter.
- `secrets.rs` `load_from_vault` is a placeholder and is not modelled.

## Findings

| source | as written | input that shows it | evidently intended | confidence | as-written member | corrected member |
|---|---|---|---|---|---|---|
| crates/forgekit-core/src/cache.rs:127 | `invalidate` and `load_from_disk` recover a key from its file name with `trim_end_matches(".cache")`, which strips the suffix as often as it repeats | the key `a.cache` is written to `a.cache.cache`, which loads as key `a`, and `invalidate("a")` deletes it | strip the suffix once, so every key is recovered from its file name | high (not executed) | Cache.TrimCacheSuffixes | Cache.KeyOf |
| crates/forgekit-core/src/package_manager.rs:103 | `install_package` copies the archive to `vendor/{name}-{version}/package.tar.gz` before anything creates `vendor/{name}-{version}` (line 107) | installing any package into a project whose `vendor` does not yet hold its install directory fails at the copy | create the install directory before copying the archive into it | high (not executed) | Packages.PackageManager.InstallPackageAsWritten | Packages.PackageManager.InstallPackage |
