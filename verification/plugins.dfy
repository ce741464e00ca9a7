/** Plugins (crates/forgekit-core/src/plugin.rs).

    A plugin is its name, its version and its three hooks; a hook is a
    total function from its context to an outcome, so a plugin that does
    not override a hook carries one that always succeeds. */
module Plugins {
  import opened Common

  datatype BuildContext = BuildContext(projectPath: string, target: string)

  datatype PackageContext = PackageContext(projectPath: string, outputPath: string)

  datatype Plugin = Plugin(
    name: string,
    version: string,
    onPreBuild: BuildContext -> Result<()>,
    onPostBuild: BuildContext -> Result<()>,
    onPackage: PackageContext -> Result<()>)

  /** A plugin that keeps the default hooks. */
  function WithDefaults(name: string, version: string): Plugin {
    Plugin(name, version, _ => Ok(()), _ => Ok(()), _ => Ok(()))
  }

  /** `ExamplePlugin`: its hooks only log. */
  function ExamplePlugin(): Plugin {
    WithDefaults("example-plugin", "0.1.0")
  }

  /** Every hook of the plugin succeeds on every context. */
  ghost predicate DefaultHooks(p: Plugin) {
    && (forall c :: p.onPreBuild(c) == Ok(()))
    && (forall c :: p.onPostBuild(c) == Ok(()))
    && (forall c :: p.onPackage(c) == Ok(()))
  }

  lemma DefaultsSucceed(name: string, version: string)
    ensures DefaultHooks(WithDefaults(name, version))
    ensures DefaultHooks(ExamplePlugin())
    ensures ExamplePlugin().name == "example-plugin" && ExamplePlugin().version == "0.1.0"
  {
  }

  /** The registry after registering `ps` in order into an empty one. */
  function RegistryOf(ps: seq<Plugin>): map<string, string>
    decreases |ps|
  {
    if ps == [] then map[]
    else
      var last := ps[|ps| - 1];
      RegistryOf(ps[..|ps| - 1])[last.name := last.version]
  }

  /** Registering `ps` names at most `|ps|` plugins. */
  lemma {:induction false} RegistrySize(ps: seq<Plugin>)
    ensures |RegistryOf(ps)| <= |ps|
    decreases |ps|
  {
    if ps != [] {
      RegistrySize(ps[..|ps| - 1]);
    }
  }

  /** A name is registered exactly when some plugin has it, and it maps to
      the version of the last plugin registered under it. */
  lemma {:induction false} RegistryOfSpec(ps: seq<Plugin>, n: string)
    ensures n in RegistryOf(ps) <==> exists i :: 0 <= i < |ps| && ps[i].name == n
    ensures n in RegistryOf(ps) ==>
      exists i :: 0 <= i < |ps| && ps[i].name == n && RegistryOf(ps)[n] == ps[i].version
                  && forall j :: i < j < |ps| ==> ps[j].name != n
    decreases |ps|
  {
    if ps != [] {
      var init := ps[..|ps| - 1];
      var last := ps[|ps| - 1];
      RegistryOfSpec(init, n);
      assert forall i :: 0 <= i < |init| ==> init[i] == ps[i];
      if last.name != n && n in RegistryOf(init) {
        var i :| 0 <= i < |init| && init[i].name == n && RegistryOf(init)[n] == init[i].version
                 && forall j :: i < j < |init| ==> init[j].name != n;
        assert ps[i].name == n && RegistryOf(ps)[n] == ps[i].version;
      }
      if last.name == n {
        assert ps[|ps| - 1].name == n;
      }
    }
  }

  /** Two plugins with the same name: the registry keeps the later version. */
  lemma SameNameKeepsLater(p: Plugin, q: Plugin)
    requires p.name == q.name
    ensures RegistryOf([p, q]) == map[q.name := q.version]
  {
    assert [p, q][..1] == [p];
    assert [p][..0] == [];
    assert RegistryOf([p]) == map[p.name := p.version];
    assert RegistryOf([p, q]) == map[p.name := p.version][q.name := q.version];
  }

  /** The hook each phase runs. */
  function PreBuild(c: BuildContext): Plugin -> Result<()> {
    (p: Plugin) => p.onPreBuild(c)
  }

  function PostBuild(c: BuildContext): Plugin -> Result<()> {
    (p: Plugin) => p.onPostBuild(c)
  }

  function Package(c: PackageContext): Plugin -> Result<()> {
    (p: Plugin) => p.onPackage(c)
  }

  /** The outcome of running `hook` on each plugin in order, stopping at the
      first error. */
  function FirstError(ps: seq<Plugin>, hook: Plugin -> Result<()>): Result<()>
    decreases |ps|
  {
    if ps == [] then Ok(())
    else if hook(ps[0]).Err? then hook(ps[0])
    else FirstError(ps[1..], hook)
  }

  /** How many hooks run: up to and including the first that fails. */
  function HooksRun(ps: seq<Plugin>, hook: Plugin -> Result<()>): (n: nat)
    ensures n <= |ps|
    decreases |ps|
  {
    if ps == [] then 0
    else if hook(ps[0]).Err? then 1
    else 1 + HooksRun(ps[1..], hook)
  }

  /** Ok when every hook succeeds; otherwise the error of the first that
      fails, which is the last one run. */
  lemma {:induction false} FirstErrorSpec(ps: seq<Plugin>, hook: Plugin -> Result<()>)
    ensures FirstError(ps, hook).Ok? <==> forall i :: 0 <= i < |ps| ==> hook(ps[i]).Ok?
    ensures FirstError(ps, hook).Ok? ==> HooksRun(ps, hook) == |ps|
    ensures FirstError(ps, hook).Err? ==>
      var n := HooksRun(ps, hook);
      && 0 < n
      && FirstError(ps, hook) == hook(ps[n - 1])
      && forall j :: 0 <= j < n - 1 ==> hook(ps[j]).Ok?
    decreases |ps|
  {
    if ps != [] {
      FirstErrorSpec(ps[1..], hook);
      assert forall i :: 0 < i < |ps| ==> ps[1..][i - 1] == ps[i];
      if hook(ps[0]).Ok? && FirstError(ps[1..], hook).Err? {
        var n := HooksRun(ps[1..], hook);
        assert ps[1..][n - 1] == ps[n];
      }
    }
  }

  /** Plugins that keep their default hooks never fail a build or a
      packaging step. */
  lemma DefaultHooksNeverFail(ps: seq<Plugin>, b: BuildContext, c: PackageContext)
    requires forall i :: 0 <= i < |ps| ==> DefaultHooks(ps[i])
    ensures FirstError(ps, PreBuild(b)) == Ok(())
    ensures FirstError(ps, PostBuild(b)) == Ok(())
    ensures FirstError(ps, Package(c)) == Ok(())
  {
    FirstErrorSpec(ps, PreBuild(b));
    FirstErrorSpec(ps, PostBuild(b));
    FirstErrorSpec(ps, Package(c));
  }

  /** `PluginManager` */
  class PluginManager {
    var plugins: seq<Plugin>
    var registry: map<string, string>

    /** The registry records the registrations in order. */
    ghost predicate Valid()
      reads this
    {
      registry == RegistryOf(plugins)
    }

    constructor ()
      ensures Valid()
      ensures plugins == [] && registry == map[]
      ensures PluginCount() == 0 && ListPlugins() == {}
    {
      plugins := [];
      registry := map[];
    }

    /** `register`: the name now maps to this version and the plugin runs
        after all earlier ones. */
    method Register(p: Plugin)
      requires Valid()
      modifies this
      ensures Valid()
      ensures plugins == old(plugins) + [p]
      ensures registry == old(registry)[p.name := p.version]
      ensures PluginCount() == old(PluginCount()) + 1
      ensures (p.name, p.version) in ListPlugins()
    {
      registry := registry[p.name := p.version];
      plugins := plugins + [p];
      assert plugins[..|plugins| - 1] == old(plugins);
    }

    /** `list_plugins`, as a set because the map's order is unspecified:
        one pair per registered name. */
    function ListPlugins(): (r: set<(string, string)>)
      reads this
      ensures forall n, v :: (n, v) in r <==> n in registry && registry[n] == v
    {
      set n | n in registry :: (n, registry[n])
    }

    /** `plugin_count` counts registrations, not names: never fewer than
        the names registered. */
    function PluginCount(): (n: nat)
      reads this
      ensures Valid() ==> |registry| <= n
    {
      RegistrySize(plugins);
      |plugins|
    }

    /** Runs `hook` on each plugin in registration order, stopping at the
        first error; `calls` counts the hooks run. */
    method RunHooks(hook: Plugin -> Result<()>) returns (r: Result<()>, ghost calls: nat)
      ensures r == FirstError(plugins, hook)
      ensures calls == HooksRun(plugins, hook)
    {
      var i := 0;
      calls := 0;
      while i < |plugins|
        invariant 0 <= i <= |plugins|
        invariant calls == i
        invariant forall j :: 0 <= j < i ==> hook(plugins[j]).Ok?
        invariant FirstError(plugins, hook) == FirstError(plugins[i..], hook)
        invariant HooksRun(plugins, hook) == i + HooksRun(plugins[i..], hook)
      {
        assert plugins[i..][1..] == plugins[i + 1..];
        var outcome := hook(plugins[i]);
        calls := calls + 1;
        if outcome.Err? {
          return outcome, calls;
        }
        i := i + 1;
      }
      return Ok(()), calls;
    }

    /** `call_pre_build` */
    method CallPreBuild(context: BuildContext) returns (r: Result<()>)
      ensures r == FirstError(plugins, PreBuild(context))
    {
      ghost var calls;
      r, calls := RunHooks(PreBuild(context));
    }

    /** `call_post_build` */
    method CallPostBuild(context: BuildContext) returns (r: Result<()>)
      ensures r == FirstError(plugins, PostBuild(context))
    {
      ghost var calls;
      r, calls := RunHooks(PostBuild(context));
    }

    /** `call_package` */
    method CallPackage(context: PackageContext) returns (r: Result<()>)
      ensures r == FirstError(plugins, Package(context))
    {
      ghost var calls;
      r, calls := RunHooks(Package(context));
    }
  }
}
