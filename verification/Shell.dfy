/** Deferred navigation (`MainShell` in crates/server/web/src/main.rs): a tab is shown once its units are loaded. */
module Shell {
  import opened DataStore
  import opened Wrappers

  /** What the component keeps: the shown tab, the tab that waits for its data, the menu, and the shared cache. */
  datatype View<T> = View(tab: nat, pending: Option<nat>, menuOpen: bool, openGroups: set<string>, cache: Cache<T>)

  // ---------- what the handlers mean ----------

  /** The navigation handler `go`. */
  function Go<T>(v: View<T>, i: nat): View<T> {
    var closed := v.(menuOpen := false);
    if v.tab == i || v.pending == Some(i) then closed
    else
      var next := closed.(openGroups := v.openGroups + {"subs"} + if i < 2 then {"single"} else {});
      if AllReady(v.cache.units, i) then next.(pending := None, tab := i)
      else next.(cache := EnsureLoaded(v.cache, RequiredUnits(i)), pending := Some(i))
  }

  /** The preload check in the component body: the shown tab has a unit that was never loaded. */
  predicate Preloads<T>(v: View<T>) {
    v.pending.None? && AnyIdle(v.cache.units, v.tab)
  }

  function Render<T>(v: View<T>): View<T> {
    if Preloads(v) then v.(cache := EnsureLoaded(v.cache, RequiredUnits(v.tab)), pending := Some(v.tab)) else v
  }

  /** The effect that commits a pending tab. */
  function Commit<T>(v: View<T>): View<T> {
    match v.pending
    case None => v
    case Some(p) => if AllFinished(v.cache.units, p) then v.(tab := p, pending := None) else v
  }

  /** The component. */
  class MainShell<T> {
    var tab: nat
    var pending: Option<nat>
    var menuOpen: bool
    var openGroups: set<string>
    const data: Store<T>

    constructor ()
      ensures fresh(data) && data.Valid() && Contents() == View(0, None, false, {}, Empty())
    {
      tab, pending, menuOpen, openGroups := 0, None, false, {};
      data := new Store();
    }

    ghost function Contents(): View<T>
      reads this, data
    {
      View(tab, pending, menuOpen, openGroups, data.Contents())
    }

    /** `go` */
    method Navigate(i: nat)
      requires data.Valid()
      modifies this, data
      ensures data.Valid() && Contents() == Go(old(Contents()), i)
    {
      menuOpen := false;
      if tab == i {
        return;
      }
      if pending == Some(i) {
        return;
      }
      openGroups := openGroups + {"subs"};
      if i < 2 {
        openGroups := openGroups + {"single"};
      }
      if AllReady(data.AllUnits(), i) {
        pending := None;
        tab := i;
      } else {
        data.EnsureTabLoaded(i);
        pending := Some(i);
      }
    }

    /** The preload check, each time the component is rendered. */
    method CheckPreload()
      requires data.Valid()
      modifies this, data
      ensures data.Valid() && Contents() == Render(old(Contents()))
    {
      if pending.None? && AnyIdle(data.AllUnits(), tab) {
        data.EnsureTabLoaded(tab);
        pending := Some(tab);
      }
    }

    /** The commit effect. */
    method CommitEffect()
      modifies this
      ensures Contents() == Commit(old(Contents()))
    {
      var p := pending;
      if p.Some? && AllFinished(data.AllUnits(), p.value) {
        tab := p.value;
        pending := None;
      }
    }
  }

  // ---------- runs ----------

  /** The component, whether it was rendered yet, and how often the preload check has fired. */
  datatype Machine<T> = Machine(view: View<T>, rendered: bool, preloads: nat)

  datatype Step<T> =
    | Rendering
    | Effect
    | Click(i: nat)                             // a navigation item
    | Refresh(key: UnitKey)                     // a page asks for fresh data
    | Arrival(i: nat, result: Result<T, string>) // a fetch comes back

  /** The body of the component runs before anything else can happen. */
  predicate Enabled<T>(m: Machine<T>, step: Step<T>) {
    match step
    case Rendering => true
    case Arrival(i, _) => m.rendered && i < |m.view.cache.fetches|
    case _ => m.rendered
  }

  function Do<T>(m: Machine<T>, step: Step<T>): Machine<T>
    requires Enabled(m, step)
  {
    match step
    case Rendering => Machine(Render(m.view), true, m.preloads + if Preloads(m.view) then 1 else 0)
    case Effect => m.(view := Commit(m.view))
    case Click(i) => m.(view := Go(m.view, i))
    case Refresh(key) => m.(view := m.view.(cache := Load(m.view.cache, key)))
    case Arrival(i, result) => m.(view := m.view.(cache := Complete(m.view.cache, i, result)))
  }

  function Start<T>(): Machine<T> {
    Machine(View(0, None, false, {}, Empty()), false, 0)
  }

  function After<T>(m: Machine<T>, run: seq<Step<T>>): Option<Machine<T>>
    decreases |run|
  {
    if run == [] then Some(m)
    else if !Enabled(m, run[0]) then None
    else After(Do(m, run[0]), run[1..])
  }

  // ---------- safety ----------

  /** The cache is good; a pending tab has no idle unit; once rendered, the shown tab has none either; and the
      preload check has fired exactly in the first rendering. */
  ghost predicate IsSafe<T>(m: Machine<T>) {
    && IsGood(m.view.cache)
    && (m.view.pending.Some? ==> !AnyIdle(m.view.cache.units, m.view.pending.value))
    && (m.rendered ==> !AnyIdle(m.view.cache.units, m.view.tab) && m.preloads == 1)
    && (!m.rendered ==> m == Start())
  }

  lemma EnsuredTab<T>(c: Cache<T>, i: nat, other: nat)
    requires IsGood(c)
    ensures var d := EnsureLoaded(c, RequiredUnits(i));
            && IsGood(d) && StaysUsed(c, d) && !AnyIdle(d.units, i)
            && (!AnyIdle(c.units, other) ==> !AnyIdle(d.units, other))
  {
    EnsureLoadedIsGood(c, RequiredUnits(i));
    EnsureLoadedTab(c, i);
  }

  lemma FirstRendering<T>()
    ensures IsSafe(Do(Start<T>(), Rendering))
  {
    var c: Cache<T> := Empty();
    EmptyIsGood<T>();
    EnsuredTab(c, 0, 0);
    assert RequiredUnits(0)[0] == Sources;
  }

  lemma ClickIsSafe<T>(m: Machine<T>, i: nat)
    requires IsSafe(m) && m.rendered
    ensures IsSafe(Do(m, Click(i)))
  {
    EnsuredTab(m.view.cache, i, m.view.tab);
  }

  lemma CacheStepIsSafe<T>(m: Machine<T>, d: Cache<T>)
    requires IsSafe(m) && m.rendered && IsGood(d) && StaysUsed(m.view.cache, d)
    ensures IsSafe(m.(view := m.view.(cache := d)))
  {
  }

  lemma StepIsSafe<T>(m: Machine<T>, step: Step<T>)
    requires IsSafe(m) && Enabled(m, step)
    ensures IsSafe(Do(m, step))
  {
    match step {
      case Rendering => if !m.rendered { FirstRendering<T>(); }
      case Effect =>
      case Click(i) => ClickIsSafe(m, i);
      case Refresh(key) =>
        LoadIsGood(m.view.cache, key);
        CacheStepIsSafe(m, Load(m.view.cache, key));
      case Arrival(i, result) =>
        CompleteIsGood(m.view.cache, i, result);
        CacheStepIsSafe(m, Complete(m.view.cache, i, result));
    }
  }

  /** Main result: in every run, whatever the user does and however the fetches end, navigation is safe. */
  lemma {:induction false} RunIsSafe<T>(m: Machine<T>, run: seq<Step<T>>)
    requires IsSafe(m) && After(m, run).Some?
    ensures IsSafe(After(m, run).value)
    decreases |run|
  {
    if run != [] {
      StepIsSafe(m, run[0]);
      RunIsSafe(Do(m, run[0]), run[1..]);
    }
  }

  lemma ReachableIsSafe<T>(run: seq<Step<T>>)
    requires After(Start<T>(), run).Some?
    ensures IsSafe(After(Start<T>(), run).value)
  {
    EmptyIsGood<T>();
    RunIsSafe(Start<T>(), run);
  }

  /** Whenever the shown tab changes, or a pending tab stops being pending, each unit of the tab that is shown then
      has finished loading, one way or the other; and a pending tab is given up only for another one that is
      ready. */
  lemma ShownTabsHaveFinished<T>(m: Machine<T>, step: Step<T>)
    requires IsSafe(m) && Enabled(m, step)
    requires var v := Do(m, step).view; v.tab != m.view.tab || (m.view.pending.Some? && v.pending.None?)
    ensures var v := Do(m, step).view;
            && (forall k :: k in RequiredUnits(v.tab) ==> v.cache.units.Get(k).status in {Ready, Broken})
            && (m.view.pending.Some? && v.tab != m.view.pending.value ==>
                  step == Click(v.tab) && AllReady(v.cache.units, v.tab))
  {
    var v := Do(m, step).view;
    forall k | k in RequiredUnits(v.tab)
      ensures v.cache.units.Get(k).status in {Ready, Broken}
    {
      assert v.cache.units.Get(k).status != Loading && v.cache.units.Get(k).status != Idle;
    }
  }

  /** After the first rendering, rendering changes nothing, and only clicks and refreshes start fetches: a fetch that
      fails is not repeated by itself. */
  lemma NoReloadLoop<T>(m: Machine<T>, step: Step<T>)
    requires IsSafe(m) && m.rendered && Enabled(m, step)
    ensures step.Rendering? ==> Do(m, step) == m
    ensures !step.Click? && !step.Refresh? ==> |Do(m, step).view.cache.fetches| <= |m.view.cache.fetches|
    ensures step.Arrival? ==> |Do(m, step).view.cache.fetches| < |m.view.cache.fetches|
    ensures step.Refresh? ==> Do(m, step).view.cache.units.Get(step.key).status == Loading
  {
    if step.Refresh? {
      LoadIsGood(m.view.cache, step.key);
    }
  }

  /** The first rendering starts the one fetch that the first tab needs, and the tab is pending until it comes back. */
  lemma FirstRenderingLoads<T>()
    ensures var v := Do(Start<T>(), Rendering).view;
            && v.tab == 0 && v.pending == Some(0)
            && v.cache.fetches == [Fetch(Sources, None)]
            && forall k :: v.cache.units.Get(k).status == if k == Sources then Loading else Idle
  {
    var c: Cache<T> := Empty();
    assert RequiredUnits(0)[..0] == [] && RequiredUnits(0)[0] in RequiredUnits(0);
    assert c.units.Get(RequiredUnits(0)[0]).status == Idle;
  }

  /** A pending tab does not wait for ever: while it waits, one of its units is being fetched, and when nothing is
      being fetched any more the effect shows it. */
  lemma PendingTabIsShown<T>(m: Machine<T>, p: nat)
    requires IsSafe(m) && m.view.pending == Some(p)
    ensures Commit(m.view) == m.view <==>
            exists k :: k in RequiredUnits(p) && k in m.view.cache.inFlight
    ensures m.view.cache.fetches == [] ==> Commit(m.view) == m.view.(tab := p, pending := None)
  {
    var c := m.view.cache;
    assert AllFinished(c.units, p) <==> !exists k :: k in RequiredUnits(p) && k in c.inFlight;
    if c.fetches == [] {
      assert KeysOf(c.fetches) == [];
      assert forall k :: k in c.inFlight ==> k in multiset(c.inFlight);
    }
  }

  // ---------- where a click leads ----------

  /** The units that a tab shows are ready. */
  predicate IsReadyFor<T>(u: Units<CacheState<T>>, tab: nat) {
    match tab
    case 0 => u.sources.status == Ready
    case 1 => u.sources.status == Ready
    case 2 => u.combineds.status == Ready && u.sources.status == Ready
    case 3 => u.clashConfig.status == Ready
    case _ => u.config.status == Ready
  }

  lemma ReadyExactly<T>(u: Units<CacheState<T>>, tab: nat)
    ensures AllReady(u, tab) <==> IsReadyFor(u, tab)
  {
    assert u.sources == u.Get(Sources) && u.combineds == u.Get(Combineds);
    assert u.config == u.Get(Config) && u.clashConfig == u.Get(ClashConfig);
    assert RequiredUnits(tab)[0] in RequiredUnits(tab);
    if tab == 2 {
      assert RequiredUnits(tab)[1] == Sources && Sources in RequiredUnits(tab);
    }
  }

  /** Where a click leads: to its own tab; but a click on the shown tab does not call off a tab that is pending. */
  function Goal<T>(v: View<T>, i: nat): nat {
    if v.tab == i && v.pending.Some? then v.pending.value else i
  }

  /** The tab is shown, or will be. */
  predicate HeadsFor<T>(v: View<T>, goal: nat) {
    v.pending == Some(goal) || (v.pending == None && v.tab == goal)
  }

  /** A click closes the menu and heads for its goal. On another tab that is not pending yet: if the units of that tab
      are ready it is shown at once, otherwise it is pending and the shown tab stays; and its groups are open. */
  lemma ClickHeads<T>(v: View<T>, i: nat)
    ensures var w := Go(v, i);
            && HeadsFor(w, Goal(v, i)) && !w.menuOpen
            && (v.tab != i && v.pending != Some(i) ==>
                  && w.openGroups == v.openGroups + {"subs"} + (if i == 0 || i == 1 then {"single"} else {})
                  && (if IsReadyFor(v.cache.units, i) then w.tab == i && w.pending == None && w.cache == v.cache
                      else w.tab == v.tab && w.pending == Some(i)))
  {
    ReadyExactly(v.cache.units, i);
  }

  lemma StepHeads<T>(m: Machine<T>, step: Step<T>, goal: nat)
    requires IsSafe(m) && m.rendered && Enabled(m, step) && !step.Click? && HeadsFor(m.view, goal)
    ensures HeadsFor(Do(m, step).view, goal) && Do(m, step).rendered
  {
  }

  lemma {:induction false} RunHeads<T>(m: Machine<T>, run: seq<Step<T>>, goal: nat)
    requires IsSafe(m) && m.rendered && After(m, run).Some? && HeadsFor(m.view, goal)
    requires forall k :: 0 <= k < |run| ==> !run[k].Click?
    ensures HeadsFor(After(m, run).value.view, goal) && After(m, run).value.rendered
    decreases |run|
  {
    if run != [] {
      StepIsSafe(m, run[0]);
      StepHeads(m, run[0], goal);
      RunHeads(Do(m, run[0]), run[1..], goal);
    }
  }

  /** Main result. After a click, and after any renderings, effects, refreshes and answers, but no other click, up to a
      moment in which nothing is being fetched, the next effect leaves the goal shown and nothing pending. */
  lemma ClickLeads<T>(m: Machine<T>, i: nat, run: seq<Step<T>>)
    requires IsSafe(m) && m.rendered && After(Do(m, Click(i)), run).Some?
    requires forall k :: 0 <= k < |run| ==> !run[k].Click?
    requires After(Do(m, Click(i)), run).value.view.cache.fetches == []
    ensures var v := Commit(After(Do(m, Click(i)), run).value.view);
            v.tab == Goal(m.view, i) && v.pending == None
  {
    var n := Do(m, Click(i));
    StepIsSafe(m, Click(i));
    ClickHeads(m.view, i);
    RunHeads(n, run, Goal(m.view, i));
    RunIsSafe(n, run);
    var t := After(n, run).value;
    if t.view.pending.Some? {
      PendingTabIsShown(t, t.view.pending.value);
    }
  }
}
