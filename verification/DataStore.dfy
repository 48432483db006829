/** The cache that the pages share (crates/server/web/src/data.rs). The body of a unit is of a type `T` that the
    cache never looks at. */
module DataStore {
  import opened Lists
  import opened Wrappers

  datatype UnitKey = Sources | Combineds | Config | ClashConfig

  datatype Status = Idle | Loading | Ready | Broken

  datatype CacheState<T> = CacheState(status: Status, data: Option<T>, error: string)

  /** One value for each unit. */
  datatype Units<X> = Units(sources: X, combineds: X, config: X, clashConfig: X) {
    function Get(key: UnitKey): X {
      match key
      case Sources => sources
      case Combineds => combineds
      case Config => config
      case ClashConfig => clashConfig
    }

    function Set(key: UnitKey, x: X): (r: Units<X>)
      ensures forall k :: r.Get(k) == if k == key then x else Get(k)
    {
      match key
      case Sources => this.(sources := x)
      case Combineds => this.(combineds := x)
      case Config => this.(config := x)
      case ClashConfig => this.(clashConfig := x)
    }
  }

  /** A fetch that was spawned and has not come back, with the data at the time of the spawn. */
  datatype Fetch<T> = Fetch(key: UnitKey, stale: Option<T>)

  /** The units, the fetches under way, and, for the record, the last successful answer for each unit. */
  datatype Cache<T> = Cache(
    units: Units<CacheState<T>>, inFlight: set<UnitKey>, fetches: seq<Fetch<T>>, lastGood: Units<Option<T>>)

  function Everywhere<X>(x: X): (r: Units<X>)
    ensures forall k :: r.Get(k) == x
  {
    Units(x, x, x, x)
  }

  function Empty<T>(): Cache<T> {
    Cache(Everywhere(CacheState(Idle, None, "")), {}, [], Everywhere(None))
  }

  /** `required_units` */
  function RequiredUnits(tab: nat): seq<UnitKey> {
    if tab == 0 || tab == 1 then [Sources]
    else if tab == 2 then [Combineds, Sources]
    else if tab == 3 then [ClashConfig]
    else [Config]
  }

  // ---------- readers ----------

  /** `all_ready` */
  predicate AllReady<T>(units: Units<CacheState<T>>, tab: nat) {
    forall k :: k in RequiredUnits(tab) ==> units.Get(k).status == Ready
  }

  /** `all_finished` */
  predicate AllFinished<T>(units: Units<CacheState<T>>, tab: nat) {
    forall k :: k in RequiredUnits(tab) ==> units.Get(k).status != Loading
  }

  /** `any_idle` */
  predicate AnyIdle<T>(units: Units<CacheState<T>>, tab: nat) {
    exists k :: k in RequiredUnits(tab) && units.Get(k).status == Idle
  }

  // ---------- writers ----------

  /** `load`: a unit that is being fetched is left alone; otherwise it is marked, its data kept, and fetched. */
  function Load<T>(c: Cache<T>, key: UnitKey): Cache<T> {
    if key in c.inFlight then c
    else
      var data := c.units.Get(key).data;
      c.(units := c.units.Set(key, CacheState(Loading, data, "")),
      inFlight := c.inFlight + {key},
      fetches := c.fetches + [Fetch(key, data)])
  }

  predicate NeedsLoad<T>(s: CacheState<T>) {
    s.status != Ready && s.status != Loading
  }

  /** `ensure_loaded`: units that are neither ready nor loading are loaded. */
  function EnsureLoaded<T>(c: Cache<T>, keys: seq<UnitKey>): Cache<T> {
    if keys == [] then c
    else
      var init := EnsureLoaded(c, keys[..|keys| - 1]);
      var key := keys[|keys| - 1];
      if NeedsLoad(init.units.Get(key)) then Load(init, key) else init
  }

  /** A fetch comes back. A failure puts back the data of the time of the spawn. */
  function Complete<T>(c: Cache<T>, i: nat, result: Result<T, string>): Cache<T>
    requires i < |c.fetches|
  {
    var f := c.fetches[i];
    var next := match result
      case Ok(d) => CacheState(Ready, Some(d), "")
      case Err(e) => CacheState(Broken, f.stale, e);
    Cache(c.units.Set(f.key, next), c.inFlight - {f.key}, RemoveAt(c.fetches, i),
          if result.Ok? then c.lastGood.Set(f.key, Some(result.value)) else c.lastGood)
  }

  // ---------- what holds in every reachable state ----------

  function KeysOf<T>(fetches: seq<Fetch<T>>): (r: seq<UnitKey>)
    ensures |r| == |fetches| && forall i :: 0 <= i < |r| ==> r[i] == fetches[i].key
  {
    seq(|fetches|, i requires 0 <= i < |fetches| => fetches[i].key)
  }

  /** Exactly one fetch for each unit in flight, and none for any other. */
  predicate IsSingleFlight<T>(c: Cache<T>) {
    multiset(KeysOf(c.fetches)) == multiset(c.inFlight)
  }

  /** A unit is loading exactly while it is in flight; a ready unit has data. */
  ghost predicate IsMarked<T>(c: Cache<T>) {
    forall k :: && (c.units.Get(k).status == Loading <==> k in c.inFlight)
                && (c.units.Get(k).status == Ready ==> c.units.Get(k).data.Some?)
  }

  /** The data of every unit is the last successful answer, and a fetch under way still remembers it. */
  ghost predicate IsCurrent<T>(c: Cache<T>) {
    && (forall k :: c.units.Get(k).data == c.lastGood.Get(k))
    && (forall i :: 0 <= i < |c.fetches| ==> c.fetches[i].stale == c.lastGood.Get(c.fetches[i].key))
  }

  ghost predicate IsGood<T>(c: Cache<T>) {
    IsSingleFlight(c) && IsMarked(c) && IsCurrent(c)
  }

  /** No unit becomes idle. */
  ghost predicate StaysUsed<T>(c: Cache<T>, d: Cache<T>) {
    forall k :: c.units.Get(k).status != Idle ==> d.units.Get(k).status != Idle
  }

  lemma EmptyIsGood<T>()
    ensures IsGood(Empty<T>())
  {
  }

  lemma LoadIsSingleFlight<T>(c: Cache<T>, key: UnitKey)
    requires IsSingleFlight(c)
    ensures IsSingleFlight(Load(c, key))
  {
    if key !in c.inFlight {
      assert KeysOf(Load(c, key).fetches) == KeysOf(c.fetches) + [key];
    }
  }

  lemma LoadIsGood<T>(c: Cache<T>, key: UnitKey)
    requires IsGood(c)
    ensures IsGood(Load(c, key)) && StaysUsed(c, Load(c, key))
    ensures Load(c, key).units.Get(key).status == Loading
  {
    LoadIsSingleFlight(c, key);
  }

  /** After `ensure_loaded` no unit of the list is idle, and no unit has become idle. */
  lemma {:induction false} EnsureLoadedIsGood<T>(c: Cache<T>, keys: seq<UnitKey>)
    requires IsGood(c)
    ensures IsGood(EnsureLoaded(c, keys)) && StaysUsed(c, EnsureLoaded(c, keys))
    ensures forall k :: k in keys ==> EnsureLoaded(c, keys).units.Get(k).status != Idle
  {
    if keys != [] {
      var init := EnsureLoaded(c, keys[..|keys| - 1]);
      EnsureLoadedIsGood(c, keys[..|keys| - 1]);
      LoadIsGood(init, keys[|keys| - 1]);
      assert forall k :: k in keys ==> k in keys[..|keys| - 1] || k == keys[|keys| - 1];
    }
  }

  /** What `ensure_loaded` does to each unit: those of the list that were never loaded, or failed, are loading, with
      their old data; all others are as they were. */
  lemma {:induction false} EnsureLoadedExactly<T>(c: Cache<T>, keys: seq<UnitKey>, k: UnitKey)
    requires IsGood(c)
    ensures EnsureLoaded(c, keys).units.Get(k) ==
            var s := c.units.Get(k);
            if k in keys && (s.status == Idle || s.status == Broken) then CacheState(Loading, s.data, "") else s
  {
    if keys != [] {
      var init := keys[..|keys| - 1];
      EnsureLoadedExactly(c, init, k);
      EnsureLoadedIsGood(c, init);
      assert k in keys <==> k in init || k == keys[|keys| - 1];
    }
  }

  /** Loading keeps the old data, and a fetch that fails loses none. */
  lemma DataIsNeverLost<T>(c: Cache<T>, key: UnitKey, i: nat, error: string, k: UnitKey)
    requires IsGood(c) && i < |c.fetches|
    ensures Load(c, key).units.Get(k).data == c.units.Get(k).data
    ensures Complete(c, i, Err(error)).units.Get(k).data == c.units.Get(k).data
  {
    CompleteIsGood(c, i, Err(error));
  }

  lemma EnsureLoadedTab<T>(c: Cache<T>, tab: nat)
    requires IsGood(c)
    ensures !AnyIdle(EnsureLoaded(c, RequiredUnits(tab)).units, tab)
  {
    EnsureLoadedIsGood(c, RequiredUnits(tab));
  }

  lemma EnsureLoadedStep<T>(c: Cache<T>, keys: seq<UnitKey>, i: nat)
    requires i < |keys|
    ensures var d := EnsureLoaded(c, keys[..i]);
            EnsureLoaded(c, keys[..i + 1]) == if NeedsLoad(d.units.Get(keys[i])) then Load(d, keys[i]) else d
  {
    assert keys[..i + 1][..i] == keys[..i];
  }

  /** Taking out the only occurrence of a key takes the key out. */
  lemma KeyGoes(keys: seq<UnitKey>, inFlight: set<UnitKey>, i: nat)
    requires i < |keys| && multiset(keys) == multiset(inFlight)
    ensures keys[i] in inFlight && keys[i] !in RemoveAt(keys, i)
    ensures multiset(RemoveAt(keys, i)) == multiset(inFlight - {keys[i]})
  {
    var key := keys[i];
    assert key in multiset(keys);
    assert multiset(RemoveAt(keys, i)) == multiset(inFlight) - multiset{key};
    assert multiset(RemoveAt(keys, i))[key] == 0;
    assert multiset(inFlight - {key}) == multiset(inFlight) - multiset{key};
  }

  lemma CompleteIsSingleFlight<T>(c: Cache<T>, i: nat, result: Result<T, string>)
    requires IsSingleFlight(c) && i < |c.fetches|
    ensures IsSingleFlight(Complete(c, i, result))
    ensures c.fetches[i].key in c.inFlight
    ensures forall j :: 0 <= j < |c.fetches| - 1 ==> RemoveAt(c.fetches, i)[j].key != c.fetches[i].key
  {
    var before, after := KeysOf(c.fetches), KeysOf(RemoveAt(c.fetches, i));
    KeyGoes(before, c.inFlight, i);
    assert after == RemoveAt(before, i);
    assert forall j :: 0 <= j < |after| ==> after[j] in after;
  }

  lemma CompleteIsGood<T>(c: Cache<T>, i: nat, result: Result<T, string>)
    requires IsGood(c) && i < |c.fetches|
    ensures IsGood(Complete(c, i, result)) && StaysUsed(c, Complete(c, i, result))
  {
    CompleteIsSingleFlight(c, i, result);
  }

  /** What a fetch that comes back does to each unit: its own one is ready with what was fetched, or shows the error
      with the last good data; all others are as they were. */
  lemma CompleteExactly<T>(c: Cache<T>, i: nat, result: Result<T, string>, k: UnitKey)
    requires IsGood(c) && i < |c.fetches|
    ensures Complete(c, i, result).units.Get(k) ==
            if k != c.fetches[i].key then c.units.Get(k)
            else match result
                 case Ok(d) => CacheState(Ready, Some(d), "")
                 case Err(e) => CacheState(Broken, c.lastGood.Get(k), e)
  {
    assert c.fetches[i].stale == c.lastGood.Get(c.fetches[i].key);
  }

  // ---------- the class ----------

  class Store<T> {
    var sources: CacheState<T>
    var combineds: CacheState<T>
    var config: CacheState<T>
    var clashConfig: CacheState<T>
    var inFlight: set<UnitKey>
    var fetches: seq<Fetch<T>>
    ghost var lastGood: Units<Option<T>>

    function AllUnits(): Units<CacheState<T>>
      reads this
    {
      Units(sources, combineds, config, clashConfig)
    }

    ghost function Contents(): Cache<T>
      reads this
    {
      Cache(AllUnits(), inFlight, fetches, lastGood)
    }

    ghost predicate Valid()
      reads this
    {
      IsGood(Contents())
    }

    constructor ()
      ensures Valid() && Contents() == Empty()
    {
      sources := CacheState(Idle, None, "");
      combineds := CacheState(Idle, None, "");
      config := CacheState(Idle, None, "");
      clashConfig := CacheState(Idle, None, "");
      inFlight := {};
      fetches := [];
      lastGood := Everywhere(None);
      new;
      EmptyIsGood<T>();
    }

    method SetUnit(key: UnitKey, s: CacheState<T>)
      modifies `sources, `combineds, `config, `clashConfig
      ensures AllUnits() == old(AllUnits()).Set(key, s)
    {
      match key {
        case Sources => sources := s;
        case Combineds => combineds := s;
        case Config => config := s;
        case ClashConfig => clashConfig := s;
      }
    }

    /** `load`; `refresh` does nothing else */
    method LoadUnit(key: UnitKey)
      requires Valid()
      modifies this
      ensures Valid() && Contents() == Load(old(Contents()), key)
    {
      LoadIsGood(Contents(), key);
      if key in inFlight {
        return;
      }
      var cur := AllUnits().Get(key);
      SetUnit(key, CacheState(Loading, cur.data, ""));
      var stale := AllUnits().Get(key).data;
      inFlight := inFlight + {key};
      fetches := fetches + [Fetch(key, stale)];
    }

    /** `ensure_loaded` */
    method EnsureTabLoaded(tab: nat)
      requires Valid()
      modifies this
      ensures Valid() && Contents() == EnsureLoaded(old(Contents()), RequiredUnits(tab))
      ensures !AnyIdle(AllUnits(), tab)
    {
      var keys := RequiredUnits(tab);
      ghost var before := Contents();
      EnsureLoadedTab(before, tab);
      for i := 0 to |keys|
        invariant Valid() && Contents() == EnsureLoaded(before, keys[..i])
      {
        EnsureLoadedStep(before, keys, i);
        var s := AllUnits().Get(keys[i]);
        if s.status != Ready && s.status != Loading {
          LoadUnit(keys[i]);
        }
      }
      assert keys[..|keys|] == keys;
    }

    /** The rest of `load`, when fetch `i` comes back. */
    method CompleteFetch(i: nat, result: Result<T, string>)
      requires Valid() && i < |fetches|
      modifies this
      ensures Valid() && Contents() == Complete(old(Contents()), i, result)
    {
      CompleteIsGood(Contents(), i, result);
      var f := fetches[i];
      match result {
        case Ok(d) =>
          SetUnit(f.key, CacheState(Ready, Some(d), ""));
          lastGood := lastGood.Set(f.key, Some(d));
        case Err(e) =>
          SetUnit(f.key, CacheState(Broken, f.stale, e));
      }
      inFlight := inFlight - {f.key};
      fetches := RemoveAt(fetches, i);
    }
  }
}
