/** Storlet and dependency files on their way from the object store to the host cache and from there into
    the container. Names are not shared between storlets and dependencies. */
module StorletCache {
  import opened Basics

  type Name = string
  type Content = seq<int>

  datatype Object = Object(content: Content, timestamp: nat)
  datatype File = File(content: Content, mtime: nat)

  /** The object store, the host's cache, the storlet's directory in the container, and a common clock that
      advances with every upload and every write. */
  datatype World = World(store: map<Name, Object>, cache: map<Name, File>,
                         directory: bool, container: map<Name, File>, clock: nat)

  /** How the store answers when an object that it has is fetched: with all of it, not at all, or with a
      number of bytes before it breaks off. */
  datatype Delivery = Whole | Refused | Cut(length: nat)

  // ---- What the operations do ----

  function Upload(w: World, name: Name, content: Content): World {
    w.(store := w.store[name := Object(content, w.clock)], clock := w.clock + 1)
  }

  function Delete(w: World, name: Name): World {
    w.(store := w.store - {name})
  }

  /** The cached file is missing, or it is a storlet whose size or age does not match the store. A storlet
      that is not in the store has no size and age to compare with. */
  predicate NeedsFetch(w: World, name: Name, isStorlet: bool) {
    name !in w.cache ||
    (isStorlet && (name !in w.store || |w.cache[name].content| != |w.store[name].content| ||
                   w.cache[name].mtime < w.store[name].timestamp))
  }

  /** A file that has to be fetched cannot be. */
  predicate FetchRaises(w: World, name: Name, isStorlet: bool, delivery: Delivery) {
    NeedsFetch(w, name, isStorlet) && (name !in w.store || delivery != Whole)
  }

  /** What a delivery writes to the cache. */
  function Received(content: Content, delivery: Delivery): Content {
    if delivery.Cut? && delivery.length < |content| then content[..delivery.length] else content
  }

  function Fetch(w: World, name: Name, isStorlet: bool, delivery: Delivery): World {
    if NeedsFetch(w, name, isStorlet) && name in w.store && delivery != Refused
    then w.(cache := w.cache[name := File(Received(w.store[name].content, delivery), w.clock)], clock := w.clock + 1)
    else w
  }

  /** The container has no copy, or one of another size, or one younger than the cached file. */
  predicate NeedsCopy(w: World, name: Name)
    requires name in w.cache
  {
    !w.directory || name !in w.container ||
    |w.cache[name].content| != |w.container[name].content| || w.cache[name].mtime < w.container[name].mtime
  }

  /** The copy keeps the modification time. */
  function Copy(w: World, name: Name): World
    requires name in w.cache
  {
    if NeedsCopy(w, name) then w.(directory := true, container := w.container[name := w.cache[name]]) else w
  }

  /** What bringing files leaves behind, whether it raised, and whether the container got a file. */
  datatype Outcome = Outcome(world: World, raised: bool, copied: bool)

  function Bring(w: World, name: Name, isStorlet: bool, delivery: Delivery): (r: Outcome)
    ensures r.raised ==> !r.copied
  {
    var fetched := Fetch(w, name, isStorlet, delivery);
    if FetchRaises(w, name, isStorlet, delivery) then Outcome(fetched, true, false)
    else Outcome(Copy(fetched, name), false, NeedsCopy(fetched, name))
  }

  function DeliveryOf(swift: map<Name, Delivery>, name: Name): Delivery {
    if name in swift then swift[name] else Whole
  }

  /** Dependencies one after the other, up to the first that cannot be fetched. */
  function BringAll(w: World, names: seq<Name>, swift: map<Name, Delivery>): Outcome
    decreases |names|
  {
    if |names| == 0 then Outcome(w, false, false)
    else
      var first := Bring(w, names[0], false, DeliveryOf(swift, names[0]));
      if first.raised then first
      else
        var rest := BringAll(first.world, names[1..], swift);
        Outcome(rest.world, rest.raised, first.copied || rest.copied)
  }

  /** update_container_from_cache: the storlet, then its dependencies. */
  function Update(w: World, storletId: Name, dependencies: seq<Name>, swift: map<Name, Delivery>): Outcome {
    var first := Bring(w, storletId, true, DeliveryOf(swift, storletId));
    if first.raised then first
    else
      var rest := BringAll(first.world, dependencies, swift);
      Outcome(rest.world, rest.raised, first.copied || rest.copied)
  }

  // ---- The gateway's methods ----

  class ContainerGateway {
    var store: map<Name, Object>
    var cache: map<Name, File>
    var directory: bool
    var container: map<Name, File>
    var clock: nat

    function Current(): World
      reads this
    {
      World(store, cache, directory, container, clock)
    }

    constructor ()
      ensures Current() == START
    {
      store, cache, directory, container, clock := map[], map[], false, map[], 0;
    }

    /** A user uploads a storlet or a dependency. */
    method Put(name: Name, content: Content)
      modifies this
      ensures Current() == Upload(old(Current()), name, content)
    {
      store := store[name := Object(content, clock)];
      clock := clock + 1;
    }

    /** A user deletes an object; what was cached of it stays. */
    method Remove(name: Name)
      modifies this
      ensures Current() == Delete(old(Current()), name)
    {
      store := store - {name};
    }

    /** The first half of bring_from_cache: whether the file is then in the cache. */
    method UpdateCache(name: Name, isStorlet: bool, delivery: Delivery) returns (ok: bool)
      modifies this`cache, this`clock
      ensures Current() == Fetch(old(Current()), name, isStorlet, delivery)
      ensures ok <==> !FetchRaises(old(Current()), name, isStorlet, delivery)
    {
      var updateCache := false;
      if name !in cache {
        updateCache := true;
      } else if isStorlet {
        if name !in store { return false; }
        var sizeChanged := |cache[name].content| != |store[name].content|;
        var fileUpdated := cache[name].mtime < store[name].timestamp;
        if sizeChanged || fileUpdated {
          updateCache := true;
        }
      }
      if updateCache {
        if name !in store || delivery == Refused { return false; }
        cache := cache[name := File(Received(store[name].content, delivery), clock)];
        clock := clock + 1;
        if delivery.Cut? { return false; }
      }
      ok := true;
    }

    /** The second half: the container gets the cached file if it seems to need it. */
    method UpdateContainer(name: Name) returns (updateContainer: bool)
      requires name in cache
      modifies this`directory, this`container
      ensures Current() == Copy(old(Current()), name)
      ensures updateContainer == NeedsCopy(old(Current()), name)
    {
      updateContainer := false;
      if !directory {
        directory := true;
        updateContainer := true;
      } else if name !in container {
        updateContainer := true;
      } else {
        if |cache[name].content| != |container[name].content| {
          updateContainer := true;
        }
        if cache[name].mtime < container[name].mtime {
          updateContainer := true;
        }
      }
      if updateContainer {
        container := container[name := cache[name]];
      }
    }

    method BringFromCache(name: Name, isStorlet: bool, delivery: Delivery) returns (updateContainer: Result<bool>)
      modifies this
      ensures var b := Bring(old(Current()), name, isStorlet, delivery);
              Current() == b.world && updateContainer == if b.raised then Raised else Ok(b.copied)
    {
      var ok := UpdateCache(name, isStorlet, delivery);
      if !ok { return Raised; }
      hide Copy, NeedsCopy;
      var updated := UpdateContainer(name);
      updateContainer := Ok(updated);
    }

    /** update_container_from_cache: raises at the first file that cannot be fetched, with the files before
        it already copied; `copied` says whether the container got any. */
    method UpdateContainerFromCache(storletId: Name, dependencies: seq<Name>, swift: map<Name, Delivery>)
      returns (containerUpdated: Result<bool>, ghost copied: bool)
      modifies this
      ensures var u := Update(old(Current()), storletId, dependencies, swift);
              && Current() == u.world && copied == u.copied
              && containerUpdated == if u.raised then Raised else Ok(u.copied)
    {
      hide Bring, BringAll;
      var first := BringFromCache(storletId, true, DeliveryOf(swift, storletId));
      if first.Raised? { return Raised, false; }
      var updated := first.value;
      ghost var start := Current();
      ghost var all := BringAll(start, dependencies, swift);
      ghost var rest := dependencies;
      var i := 0;
      while i < |dependencies|
        invariant 0 <= i <= |dependencies| && rest == dependencies[i..]
        invariant var later := BringAll(Current(), rest, swift);
                  && later.world == all.world && later.raised == all.raised
                  && (updated || later.copied) == (first.value || all.copied)
      {
        BringNext(Current(), rest, swift);
        var next := BringFromCache(dependencies[i], false, DeliveryOf(swift, dependencies[i]));
        if next.Raised? { return Raised, updated; }
        updated := updated || next.value;
        i, rest := i + 1, rest[1..];
      }
      BringNone(Current(), rest, swift);
      containerUpdated, copied := Ok(updated), updated;
    }
  }

  lemma BringNext(w: World, names: seq<Name>, swift: map<Name, Delivery>)
    requires |names| > 0
    ensures var first := Bring(w, names[0], false, DeliveryOf(swift, names[0]));
            var rest := BringAll(first.world, names[1..], swift);
            BringAll(w, names, swift) ==
            if first.raised then first else Outcome(rest.world, rest.raised, first.copied || rest.copied)
  {
  }

  lemma BringNone(w: World, names: seq<Name>, swift: map<Name, Delivery>)
    requires |names| == 0
    ensures BringAll(w, names, swift) == Outcome(w, false, false)
  {
  }

  // ---- Every history of uploads, deletions and invocations ----

  datatype Event =
    | Uploaded(name: Name, content: Content)
    | Deleted(name: Name)
    | Brought(name: Name, isStorlet: bool, delivery: Delivery)

  function After(w: World, event: Event): World {
    match event
    case Uploaded(name, content) => Upload(w, name, content)
    case Deleted(name) => Delete(w, name)
    case Brought(name, isStorlet, delivery) => Bring(w, name, isStorlet, delivery).world
  }

  function Run(w: World, events: seq<Event>): World
    decreases |events|
  {
    if |events| == 0 then w else Run(After(w, events[0]), events[1..])
  }

  const START := World(map[], map[], false, map[], 0)

  /** A cached file no older than the object has its content, or less of it after a delivery that broke off;
      and the container holds copies of the cached files, or of older ones. */
  ghost predicate Good(w: World) {
    && (forall n :: n in w.store ==> w.store[n].timestamp < w.clock)
    && (forall n :: n in w.cache ==> w.cache[n].mtime < w.clock)
    && (forall n :: n in w.cache && n in w.store && w.cache[n].mtime >= w.store[n].timestamp ==>
          w.cache[n].content == w.store[n].content || |w.cache[n].content| < |w.store[n].content|)
    && (forall n :: n in w.container ==> w.directory && n in w.cache && IsCopyOf(w.container[n], w.cache[n]))
  }

  /** A copy of the cached file, or of one that was cached before it. */
  predicate IsCopyOf(copy: File, cached: File) {
    copy == cached || copy.mtime < cached.mtime
  }

  lemma FetchKeepsGood(w: World, name: Name, isStorlet: bool, delivery: Delivery)
    requires Good(w)
    ensures Good(Fetch(w, name, isStorlet, delivery))
    ensures !FetchRaises(w, name, isStorlet, delivery) ==> name in Fetch(w, name, isStorlet, delivery).cache
    ensures isStorlet && !FetchRaises(w, name, isStorlet, delivery) ==>
              name in w.store && Fetch(w, name, isStorlet, delivery).cache[name].content == w.store[name].content
  {
  }

  lemma BringKeepsGood(w: World, name: Name, isStorlet: bool, delivery: Delivery)
    requires Good(w)
    ensures Good(Bring(w, name, isStorlet, delivery).world)
  {
    hide Fetch, Good, FetchRaises;
    FetchKeepsGood(w, name, isStorlet, delivery);
    if !FetchRaises(w, name, isStorlet, delivery) {
      CopyKeepsGood(Fetch(w, name, isStorlet, delivery), name);
    }
  }

  lemma CopyKeepsGood(w: World, name: Name)
    requires Good(w) && name in w.cache
    ensures Good(Copy(w, name))
  {
  }

  lemma UploadKeepsGood(w: World, name: Name, content: Content)
    requires Good(w)
    ensures Good(Upload(w, name, content))
  {
  }

  lemma AfterKeepsGood(w: World, event: Event)
    requires Good(w)
    ensures Good(After(w, event))
  {
    hide Bring;
    match event
    case Uploaded(name, content) => UploadKeepsGood(w, name, content);
    case Deleted(name) =>
    case Brought(name, isStorlet, delivery) => BringKeepsGood(w, name, isStorlet, delivery);
  }

  lemma {:induction false} HistoryKeepsGood(w: World, events: seq<Event>)
    requires Good(w)
    ensures Good(Run(w, events))
    decreases |events|
  {
    hide Good, After;
    if |events| > 0 {
      AfterKeepsGood(w, events[0]);
      HistoryKeepsGood(After(w, events[0]), events[1..]);
    }
  }

  /** After any history, bringing a storlet raises exactly when it is not in the store or has to be fetched
      and is not delivered whole; otherwise the host's cache has the store's content. The container is then
      updated exactly when it has no copy or one of another size, since the comparison of modification times
      never fires; so its copy is current except exactly when the old copy had the same size and other
      content. */
  lemma CacheIsCurrentContainerMayNotBe(events: seq<Event>, name: Name, delivery: Delivery)
    ensures var w := Run(START, events);
            var b := Bring(w, name, true, delivery);
            && (b.raised <==> name !in w.store || (NeedsFetch(w, name, true) && delivery != Whole))
            && (!b.raised ==>
                  && name in b.world.cache && b.world.cache[name].content == w.store[name].content
                  && name in b.world.container
                  && (b.copied <==> name !in w.container || |w.container[name].content| != |w.store[name].content|)
                  && (b.world.container[name].content != w.store[name].content <==>
                      name in w.container && |w.container[name].content| == |w.store[name].content|
                      && w.container[name].content != w.store[name].content))
  {
    var w := Run(START, events);
    HistoryKeepsGood(START, events);
    hide Run;
    FetchKeepsGood(w, name, true, delivery);
  }

  /** Two versions of the same size: after the second one was uploaded and brought, the container still
      holds the first. */
  lemma StaleCopyWitness()
    ensures var w :=
            Run(START, [Uploaded("s", [1]), Brought("s", true, Whole), Uploaded("s", [2]), Brought("s", true, Whole)]);
            "s" in w.store && "s" in w.cache && "s" in w.container &&
            w.store["s"].content == w.cache["s"].content == [2] && w.container["s"].content == [1]
  {
    var w1 := Upload(START, "s", [1]);
    var w2 := Bring(w1, "s", true, Whole).world;
    var w3 := Upload(w2, "s", [2]);
    var w4 := Bring(w3, "s", true, Whole).world;
    assert "s" in w4.container && w4.container["s"].content == [1] && w4.cache["s"].content == [2];
    hide Bring, Upload;
    var events := [Uploaded("s", [1]), Brought("s", true, Whole), Uploaded("s", [2]), Brought("s", true, Whole)];
    var e3, e2, e1 := events[3..], events[2..], events[1..];
    assert e1[1..] == e2 && e2[1..] == e3 && e3[1..] == [];
    assert Run(w4, []) == w4;
    assert Run(w3, e3) == w4;
    assert Run(w2, e2) == w4;
    assert Run(w1, e1) == w4;
  }

  /** Dependencies are never refreshed: once cached, the cached file is what it was, and no delivery can
      make the call raise. One that is not cached is brought with the store's content or raises. */
  lemma DependenciesAreNeverRefreshed(w: World, name: Name, delivery: Delivery)
    ensures var b := Bring(w, name, false, delivery);
            && (name in w.cache ==> !b.raised && b.world.cache == w.cache)
            && (name !in w.cache ==> (b.raised <==> name !in w.store || delivery != Whole))
            && (name !in w.cache && !b.raised ==> b.world.cache[name].content == w.store[name].content)
  {
  }

  /** A dependency whose first delivery broke off: the call raises, the part stays in the cache, and every
      later call brings that part into the container without fetching again. */
  lemma CutDependencyStays(w: World, name: Name, length: nat, delivery: Delivery)
    requires name !in w.cache && name !in w.container && name in w.store && length < |w.store[name].content|
    ensures var cut := Bring(w, name, false, Cut(length));
            var later := Bring(cut.world, name, false, delivery);
            && cut.raised && !later.raised && name in later.world.container
            && later.world.cache[name].content == later.world.container[name].content == w.store[name].content[..length]
  {
  }

  // ---- The flag that is handed to the activation ----

  /** The container's files have only been added to or replaced by younger ones. */
  ghost predicate Grown(before: map<Name, File>, after: map<Name, File>) {
    && before.Keys <= after.Keys
    && forall n :: n in before ==> after[n] == before[n] || before[n].mtime < after[n].mtime
  }

  lemma GrownTwice(a: map<Name, File>, b: map<Name, File>, c: map<Name, File>)
    requires Grown(a, b) && Grown(b, c)
    ensures Grown(a, c) && (a == c <==> a == b == c)
  {
    if a == c {
      assert forall n :: n in a ==> b[n] == a[n];
    }
  }

  /** One file: the flag is true exactly when the container's files changed, also when the call raised. */
  lemma BringTellsChange(w: World, name: Name, isStorlet: bool, delivery: Delivery)
    requires Good(w)
    ensures var b := Bring(w, name, isStorlet, delivery);
            && (b.copied <==> b.world.container != w.container) && Grown(w.container, b.world.container)
  {
    hide Good;
    FetchKeepsGood(w, name, isStorlet, delivery);
    var v := Fetch(w, name, isStorlet, delivery);
    assert v.container == w.container;
    hide Fetch;
    if !FetchRaises(w, name, isStorlet, delivery) {
      hide FetchRaises;
      CopyTellsChange(v, name);
    }
  }

  lemma CopyTellsChange(w: World, name: Name)
    requires Good(w) && name in w.cache
    ensures NeedsCopy(w, name) <==> Copy(w, name).container != w.container
    ensures Grown(w.container, Copy(w, name).container)
  {
    if NeedsCopy(w, name) && name in w.container {
      assert w.container[name] != w.cache[name];
    }
  }

  lemma {:induction false} BringAllTellsChange(w: World, names: seq<Name>, swift: map<Name, Delivery>)
    requires Good(w)
    ensures var b := BringAll(w, names, swift);
            && (b.copied <==> b.world.container != w.container) && Grown(w.container, b.world.container)
    decreases |names|
  {
    hide Good, Bring;
    if |names| > 0 {
      var first := Bring(w, names[0], false, DeliveryOf(swift, names[0]));
      BringKeepsGood(w, names[0], false, DeliveryOf(swift, names[0]));
      BringTellsChange(w, names[0], false, DeliveryOf(swift, names[0]));
      if !first.raised {
        BringAllTellsChange(first.world, names[1..], swift);
        var rest := BringAll(first.world, names[1..], swift);
        hide Grown;
        GrownTwice(w.container, first.world.container, rest.world.container);
      }
    }
  }

  /** The storlet and its dependencies: the flag is true exactly when any file of the container changed,
      also when a file could not be fetched. */
  lemma UpdateTellsChange(w: World, storletId: Name, dependencies: seq<Name>, swift: map<Name, Delivery>)
    requires Good(w)
    ensures var u := Update(w, storletId, dependencies, swift);
            u.copied <==> u.world.container != w.container
  {
    hide Good, Bring, BringAll, Grown;
    var delivery := DeliveryOf(swift, storletId);
    var first := Bring(w, storletId, true, delivery);
    BringKeepsGood(w, storletId, true, delivery);
    BringTellsChange(w, storletId, true, delivery);
    if !first.raised {
      BringAllTellsChange(first.world, dependencies, swift);
      var rest := BringAll(first.world, dependencies, swift);
      GrownTwice(w.container, first.world.container, rest.world.container);
    }
  }

  lemma {:induction false} BringAllKeepsGood(w: World, names: seq<Name>, swift: map<Name, Delivery>)
    requires Good(w)
    ensures Good(BringAll(w, names, swift).world)
    decreases |names|
  {
    hide Good, Bring;
    if |names| > 0 {
      var first := Bring(w, names[0], false, DeliveryOf(swift, names[0]));
      BringKeepsGood(w, names[0], false, DeliveryOf(swift, names[0]));
      if !first.raised {
        BringAllKeepsGood(first.world, names[1..], swift);
      }
    }
  }

  lemma UpdateKeepsGood(w: World, storletId: Name, dependencies: seq<Name>, swift: map<Name, Delivery>)
    requires Good(w)
    ensures Good(Update(w, storletId, dependencies, swift).world)
  {
    hide Good, Bring, BringAll;
    BringKeepsGood(w, storletId, true, DeliveryOf(swift, storletId));
    BringAllKeepsGood(Bring(w, storletId, true, DeliveryOf(swift, storletId)).world, dependencies, swift);
  }

  lemma DeleteKeepsGood(w: World, name: Name)
    requires Good(w)
    ensures Good(Delete(w, name))
  {
  }

  /** A dependency that is new to the host is copied, and the flag says so. */
  lemma NewDependencyIsCopied(w: World, storletId: Name, dependency: Name)
    requires Good(w) && storletId in w.store && dependency in w.store && dependency != storletId
    requires dependency !in w.cache && dependency !in w.container
    ensures var u := Update(w, storletId, [dependency], map[]);
            && !u.raised && u.copied && dependency in u.world.container
            && u.world.container[dependency].content == w.store[dependency].content
  {
    var first := Bring(w, storletId, true, Whole);
    BringNext(first.world, [dependency], map[]);
    BringNone(Bring(first.world, dependency, false, Whole).world, [dependency][1..], map[]);
  }

  /** A storlet of another size is fetched and copied. */
  lemma SizeChangeIsCopied(w: World, name: Name)
    requires name in w.store && name in w.container && |w.store[name].content| != |w.container[name].content|
    requires name in w.cache ==> w.cache[name].mtime < w.store[name].timestamp
    ensures var b := Bring(w, name, true, Whole);
            !b.raised && b.copied
  {
  }

  /** What was just brought needs no copy. */
  lemma BroughtStays(w: World, name: Name)
    requires name in w.store && w.store[name].timestamp < w.clock
    requires name in w.cache ==> w.cache[name].mtime < w.store[name].timestamp
    requires Bring(w, name, true, Whole).copied
    ensures var v := Bring(w, name, true, Whole).world;
            name in v.store && !Bring(v, name, true, Whole).copied && !Bring(v, name, true, Whole).raised
  {
  }
}
