/** The bundle store of a node: two maps, from local ids to keys and from keys to bundles, with a bound on
    the number of bundles. A full store makes room by the utility of its bundles. */
module Bundles {
  import opened Text

  type Key = string
  type LocalId = string

  datatype Bundle = Bundle(localId: LocalId, key: Key, sourceUri: string, destUri: string)

  type Ids = map<LocalId, Key>
  type Store = map<Key, Bundle>

  /** The two maps name each other one to one. */
  ghost predicate OneToOne(ids: Ids, store: Store) {
    && (forall l :: l in ids ==> ids[l] in store && store[ids[l]].localId == l)
    && (forall k :: k in store ==> store[k].key == k && store[k].localId in ids && ids[store[k].localId] == k)
  }

  predicate Local(localEid: string, uri: string) { localEid + "/" <= uri }

  ghost predicate Foreign(localEid: string, b: Bundle) { !Local(localEid, b.sourceUri) }

  /** What the scan for the smallest utility finds: of the foreign bundles with the smallest utility below
      maxDouble the one whose key comes first; if there is none, the first bundle of all, and maxDouble for
      its utility. */
  ghost predicate Smallest(store: Store, localEid: string, utility: Key -> real, maxDouble: real, victim: Key,
                           smallest: real)
  {
    && victim in store
    && (forall k :: k in store && Foreign(localEid, store[k]) ==> smallest <= utility(k) || maxDouble <= utility(k))
    && if smallest < maxDouble then
         && Foreign(localEid, store[victim]) && utility(victim) == smallest
         && forall k :: k in store && Foreign(localEid, store[k]) && utility(k) == smallest && k != victim ==>
              Before(victim, k)
       else smallest == maxDouble && IsFirst(store.Keys, victim)
  }

  /** So the victim is determined. */
  lemma SmallestIsUnique(store: Store, localEid: string, utility: Key -> real, maxDouble: real, victim: Key,
                         smallest: real, victim2: Key, smallest2: real)
    requires Smallest(store, localEid, utility, maxDouble, victim, smallest)
    requires Smallest(store, localEid, utility, maxDouble, victim2, smallest2)
    ensures victim == victim2 && smallest == smallest2
  {
    hide Compare;
    CompareIsOrder(victim, victim2);
  }

  /** A newcomer takes the place of the victim if it is not worth less, or is local. */
  ghost predicate Replaces(localEid: string, b: Bundle, newUtility: real, smallest: real) {
    smallest <= newUtility || Local(localEid, b.sourceUri)
  }

  /** A foreign bundle that is worth no more. */
  ghost predicate NoBetter(store: Store, localEid: string, utility: Key -> real, maxDouble: real,
                           newUtility: real, k: Key)
  {
    k in store && Foreign(localEid, store[k]) && utility(k) < maxDouble && utility(k) <= newUtility
  }

  /** A full store takes a newcomer: a local one always, a foreign one if some foreign bundle is worth no more. */
  ghost predicate Takes(store: Store, localEid: string, utility: Key -> real, maxDouble: real, b: Bundle,
                        newUtility: real)
  {
    || (exists rest :: b.sourceUri == localEid + "/" + rest)
    || (exists k :: NoBetter(store, localEid, utility, maxDouble, newUtility, k))
    || maxDouble <= newUtility
  }

  lemma LocalIff(localEid: string, uri: string)
    ensures Local(localEid, uri) <==> exists rest :: uri == localEid + "/" + rest
  {
    var me := localEid + "/";
    if me <= uri {
      assert uri == me + uri[|me|..];
    }
    forall rest | uri == me + rest ensures me <= uri {
      assert uri[..|me|] == me;
    }
  }

  /** So the comparison with one bundle, the victim, decides as if the newcomer were compared with every foreign
      bundle of the store. */
  lemma TakesIff(store: Store, localEid: string, utility: Key -> real, maxDouble: real, victim: Key,
                 smallest: real, b: Bundle, newUtility: real)
    requires Smallest(store, localEid, utility, maxDouble, victim, smallest)
    ensures Replaces(localEid, b, newUtility, smallest)
            <==> Takes(store, localEid, utility, maxDouble, b, newUtility)
  {
    hide Local, Before, IsFirst;
    LocalIff(localEid, b.sourceUri);
    if smallest <= newUtility && smallest < maxDouble {
      assert NoBetter(store, localEid, utility, maxDouble, newUtility, victim);
    }
  }

  ghost predicate AllLocal(store: Store, localEid: string) {
    forall k :: k in store ==> !Foreign(localEid, store[k])
  }

  /** With utilities below the largest double: a local bundle is evicted exactly when every stored bundle
      and the newcomer are local. */
  lemma LocalEvictedIff(store: Store, localEid: string, utility: Key -> real, maxDouble: real, victim: Key,
                        smallest: real, b: Bundle, newUtility: real)
    requires Smallest(store, localEid, utility, maxDouble, victim, smallest)
    requires newUtility < maxDouble && forall k :: k in store ==> utility(k) < maxDouble
    ensures
      Replaces(localEid, b, newUtility, smallest) && !Foreign(localEid, store[victim])
      <==> AllLocal(store, localEid) && Local(localEid, b.sourceUri)
  {
  }

  // -------- the two policies --------

  /** What a bundle is worth: by its effect on the delivery rate and on the delivery delay. */
  datatype Worth = Worth(rate: real, delay: real)

  datatype Policy = DeliveryRate | DeliveryDelay

  function RateOf(worth: Key -> Worth): Key -> real { k => worth(k).rate }

  function DelayOf(worth: Key -> Worth): Key -> real { k => worth(k).delay }

  function Under(policy: Policy, w: Worth): real { if policy.DeliveryRate? then w.rate else w.delay }

  /** A foreign bundle that no other one is worth less than. */
  ghost predicate LeastForeign(store: Store, localEid: string, utility: Key -> real, k: Key) {
    && k in store && Foreign(localEid, store[k])
    && forall j :: j in store && Foreign(localEid, store[j]) ==> utility(k) <= utility(j)
  }

  /** The first one of those. */
  ghost predicate FirstLeast(store: Store, localEid: string, utility: Key -> real, k: Key) {
    && LeastForeign(store, localEid, utility, k)
    && forall j :: LeastForeign(store, localEid, utility, j) && j != k ==> Before(k, j)
  }

  lemma VictimIff(store: Store, localEid: string, utility: Key -> real, maxDouble: real, victim: Key)
    requires !AllLocal(store, localEid) && forall k :: k in store ==> utility(k) < maxDouble
    ensures (exists smallest :: Smallest(store, localEid, utility, maxDouble, victim, smallest))
            <==> FirstLeast(store, localEid, utility, victim)
  {
    hide Before;
    if FirstLeast(store, localEid, utility, victim) {
      forall k | k in store && Foreign(localEid, store[k]) && utility(k) == utility(victim) && k != victim
        ensures Before(victim, k)
      {
        assert LeastForeign(store, localEid, utility, k);
      }
      assert Smallest(store, localEid, utility, maxDouble, victim, utility(victim));
    }
  }

  /** Under both policies the victim is the first of the foreign bundles of least delay. So the policy for the
      delivery rate evicts a bundle of least rate exactly when this one is of least rate. */
  lemma RatePolicyIff(store: Store, localEid: string, worth: Key -> Worth, maxDouble: real, victim: Key,
                      smallest: real)
    requires !AllLocal(store, localEid) && forall k :: k in store ==> worth(k).delay < maxDouble
    requires Smallest(store, localEid, DelayOf(worth), maxDouble, victim, smallest)
    ensures
      LeastForeign(store, localEid, RateOf(worth), victim)
      <==> exists k :: && FirstLeast(store, localEid, DelayOf(worth), k)
                       && forall j :: j in store && Foreign(localEid, store[j]) ==> worth(k).rate <= worth(j).rate
  {
    hide Smallest, Compare;
    VictimIff(store, localEid, DelayOf(worth), maxDouble, victim);
    forall k | FirstLeast(store, localEid, DelayOf(worth), k) ensures k == victim {
      CompareIsOrder(k, victim);
    }
  }

  /** Two foreign bundles, one of which is worth more for the rate and less for the delay. */
  function TwoBundles(): Store {
    map["x" := Bundle("1", "x", "dtn://a/", "dtn://b/"), "y" := Bundle("2", "y", "dtn://a/", "dtn://b/")]
  }

  function TwoWorths(): Key -> Worth {
    k => if k == "x" then Worth(2.0, 1.0) else Worth(1.0, 2.0)
  }

  /** The policy for the delivery rate evicts the one that is worth more for the rate. */
  lemma RatePolicyEvictsTheBetter(maxDouble: real)
    requires maxDouble > 2.0
    ensures LeastForeign(TwoBundles(), "dtn://me", RateOf(TwoWorths()), "y")
    ensures forall victim, smallest ::
              Smallest(TwoBundles(), "dtn://me", DelayOf(TwoWorths()), maxDouble, victim, smallest) ==>
                victim == "x" && !LeastForeign(TwoBundles(), "dtn://me", RateOf(TwoWorths()), victim)
    ensures Smallest(TwoBundles(), "dtn://me", DelayOf(TwoWorths()), maxDouble, "x", 1.0)
  {
    var store := TwoBundles();
    assert forall k :: k in store ==> store[k].sourceUri == "dtn://a/";
    assert "dtn://me" + "/" == "dtn://me/" && "dtn://me/"[6] != "dtn://a/"[6];
    assert forall k :: k in store ==> Foreign("dtn://me", store[k]);
    assert "x" in store && "y" in store;
  }

  /** And it compares the rate of a newcomer with delays: with the two bundles stored, a foreign newcomer whose
      delay is below both of theirs is taken for its rate, and is refused by the other policy. */
  lemma RateAgainstDelays(maxDouble: real, b: Bundle)
    requires maxDouble > 2.0 && b.sourceUri == "dtn://a/"
    ensures Takes(TwoBundles(), "dtn://me", DelayOf(TwoWorths()), maxDouble, b, Under(DeliveryRate, Worth(1.5, 0.5)))
    ensures !Takes(TwoBundles(), "dtn://me", DelayOf(TwoWorths()), maxDouble, b, Under(DeliveryDelay, Worth(1.5, 0.5)))
  {
    var store := TwoBundles();
    assert "dtn://me" + "/" == "dtn://me/" && "dtn://me/"[6] != "dtn://a/"[6];
    LocalIff("dtn://me", b.sourceUri);
    assert "x" in store && Foreign("dtn://me", store["x"]);
    assert NoBetter(store, "dtn://me", DelayOf(TwoWorths()), maxDouble, 1.5, "x");
  }

  lemma Bigger<K, V>(m: map<K, V>, k: K, v: V)
    requires k !in m
    ensures |m[k := v]| == |m| + 1
  {
    assert m[k := v].Keys == m.Keys + {k} && |m[k := v]| == |m[k := v].Keys| && |m| == |m.Keys|;
  }

  lemma Smaller<K, V>(m: map<K, V>, k: K)
    requires k in m
    ensures |m - {k}| == |m| - 1
  {
    assert (m - {k}).Keys == m.Keys - {k} && |m - {k}| == |(m - {k}).Keys| && |m| == |m.Keys|;
  }

  lemma NonEmpty<K, V>(m: map<K, V>)
    requires |m| > 0
    ensures m.Keys != {}
  {
    assert |m.Keys| == |m|;
  }

  lemma AddOneToOne(ids: Ids, store: Store, b: Bundle)
    requires OneToOne(ids, store) && b.localId !in ids && b.key !in store
    ensures OneToOne(ids[b.localId := b.key], store[b.key := b])
  {
  }

  lemma RemoveOneToOne(ids: Ids, store: Store, k: Key)
    requires OneToOne(ids, store) && k in store
    ensures OneToOne(ids - {store[k].localId}, store - {k})
  {
  }

  /** The maps of a store, and what DTN2 was asked to delete. */
  datatype State = State(ids: Ids, store: Store, requests: seq<LocalId>)

  /** A full store takes the newcomer in place of the victim, or leaves everything as it is; DTN2 is asked to
      delete the other one. */
  ghost predicate Evicted(s: State, t: State, localEid: string, b: Bundle, newUtility: real, victim: Key,
                          smallest: real, added: bool)
    requires victim in s.store
  {
    var v := s.store[victim];
    && (added <==> Replaces(localEid, b, newUtility, smallest))
    && t == if added then State(s.ids[b.localId := b.key] - {v.localId}, s.store[b.key := b] - {victim},
                                s.requests + [v.localId])
            else State(s.ids, s.store, s.requests + [b.localId])
  }

  /** Stuck: the thread waits for a lock that it holds itself. */
  datatype Outcome = Added | Refused | Stuck

  /** What adding a bundle does: nothing for a known local id; with a full store an eviction, or without
      optimisation the deletion of the newcomer, which takes the lock of the store a second time. */
  ghost predicate AddedIfNew(s: State, t: State, capacity: nat, localEid: string, maxDouble: real, b: Bundle,
                             optimize: bool, utility: Key -> real, newUtility: real, outcome: Outcome)
  {
    if b.localId in s.ids then outcome == Refused && t == s
    else if |s.store| < capacity then
      outcome == Added && t == State(s.ids[b.localId := b.key], s.store[b.key := b], s.requests)
    else if !optimize then outcome == Stuck && t == s
    else
      && outcome != Stuck
      && exists victim, smallest ::
           && victim in s.store && Smallest(s.store, localEid, utility, maxDouble, victim, smallest)
           && Evicted(s, t, localEid, b, newUtility, victim, smallest, outcome == Added)
  }

  /** There is room, or optimisation makes some. */
  ghost predicate FindsRoom(s: State, capacity: nat, localEid: string, maxDouble: real, b: Bundle, optimize: bool,
                            utility: Key -> real, newUtility: real)
  {
    |s.store| < capacity || (optimize && Takes(s.store, localEid, utility, maxDouble, b, newUtility))
  }

  lemma AddedIff(s: State, t: State, capacity: nat, localEid: string, maxDouble: real, b: Bundle, optimize: bool,
                 utility: Key -> real, newUtility: real, outcome: Outcome)
    requires AddedIfNew(s, t, capacity, localEid, maxDouble, b, optimize, utility, newUtility, outcome)
    ensures outcome == Added
            <==> b.localId !in s.ids && FindsRoom(s, capacity, localEid, maxDouble, b, optimize, utility, newUtility)
    ensures outcome == Stuck <==> b.localId !in s.ids && |s.store| >= capacity && !optimize
  {
    hide Smallest, Takes, Replaces;
    if b.localId !in s.ids && |s.store| >= capacity && optimize {
      var victim, smallest :| && victim in s.store
                              && Smallest(s.store, localEid, utility, maxDouble, victim, smallest)
                              && Evicted(s, t, localEid, b, newUtility, victim, smallest, outcome == Added);
      TakesIff(s.store, localEid, utility, maxDouble, victim, smallest, b, newUtility);
    }
  }

  /** Of the stored bundles and the newcomer, those that DTN2 is asked to delete are the ones that are not
      stored afterwards. */
  ghost predicate Accounted(s: State, t: State, b: Bundle, added: bool) {
    && s.requests <= t.requests
    && var gone := t.requests[|s.requests|..];
       && (forall l :: l in t.ids <==> (l in s.ids || l == b.localId) && l !in gone)
       && (forall l :: l in gone ==> l in s.ids || l == b.localId)
       && (b.localId in gone <==> !added)
       && (forall k :: k in t.store ==> k == b.key || k in s.store)
       && (forall k :: k in t.store ==> t.store[k] == if k == b.key then b else s.store[k])
       && (b.key in t.store <==> added)
  }

  /** There is at most one of them, none if there was room. */
  lemma NothingIsLost(s: State, t: State, capacity: nat, localEid: string, maxDouble: real, b: Bundle, optimize: bool,
                      utility: Key -> real, newUtility: real, outcome: Outcome)
    requires AddedIfNew(s, t, capacity, localEid, maxDouble, b, optimize, utility, newUtility, outcome)
    requires OneToOne(s.ids, s.store) && b.localId !in s.ids && b.key !in s.store && outcome != Stuck
    ensures Accounted(s, t, b, outcome == Added)
    ensures |t.requests| - |s.requests| == if |s.store| < capacity then 0 else 1
  {
    hide Smallest, OneToOne, Evicted, Accounted;
    if |s.store| < capacity {
      NoneIsLost(s, t, b);
    } else {
      var victim, smallest :| && victim in s.store
                              && Smallest(s.store, localEid, utility, maxDouble, victim, smallest)
                              && Evicted(s, t, localEid, b, newUtility, victim, smallest, outcome == Added);
      OneIsLost(s, t, localEid, b, newUtility, victim, smallest, outcome == Added);
    }
  }

  lemma NoneIsLost(s: State, t: State, b: Bundle)
    requires t == State(s.ids[b.localId := b.key], s.store[b.key := b], s.requests)
    ensures Accounted(s, t, b, true)
  {
    assert t.requests[|s.requests|..] == [];
  }

  lemma OneIsLost(s: State, t: State, localEid: string, b: Bundle, newUtility: real, victim: Key, smallest: real,
                  added: bool)
    requires victim in s.store && Evicted(s, t, localEid, b, newUtility, victim, smallest, added)
    requires OneToOne(s.ids, s.store) && b.localId !in s.ids && b.key !in s.store
    ensures Accounted(s, t, b, added) && |t.requests| - |s.requests| == 1
  {
    var gone := if added then s.store[victim].localId else b.localId;
    assert t.requests[|s.requests|..] == [gone];
  }

  class BundleStore {
    const maxBufferCapacity: nat
    const localEid: string
    const maxDouble: real  // the largest double
    var localidGBOFMap: Ids
    var activeBundles: Store
    var deleteRequests: seq<LocalId>

    function Contents(): State
      reads this
    {
      State(localidGBOFMap, activeBundles, deleteRequests)
    }

    ghost predicate Valid()
      reads this
    {
      OneToOne(localidGBOFMap, activeBundles) && |activeBundles| <= maxBufferCapacity && maxBufferCapacity > 0
    }

    constructor (maxBufferCapacity: nat, localEid: string, maxDouble: real)
      requires maxBufferCapacity > 0
      ensures Valid() && activeBundles == map[] && this.maxBufferCapacity == maxBufferCapacity
      ensures this.localEid == localEid && this.maxDouble == maxDouble && deleteRequests == []
    {
      this.maxBufferCapacity, this.localEid, this.maxDouble := maxBufferCapacity, localEid, maxDouble;
      localidGBOFMap, activeBundles, deleteRequests := map[], map[], [];
    }

    /** The scan over all stored bundles, in the order of their keys. */
    method SmallestUtility(utility: Key -> real) returns (victim: Key, smallest: real)
      requires Valid() && activeBundles != map[]
      ensures Smallest(activeBundles, localEid, utility, maxDouble, victim, smallest)
    {
      hide Compare, OneToOne;
      var rest := activeBundles.Keys;
      victim := First(rest);
      smallest := maxDouble;
      while rest != {}
        invariant rest <= activeBundles.Keys && victim in activeBundles
        invariant forall j, k :: j in activeBundles && j !in rest && k in rest ==> Before(j, k)
        invariant forall k :: k in activeBundles && k !in rest && Foreign(localEid, activeBundles[k]) ==>
                    smallest <= utility(k) || maxDouble <= utility(k)
        invariant if smallest < maxDouble then
                    && Foreign(localEid, activeBundles[victim]) && utility(victim) == smallest && victim !in rest
                    && forall k :: k in activeBundles && k !in rest && k != victim ==>
                         Foreign(localEid, activeBundles[k]) && utility(k) == smallest ==> Before(victim, k)
                  else smallest == maxDouble && IsFirst(activeBundles.Keys, victim)
        decreases rest
      {
        var k := First(rest);
        var current := utility(k);
        if current < smallest && !Local(localEid, activeBundles[k].sourceUri) {
          smallest, victim := current, k;
        }
        rest := rest - {k};
      }
    }

    /** Forgets a stored bundle. */
    method Remove(b: Bundle)
      requires OneToOne(localidGBOFMap, activeBundles) && b.key in activeBundles && activeBundles[b.key] == b
      modifies this`localidGBOFMap, this`activeBundles
      ensures OneToOne(localidGBOFMap, activeBundles) && activeBundles == old(activeBundles) - {b.key}
      ensures localidGBOFMap == old(localidGBOFMap) - {b.localId}
      ensures |activeBundles| == old(|activeBundles|) - 1
    {
      Smaller(activeBundles, b.key);
      RemoveOneToOne(localidGBOFMap, activeBundles, b.key);
      var gbof := localidGBOFMap[b.localId];
      localidGBOFMap := localidGBOFMap - {b.localId};
      activeBundles := activeBundles - {gbof};
    }

    method DeleteBundle(b: Bundle)
      requires OneToOne(localidGBOFMap, activeBundles) && b.key in activeBundles && activeBundles[b.key] == b
      modifies this
      ensures OneToOne(localidGBOFMap, activeBundles) && |activeBundles| == old(|activeBundles|) - 1
      ensures
        Contents() == State(old(localidGBOFMap) - {b.localId}, old(activeBundles) - {b.key},
                            old(deleteRequests) + [b.localId])
    {
      Remove(b);
      deleteRequests := deleteRequests + [b.localId];
    }

    /** Forgets an expired bundle, which may be one that was never stored. */
    method Expire(localId: LocalId) returns (b: Option<Bundle>)
      requires Valid()
      modifies this`localidGBOFMap, this`activeBundles
      ensures Valid()
      ensures localId !in old(localidGBOFMap) ==>
                b == None && activeBundles == old(activeBundles) && localidGBOFMap == old(localidGBOFMap)
      ensures localId in old(localidGBOFMap) ==>
                && b.Some? && b.value.localId == localId && b.value.key in old(activeBundles)
                && b.value == old(activeBundles)[b.value.key]
                && activeBundles == old(activeBundles) - {b.value.key}
                && localidGBOFMap == old(localidGBOFMap) - {localId}
    {
      if localId !in localidGBOFMap { return None; }
      var key := localidGBOFMap[localId];
      Smaller(activeBundles, key);
      localidGBOFMap := localidGBOFMap - {localId};
      b := Some(activeBundles[key]);
      activeBundles := activeBundles - {key};
    }

    /** Either policy of a full buffer. They differ in the utility of the newcomer, which is looked up without its
        key; the stored bundles are scanned with the delay in both. */
    method HbsdAdd(b: Bundle, policy: Policy, worth: Key -> Worth, newWorth: Worth)
      returns (added: bool, victim: Key, smallest: real)
      requires Valid() && b.localId !in localidGBOFMap && b.key !in activeBundles
      requires |activeBundles| == maxBufferCapacity
      modifies this
      ensures Valid() && |activeBundles| == old(|activeBundles|) && victim in old(activeBundles)
      ensures Smallest(old(activeBundles), localEid, DelayOf(worth), maxDouble, victim, smallest)
      ensures Evicted(old(Contents()), Contents(), localEid, b, Under(policy, newWorth), victim, smallest, added)
      ensures added <==> Takes(old(activeBundles), localEid, DelayOf(worth), maxDouble, b, Under(policy, newWorth))
    {
      NonEmpty(activeBundles);
      victim, smallest := SmallestUtility(DelayOf(worth));
      TakesIff(activeBundles, localEid, DelayOf(worth), maxDouble, victim, smallest, b, Under(policy, newWorth));
      hide OneToOne, Smallest, Takes;
      var newUtility := if policy.DeliveryRate? then newWorth.rate else newWorth.delay;
      if smallest <= newUtility || Local(localEid, b.sourceUri) {
        Bigger(activeBundles, b.key, b);
        AddOneToOne(localidGBOFMap, activeBundles, b);
        var v := activeBundles[victim];
        KeyOf(localidGBOFMap, activeBundles, victim);
        localidGBOFMap := localidGBOFMap[b.localId := b.key];
        activeBundles := activeBundles[b.key := b];
        // the store is over its bound only until the victim is gone
        DeleteBundle(v);
        return true, victim, smallest;
      } else {
        deleteRequests := deleteRequests + [b.localId];
        return false, victim, smallest;
      }
    }

    method AddIfNew(b: Bundle, optimize: bool, policy: Policy, worth: Key -> Worth, newWorth: Worth)
      returns (outcome: Outcome)
      requires Valid() && (b.key in activeBundles ==> b.localId in localidGBOFMap)
      modifies this
      ensures Valid()
      ensures AddedIfNew(old(Contents()), Contents(), maxBufferCapacity, localEid, maxDouble, b, optimize,
                         DelayOf(worth), Under(policy, newWorth), outcome)
      ensures
        outcome == Added
        <==> b.localId !in old(localidGBOFMap)
             && FindsRoom(old(Contents()), maxBufferCapacity, localEid, maxDouble, b, optimize, DelayOf(worth),
                          Under(policy, newWorth))
    {
      hide Takes, OneToOne, Smallest, Evicted;
      if b.localId in localidGBOFMap { return Refused; }
      if |activeBundles| < maxBufferCapacity {
        Bigger(activeBundles, b.key, b);
        AddOneToOne(localidGBOFMap, activeBundles, b);
        localidGBOFMap := localidGBOFMap[b.localId := b.key];
        activeBundles := activeBundles[b.key := b];
        return Added;
      }
      if !optimize { return Stuck; }
      var added, victim, smallest := HbsdAdd(b, policy, worth, newWorth);
      return if added then Added else Refused;
    }

    /** A bundle arrives: one that is stored already or is for an application here is not stored. */
    method NewBundle(b: Bundle, optimize: bool, policy: Policy, worth: Key -> Worth, newWorth: Worth)
      returns (outcome: Outcome)
      requires Valid()
      modifies this
      ensures Valid()
      ensures if b.key in old(activeBundles) || Local(localEid, b.destUri) then
                outcome == Refused && Contents() == old(Contents())
              else AddedIfNew(old(Contents()), Contents(), maxBufferCapacity, localEid, maxDouble, b, optimize,
                              DelayOf(worth), Under(policy, newWorth), outcome)
      ensures
        outcome == Added
        <==> && b.key !in old(activeBundles) && !Local(localEid, b.destUri) && b.localId !in old(localidGBOFMap)
             && FindsRoom(old(Contents()), maxBufferCapacity, localEid, maxDouble, b, optimize, DelayOf(worth),
                          Under(policy, newWorth))
    {
      hide FindsRoom;
      if b.key in activeBundles { return Refused; }
      if Local(localEid, b.destUri) { return Refused; }
      outcome := AddIfNew(b, optimize, policy, worth, newWorth);
    }
  }

  lemma KeyOf(ids: Ids, store: Store, k: Key)
    requires OneToOne(ids, store) && k in store
    ensures store[k].key == k
  {
  }

  /** Without the check for known keys, adding keeps the maps one to one exactly when the key is new:
      a second local id would share the bundle of the first. */
  lemma AddKeepsOneToOneIff(ids: Ids, store: Store, b: Bundle)
    requires OneToOne(ids, store) && b.localId !in ids
    ensures OneToOne(ids[b.localId := b.key], store[b.key := b]) <==> b.key !in store
  {
    if b.key in store {
      var other := store[b.key].localId;
      assert ids[b.localId := b.key][other] == b.key;
    }
  }
}
