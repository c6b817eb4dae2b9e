/** Sending a list of bundles by utility: a sorted map from utilities to keys is filled and then run through
    from its end. Delivery rate and delivery delay differ only in the utility. */
module Scheduling {

  type Key = string

  /** std::map::insert leaves an entry that is there. */
  function Insert(m: map<real, Key>, u: real, k: Key): map<real, Key> {
    if u in m then m else m[u := k]
  }

  /** The first key of the list with this utility. */
  ghost predicate FirstWith(list: seq<Key>, utility: Key -> real, u: real, k: Key) {
    exists i :: 0 <= i < |list| && list[i] == k && utility(k) == u
                && forall j :: 0 <= j < i ==> utility(list[j]) != u
  }

  lemma Any<T>(s: set<T>) returns (x: T)
    requires s != {}
    ensures x in s
  {
    x :| x in s;
  }

  lemma {:induction false} Largest(s: set<real>) returns (u: real)
    requires s != {}
    ensures u in s && forall v :: v in s ==> v <= u
    decreases s
  {
    var x := Any(s);
    if s == {x} {
      u := x;
    } else {
      var y := Largest(s - {x});
      u := if y > x then y else x;
      forall v | v in s ensures v <= u { assert v == x || v in s - {x}; }
    }
  }

  method FillMap(list: seq<Key>, utility: Key -> real) returns (m: map<real, Key>)
    ensures forall u :: u in m <==> exists k :: k in list && utility(k) == u
    ensures forall u :: u in m ==> FirstWith(list, utility, u, m[u])
  {
    m := map[];
    var n := 0;
    while n < |list|
      invariant 0 <= n <= |list|
      invariant forall u :: u in m <==> exists i :: 0 <= i < n && utility(list[i]) == u
      invariant forall u :: u in m ==> FirstWith(list, utility, u, m[u])
    {
      var u := utility(list[n]);
      assert u !in m ==> FirstWith(list, utility, u, list[n]);
      m := Insert(m, u, list[n]);
      n := n + 1;
    }
  }

  ghost predicate StrictlyFalling(sent: seq<Key>, utility: Key -> real) {
    forall i, j :: 0 <= i < j < |sent| ==> utility(sent[i]) > utility(sent[j])
  }

  /** The entries from the last one to the first. */
  method SendSorted(sorted: map<real, Key>, utility: Key -> real) returns (sent: seq<Key>)
    requires forall u :: u in sorted ==> utility(sorted[u]) == u
    ensures StrictlyFalling(sent, utility)
    ensures forall k :: k in sent <==> utility(k) in sorted && sorted[utility(k)] == k
  {
    sent := [];
    var rest := sorted.Keys;
    while rest != {}
      invariant rest <= sorted.Keys
      invariant forall k :: k in sent <==>
                  utility(k) in sorted && utility(k) !in rest && sorted[utility(k)] == k
      invariant forall k, u :: k in sent && u in rest ==> utility(k) > u
      invariant StrictlyFalling(sent, utility)
      decreases rest
    {
      ghost var largest := Largest(rest);
      var u :| u in rest && forall v :: v in rest ==> v <= u;
      FallingMore(sent, utility, sorted[u]);
      sent := sent + [sorted[u]];
      rest := rest - {u};
    }
  }

  lemma FallingMore(sent: seq<Key>, utility: Key -> real, k: Key)
    requires StrictlyFalling(sent, utility) && forall s :: s in sent ==> utility(s) > utility(k)
    ensures StrictlyFalling(sent + [k], utility)
  {
  }

  /** Bundles go out in strictly falling utility; each utility of the list occurs once, with the first bundle
      listed for it. */
  method ScheduleAndSend(list: seq<Key>, utility: Key -> real) returns (sent: seq<Key>)
    ensures StrictlyFalling(sent, utility)
    ensures forall k :: k in sent <==> k in list && FirstWith(list, utility, utility(k), k)
    ensures forall k :: k in list ==> exists s :: s in sent && utility(s) == utility(k)
  {
    hide FirstWith, StrictlyFalling;
    var sorted := FillMap(list, utility);
    forall u, k | FirstWith(list, utility, u, k) ensures utility(k) == u && k in list {
      FirstIsListed(list, utility, u, k);
    }
    sent := SendSorted(sorted, utility);
    forall k | k in list ensures exists s :: s in sent && utility(s) == utility(k) {
      var u := utility(k);
      assert u in sorted;
      assert sorted[u] in sent;
    }
    forall k | k in list && FirstWith(list, utility, utility(k), k) ensures k in sent {
      var u := utility(k);
      assert u in sorted;
      FirstIsOne(list, utility, u, k, sorted[u]);
    }
  }

  lemma FirstIsListed(list: seq<Key>, utility: Key -> real, u: real, k: Key)
    requires FirstWith(list, utility, u, k)
    ensures utility(k) == u && k in list
  {
  }

  lemma FirstIsOne(list: seq<Key>, utility: Key -> real, u: real, k: Key, l: Key)
    requires FirstWith(list, utility, u, k) && FirstWith(list, utility, u, l)
    ensures k == l
  {
    var i :| 0 <= i < |list| && list[i] == k && utility(k) == u && forall j :: 0 <= j < i ==> utility(list[j]) != u;
    var h :| 0 <= h < |list| && list[h] == l && utility(l) == u && forall j :: 0 <= j < h ==> utility(list[j]) != u;
  }

  /** Every listed bundle is sent exactly when no two different ones have the same utility. */
  lemma AllSentIff(list: seq<Key>, utility: Key -> real, sent: seq<Key>)
    requires forall k :: k in sent <==> k in list && FirstWith(list, utility, utility(k), k)
    ensures (forall k :: k in list ==> k in sent)
            <==> forall k, l :: k in list && l in list && utility(k) == utility(l) ==> k == l
  {
    if forall k :: k in list ==> k in sent {
      forall k, l | k in list && l in list && utility(k) == utility(l) ensures k == l {
        FirstIsOne(list, utility, utility(k), k, l);
      }
    }
    if forall k, l :: k in list && l in list && utility(k) == utility(l) ==> k == l {
      forall k | k in list ensures k in sent {
        var i := FirstIndex(list, k);
        forall j | 0 <= j < i ensures utility(list[j]) != utility(k) {
          assert list[j] in list;
        }
        assert FirstWith(list, utility, utility(k), k);
      }
    }
  }

  /** A bundle that goes out for its utility goes out as well, and alone, whatever is listed after it. */
  lemma EarlierWins(list: seq<Key>, more: seq<Key>, utility: Key -> real, u: real, k: Key, l: Key)
    requires FirstWith(list, utility, u, k)
    ensures FirstWith(list + more, utility, u, l) <==> l == k
  {
    var i :| 0 <= i < |list| && list[i] == k && utility(k) == u && forall j :: 0 <= j < i ==> utility(list[j]) != u;
    assert (list + more)[i] == k && forall j :: 0 <= j < i ==> (list + more)[j] == list[j];
    assert FirstWith(list + more, utility, u, k);
    if FirstWith(list + more, utility, u, l) { FirstIsOne(list + more, utility, u, k, l); }
  }

  lemma FirstIndex(list: seq<Key>, k: Key) returns (i: nat)
    requires k in list
    ensures i < |list| && list[i] == k && forall j :: 0 <= j < i ==> list[j] != k
  {
    if list[0] == k { return 0; }
    assert list == [list[0]] + list[1..];
    var h := FirstIndex(list[1..], k);
    i := h + 1;
    forall j | 0 <= j < i ensures list[j] != k {
      if j > 0 { assert list[j] == list[1..][j - 1]; }
    }
  }
}
