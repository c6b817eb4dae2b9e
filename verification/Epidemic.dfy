/** An epidemic session: when a link opens, one of the two nodes sends its summary vector, the other answers
    with the bundles it lacks and perhaps with its own vector. */
module Epidemic {
  import opened Collections
  import opened Text

  type Key = string

  // -------- who starts --------

  predicate Initiates(localEid: string, remoteEid: string) { Compare(remoteEid, localEid) > 0 }

  /** Of two nodes on a link exactly one starts the session, if and only if their ids differ: the one whose id
      ends first or has the smaller character where the two first differ. */
  lemma ExactlyOneInitiates(a: string, b: string)
    ensures !(Initiates(a, b) && Initiates(b, a))
    ensures Initiates(a, b) || Initiates(b, a) <==> a != b
    ensures Initiates(a, b) <==> exists k: nat :: SmallerAt(a, b, k)
  {
    CompareIsOrder(a, b);
    CompareIff(a, b);
  }

  // -------- comparing a vector with the store --------

  ghost predicate InOrderOf(xs: seq<Key>, ys: seq<Key>) {
    forall i, j, m, n | 0 <= i < j < |xs| && 0 <= m < |ys| && 0 <= n < |ys| ::
      xs[i] == ys[m] && xs[j] == ys[n] ==> m < n
  }

  /** compareAndSend: what to send, in the order of the store, and whether to answer with the own vector.
      The stored keys come in the order of the map. */
  method CompareAndSend(stored: seq<Key>, remote: seq<Key>, sendBack: bool)
    returns (toSend: seq<Key>, answer: bool)
    requires forall i, j :: 0 <= i < j < |stored| ==> stored[i] != stored[j]
    ensures forall k :: k in toSend <==> k in stored && k !in remote
    ensures forall i, j :: 0 <= i < j < |toSend| ==> toSend[i] != toSend[j]
    ensures InOrderOf(toSend, stored)
    ensures answer <==> sendBack && exists k :: k in remote && k !in stored
  {
    toSend := [];
    var n := 0;
    while n < |stored|
      invariant 0 <= n <= |stored|
      invariant forall k :: k in toSend <==> k in stored[..n] && k !in remote
      invariant forall i, j :: 0 <= i < j < |toSend| ==> toSend[i] != toSend[j]
      invariant InOrderOf(toSend, stored)
    {
      var send := true;
      var r := 0;
      while r < |remote|
        invariant 0 <= r <= |remote| && send && stored[n] !in remote[..r]
      {
        if stored[n] == remote[r] {
          send := false;
          break;
        }
        r := r + 1;
      }
      assert stored[n] !in stored[..n] && stored[..n + 1] == stored[..n] + [stored[n]];
      if send {
        forall i | 0 <= i < |toSend|
          ensures toSend[i] != stored[n]
          ensures forall m :: 0 <= m < |stored| && stored[m] == toSend[i] ==> m < n
        {
          assert toSend[i] in toSend;
          var m :| 0 <= m < n && stored[m] == toSend[i];
        }
        toSend := toSend + [stored[n]];
      }
      n := n + 1;
    }
    if !sendBack { return toSend, false; }
    var identical := true;
    if remote != [] && stored != [] {
      var r := 0;
      while r < |remote|
        invariant 0 <= r <= |remote| && identical && forall k :: k in remote[..r] ==> k in stored
      {
        if remote[r] !in stored {
          identical := false;
          break;
        }
        r := r + 1;
      }
    } else if remote != [] && stored == [] {
      assert remote[0] in remote;
      identical := false;
    }
    answer := !identical;
  }

  // -------- a session, step by step --------

  /** The stores of the two nodes, the vectors on their way, and the bundles on their way. Everything on its
      way may be overtaken. */
  datatype Session = Session(initiator: set<Key>, responder: set<Key>, sv1: Option<set<Key>>,
                             sv2: Option<set<Key>>, toInitiator: set<Key>, toResponder: set<Key>,
                             sent: nat, answered: bool)

  datatype Step =
    | DeliverSv1
    | DeliverSv2
    | BundleToInitiator(key: Key)
    | BundleToResponder(key: Key)

  function Opened(a: set<Key>, b: set<Key>): Session {
    Session(a, b, Some(a), None, {}, {}, 0, false)
  }

  /** The two nodes: how many bundles they can hold, and which bundles are for an application of theirs. */
  datatype Nodes = Nodes(initiatorRoom: nat, responderRoom: nat, forInitiator: set<Key>, forResponder: set<Key>)

  /** A node with room that gets a bundle stores it, unless it has the bundle or the bundle is for itself. */
  function Stored(store: set<Key>, own: set<Key>, k: Key): (after: set<Key>)
    ensures after - store == (if k in own then {} else {k} - store) && store <= after
  {
    if k in store || k in own then store else store + {k}
  }

  ghost predicate HasRoom(store: set<Key>, room: nat, own: set<Key>, k: Key) {
    k in store || k in own || |store| < room
  }

  ghost predicate Enabled(s: Session, n: Nodes, step: Step) {
    match step
    case DeliverSv1 => s.sv1.Some?
    case DeliverSv2 => s.sv2.Some?
    case BundleToInitiator(k) => k in s.toInitiator && HasRoom(s.initiator, n.initiatorRoom, n.forInitiator, k)
    case BundleToResponder(k) => k in s.toResponder && HasRoom(s.responder, n.responderRoom, n.forResponder, k)
  }

  ghost function Next(s: Session, n: Nodes, step: Step): Session
    requires Enabled(s, n, step)
  {
    match step
    case DeliverSv1 =>
      var bundles := s.responder - s.sv1.value;
      var answer := s.sv1.value - s.responder != {};
      s.(sv1 := None, toInitiator := s.toInitiator + bundles, sent := s.sent + |bundles|,
         sv2 := if answer then Some(s.responder) else s.sv2, answered := answer)
    case DeliverSv2 =>
      var bundles := s.initiator - s.sv2.value;
      s.(sv2 := None, toResponder := s.toResponder + bundles, sent := s.sent + |bundles|)
    case BundleToInitiator(k) =>
      s.(toInitiator := s.toInitiator - {k}, initiator := Stored(s.initiator, n.forInitiator, k))
    case BundleToResponder(k) =>
      s.(toResponder := s.toResponder - {k}, responder := Stored(s.responder, n.forResponder, k))
  }

  ghost predicate Reaches(s: Session, n: Nodes, steps: seq<Step>, e: Session)
    decreases |steps|
  {
    if steps == [] then s == e else Enabled(s, n, steps[0]) && Reaches(Next(s, n, steps[0]), n, steps[1..], e)
  }

  /** Room for everything. */
  ghost predicate Roomy(n: Nodes, a: set<Key>, b: set<Key>) {
    |a + b| <= n.initiatorRoom && |a + b| <= n.responderRoom
  }

  /** A node that had some keys at first has been sent others, of which some are still on their way. */
  ghost predicate Receives(store: set<Key>, onWay: set<Key>, own: set<Key>, first: set<Key>, others: set<Key>) {
    onWay <= others - first && store == first + (others - onWay - own)
  }

  ghost predicate Inv(s: Session, n: Nodes, a: set<Key>, b: set<Key>) {
    if s.sv1.Some? then s == Opened(a, b)
    else
      && Receives(s.initiator, s.toInitiator, n.forInitiator, a, b) && (s.answered <==> !(a <= b))
      && if s.sv2.Some? then
           s.sv2.value == s.responder == b && s.toResponder == {} && !(a <= b) && s.sent == |b - a|
         else
           Receives(s.responder, s.toResponder, n.forResponder, b, a) && s.sent == |b - a| + |a - b|
  }

  lemma Sv1Keeps(s: Session, n: Nodes, a: set<Key>, b: set<Key>)
    requires Inv(s, n, a, b) && s.sv1.Some?
    ensures Inv(Next(s, n, DeliverSv1), n, a, b)
  {
    assert s == Opened(a, b);
    assert a + (b - (b - a) - n.forInitiator) == a;
    if a <= b {
      assert a - b == {} && b + (a - n.forResponder) == b;
    } else {
      var k :| k in a && k !in b;
      assert k in a - b;
    }
  }

  lemma Sv2Keeps(s: Session, n: Nodes, a: set<Key>, b: set<Key>)
    requires Inv(s, n, a, b) && s.sv1.None? && s.sv2.Some?
    ensures Inv(Next(s, n, DeliverSv2), n, a, b)
  {
    assert s.initiator - b == a - b;
    assert b + (a - (a - b) - n.forResponder) == b;
  }

  lemma ArrivalKeeps(store: set<Key>, onWay: set<Key>, own: set<Key>, first: set<Key>, others: set<Key>, k: Key)
    requires Receives(store, onWay, own, first, others) && k in onWay
    ensures Receives(Stored(store, own, k), onWay - {k}, own, first, others)
  {
  }

  lemma StepKeeps(s: Session, n: Nodes, step: Step, a: set<Key>, b: set<Key>)
    requires Inv(s, n, a, b) && Enabled(s, n, step)
    ensures Inv(Next(s, n, step), n, a, b)
  {
    hide Receives, Stored;
    match step
    case DeliverSv1 => Sv1Keeps(s, n, a, b);
    case DeliverSv2 => Sv2Keeps(s, n, a, b);
    case BundleToInitiator(k) => ArrivalKeeps(s.initiator, s.toInitiator, n.forInitiator, a, b, k);
    case BundleToResponder(k) => ArrivalKeeps(s.responder, s.toResponder, n.forResponder, b, a, k);
  }

  lemma {:induction false} RunKeeps(s: Session, n: Nodes, steps: seq<Step>, e: Session, a: set<Key>, b: set<Key>)
    requires Inv(s, n, a, b) && Reaches(s, n, steps, e)
    ensures Inv(e, n, a, b)
    decreases |steps|
  {
    hide Inv, Enabled, Next;
    if steps != [] {
      StepKeeps(s, n, steps[0], a, b);
      RunKeeps(Next(s, n, steps[0]), n, steps[1..], e, a, b);
    }
  }

  predicate Completed(s: Session) {
    s.sv1.None? && s.sv2.None? && s.toInitiator == {} && s.toResponder == {}
  }

  /** In whatever order vectors and bundles arrive: a completed session leaves each node with what it had and
      what the other one had, but for the bundles that are for itself. Each bundle was sent to the node that
      lacked it and to no other, and the second vector was sent if and only if the first one had a key the
      responder did not know. */
  lemma SessionUnites(n: Nodes, a: set<Key>, b: set<Key>, steps: seq<Step>, e: Session)
    requires Reaches(Opened(a, b), n, steps, e) && Completed(e)
    ensures e.initiator == a + (b - n.forInitiator) && e.responder == b + (a - n.forResponder)
    ensures n.forInitiator !! b && n.forResponder !! a ==> e.initiator == e.responder == a + b
    ensures e.sent == |b - a| + |a - b|
    ensures e.answered <==> exists k :: k in a && k !in b
  {
    RunKeeps(Opened(a, b), n, steps, e, a, b);
  }

  /** At every moment of the session no bundle is on its way to a node that holds it. */
  lemma NoBundleToAHolder(n: Nodes, a: set<Key>, b: set<Key>, steps: seq<Step>, e: Session)
    requires Reaches(Opened(a, b), n, steps, e)
    ensures e.toInitiator !! e.initiator && e.toResponder !! e.responder
  {
    RunKeeps(Opened(a, b), n, steps, e, a, b);
  }

  /** No node ever holds more than it has room for. */
  lemma {:induction false} RoomIsKept(s: Session, n: Nodes, steps: seq<Step>, e: Session)
    requires Reaches(s, n, steps, e) && |s.initiator| <= n.initiatorRoom && |s.responder| <= n.responderRoom
    ensures |e.initiator| <= n.initiatorRoom && |e.responder| <= n.responderRoom
    decreases |steps|
  {
    if steps != [] { RoomIsKept(Next(s, n, steps[0]), n, steps[1..], e); }
  }

  /** What a session still has to do. */
  ghost function Left(s: Session, a: set<Key>, b: set<Key>): nat {
    (if s.sv1.Some? then 2 + |b - a| + |a - b| else 0) + (if s.sv2.Some? then 1 + |a - b| else 0)
    + |s.toInitiator| + |s.toResponder|
  }

  /** With room, a session that is not completed can go on, and each step leaves less to do: every session completes. */
  lemma SessionGoesOn(n: Nodes, a: set<Key>, b: set<Key>, steps: seq<Step>, e: Session)
    requires Roomy(n, a, b) && Reaches(Opened(a, b), n, steps, e) && !Completed(e)
    ensures exists step :: Enabled(e, n, step)
  {
    RunKeeps(Opened(a, b), n, steps, e, a, b);
    hide Reaches;
    if e.sv1.Some? {
      assert Enabled(e, n, DeliverSv1);
    } else if e.sv2.Some? {
      assert Enabled(e, n, DeliverSv2);
    } else if e.toInitiator != {} {
      var k :| k in e.toInitiator;
      SmallerStore(e.initiator, a + b, k);
      assert Enabled(e, n, BundleToInitiator(k));
    } else {
      var k :| k in e.toResponder;
      SmallerStore(e.responder, a + b, k);
      assert Enabled(e, n, BundleToResponder(k));
    }
  }

  lemma SmallerStore(x: set<Key>, y: set<Key>, k: Key)
    requires x <= y && k in y && k !in x
    ensures |x| < |y|
  {
    SubsetSize(x + {k}, y);
  }

  lemma StepLeavesLess(n: Nodes, a: set<Key>, b: set<Key>, s: Session, step: Step)
    requires Inv(s, n, a, b) && Enabled(s, n, step)
    ensures Left(Next(s, n, step), a, b) < Left(s, a, b)
  {
    match step
    case DeliverSv1 =>
    case DeliverSv2 => assert s.initiator - b == a - b;
    case BundleToInitiator(k) =>
    case BundleToResponder(k) =>
  }
}
