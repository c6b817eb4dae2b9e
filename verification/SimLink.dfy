/** A simulated link: bundles are put in flight one at a time, arrive at the peer later and are reported as
    transmitted later still. Three timers drive this. Times are in seconds, as exact reals. */
module SimLink {
  import opened Text

  type Bundle = nat

  datatype Event = Event(bundle: Bundle, time: real)

  ghost function BundlesOf(es: seq<Event>): (bs: seq<Bundle>)
    ensures |bs| == |es| && forall i :: 0 <= i < |es| ==> bs[i] == es[i].bundle
  {
    seq(|es|, i requires 0 <= i < |es| => es[i].bundle)
  }

  /** A timer is pending exactly for the front of its queue. */
  ghost predicate Armed(timer: Option<real>, es: seq<Event>) {
    timer == if es == [] then None else Some(es[0].time)
  }

  /** A timer that is pending is pending for the front. */
  ghost predicate NotWrong(timer: Option<real>, es: seq<Event>) {
    timer.Some? ==> es != [] && timer.value == es[0].time
  }

  /** Everything was handed over at its time or later, in order. */
  ghost predicate InTime(es: seq<Event>, at: seq<real>, clock: real) {
    |es| == |at| && forall i :: 0 <= i < |es| ==> es[i].time <= at[i] <= clock
  }

  lemma InTimeMore(es: seq<Event>, at: seq<real>, clock: real, e: Event)
    requires InTime(es, at, clock) && e.time <= clock
    ensures InTime(es + [e], at + [clock], clock)
  {
  }

  lemma BundlesMore(es: seq<Event>, e: Event)
    ensures BundlesOf(es + [e]) == BundlesOf(es) + [e.bundle]
    ensures BundlesOf([e] + es) == [e.bundle] + BundlesOf(es)
  {
  }

  lemma Shift<T>(a: seq<T>, x: T, b: seq<T>)
    ensures (a + [x]) + b == a + ([x] + b)
  {
  }

  /** A bundle is reported when it leaves the link; on a reliable link it is reported as long after its arrival as
      the way to the peer took. */
  ghost predicate Answer(reliable: bool, left: real, arrival: real, report: real) {
    left <= arrival && if reliable then report - arrival == arrival - left else report == left
  }

  ghost predicate Answered(reliable: bool, lefts: seq<real>, started: seq<Event>, reports: seq<Event>) {
    && |lefts| == |started| == |reports|
    && forall i :: 0 <= i < |started| ==> Answer(reliable, lefts[i], started[i].time, reports[i].time)
  }

  lemma AnsweredMore(reliable: bool, lefts: seq<real>, started: seq<Event>, done: seq<Event>, due: seq<Event>,
                     left: real, e: Event, f: Event)
    requires Answered(reliable, lefts, started, done + due) && Answer(reliable, left, e.time, f.time)
    ensures Answered(reliable, lefts + [left], started + [e], done + (due + [f]))
  {
    assert done + (due + [f]) == (done + due) + [f];
  }

  /** One more bundle is started: the sequences grow together. */
  lemma Starting(queued: seq<Bundle>, queue: seq<Bundle>, started: seq<Event>, delivered: seq<Event>,
                 arrival: seq<Event>, reported: seq<Event>, toReport: seq<Event>, e: Event, f: Event)
    requires queue != [] && queue[0] == e.bundle == f.bundle && queued == BundlesOf(started) + queue
    requires started == delivered + arrival && BundlesOf(started) == BundlesOf(reported) + BundlesOf(toReport)
    ensures queued == BundlesOf(started + [e]) + queue[1..]
    ensures started + [e] == delivered + (arrival + [e])
    ensures BundlesOf(started + [e]) == BundlesOf(reported) + BundlesOf(toReport + [f])
  {
    hide BundlesOf;
    BundlesMore(started, e);
    BundlesMore(toReport, f);
    assert queue == [queue[0]] + queue[1..];
    Shift(BundlesOf(started), e.bundle, queue[1..]);
  }

  class Link {
    const reliable: bool
    var open: bool
    var clock: real
    var queue: seq<Bundle>
    var pendingInflight: Option<Event>
    var arrivalEvents: seq<Event>
    var transmittedEvents: seq<Event>
    var inflightTimer: Option<real>
    var arrivalTimer: Option<real>
    var transmittedTimer: Option<real>
    var delivered: seq<Event>    // posted to the peer
    var transmitted: seq<Event>  // posted to the own daemon

    ghost var queued: seq<Bundle>      // every bundle that was ever queued
    ghost var started: seq<Event>      // every bundle started, with its arrival time
    ghost var lefts: seq<real>         // when each of them leaves the link
    ghost var deliveredAt: seq<real>
    ghost var transmittedAt: seq<real>

    function Pending(): seq<Event>
      reads this`pendingInflight
    {
      if pendingInflight.Some? then [pendingInflight.value] else []
    }

    /** All timers are armed for what comes first. */
    ghost predicate Timers()
      reads this`pendingInflight, this`arrivalEvents, this`transmittedEvents
      reads this`inflightTimer, this`arrivalTimer, this`transmittedTimer
    {
      && Armed(inflightTimer, Pending()) && Armed(arrivalTimer, arrivalEvents)
      && Armed(transmittedTimer, transmittedEvents)
    }

    ghost predicate TimersNotWrong()
      reads this`pendingInflight, this`arrivalEvents, this`transmittedEvents
      reads this`inflightTimer, this`arrivalTimer, this`transmittedTimer
    {
      && NotWrong(inflightTimer, Pending()) && NotWrong(arrivalTimer, arrivalEvents)
      && NotWrong(transmittedTimer, transmittedEvents)
    }

    /** An idle sender has nothing to send; a busy one is sending the front of its queue. */
    ghost predicate Sender()
      reads this`open, this`queue, this`pendingInflight, this`started
    {
      && (pendingInflight.Some? ==> open && queue != [] && queue[0] == pendingInflight.value.bundle)
      && (open && pendingInflight.None? ==> queue == [])
      && (!open ==> started == [])
    }

    /** The queued bundles that are not started. */
    ghost function Waiting(): seq<Bundle>
      reads this`queue, this`pendingInflight
    {
      if pendingInflight.Some? && queue != [] then queue[1..] else queue
    }

    /** What is queued was started or still waits; what was started was handed over or is on its way, in
        the same order and once each. */
    ghost predicate Flow()
      reads this`queue, this`queued, this`pendingInflight, this`started, this`delivered, this`arrivalEvents
      reads this`transmitted, this`transmittedEvents, this`deliveredAt, this`transmittedAt, this`clock
    {
      && queued == BundlesOf(started) + Waiting()
      && started == delivered + arrivalEvents
      && BundlesOf(started) == BundlesOf(transmitted) + BundlesOf(transmittedEvents)
      && InTime(delivered, deliveredAt, clock) && InTime(transmitted, transmittedAt, clock)
    }

    ghost predicate Reports()
      reads this`started, this`lefts, this`transmitted, this`transmittedEvents
    {
      Answered(reliable, lefts, started, transmitted + transmittedEvents)
    }

    ghost predicate Valid()
      reads this
    {
      Timers() && Sender() && Flow() && Reports()
    }

    constructor (reliable: bool)
      ensures Valid() && !open && queued == [] && delivered == []
    {
      this.reliable, open, clock := reliable, false, 0.0;
      queue, pendingInflight, arrivalEvents, transmittedEvents := [], None, [], [];
      inflightTimer, arrivalTimer, transmittedTimer, delivered, transmitted := None, None, None, [], [];
      queued, started, lefts, deliveredAt, transmittedAt := [], [], [], [], [];
    }

    method RescheduleTimers()
      requires TimersNotWrong()
      modifies this`inflightTimer, this`arrivalTimer, this`transmittedTimer
      ensures Timers()
    {
      if inflightTimer.None? && pendingInflight.Some? { inflightTimer := Some(pendingInflight.value.time); }
      if arrivalTimer.None? && arrivalEvents != [] { arrivalTimer := Some(arrivalEvents[0].time); }
      if transmittedTimer.None? && transmittedEvents != [] { transmittedTimer := Some(transmittedEvents[0].time); }
    }

    /** Puts the front of the queue under way. The token bucket says how long the link is busy with it. */
    method StartNextBundle(bwDelay: real, latency: real)
      requires open && queue != [] && pendingInflight.None? && bwDelay >= 0.0 && latency >= 0.0
      requires TimersNotWrong() && Flow() && Reports()
      modifies this`pendingInflight, this`arrivalEvents, this`transmittedEvents, this`started, this`lefts
      modifies this`inflightTimer, this`arrivalTimer, this`transmittedTimer
      ensures pendingInflight.Some? && pendingInflight.value.time - clock == bwDelay
      ensures lefts == old(lefts) + [clock + bwDelay]
      ensures started != [] && started[|started| - 1].time - (clock + bwDelay) == latency
      ensures Launched(old(started), old(arrivalEvents), old(transmittedEvents), queue[0], bwDelay, latency)
      ensures Valid()
    {
      hide Flow, Sender, Reports;
      Launch(bwDelay, latency);
      RescheduleTimers();
    }

    /** The bundle leaves the link after the bandwidth delay, arrives a latency later and is reported when it has
        left, or, on a reliable link, when the answer is back. */
    ghost predicate Launched(startedBefore: seq<Event>, arrivalBefore: seq<Event>, reportBefore: seq<Event>,
                             b: Bundle, bwDelay: real, latency: real)
      reads this`started, this`arrivalEvents, this`transmittedEvents, this`pendingInflight, this`clock
    {
      var left := clock + bwDelay;
      && pendingInflight == Some(Event(b, left))
      && started == startedBefore + [Event(b, left + latency)]
      && arrivalEvents == arrivalBefore + [Event(b, left + latency)]
      && transmittedEvents == reportBefore + [Event(b, if reliable then left + latency * 2.0 else left)]
    }

    method Launch(bwDelay: real, latency: real)
      requires open && queue != [] && pendingInflight.None? && bwDelay >= 0.0 && latency >= 0.0
      requires TimersNotWrong() && Flow() && Reports()
      modifies this`pendingInflight, this`arrivalEvents, this`transmittedEvents, this`started, this`lefts
      ensures TimersNotWrong() && Sender() && Flow() && Reports() && lefts == old(lefts) + [clock + bwDelay]
      ensures Launched(old(started), old(arrivalEvents), old(transmittedEvents), queue[0], bwDelay, latency)
    {
      hide InTime, BundlesOf, Answered;
      var inflightTime := clock + bwDelay;
      var arrivalTime := inflightTime + latency;
      var transmittedTime := if reliable then inflightTime + latency * 2.0 else inflightTime;
      Starting(queued, queue, started, delivered, arrivalEvents, transmitted, transmittedEvents,
               Event(queue[0], arrivalTime), Event(queue[0], transmittedTime));
      AnsweredMore(reliable, lefts, started, transmitted, transmittedEvents, inflightTime,
                   Event(queue[0], arrivalTime), Event(queue[0], transmittedTime));
      pendingInflight := Some(Event(queue[0], inflightTime));
      arrivalEvents := arrivalEvents + [Event(queue[0], arrivalTime)];
      transmittedEvents := transmittedEvents + [Event(queue[0], transmittedTime)];
      started, lefts := started + [Event(queue[0], arrivalTime)], lefts + [inflightTime];
    }

    /** Nothing was handed over, and no time passed. */
    ghost predicate Unmoved(q: seq<Bundle>, d: seq<Event>, t: seq<Event>, c: real)
      reads this`queued, this`delivered, this`transmitted, this`clock
    {
      queued == q && delivered == d && transmitted == t && clock == c
    }

    /** Nothing was started. */
    ghost predicate Quiet(s: seq<Event>, a: seq<Event>, t: seq<Event>, p: Option<Event>)
      reads this`started, this`arrivalEvents, this`transmittedEvents, this`pendingInflight
    {
      started == s && arrivalEvents == a && transmittedEvents == t && pendingInflight == p
    }

    /** Time passes, but not past a pending timer. */
    method Advance(t: real)
      requires Valid() && clock <= t
      requires forall x :: x in {inflightTimer, arrivalTimer, transmittedTimer} && x.Some? ==> t <= x.value
      modifies this`clock
      ensures Valid() && clock == t
    {
      clock := t;
    }

    method OpenContact(bwDelay: real, latency: real)
      requires Valid() && !open && bwDelay >= 0.0 && latency >= 0.0
      modifies this
      ensures Valid() && open && queue == old(queue)
      ensures Unmoved(old(queued), old(delivered), old(transmitted), old(clock))
      ensures if queue != [] then
                Launched(old(started), old(arrivalEvents), old(transmittedEvents), queue[0], bwDelay, latency)
              else Quiet(old(started), old(arrivalEvents), old(transmittedEvents), old(pendingInflight))
    {
      open := true;
      if queue != [] { StartNextBundle(bwDelay, latency); }
    }

    /** The bundle goes to the end of the queue and the convergence layer is told. */
    method BundleQueued(b: Bundle, bwDelay: real, latency: real)
      requires Valid() && bwDelay >= 0.0 && latency >= 0.0
      modifies this
      ensures Valid() && open == old(open) && queue == old(queue) + [b]
      ensures Unmoved(old(queued) + [b], old(delivered), old(transmitted), old(clock))
      ensures if open && old(pendingInflight).None? then
                Launched(old(started), old(arrivalEvents), old(transmittedEvents), queue[0], bwDelay, latency)
              else Quiet(old(started), old(arrivalEvents), old(transmittedEvents), old(pendingInflight))
    {
      hide Flow, Launched, Reports;
      Push(b);
      if open && pendingInflight.None? { StartNextBundle(bwDelay, latency); }
    }

    /** The link queue is first-in first-out. */
    method Push(b: Bundle)
      requires Flow() && (pendingInflight.Some? ==> queue != [])
      modifies this`queue, this`queued
      ensures Flow() && queue == old(queue) + [b] && queued == old(queued) + [b]
    {
      hide InTime, BundlesOf;
      assert pendingInflight.Some? && queue != [] ==> (queue + [b])[1..] == queue[1..] + [b];
      queue := queue + [b];
      queued := queued + [b];
    }

    /** The timer of the bundle being sent fires: the bundle leaves the queue and the next one is started. */
    method HandlePendingInflight(bwDelay: real, latency: real)
      requires Valid() && inflightTimer.Some? && inflightTimer.value <= clock && bwDelay >= 0.0 && latency >= 0.0
      modifies this
      ensures Valid() && open && queue == old(queue)[1..]
      ensures Unmoved(old(queued), old(delivered), old(transmitted), old(clock))
      ensures if queue != [] then
                Launched(old(started), old(arrivalEvents), old(transmittedEvents), queue[0], bwDelay, latency)
              else Quiet(old(started), old(arrivalEvents), old(transmittedEvents), None)
    {
      hide Flow, Launched, Reports;
      PutInFlight();
      if queue != [] { StartNextBundle(bwDelay, latency); }
      RescheduleTimers();
    }

    /** In its own callback a timer is not pending. */
    method PutInFlight()
      requires Valid() && inflightTimer.Some? && inflightTimer.value <= clock
      modifies this`inflightTimer, this`queue, this`pendingInflight
      ensures open && TimersNotWrong() && Flow() && pendingInflight == None && queue == old(queue)[1..]
    {
      hide InTime, BundlesOf;
      inflightTimer := None;
      if pendingInflight.value.time <= clock {
        queue := queue[1..];
        pendingInflight := None;
      }
    }

    /** The front of the arrival events goes to the peer. */
    method Deliver()
      requires Flow() && arrivalEvents != [] && arrivalEvents[0].time <= clock
      modifies this`arrivalEvents, this`delivered, this`deliveredAt
      ensures Flow() && arrivalEvents == old(arrivalEvents)[1..]
      ensures delivered == old(delivered) + [old(arrivalEvents)[0]]
      ensures delivered + arrivalEvents == old(delivered) + old(arrivalEvents)
    {
      hide InTime, BundlesOf;
      var next := arrivalEvents[0];
      InTimeMore(delivered, deliveredAt, clock, next);
      assert arrivalEvents == [next] + arrivalEvents[1..];
      Shift(delivered, next, arrivalEvents[1..]);
      arrivalEvents := arrivalEvents[1..];
      delivered := delivered + [next];
      deliveredAt := deliveredAt + [clock];
    }

    /** The arrival timer fires: everything at the front that has arrived goes to the peer, and this is at
        least one bundle. */
    method HandleArrivalEvents()
      requires Valid() && arrivalTimer.Some? && arrivalTimer.value <= clock
      modifies this
      ensures Valid() && open == old(open) && queued == old(queued) && started == old(started)
      ensures old(delivered) < delivered && clock == old(clock) && queue == old(queue)
      ensures pendingInflight == old(pendingInflight) && lefts == old(lefts)
      ensures delivered + arrivalEvents == old(delivered) + old(arrivalEvents)
      ensures transmitted == old(transmitted) && transmittedEvents == old(transmittedEvents)
      ensures arrivalEvents != [] ==> arrivalEvents[0].time > clock
    {
      hide InTime, BundlesOf, Flow, Answered;
      assert TimersNotWrong();
      arrivalTimer := None;
      Deliver();
      while arrivalEvents != []
        invariant TimersNotWrong() && Sender() && Flow() && Reports() && arrivalTimer.None?
        invariant open == old(open) && queued == old(queued) && started == old(started) && clock == old(clock)
        invariant old(delivered) < delivered && queue == old(queue)
        invariant pendingInflight == old(pendingInflight) && lefts == old(lefts)
        invariant delivered + arrivalEvents == old(delivered) + old(arrivalEvents)
        invariant transmitted == old(transmitted) && transmittedEvents == old(transmittedEvents)
        decreases |arrivalEvents|
      {
        if arrivalEvents[0].time > clock { break; }
        Deliver();
      }
      RescheduleTimers();
    }

    /** The front of the transmitted events goes to the own daemon. */
    method Report()
      requires Flow() && transmittedEvents != [] && transmittedEvents[0].time <= clock
      modifies this`transmittedEvents, this`transmitted, this`transmittedAt
      ensures Flow() && transmittedEvents == old(transmittedEvents)[1..]
      ensures transmitted == old(transmitted) + [old(transmittedEvents)[0]]
      ensures transmitted + transmittedEvents == old(transmitted) + old(transmittedEvents)
    {
      hide InTime, BundlesOf;
      var next := transmittedEvents[0];
      InTimeMore(transmitted, transmittedAt, clock, next);
      assert transmittedEvents == [next] + transmittedEvents[1..];
      BundlesMore(transmitted, next);
      BundlesMore(transmittedEvents[1..], next);
      Shift(BundlesOf(transmitted), next.bundle, BundlesOf(transmittedEvents[1..]));
      Shift(transmitted, next, transmittedEvents[1..]);
      transmittedEvents := transmittedEvents[1..];
      transmitted := transmitted + [next];
      transmittedAt := transmittedAt + [clock];
    }

    method HandleTransmittedEvents()
      requires Valid() && transmittedTimer.Some? && transmittedTimer.value <= clock
      modifies this
      ensures Valid() && open == old(open) && queued == old(queued) && started == old(started)
      ensures old(transmitted) < transmitted && delivered == old(delivered) && clock == old(clock) && queue == old(queue)
      ensures transmitted + transmittedEvents == old(transmitted) + old(transmittedEvents)
      ensures arrivalEvents == old(arrivalEvents) && pendingInflight == old(pendingInflight) && lefts == old(lefts)
      ensures transmittedEvents != [] ==> transmittedEvents[0].time > clock
    {
      hide InTime, BundlesOf, Flow, Answered;
      assert TimersNotWrong();
      transmittedTimer := None;
      Report();
      while transmittedEvents != []
        invariant TimersNotWrong() && Sender() && Flow() && Reports() && transmittedTimer.None?
        invariant open == old(open) && queued == old(queued) && started == old(started) && clock == old(clock)
        invariant delivered == old(delivered) && old(transmitted) < transmitted && queue == old(queue)
        invariant transmitted + transmittedEvents == old(transmitted) + old(transmittedEvents)
        invariant arrivalEvents == old(arrivalEvents) && pendingInflight == old(pendingInflight) && lefts == old(lefts)
        decreases |transmittedEvents|
      {
        if transmittedEvents[0].time > clock { break; }
        Report();
      }
      RescheduleTimers();
    }

    /** In every reachable state the peer has got the first bundles ever queued, in their order, each once and
        not before its arrival time; the bundles started are those delivered and those on their way. No bundle is
        reported before it has left, or on a reliable link before it has arrived. */
    lemma PeerGetsQueueOrder()
      requires Valid()
      ensures BundlesOf(delivered) <= queued
      ensures forall i :: 0 <= i < |delivered| ==> delivered[i] == started[i] && delivered[i].time <= deliveredAt[i]
      ensures |started| == |delivered| + |arrivalEvents|
      ensures open ==> |queued| == |started| + |queue| - (if queue == [] then 0 else 1)
      ensures |transmitted| <= |started| == |lefts| && forall i :: 0 <= i < |transmitted| ==>
                && transmitted[i].bundle == started[i].bundle && lefts[i] <= transmitted[i].time <= transmittedAt[i]
                && transmitted[i].time == if reliable then 2.0 * started[i].time - lefts[i] else lefts[i]
    {
      assert BundlesOf(started) == BundlesOf(delivered) + BundlesOf(arrivalEvents);
      forall i | 0 <= i < |transmitted| ensures transmitted[i].bundle == started[i].bundle {
        assert BundlesOf(started)[i] == (BundlesOf(transmitted) + BundlesOf(transmittedEvents))[i];
      }
      forall i | 0 <= i < |transmitted|
        ensures Answer(reliable, lefts[i], started[i].time, transmitted[i].time)
      {
        assert (transmitted + transmittedEvents)[i] == transmitted[i];
      }
    }
  }
}
