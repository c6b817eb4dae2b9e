/** The main loop of the flow calculator: links go up and down at the times of a queue of events, and data moves
    between the events. */
module Theory {
  import opened Movement

  datatype Event = SimDone(time: real) | LinkEvent(time: real, link: nat, up: bool)

  datatype Conn = AlwaysOn | All2 | Sequential | Offset2 | Shift10

  predicate IsEarliest(q: seq<Event>, k: nat) {
    k < |q| && forall m :: 0 <= m < |q| ==> q[k].time <= q[m].time
  }

  /** Of the events in the queue one with the smallest time; the order of events with one time is left open. */
  lemma Earliest(q: seq<Event>) returns (k: nat)
    requires q != []
    ensures IsEarliest(q, k)
  {
    k := 0;
    if |q| > 1 {
      var h := Earliest(q[1..]);
      if q[h + 1].time < q[0].time { k := h + 1; }
      forall m | 0 <= m < |q| ensures q[k].time <= q[m].time {
        if m > 0 { assert q[m] == q[1..][m - 1]; }
      }
    }
  }

  ghost predicate InTime(q: seq<Event>, t: real, numHops: nat) {
    forall e :: e in q ==> e.time >= t && (e.LinkEvent? ==> 1 <= e.link < numHops)
  }

  ghost predicate EndsSometime(q: seq<Event>) {
    exists e :: e in q && e.SimDone?
  }

  lemma EarliestTaken(q: seq<Event>, k: nat, t: real, numHops: nat)
    requires IsEarliest(q, k) && InTime(q, t, numHops)
    ensures q[k].time >= t && (q[k].LinkEvent? ==> 1 <= q[k].link < numHops)
    ensures InTime(q[..k] + q[k + 1..], q[k].time, numHops)
    ensures EndsSometime(q) ==> q[k].SimDone? || EndsSometime(q[..k] + q[k + 1..])
    ensures multiset(q[..k] + q[k + 1..]) == multiset(q) - multiset{q[k]}
  {
    assert q == q[..k] + [q[k]] + q[k + 1..];
    assert q[k] in q;
    Taken(q, k);
    var rest := q[..k] + q[k + 1..];
    forall f | f in rest ensures f.time >= q[k].time && (f.LinkEvent? ==> 1 <= f.link < numHops) {
      assert f in q;
    }
    if EndsSometime(q) {
      var d :| d in q && d.SimDone?;
      assert d == q[k] || d in rest;
    }
  }

  lemma Taken<T>(q: seq<T>, k: nat)
    requires k < |q|
    ensures forall f :: f in q[..k] + q[k + 1..] ==> f in q
    ensures forall f :: f in q && f != q[k] ==> f in q[..k] + q[k + 1..]
  {
    assert q == q[..k] + [q[k]] + q[k + 1..];
  }

  /** The first event of a link, and whether the link is up before it. */
  function FirstUp(conn: Conn, i: nat): bool {
    conn == AlwaysOn || conn == All2 || (conn == Offset2 && i % 2 != 0) || (conn != Offset2 && i <= 1) || i == 0
  }

  function FirstEvent(conn: Conn, uptime: real, i: nat): Event {
    if FirstUp(conn, i) then LinkEvent(uptime, i, false)
    else LinkEvent(if conn == Offset2 then 120.0 else if conn == Sequential then (i - 1) as real * 60.0
                   else 10.0 * (i - 1) as real, i, true)
  }

  /** When a link is first up. */
  function FirstOpens(conn: Conn, uptime: real, i: nat): real {
    if FirstUp(conn, i) then 0.0 else FirstEvent(conn, uptime, i).time
  }

  /** The first link is up from the start. From link to link the next one opens a minute later, ten seconds later
      or at the same time, or every second one after two minutes; and a link that is up at first goes down after
      the uptime. With the default uptime of a minute a link of the sequential mode opens as the one before it closes. */
  lemma LinksOpenInTurn(conn: Conn, uptime: real, i: nat)
    requires conn != AlwaysOn && i > 0
    ensures FirstOpens(conn, uptime, 1) == FirstOpens(conn, uptime, 0) == 0.0
    ensures FirstOpens(conn, uptime, i + 1)
            == match conn
               case Sequential => FirstOpens(conn, uptime, i) + 60.0
               case Shift10 => FirstOpens(conn, uptime, i) + 10.0
               case Offset2 => 120.0 - FirstOpens(conn, uptime, i)
               case _ => FirstOpens(conn, uptime, i)
    ensures FirstUp(conn, i) <==> FirstOpens(conn, uptime, i) == 0.0
    ensures var e := FirstEvent(conn, uptime, i);
            e.LinkEvent? && e.link == i && e.up == !FirstUp(conn, i) && (!e.up ==> e.time == uptime)
  {
  }

  function FirstEvents(conn: Conn, uptime: real, n: nat): seq<Event> {
    if n == 0 then [] else FirstEvents(conn, uptime, n - 1) + [FirstEvent(conn, uptime, n)]
  }

  lemma NextFirst(q: seq<Event>, q0: seq<Event>, conn: Conn, uptime: real, i: nat)
    requires i > 0 && q == q0 + FirstEvents(conn, uptime, i - 1)
    ensures q + [FirstEvent(conn, uptime, i)] == q0 + FirstEvents(conn, uptime, i)
  {
  }

  class Calculator {
    const numHops: nat
    const bw: real
    const uptime: real
    const downtime: real
    const total: real
    const mode: HopMode
    var amount: seq<real>
    var links: seq<bool>
    var q: seq<Event>
    var time: real
    var done: bool
    var elapsed: real        // what is printed when all data is there
    ghost var carried: seq<real>
    ghost var up: seq<real>  // how long each link has been up

    ghost predicate Params()
      reads this
    {
      numHops > 0 && bw > 0.0 && uptime >= 0.0 && downtime >= 0.0 && total >= 0.0
    }

    ghost predicate Flow()
      reads this
    {
      |amount| == |carried| == numHops && FlowOk(amount, carried, total, mode)
    }

    ghost predicate Queue()
      reads this
    {
      |links| == |up| == numHops && InTime(q, time, numHops) && (!done ==> EndsSometime(q))
    }

    ghost predicate Valid()
      reads this
    {
      Params() && Flow() && Queue() && WithinRate(carried, up, bw)
    }

    constructor (numHops: nat, bw: int, uptime: int, downtime: int, count: nat, size: nat, mode: HopMode, conn: Conn)
      requires numHops > 0 && bw > 0 && uptime >= 0 && downtime >= 0
      requires conn == Shift10 ==> numHops * 10 <= 60
      ensures Valid() && !done && time == 0.0 && carried == up == seq(numHops, i => 0.0)
      ensures this.numHops == numHops && this.bw == bw as real && this.mode == mode
      ensures this.uptime == uptime as real && this.downtime == downtime as real
      ensures total == (count * size * 8) as real && amount[0] == total
      ensures forall i :: 0 <= i < numHops ==> links[i] == FirstUp(conn, i)
      ensures q == [SimDone(1800.0)] + if conn == AlwaysOn then [] else FirstEvents(conn, uptime as real, numHops - 1)
    {
      this.numHops, this.bw, this.uptime, this.downtime := numHops, bw as real, uptime as real, downtime as real;
      this.mode := mode;
      total := (count * size * 8) as real;
      amount := [(count * size * 8) as real] + seq(numHops - 1, i => 0.0);
      links := seq(numHops, i => true);
      q, time, done, elapsed := [SimDone(1800.0)], 0.0, false, 0.0;
      carried, up := seq(numHops, i => 0.0), seq(numHops, i => 0.0);
      new;
      hide FlowOk, FirstEvents, FirstUp, WithinRate;
      InitialFlow(total, numHops, mode);
      NothingCarried(numHops, this.bw);
      assert q[0] in q;
      assert EndsSometime(q);
      InitialEvents(conn);
    }

    /** The first events of the links. */
    method InitialEvents(conn: Conn)
      requires Queue() && !done && time == 0.0 && Params() && links == seq(numHops, i => true)
      modifies this`q, this`links
      ensures Queue() && forall i :: 0 <= i < numHops ==> links[i] == FirstUp(conn, i)
      ensures q == old(q) + if conn == AlwaysOn then [] else FirstEvents(conn, uptime, numHops - 1)
    {
      hide InTime, EndsSometime;
      if conn == AlwaysOn { return; }
      var i := 1;
      while i < numHops
        invariant 1 <= i <= numHops && Queue() && !done && time == 0.0
        invariant forall k :: 0 <= k < numHops ==> links[k] == if k < i then FirstUp(conn, k) else true
        invariant q == old(q) + FirstEvents(conn, uptime, i - 1)
      {
        ghost var before := q;
        if conn == All2 || (conn == Offset2 && i % 2 != 0) || ((conn == Sequential || conn == Shift10) && i == 1) {
          QueueEvent(LinkEvent(uptime, i, false));
        } else {
          links := links[i := false];
          QueueEvent(LinkEvent(if conn == Offset2 then 120.0
                               else if conn == Sequential then (i - 1) as real * 60.0
                               else 10.0 * (i - 1) as real, i, true));
        }
        NextFirst(before, old(q), conn, uptime, i);
        i := i + 1;
      }
    }

    method QueueEvent(e: Event)
      requires Queue() && e.time >= time && (e.LinkEvent? ==> 1 <= e.link < numHops)
      modifies this`q
      ensures Queue() && q == old(q) + [e]
    {
      if !done {
        ghost var d :| d in q && d.SimDone?;
        assert d in q + [e];
      }
      q := q + [e];
    }

    method CanMove(i: nat) returns (b: bool)
      requires |links| == numHops && i + 1 < numHops
      ensures b == Open(links, mode, i)
    {
      var j, end := i + 1, if mode == Hop then i + 2 else numHops;
      while j < end
        invariant i < j <= end && forall k :: i < k < j ==> links[k]
      {
        if !links[j] { return false; }
        j := j + 1;
      }
      return true;
    }

    method Blocked() returns (b: bool)
      requires |links| == numHops && numHops > 0
      ensures b <==> AllBlocked(links, mode)
    {
      var i := 0;
      while i < numHops - 1
        invariant 0 <= i <= numHops - 1 && forall k :: 0 <= k < i ==> !Open(links, mode, k)
      {
        var can := CanMove(i);
        if can { return false; }
        i := i + 1;
      }
      return true;
    }

    /** The time to move everything, as if each bit had one link to cross. */
    method CompletionTime() returns (t: real)
      requires Params() && Flow() && |links| == numHops
      ensures t == Completion(amount, links, mode, bw) && t >= 0.0
      ensures AllBlocked(links, mode) || Limit(t, bw) == Sum(amount[..numHops - 1])
    {
      var b := Blocked();
      if b { return 9999999999.0; }
      SumBounds(amount, numHops - 1);
      t := Sum(amount[..numHops - 1]) / bw;
    }

    /** One source of move_data. */
    method MoveFrom(i: nat, interval: real)
      requires Params() && Flow() && i + 1 < numHops && interval >= 0.0
      modifies this`amount, this`carried
      ensures Flow()
      ensures
        var dest, amt := Dest(mode, i, numHops), Min(old(amount)[i], Limit(interval, bw));
        amount == Moved(old(amount), i, dest, amt) && carried == Charged(old(carried), i, dest, amt)
      ensures forall j :: 0 <= j < numHops ==>
                if i < j <= Dest(mode, i, numHops) then
                  old(carried[j]) <= carried[j] <= old(carried[j]) + Limit(interval, bw)
                else carried[j] == old(carried[j])
      ensures amount[i] == 0.0 || old(amount[i]) - amount[i] == Limit(interval, bw)
      ensures forall j :: i < j <= Dest(mode, i, numHops) ==>
                carried[j] == old(carried[j]) + (old(amount[i]) - amount[i])
      ensures mode == EndToEnd && 0 < i ==> carried == old(carried)
    {
      hide Sum, NonNegative, Accounts, Limit;
      RateLimit(interval, bw);
      NotNegative(amount, i);
      var dest := Dest(mode, i, numHops);
      var amt := Min(amount[i], Limit(interval, bw));
      MoveKeepsFlow(amount, carried, total, mode, i, dest, amt);
      amount := Moved(amount, i, dest, amt);
      carried := Charged(carried, i, dest, amt);
    }

    lemma HoldsSome(i: nat)
      requires Flow() && i < numHops
      ensures amount[i] >= 0.0
    {
    }

    /** move_data: over each link that is up goes at most the rate times the interval, over the others
        nothing. */
    method MoveData(interval: real)
      requires Params() && Flow() && |links| == numHops && interval >= 0.0 && !done
      modifies this`amount, this`carried, this`done, this`elapsed
      ensures Flow()
      ensures forall j :: 1 <= j < numHops ==>
                old(carried[j]) <= carried[j] <= old(carried[j]) + if links[j] then Limit(interval, bw) else 0.0
      ensures AllBlocked(links, mode) ==> carried == old(carried)
      ensures !done ==> AllUsedRate(amount, old(carried), carried, links, mode, Limit(interval, bw), numHops - 1)
      ensures !done ==> amount == MovedAll(old(amount), links, mode, Limit(interval, bw), numHops - 1)
      ensures done ==> elapsed == time + interval && amount[numHops - 1] == total
      ensures done ==> MovedSome(old(amount), links, mode, Limit(interval, bw), amount)
      ensures done <==> Completes(old(amount), links, mode, Limit(interval, bw), total)
    {
      hide FlowOk, Limit, Moved, Min, Sum, MovedAll, CompletesAt, Completes, MovedSome, AllUsedRate, Charged;
      NoSource(amount, links, mode, Limit(interval, bw), total);
      NoneUsed(amount, carried, carried, links, mode, Limit(interval, bw));
      RateLimit(interval, bw);
      var i := 0;
      while i < numHops - 1
        invariant 0 <= i <= numHops - 1 && Flow() && !done
        invariant forall j :: 1 <= j < numHops ==>
                    old(carried[j]) <= carried[j] <= old(carried[j]) + if links[j] then Limit(interval, bw) else 0.0
        invariant mode == Hop ==> forall j :: i < j < numHops ==> carried[j] == old(carried[j])
        invariant mode == EndToEnd && i == 0 ==> carried == old(carried)
        invariant AllBlocked(links, mode) ==> carried == old(carried)
        invariant AllUsedRate(amount, old(carried), carried, links, mode, Limit(interval, bw), i)
        invariant amount == MovedAll(old(amount), links, mode, Limit(interval, bw), i)
        invariant forall k: nat :: k < i ==> !CompletesAt(old(amount), links, mode, Limit(interval, bw), total, k)
      {
        NextSource(old(amount), links, mode, Limit(interval, bw), total, i);
        var can := CanMove(i);
        HoldsSome(i);
        OneMoreUsed(amount, old(carried), carried, links, mode, Limit(interval, bw), i);
        if can {
          MoveFrom(i, interval);
          if Dest(mode, i, numHops) == numHops - 1 && amount[numHops - 1] == total {
            done, elapsed := true, time + interval;
            return;
          }
        }
        i := i + 1;
      }
    }

    method PopEarliest() returns (e: Event)
      requires Queue() && !done
      modifies this`q
      ensures e in old(q) && multiset(q) == multiset(old(q)) - multiset{e}
      ensures e.time >= time && (e.LinkEvent? ==> 1 <= e.link < numHops)
      ensures InTime(q, e.time, numHops) && (e.SimDone? || EndsSometime(q))
    {
      hide InTime;
      assert q != [];
      ghost var earliest := Earliest(q);
      hide *;
      var k: nat :| k < |q| && IsEarliest(q, k);
      e := q[k];
      EarliestTaken(q, k, time, numHops);
      q := q[..k] + q[k + 1..];
    }

    /** The links that are up have been up for a while longer. */
    ghost method Elapse(t: real, before: seq<real>)
      requires Params() && |carried| == |up| == |links| == |before| == numHops && t >= 0.0
      requires WithinRate(before, up, bw)
      requires forall j :: 1 <= j < numHops ==> carried[j] <= before[j] + if links[j] then Limit(t, bw) else 0.0
      modifies this`up
      ensures |up| == numHops && WithinRate(carried, up, bw)
      ensures forall j :: 0 <= j < numHops ==> up[j] == old(up[j]) + if links[j] then t else 0.0
    {
      up := Longer(up, links, t);
      forall j | 1 <= j < numHops ensures carried[j] <= bw * up[j] {
        Distribute(bw, old(up[j]), if links[j] then t else 0.0);
      }
    }

    /** What a link carries comes from the nodes before it. */
    lemma CarriedFromBefore(before: seq<real>, carriedBefore: seq<real>, j: nat)
      requires Flow() && |before| == numHops && FlowOk(before, carriedBefore, total, mode)
      requires 1 <= j < numHops
      ensures carried[j] <= carriedBefore[j] + Sum(before[..numHops - 1])
    {
      SumBounds(amount, j);
      SumBounds(before[..numHops - 1], j);
      assert before[..numHops - 1][..j] == before[..j];
    }

    /** The movements of one round of the main loop, over an interval in which no link changes. */
    method MoveTwice(next: real)
      requires Params() && Flow() && |links| == |up| == numHops && WithinRate(carried, up, bw) && !done
      requires next >= time
      modifies this`amount, this`carried, this`done, this`elapsed, this`time, this`up
      ensures Flow() && |up| == numHops && WithinRate(carried, up, bw)
      ensures !done ==> time == next
      ensures old(time) <= time <= next
      ensures forall j :: 0 <= j < numHops ==>
                old(up[j]) <= up[j] <= old(up[j]) + (next - old(time)) && (!links[j] ==> up[j] == old(up[j]))
      ensures done ==> amount[numHops - 1] == total
      ensures !done ==> amount == RoundMoves(old(amount), links, mode, bw, next - old(time))
      ensures !done ==>
                AllUsedRate(amount, old(carried), carried, links, mode, Limit(next - old(time), bw), numHops - 1)
      // the second call completes a transfer that takes just the interval, and prints a time that
      // is too late by the whole interval; the first call prints the right time
      ensures done && time == next <==> JustInTime(old(amount), links, mode, bw, next - old(time))
      ensures done ==> elapsed == if time == next then next + (next - old(time))
                                  else old(time) + Completion(old(amount), links, mode, bw)
    {
      hide FlowOk, WithinRate, Sum, AllBlocked, MovedAll, Limit, Completes, Completion, JustInTime, Remaining, MovedSome,
           AllUsedRate;
      ghost var amount0, carried0 := amount, carried;
      AmountsOfFlow(amount, carried, total, mode);
      RateLimit(next - time, bw);
      var tcomplete := CompletionTime();
      var interval := next - time;
      if tcomplete < interval {
        MoveData(tcomplete);
        if done {
          Elapse(tcomplete, carried0);
          NotJustInTime(amount0, links, mode, bw, interval);
          return;
        }
      }
      time := next;
      var b := Blocked();
      ghost var between := carried;
      if interval != 0.0 && !b {
        SecondCall(amount0, amount, links, mode, bw, interval, total);
        MoveData(interval);
      } else {
        NotJustInTime(amount0, links, mode, bw, interval);
      }
      forall j | 1 <= j < numHops ensures carried[j] <= carried0[j] + if links[j] then Limit(interval, bw) else 0.0 {
        if tcomplete < interval && !b {
          CarriedFromBefore(amount0, carried0, j);
          MoreTime(carried[j], carried0[j], Sum(amount0[..numHops - 1]), tcomplete, interval, bw);
        }
      }
      if !done {
        if interval != 0.0 && !b {
          TwoPassesUse(amount, carried0, between, carried, links, mode, Limit(interval, bw));
        } else if b {
          BlockedUses(amount, carried0, carried, links, mode, Limit(interval, bw));
        } else {
          IdleUses(amount, carried, links, mode, interval, bw);
        }
      }
      Elapse(interval, carried0);
    }

    /** One round of the main loop: up to the next event, and the event itself. */
    method Round() returns (e: Event)
      requires Valid() && !done
      modifies this
      ensures Valid() && old(time) <= time
      ensures e in old(q) && forall f :: f in old(q) ==> e.time <= f.time
      ensures !done ==>
                && e.LinkEvent? && time == e.time && links == old(links)[e.link := e.up]
                && amount == RoundMoves(old(amount), old(links), mode, bw, e.time - old(time))
                && multiset(q) == multiset(old(q)) - multiset{e}
                                  + multiset{LinkEvent(e.time + if e.up then uptime else downtime, e.link, !e.up)}
      // a source whose way is open is empty in the end, or its link has carried all that the rate allows
      ensures !done ==> AllUsedRate(amount, old(carried), carried, old(links), mode, Limit(e.time - old(time), bw),
                                    numHops - 1)
      ensures done && e.LinkEvent? ==> amount[numHops - 1] == total
      // what is printed: one interval too much if the transfer takes just the interval
      ensures
        var interval := e.time - old(time);
        if JustInTime(old(amount), old(links), mode, bw, interval) then
          done && time == e.time && elapsed == e.time + interval
        else done && e.LinkEvent? ==> elapsed == old(time) + Completion(old(amount), old(links), mode, bw)
    {
      hide FlowOk, WithinRate, RoundMoves, EndsSometime, InTime, JustInTime, Completion, AllUsedRate, Limit;
      e := ToNextEvent();
      if done { return; }
      if e.SimDone? {
        done := true;
        return;
      }
      RunEvent(e);
    }

    /** Up to the next event, which is taken from the queue. */
    method ToNextEvent() returns (e: Event)
      requires Valid() && !done
      modifies this`q, this`amount, this`carried, this`done, this`elapsed, this`time, this`up
      ensures Flow() && |up| == numHops && WithinRate(carried, up, bw) && old(time) <= time
      ensures InTime(q, time, numHops) && (e.SimDone? || EndsSometime(q)) && (e.LinkEvent? ==> 1 <= e.link < numHops)
      ensures e in old(q) && multiset(q) == multiset(old(q)) - multiset{e}
      ensures forall f :: f in old(q) ==> e.time <= f.time
      ensures !done ==> time == e.time && amount == RoundMoves(old(amount), links, mode, bw, e.time - old(time))
      ensures !done ==>
                AllUsedRate(amount, old(carried), carried, links, mode, Limit(e.time - old(time), bw), numHops - 1)
      ensures done ==> amount[numHops - 1] == total
      ensures done && time == e.time <==> JustInTime(old(amount), links, mode, bw, e.time - old(time))
      ensures done ==> elapsed == if time == e.time then e.time + (e.time - old(time))
                                  else old(time) + Completion(old(amount), links, mode, bw)
    {
      hide FlowOk, WithinRate, RoundMoves, EndsSometime, InTime, JustInTime, Completion, AllUsedRate, Limit;
      e := PopEarliest();
      EarliestOfAll(old(q), q, e, numHops);
      MoveTwice(e.time);
      InTimeBefore(q, e.time, time, numHops);
    }

    /** The link goes up or down, and its next event is queued. */
    method RunEvent(e: Event)
      requires Params() && Queue() && e.LinkEvent? && 1 <= e.link < numHops && e.time == time
      modifies this`links, this`q
      ensures Queue() && links == old(links)[e.link := e.up]
      ensures q == old(q) + [LinkEvent(e.time + if e.up then uptime else downtime, e.link, !e.up)]
    {
      hide InTime, EndsSometime;
      links := links[e.link := e.up];
      QueueEvent(LinkEvent(e.time + if e.up then uptime else downtime, e.link, !e.up));
    }

    /** 60 bytes over one link of 8 bit/s take 60 seconds. The link goes down after 60 seconds, and the
        first round prints 120. */
    static method PrintedTooLate() returns (c: Calculator)
      ensures fresh(c) && c.done && c.time == 60.0 && c.elapsed == 120.0
    {
      c := new Calculator(2, 8, 60, 240, 1, 60, Hop, All2);
      OneEvent(c.q);
      OneLink(c.amount, c.links);
      ghost var first := LinkEvent(60.0, 1, false);
      assert first in c.q;
      var e := c.Round();
      assert e == first;
    }

    /** Any number of rounds. */
    method Run(rounds: nat)
      requires Valid()
      modifies this
      ensures Valid()
    {
      var n := 0;
      while n < rounds && !done
        invariant Valid()
      {
        var e := Round();
        n := n + 1;
      }
    }

    /** In every state of every run: no link has carried more than the rate times the time it was up; the data
        is all there, no node is below zero, and in end-to-end mode all of it is at the two ends. */
    lemma RunsAreSound()
      requires Valid()
      ensures forall j :: 1 <= j < numHops ==> carried[j] <= bw * up[j]
      ensures Sum(amount) == total && forall i :: 0 <= i < numHops ==> 0.0 <= amount[i] <= total
      ensures mode == EndToEnd && numHops > 1 ==> amount[0] + amount[numHops - 1] == total
    {
      forall i | 0 <= i < numHops ensures amount[i] <= total {
        SumBounds(amount, i);
        SumBounds(amount, i + 1);
        assert amount[..i + 1][..i] == amount[..i];
      }
      if mode == EndToEnd && numHops > 1 {
        FirstOnly(amount, numHops - 1);
        assert amount[..numHops - 1] == amount[..|amount| - 1];
      }
    }
  }

  lemma NothingCarried(n: nat, bw: real)
    ensures WithinRate(seq(n, i => 0.0), seq(n, i => 0.0), bw)
  {
  }

  lemma OneEvent(q: seq<Event>)
    requires q == [SimDone(1800.0)] + FirstEvents(All2, 60.0, 1)
    ensures q == [SimDone(1800.0), LinkEvent(60.0, 1, false)]
  {
    assert FirstEvents(All2, 60.0, 0) == [];
  }

  lemma OneLink(s: seq<real>, links: seq<bool>)
    requires |s| == |links| == 2 && s[0] == Sum(s) == 480.0 && links[1]
    ensures JustInTime(s, links, Hop, 8.0, 60.0)
  {
    var before := s[..|s| - 1];
    assert before == [480.0] && before[..0] == [];
    assert Sum(before) == 480.0;
    assert Open(links, Hop, 0);
  }

  lemma InTimeBefore(q: seq<Event>, t: real, u: real, numHops: nat)
    requires InTime(q, t, numHops) && u <= t
    ensures InTime(q, u, numHops)
  {
  }

  lemma EarliestOfAll(all: seq<Event>, rest: seq<Event>, e: Event, numHops: nat)
    requires e in all && multiset(rest) == multiset(all) - multiset{e} && InTime(rest, e.time, numHops)
    ensures forall f :: f in all ==> e.time <= f.time
  {
    forall f | f in all ensures e.time <= f.time {
      if f != e { assert f in multiset(all) && f in multiset(rest); }
    }
  }

}
