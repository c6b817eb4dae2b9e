/** The movements of the flow calculator: data moves over a chain of links that are up or down, either hop by
    hop or from end to end. Amounts are in bits and times in seconds, as exact reals. */
module Movement {

  datatype HopMode = Hop | EndToEnd

  function Sum(s: seq<real>): real {
    if s == [] then 0.0 else Sum(s[..|s| - 1]) + s[|s| - 1]
  }

  ghost predicate NonNegative(s: seq<real>) {
    forall i :: 0 <= i < |s| ==> s[i] >= 0.0
  }

  lemma {:induction false} SumBounds(s: seq<real>, j: nat)
    requires NonNegative(s) && j <= |s|
    ensures 0.0 <= Sum(s[..j]) <= Sum(s)
    decreases |s|
  {
    if j < |s| {
      SumBounds(s[..|s| - 1], j);
      assert s[..|s| - 1][..j] == s[..j];
    } else {
      assert s[..j] == s;
      if |s| > 0 { SumBounds(s[..|s| - 1], |s| - 1); }
    }
  }

  /** The amounts after a move from node i to a later node. */
  function Moved(s: seq<real>, i: nat, dest: nat, amt: real): (t: seq<real>)
    requires i < dest < |s|
    ensures |t| == |s|
  {
    s[i := s[i] - amt][dest := s[dest] + amt]
  }

  /** The data before a link is less by what moved over the link, and all other sums stay. */
  lemma {:induction false} MovedSum(s: seq<real>, i: nat, dest: nat, amt: real, j: nat)
    requires i < dest < |s| && j <= |s|
    ensures Sum(Moved(s, i, dest, amt)[..j]) == Sum(s[..j]) - if i < j <= dest then amt else 0.0
    decreases j
  {
    var t := Moved(s, i, dest, amt);
    if j > 0 {
      MovedSum(s, i, dest, amt, j - 1);
      assert t[..j][..j - 1] == t[..j - 1] && s[..j][..j - 1] == s[..j - 1];
    }
  }

  lemma {:induction false} SumOfFirst(x: real, n: nat)
    ensures Sum([x] + seq(n, i => 0.0)) == x
  {
    var s := [x] + seq(n, i => 0.0);
    if n == 0 {
      assert s == [x] && [x][..0] == [];
    } else {
      assert s[..|s| - 1] == [x] + seq(n - 1, i => 0.0);
      SumOfFirst(x, n - 1);
    }
  }

  /** Bits carried and time up, link by link. */
  ghost predicate Accounts(amount: seq<real>, carried: seq<real>, total: real) {
    && |carried| == |amount|
    && forall j :: 1 <= j < |amount| ==> carried[j] + Sum(amount[..j]) == total
  }

  ghost predicate WithinRate(carried: seq<real>, up: seq<real>, bw: real) {
    |carried| == |up| && forall j :: 1 <= j < |carried| ==> carried[j] <= bw * up[j]
  }

  /** The source is empty, or its link has carried all that the rate allows. */
  ghost predicate UsedRate(amount: seq<real>, before: seq<real>, carried: seq<real>, limit: real, i: nat)
    requires i + 1 < |amount| == |before| == |carried|
  {
    amount[i] == 0.0 || carried[i + 1] == before[i + 1] + limit
  }

  /** So do the first k sources whose way is open. */
  ghost predicate AllUsedRate(amount: seq<real>, before: seq<real>, carried: seq<real>, links: seq<bool>,
                              mode: HopMode, limit: real, k: nat)
    requires k < |amount| == |before| == |carried| == |links|
  {
    forall i :: 0 <= i < k && Open(links, mode, i) && (mode == Hop || i == 0) ==>
      UsedRate(amount, before, carried, limit, i)
  }

  lemma NoneUsed(amount: seq<real>, before: seq<real>, carried: seq<real>, links: seq<bool>, mode: HopMode,
                 limit: real)
    requires 0 < |amount| == |before| == |carried| == |links|
    ensures AllUsedRate(amount, before, carried, links, mode, limit, 0)
  {
  }

  /** Of two passes the second one uses the rate, and both together carry no more than it allows. */
  lemma TwoPassesUse(amount: seq<real>, before: seq<real>, between: seq<real>, carried: seq<real>, links: seq<bool>,
                     mode: HopMode, limit: real)
    requires 0 < |amount| == |before| == |between| == |carried| == |links|
    requires AllUsedRate(amount, between, carried, links, mode, limit, |amount| - 1)
    requires forall j :: 1 <= j < |amount| ==>
               before[j] <= between[j] && carried[j] <= before[j] + if links[j] then limit else 0.0
    ensures AllUsedRate(amount, before, carried, links, mode, limit, |amount| - 1)
  {
    forall i | 0 <= i < |amount| - 1 && Open(links, mode, i) && (mode == Hop || i == 0)
      ensures UsedRate(amount, before, carried, limit, i)
    {
      assert UsedRate(amount, between, carried, limit, i);
    }
  }

  /** With no time to pass, or with all links down, there is nothing to use. */
  lemma IdleUses(amount: seq<real>, carried: seq<real>, links: seq<bool>, mode: HopMode, interval: real, bw: real)
    requires 0 < |amount| == |carried| == |links| && (interval == 0.0 || AllBlocked(links, mode))
    ensures AllUsedRate(amount, carried, carried, links, mode, Limit(interval, bw), |amount| - 1)
  {
    assert interval == 0.0 ==> Limit(interval, bw) == 0.0;
  }

  lemma BlockedUses(amount: seq<real>, before: seq<real>, carried: seq<real>, links: seq<bool>, mode: HopMode,
                    limit: real)
    requires 0 < |amount| == |before| == |carried| == |links| && AllBlocked(links, mode)
    ensures AllUsedRate(amount, before, carried, links, mode, limit, |amount| - 1)
  {
  }

  lemma OneMoreUsed(amount: seq<real>, before: seq<real>, carried: seq<real>, links: seq<bool>, mode: HopMode,
                    limit: real, i: nat)
    requires i + 1 < |amount| == |before| == |carried| == |links|
    requires AllUsedRate(amount, before, carried, links, mode, limit, i) && amount[i] >= 0.0
    requires mode == Hop || i == 0 ==> carried[i + 1] == before[i + 1]
    ensures !Open(links, mode, i) ==> AllUsedRate(amount, before, carried, links, mode, limit, i + 1)
    ensures
      var dest, amt := Dest(mode, i, |amount|), Min(amount[i], limit);
      Open(links, mode, i) ==>
        AllUsedRate(Moved(amount, i, dest, amt), before, Charged(carried, i, dest, amt), links, mode, limit, i + 1)
  {
    hide Open;
    var dest, amt := Dest(mode, i, |amount|), Min(amount[i], limit);
    var t, c := Moved(amount, i, dest, amt), Charged(carried, i, dest, amt);
    forall k | 0 <= k < i && Open(links, mode, k) && (mode == Hop || k == 0)
      ensures UsedRate(t, before, c, limit, k)
    {
      assert UsedRate(amount, before, carried, limit, k);
    }
  }

  /** The accounts after a move over the links between node i and node dest. */
  ghost function Charged(carried: seq<real>, i: nat, dest: nat, amt: real): (c: seq<real>)
    ensures |c| == |carried|
    ensures forall j :: 0 <= j < |c| ==> c[j] == if i < j <= dest then carried[j] + amt else carried[j]
  {
    seq(|carried|, j requires 0 <= j < |carried| => if i < j <= dest then carried[j] + amt else carried[j])
  }

  /** The links that are up have been up for a while longer. */
  ghost function Longer(up: seq<real>, links: seq<bool>, t: real): (u: seq<real>)
    requires |up| == |links|
    ensures |u| == |up| && forall j :: 0 <= j < |u| ==> u[j] == if links[j] then up[j] + t else up[j]
  {
    seq(|up|, j requires 0 <= j < |up| => if links[j] then up[j] + t else up[j])
  }

  /** Data is neither lost nor made, no node is below zero, and end to end nothing is left on the way. */
  ghost predicate FlowOk(amount: seq<real>, carried: seq<real>, total: real, mode: HopMode) {
    && NonNegative(amount) && Sum(amount) == total
    && (mode == EndToEnd ==> forall i :: 0 < i < |amount| - 1 ==> amount[i] == 0.0)
    && Accounts(amount, carried, total)
  }

  lemma MoveKeepsFlow(amount: seq<real>, carried: seq<real>, total: real, mode: HopMode, i: nat, dest: nat, amt: real)
    requires FlowOk(amount, carried, total, mode) && i < dest < |amount| && 0.0 <= amt <= amount[i]
    requires mode == EndToEnd ==> dest == |amount| - 1
    ensures FlowOk(Moved(amount, i, dest, amt), Charged(carried, i, dest, amt), total, mode)
  {
    hide Sum;
    var t, c := Moved(amount, i, dest, amt), Charged(carried, i, dest, amt);
    MovedSum(amount, i, dest, amt, |amount|);
    assert t[..|t|] == t && amount[..|t|] == amount;
    forall j | 1 <= j < |t| ensures c[j] + Sum(t[..j]) == total {
      MovedSum(amount, i, dest, amt, j);
    }
  }

  // -------- what moves --------

  /** All the links from node i to where its data goes next are up. */
  ghost predicate Open(links: seq<bool>, mode: HopMode, i: nat)
    requires i + 1 < |links|
  {
    if mode == Hop then links[i + 1] else forall j :: i < j < |links| ==> links[j]
  }

  ghost predicate AllBlocked(links: seq<bool>, mode: HopMode) {
    forall i :: 0 <= i < |links| - 1 ==> !Open(links, mode, i)
  }

  function Dest(mode: HopMode, i: nat, n: nat): (d: nat)
    requires i + 1 < n
    ensures i < d < n
  {
    if mode == Hop then i + 1 else n - 1
  }

  /** What the rate allows in an interval. */
  function Limit(interval: real, bw: real): real { interval * bw }

  function Min(a: real, b: real): real { if a < b then a else b }

  /** The amounts after the sources 0 .. k-1 have moved what they can, one after the other. */
  ghost function MovedAll(s: seq<real>, links: seq<bool>, mode: HopMode, limit: real, k: nat): (t: seq<real>)
    requires k < |s| == |links|
    ensures |t| == |s|
  {
    if k == 0 then s
    else
      var t := MovedAll(s, links, mode, limit, k - 1);
      if Open(links, mode, k - 1) then Moved(t, k - 1, Dest(mode, k - 1, |s|), Min(t[k - 1], limit)) else t
  }

  /** Only some of the sources have moved. */
  ghost predicate MovedSome(s: seq<real>, links: seq<bool>, mode: HopMode, limit: real, t: seq<real>)
    requires 0 < |s| == |links|
  {
    exists k: nat | k < |s| :: t == MovedAll(s, links, mode, limit, k)
  }

  ghost function Completion(s: seq<real>, links: seq<bool>, mode: HopMode, bw: real): real
    requires bw > 0.0 && |s| > 0
  {
    if AllBlocked(links, mode) then 9999999999.0 else Sum(s[..|s| - 1]) / bw
  }

  /** The amounts after one round: perhaps a last chunk, and then the whole interval. */
  ghost function RoundMoves(s: seq<real>, links: seq<bool>, mode: HopMode, bw: real, interval: real): seq<real>
    requires bw > 0.0 && 0 < |s| == |links|
  {
    var t := Completion(s, links, mode, bw);
    var first := if t < interval then MovedAll(s, links, mode, Limit(t, bw), |s| - 1) else s;
    if interval != 0.0 && !AllBlocked(links, mode) then MovedAll(first, links, mode, Limit(interval, bw), |s| - 1) else first
  }

  lemma {:induction false} FirstOnly(s: seq<real>, j: nat)
    requires 1 <= j <= |s| && forall i :: 0 < i < j ==> s[i] == 0.0
    ensures Sum(s[..j]) == s[0]
    decreases j
  {
    if j > 1 {
      FirstOnly(s, j - 1);
      assert s[..j][..j - 1] == s[..j - 1];
    } else {
      assert s[..1][..0] == [];
    }
  }

  lemma Distribute(a: real, b: real, c: real)
    ensures a * (b + c) == a * b + a * c
  {
  }

  lemma MoreTime(now: real, before: real, sum: real, t: real, u: real, bw: real)
    requires now <= before + sum && Limit(t, bw) == sum && t <= u && bw > 0.0
    ensures now <= before + Limit(u, bw)
  {
    assert t * bw <= u * bw;
  }

  lemma InitialFlow(total: real, n: nat, mode: HopMode)
    requires n > 0 && total >= 0.0
    ensures FlowOk([total] + seq(n - 1, i => 0.0), seq(n, i => 0.0), total, mode)
  {
    hide Sum;
    var amount := [total] + seq(n - 1, i => 0.0);
    SumOfFirst(total, n - 1);
    forall j | 1 <= j < n ensures 0.0 + Sum(amount[..j]) == total {
      assert amount[..j] == [total] + seq(j - 1, i => 0.0);
      SumOfFirst(total, j - 1);
    }
  }

  lemma NotNegative(s: seq<real>, i: nat)
    requires i < |s| && NonNegative(s)
    ensures s[i] >= 0.0
  {
  }

  lemma RateLimit(interval: real, bw: real)
    requires interval >= 0.0 && bw > 0.0
    ensures Limit(interval, bw) >= 0.0
  {
  }

  // -------- when a pass completes the transfer --------

  /** Nothing is lost or below zero, and end to end nothing is left on the way. */
  ghost predicate AmountsOk(s: seq<real>, total: real, mode: HopMode) {
    && |s| > 0 && NonNegative(s) && Sum(s) == total
    && (mode == EndToEnd ==> forall i :: 0 < i < |s| - 1 ==> s[i] == 0.0)
  }

  /** After some source has moved its data to the last node, all data is there. */
  ghost predicate CompletesAt(s: seq<real>, links: seq<bool>, mode: HopMode, limit: real, total: real, k: nat)
    requires k + 1 < |s| == |links|
  {
    && Open(links, mode, k) && Dest(mode, k, |s|) == |s| - 1
    && MovedAll(s, links, mode, limit, k + 1)[|s| - 1] == total
  }

  ghost predicate Completes(s: seq<real>, links: seq<bool>, mode: HopMode, limit: real, total: real)
    requires 0 < |s| == |links|
  {
    exists k: nat | k < |s| - 1 :: CompletesAt(s, links, mode, limit, total, k)
  }

  lemma NoSource(s: seq<real>, links: seq<bool>, mode: HopMode, limit: real, total: real)
    requires 0 < |s| == |links|
    ensures MovedAll(s, links, mode, limit, 0) == s
    ensures Completes(s, links, mode, limit, total)
            <==> exists k: nat | k < |s| - 1 :: CompletesAt(s, links, mode, limit, total, k)
  {
  }

  /** One source more. */
  lemma NextSource(s: seq<real>, links: seq<bool>, mode: HopMode, limit: real, total: real, k: nat)
    requires k + 1 < |s| == |links|
    ensures
      var t, next := MovedAll(s, links, mode, limit, k), MovedAll(s, links, mode, limit, k + 1);
      && next == (if Open(links, mode, k) then Moved(t, k, Dest(mode, k, |s|), Min(t[k], limit)) else t)
      && (CompletesAt(s, links, mode, limit, total, k)
          <==> Open(links, mode, k) && Dest(mode, k, |s|) == |s| - 1 && next[|s| - 1] == total)
      && (CompletesAt(s, links, mode, limit, total, k) ==> Completes(s, links, mode, limit, total))
      && MovedSome(s, links, mode, limit, next)
  {
    hide Open, Moved, Min;
  }

  /** Every node that still holds data has all links up to the last node. */
  ghost predicate WayOpen(s: seq<real>, links: seq<bool>)
    requires |s| == |links|
  {
    forall i, j :: 0 <= i < j < |s| && s[i] > 0.0 ==> links[j]
  }

  /** What is left to move. */
  function Remaining(s: seq<real>): real
    requires |s| > 0
  {
    Sum(s[..|s| - 1])
  }

  lemma RemainingIs(s: seq<real>, total: real, mode: HopMode)
    requires AmountsOk(s, total, mode)
    ensures Remaining(s) + s[|s| - 1] == total && Remaining(s) >= 0.0
  {
    SumBounds(s[..|s| - 1], 0);
    assert s[..|s| - 1][..0] == [];
  }

  lemma PartOfSum(s: seq<real>, i: nat, j: nat)
    requires NonNegative(s) && i < j <= |s|
    ensures s[i] <= Sum(s[..j])
  {
    SumBounds(s[..j], i);
    SumBounds(s[..j], i + 1);
    assert s[..j][..i] == s[..i] && s[..j][..i + 1] == s[..i + 1] && s[..i + 1][..i] == s[..i];
  }

  lemma MoveKeepsAmounts(s: seq<real>, total: real, mode: HopMode, i: nat, dest: nat, amt: real)
    requires AmountsOk(s, total, mode) && i < dest < |s| && 0.0 <= amt <= s[i]
    requires mode == EndToEnd ==> dest == |s| - 1
    ensures AmountsOk(Moved(s, i, dest, amt), total, mode)
  {
    hide Sum;
    MovedSum(s, i, dest, amt, |s|);
    assert s[..|s|] == s && Moved(s, i, dest, amt)[..|s|] == Moved(s, i, dest, amt);
  }

  lemma {:induction false} PassKeeps(s: seq<real>, links: seq<bool>, mode: HopMode, limit: real, total: real, k: nat)
    requires AmountsOk(s, total, mode) && k < |s| == |links| && limit >= 0.0
    ensures AmountsOk(MovedAll(s, links, mode, limit, k), total, mode)
  {
    hide Open, Moved, Sum;
    if k > 0 {
      PassKeeps(s, links, mode, limit, total, k - 1);
      var t := MovedAll(s, links, mode, limit, k - 1);
      if Open(links, mode, k - 1) {
        MoveKeepsAmounts(t, total, mode, k - 1, Dest(mode, k - 1, |s|), Min(t[k - 1], limit));
      }
    }
  }

  /** Nothing crosses a link that is down. */
  lemma {:induction false} ClosedHolds(s: seq<real>, links: seq<bool>, mode: HopMode, limit: real, k: nat, j: nat)
    requires k < |s| == |links| && 1 <= j < |s| && !links[j]
    ensures Sum(MovedAll(s, links, mode, limit, k)[..j]) == Sum(s[..j])
  {
    hide Moved, Sum, Min;
    if k > 0 {
      ClosedHolds(s, links, mode, limit, k - 1, j);
      var t := MovedAll(s, links, mode, limit, k - 1);
      if Open(links, mode, k - 1) {
        MovedSum(t, k - 1, Dest(mode, k - 1, |s|), Min(t[k - 1], limit), j);
      }
    }
  }

  /** Data behind a link that is down is not at the end after a pass. */
  lemma CutOffStays(s: seq<real>, links: seq<bool>, mode: HopMode, limit: real, total: real, k: nat, i: nat, j: nat)
    requires AmountsOk(s, total, mode) && k < |s| == |links| && limit >= 0.0
    requires i < j < |s| && !links[j] && s[i] > 0.0
    ensures
      var t := MovedAll(s, links, mode, limit, k);
      Sum(t[..j]) > 0.0 && Remaining(t) > 0.0
  {
    hide Sum, MovedAll;
    var t := MovedAll(s, links, mode, limit, k);
    PassKeeps(s, links, mode, limit, total, k);
    ClosedHolds(s, links, mode, limit, k, j);
    PartOfSum(s, i, j);
    SumBounds(t[..|s| - 1], j);
    assert t[..|s| - 1][..j] == t[..j];
  }

  /** A pass that completes leaves nothing behind, so no data was cut off. */
  lemma CompletesOnOpenWays(s: seq<real>, links: seq<bool>, mode: HopMode, limit: real, total: real)
    requires AmountsOk(s, total, mode) && |s| == |links| && limit >= 0.0
    requires Completes(s, links, mode, limit, total)
    ensures WayOpen(s, links)
  {
    hide Sum, MovedAll, Open, Remaining;
    var k: nat :| k < |s| - 1 && CompletesAt(s, links, mode, limit, total, k);
    var t := MovedAll(s, links, mode, limit, k + 1);
    PassKeeps(s, links, mode, limit, total, k + 1);
    RemainingIs(t, total, mode);
    forall i, j | 0 <= i < j < |s| && s[i] > 0.0 ensures links[j] {
      if !links[j] { CutOffStays(s, links, mode, limit, total, k + 1, i, j); }
    }
  }

  /** End to end only the first node has anything to move. */
  lemma {:induction false} EndToEndPass(s: seq<real>, links: seq<bool>, limit: real, total: real, k: nat)
    requires AmountsOk(s, total, EndToEnd) && 1 <= k < |s| == |links| && limit >= 0.0
    ensures
      MovedAll(s, links, EndToEnd, limit, k)
      == if Open(links, EndToEnd, 0) then Moved(s, 0, |s| - 1, Min(s[0], limit)) else s
  {
    hide Sum, Open;
    if k > 1 {
      EndToEndPass(s, links, limit, total, k - 1);
      var t := MovedAll(s, links, EndToEnd, limit, k - 1);
      assert t[k - 1] == 0.0;
      assert Moved(t, k - 1, |s| - 1, 0.0) == t;
    } else {
      assert MovedAll(s, links, EndToEnd, limit, 0) == s;
    }
  }

  lemma {:induction false} HopPass(s: seq<real>, links: seq<bool>, limit: real, k: nat)
    requires k + 1 < |s| == |links|
    ensures MovedAll(s, links, Hop, limit, k)[|s| - 1] == s[|s| - 1]
  {
    if k > 0 { HopPass(s, links, limit, k - 1); }
  }

  /** A hop pass: what goes over a link leaves with the node before it, and nothing comes back to a node that has
      had its turn. */
  lemma {:induction false} HopUsesRate(s: seq<real>, links: seq<bool>, limit: real, k: nat, i: nat)
    requires i < k < |s| == |links| && links[i + 1] && limit >= 0.0
    ensures
      var t := MovedAll(s, links, Hop, limit, k);
      && (t[i] == 0.0 || Sum(s[..i + 1]) - Sum(t[..i + 1]) == limit)
      && Sum(s[..i + 1]) - Sum(t[..i + 1]) <= limit
    decreases k
  {
    hide Sum, Moved;
    var t, u := MovedAll(s, links, Hop, limit, k), MovedAll(s, links, Hop, limit, k - 1);
    var m := Min(u[k - 1], limit);
    if links[k] {
      MovedSum(u, k - 1, k, m, i + 1);
      MovedAt(u, k - 1, k, m);
    }
    if i < k - 1 {
      HopUsesRate(s, links, limit, k - 1, i);
    } else {
      NothingOverYet(s, links, limit, i);
    }
  }

  lemma {:induction false} NothingOverYet(s: seq<real>, links: seq<bool>, limit: real, k: nat)
    requires k < |s| == |links|
    ensures Sum(MovedAll(s, links, Hop, limit, k)[..k + 1]) == Sum(s[..k + 1])
  {
    hide Sum, Moved, Min;
    NothingOver(s, links, limit, k, k + 1);
  }

  lemma {:induction false} NothingOver(s: seq<real>, links: seq<bool>, limit: real, k: nat, j: nat)
    requires k < j <= |s| == |links|
    ensures Sum(MovedAll(s, links, Hop, limit, k)[..j]) == Sum(s[..j])
  {
    hide Sum, Moved, Min;
    if k > 0 {
      NothingOver(s, links, limit, k - 1, j);
      var u := MovedAll(s, links, Hop, limit, k - 1);
      if links[k] { MovedSum(u, k - 1, k, Min(u[k - 1], limit), j); }
    }
  }

  lemma MovedAt(s: seq<real>, i: nat, dest: nat, amt: real)
    requires i < dest < |s|
    ensures Moved(s, i, dest, amt)[i] == s[i] - amt
    ensures forall h :: 0 <= h < |s| && h != i && h != dest ==> Moved(s, i, dest, amt)[h] == s[h]
  {
  }

  /** A source whose way is open uses the rate: after a pass it is empty, or what went over its link is all that
      the rate allows. It is never more. */
  lemma RateIsUsed(s: seq<real>, links: seq<bool>, mode: HopMode, limit: real, total: real, i: nat)
    requires AmountsOk(s, total, mode) && i + 1 < |s| == |links| && limit >= 0.0
    requires Open(links, mode, i) && (mode == EndToEnd ==> i == 0)
    ensures
      var t := MovedAll(s, links, mode, limit, |s| - 1);
      && (t[i] == 0.0 || Sum(s[..i + 1]) - Sum(t[..i + 1]) == limit)
      && Sum(s[..i + 1]) - Sum(t[..i + 1]) <= limit
  {
    hide Sum, Moved;
    if mode == Hop {
      HopUsesRate(s, links, limit, |s| - 1, i);
    } else {
      EndToEndPass(s, links, limit, total, |s| - 1);
      MovedSum(s, 0, |s| - 1, Min(s[0], limit), 1);
      MovedAt(s, 0, |s| - 1, Min(s[0], limit));
    }
  }

  /** At most the limit reaches the last node in one pass. */
  lemma LastGetsAtMost(s: seq<real>, links: seq<bool>, mode: HopMode, limit: real, total: real, k: nat)
    requires AmountsOk(s, total, mode) && k + 1 < |s| == |links| && limit >= 0.0 && Dest(mode, k, |s|) == |s| - 1
    ensures MovedAll(s, links, mode, limit, k + 1)[|s| - 1] <= s[|s| - 1] + limit
  {
    hide Sum, Open;
    if mode == EndToEnd {
      EndToEndPass(s, links, limit, total, k + 1);
    } else {
      HopPass(s, links, limit, k);
    }
  }

  /** So a pass that could move at most what is left completes only if it could move just that. */
  lemma CompletesAtTheLimit(s: seq<real>, links: seq<bool>, mode: HopMode, limit: real, total: real)
    requires AmountsOk(s, total, mode) && |s| == |links| && 0.0 <= limit <= Remaining(s)
    requires Completes(s, links, mode, limit, total)
    ensures limit == Remaining(s)
  {
    hide Sum, MovedAll, Open, Remaining;
    var k: nat :| k < |s| - 1 && CompletesAt(s, links, mode, limit, total, k);
    LastGetsAtMost(s, links, mode, limit, total, k);
    RemainingIs(s, total, mode);
  }

  lemma {:induction false} SomeData(s: seq<real>, j: nat) returns (i: nat)
    requires NonNegative(s) && j <= |s| && Sum(s[..j]) > 0.0
    ensures i < j && s[i] > 0.0
    decreases j
  {
    assert j > 0;
    assert s[..j][..j - 1] == s[..j - 1];
    if s[j - 1] > 0.0 {
      i := j - 1;
    } else {
      i := SomeData(s, j - 1);
    }
  }

  /** The first k nodes have passed everything on. */
  ghost predicate Emptied(s: seq<real>, t: seq<real>, links: seq<bool>, k: nat)
    requires k < |s| == |t| == |links|
  {
    && (forall i :: 0 <= i < k ==> t[i] == 0.0) && (forall i :: k < i < |s| ==> t[i] == s[i])
    && (t[k] > 0.0 ==> forall j :: k < j < |s| ==> links[j])
  }

  lemma HopStart(s: seq<real>, links: seq<bool>)
    requires 0 < |s| == |links| && WayOpen(s, links)
    ensures Emptied(s, s, links, 0)
  {
  }

  lemma HopStep(s: seq<real>, t: seq<real>, links: seq<bool>, limit: real, k: nat)
    requires k + 1 < |s| == |t| == |links| && WayOpen(s, links) && Emptied(s, t, links, k)
    requires 0.0 <= t[k] <= limit && 0.0 <= s[k + 1]
    ensures Emptied(s, if links[k + 1] then Moved(t, k, k + 1, Min(t[k], limit)) else t, links, k + 1)
  {
  }

  lemma {:induction false} HopEmpties(s: seq<real>, links: seq<bool>, limit: real, total: real, k: nat)
    requires AmountsOk(s, total, Hop) && k < |s| == |links| && limit >= Remaining(s) && WayOpen(s, links)
    ensures Emptied(s, MovedAll(s, links, Hop, limit, k), links, k)
  {
    hide Sum, Moved, Min, WayOpen;
    RemainingIs(s, total, Hop);
    if k > 0 {
      HopEmpties(s, links, limit, total, k - 1);
      var t := MovedAll(s, links, Hop, limit, k - 1);
      PassKeeps(s, links, Hop, limit, total, k - 1);
      RemainingIs(t, total, Hop);
      HopPass(s, links, limit, k - 1);
      PartOfSum(t, k - 1, |s| - 1);
      HopStep(s, t, links, limit, k - 1);
    } else {
      HopStart(s, links);
    }
  }

  lemma AllAtTheEnd(t: seq<real>, links: seq<bool>, s: seq<real>, total: real)
    requires AmountsOk(t, total, Hop) && |s| == |t| == |links| && Emptied(s, t, links, |s| - 1)
    ensures t[|s| - 1] == total
  {
    RemainingIs(t, total, Hop);
    if Remaining(t) > 0.0 { var i := SomeData(t, |t| - 1); }
  }

  lemma OpenWaysComplete(s: seq<real>, links: seq<bool>, mode: HopMode, limit: real, total: real)
    requires AmountsOk(s, total, mode) && |s| == |links| && limit >= Remaining(s) > 0.0 && WayOpen(s, links)
    ensures Completes(s, links, mode, limit, total)
  {
    hide Sum, MovedAll;
    var i := SomeData(s, |s| - 1);
    var k := if mode == Hop then |s| - 2 else 0;
    assert Open(links, mode, k) by { assert mode == EndToEnd ==> i == 0; }
    if mode == Hop {
      HopEmpties(s, links, limit, total, |s| - 1);
      PassKeeps(s, links, mode, limit, total, |s| - 1);
      AllAtTheEnd(MovedAll(s, links, mode, limit, |s| - 1), links, s, total);
    } else {
      EndToEndPass(s, links, limit, total, 1);
      RemainingIs(s, total, mode);
      FirstIsRemaining(s, total);
    }
    assert CompletesAt(s, links, mode, limit, total, k);
  }

  /** A pass that can move all that is left completes exactly if no data is cut off. */
  lemma CompletesIff(s: seq<real>, links: seq<bool>, mode: HopMode, limit: real, total: real)
    requires AmountsOk(s, total, mode) && |s| == |links| && limit >= Remaining(s) > 0.0
    ensures Completes(s, links, mode, limit, total) <==> WayOpen(s, links)
  {
    hide Completes, WayOpen, Remaining, NonNegative, Sum;
    if WayOpen(s, links) {
      OpenWaysComplete(s, links, mode, limit, total);
    } else if Completes(s, links, mode, limit, total) {
      LimitIsPositive(s, limit, total, mode);
      CompletesOnOpenWays(s, links, mode, limit, total);
    }
  }

  lemma LimitIsPositive(s: seq<real>, limit: real, total: real, mode: HopMode)
    requires AmountsOk(s, total, mode) && limit >= Remaining(s)
    ensures limit >= 0.0
  {
    RemainingIs(s, total, mode);
  }

  lemma FirstIsRemaining(s: seq<real>, total: real)
    requires AmountsOk(s, total, EndToEnd) && |s| > 1
    ensures Remaining(s) == s[0]
  {
    FirstOnly(s, |s| - 1);
  }

  lemma {:induction false} NothingMoves(s: seq<real>, links: seq<bool>, mode: HopMode, limit: real, k: nat)
    requires k < |s| == |links| && limit >= 0.0 && forall i :: 0 <= i < |s| - 1 ==> s[i] == 0.0
    ensures MovedAll(s, links, mode, limit, k) == s
  {
    hide Open;
    if k > 0 {
      NothingMoves(s, links, mode, limit, k - 1);
      assert Moved(s, k - 1, Dest(mode, k - 1, |s|), 0.0) == s;
    }
  }

  /** If nothing is left, the limit of a pass does not matter. */
  lemma NothingToMove(s: seq<real>, links: seq<bool>, mode: HopMode, limit: real, limit2: real, total: real)
    requires 0 < |s| == |links| && limit >= 0.0 && limit2 >= 0.0 && forall i :: 0 <= i < |s| - 1 ==> s[i] == 0.0
    requires Completes(s, links, mode, limit, total)
    ensures Completes(s, links, mode, limit2, total)
  {
    hide Open, MovedAll;
    var k: nat :| k < |s| - 1 && CompletesAt(s, links, mode, limit, total, k);
    NothingMoves(s, links, mode, limit, k + 1);
    NothingMoves(s, links, mode, limit2, k + 1);
    assert CompletesAt(s, links, mode, limit2, total, k);
  }

  /** After a pass that could move all that was left but did not complete, no later pass over the same
      links completes. */
  lemma SecondPassIsIdle(s: seq<real>, links: seq<bool>, mode: HopMode, limit: real, total: real)
    requires AmountsOk(s, total, mode) && |s| == |links| && limit >= 0.0
    requires !Completes(s, links, mode, Remaining(s), total)
    ensures !Completes(MovedAll(s, links, mode, Remaining(s), |s| - 1), links, mode, limit, total)
  {
    hide Sum, MovedAll, Open, Completes, WayOpen;
    RemainingIs(s, total, mode);
    var u := MovedAll(s, links, mode, Remaining(s), |s| - 1);
    PassKeeps(s, links, mode, Remaining(s), total, |s| - 1);
    if Completes(u, links, mode, limit, total) {
      CompletesOnOpenWays(u, links, mode, limit, total);
      OpenBefore(s, links, mode, Remaining(s), total);
      if Remaining(s) > 0.0 {
        CompletesIff(s, links, mode, Remaining(s), total);
      } else {
        NothingLeft(s, total, mode);
        NothingMoves(s, links, mode, Remaining(s), |s| - 1);
        NothingToMove(s, links, mode, limit, Remaining(s), total);
      }
    }
  }

  lemma NothingLeft(s: seq<real>, total: real, mode: HopMode)
    requires AmountsOk(s, total, mode) && Remaining(s) <= 0.0
    ensures forall i :: 0 <= i < |s| - 1 ==> s[i] == 0.0
  {
    forall i | 0 <= i < |s| - 1 ensures s[i] == 0.0 { PartOfSum(s, i, |s| - 1); }
  }

  /** Data that is cut off stays cut off. */
  lemma OpenBefore(s: seq<real>, links: seq<bool>, mode: HopMode, limit: real, total: real)
    requires AmountsOk(s, total, mode) && |s| == |links| && limit >= 0.0
    requires WayOpen(MovedAll(s, links, mode, limit, |s| - 1), links)
    ensures WayOpen(s, links)
  {
    hide Sum, MovedAll;
    var u := MovedAll(s, links, mode, limit, |s| - 1);
    PassKeeps(s, links, mode, limit, total, |s| - 1);
    forall i, j | 0 <= i < j < |s| && s[i] > 0.0 ensures links[j] {
      if !links[j] {
        CutOffStays(s, links, mode, limit, total, |s| - 1, i, j);
        var h := SomeData(u, j);
      }
    }
  }

  /** The round moves the last data in the very moment of the next event. */
  ghost predicate JustInTime(s: seq<real>, links: seq<bool>, mode: HopMode, bw: real, interval: real)
    requires bw > 0.0 && 0 < |s| == |links|
  {
    && interval > 0.0 && !AllBlocked(links, mode)
    && Completion(s, links, mode, bw) == interval && WayOpen(s, links)
  }

  lemma AmountsOfFlow(amount: seq<real>, carried: seq<real>, total: real, mode: HopMode)
    requires FlowOk(amount, carried, total, mode) && |amount| > 0
    ensures AmountsOk(amount, total, mode)
  {
  }

  lemma LimitOfCompletion(s: seq<real>, links: seq<bool>, mode: HopMode, bw: real, interval: real)
    requires |s| > 0 && bw > 0.0 && !AllBlocked(links, mode)
    ensures
      var t := Completion(s, links, mode, bw);
      && Limit(t, bw) == Remaining(s) && (Limit(interval, bw) <= Remaining(s) <==> interval <= t)
      && (Limit(interval, bw) == Remaining(s) <==> interval == t)
  {
    hide Sum;
    var t := Completion(s, links, mode, bw);
    assert t * bw == Remaining(s);
    if interval < t { assert interval * bw < t * bw; }
    if interval > t { assert interval * bw > t * bw; }
  }

  /** If all that is left takes at least the interval, a pass of the interval completes exactly when it
      takes just the interval and no data is cut off. */
  lemma CompletesJustInTime(s: seq<real>, links: seq<bool>, mode: HopMode, bw: real, interval: real, total: real)
    requires AmountsOk(s, total, mode) && |s| == |links| && bw > 0.0 && interval > 0.0
    requires !AllBlocked(links, mode) && Completion(s, links, mode, bw) >= interval
    ensures Completes(s, links, mode, Limit(interval, bw), total) <==> JustInTime(s, links, mode, bw, interval)
  {
    hide Completes, WayOpen, Remaining, Completion, AllBlocked, Sum, NonNegative, Limit;
    LimitOfCompletion(s, links, mode, bw, interval);
    PositiveLimit(interval, bw);
    var limit := Limit(interval, bw);
    if Completion(s, links, mode, bw) == interval {
      CompletesIff(s, links, mode, limit, total);
    } else if Completes(s, links, mode, limit, total) {
      CompletesAtTheLimit(s, links, mode, limit, total);
    }
  }

  /** What the second pass of a round does, given what the first one left. */
  lemma SecondCall(s: seq<real>, u: seq<real>, links: seq<bool>, mode: HopMode, bw: real, interval: real, total: real)
    requires AmountsOk(s, total, mode) && |s| == |links| && bw > 0.0 && interval > 0.0 && !AllBlocked(links, mode)
    requires
      var t := Completion(s, links, mode, bw);
      if t < interval then !Completes(s, links, mode, Limit(t, bw), total)
                           && u == MovedAll(s, links, mode, Limit(t, bw), |s| - 1)
      else u == s
    ensures |u| == |s|
    ensures Completes(u, links, mode, Limit(interval, bw), total) <==> JustInTime(s, links, mode, bw, interval)
  {
    hide Completes, WayOpen, Remaining, Completion, AllBlocked, Sum, NonNegative, Limit;
    PositiveLimit(interval, bw);
    if Completion(s, links, mode, bw) < interval {
      LimitOfCompletion(s, links, mode, bw, interval);
      SecondPassIsIdle(s, links, mode, Limit(interval, bw), total);
    } else {
      CompletesJustInTime(s, links, mode, bw, interval, total);
    }
  }

  lemma NotJustInTime(s: seq<real>, links: seq<bool>, mode: HopMode, bw: real, interval: real)
    requires bw > 0.0 && 0 < |s| == |links|
    requires interval <= 0.0 || AllBlocked(links, mode) || Completion(s, links, mode, bw) < interval
    ensures !JustInTime(s, links, mode, bw, interval)
  {
  }

  lemma PositiveLimit(interval: real, bw: real)
    requires interval > 0.0 && bw > 0.0
    ensures Limit(interval, bw) > 0.0
  {
  }
}
