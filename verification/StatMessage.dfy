/** One message of the statistics matrix: its rows, the per-bin counts folded from them, the cache
    of these counts, and the last state in which the rows are discarded. */
module StatMessage {
  import opened Collections
  import opened StatRow

  type NodeId = string

  // -------- the fold --------

  /** Nodes that have seen the message by bin i. */
  ghost function SeenAt(views: map<NodeId, View>, i: nat): set<NodeId>
    requires forall k :: k in views ==> i < |views[k].seen|
  {
    set k | k in views && views[k].seen[i] == 1
  }

  /** Nodes that hold a copy in bin i. */
  ghost function CopiesAt(views: map<NodeId, View>, i: nat): set<NodeId>
    requires forall k :: k in views ==> i < |views[k].row.bits|
  {
    set k | k in views && views[k].row.bits[i] == 1
  }

  ghost predicate AllShaped(views: map<NodeId, View>, axeLength: nat) {
    forall k :: k in views ==> Shaped(views[k], axeLength)
  }

  ghost function SeenCounts(views: map<NodeId, View>, axeLength: nat): seq<nat>
    requires AllShaped(views, axeLength)
  {
    seq(axeLength, i requires 0 <= i < axeLength => |SeenAt(views, i)|)
  }

  /** The sum of bin i over the bitmaps of some nodes. */
  ghost function SumBits(views: map<NodeId, View>, nodes: set<NodeId>, i: nat): int
    requires nodes <= views.Keys && forall k :: k in views ==> i < |views[k].row.bits|
  {
    if nodes == {} then 0
    else
      var n :| n in nodes;
      views[n].row.bits[i] + SumBits(views, nodes - {n}, i)
  }

  ghost function CopyCounts(views: map<NodeId, View>, axeLength: nat): seq<int>
    requires AllShaped(views, axeLength)
  {
    seq(axeLength, i requires 0 <= i < axeLength => SumBits(views, views.Keys, i))
  }

  /** The order of the summands does not matter. */
  lemma {:induction false} SumWithout(views: map<NodeId, View>, nodes: set<NodeId>, i: nat, n: NodeId)
    requires nodes <= views.Keys && (forall k :: k in views ==> i < |views[k].row.bits|) && n in nodes
    ensures SumBits(views, nodes, i) == views[n].row.bits[i] + SumBits(views, nodes - {n}, i)
  {
    var c :| c in nodes && SumBits(views, nodes, i) == views[c].row.bits[i] + SumBits(views, nodes - {c}, i);
    if c != n {
      SumWithout(views, nodes - {c}, i, n);
      SumWithout(views, nodes - {n}, i, c);
      assert nodes - {c} - {n} == nodes - {n} - {c};
    }
  }

  /** Only the bins summed up matter. */
  lemma {:induction false} SumAgrees(views: map<NodeId, View>, after: map<NodeId, View>, nodes: set<NodeId>, i: nat)
    requires nodes <= views.Keys && nodes <= after.Keys
    requires forall k :: k in views ==> i < |views[k].row.bits|
    requires forall k :: k in after ==> i < |after[k].row.bits|
    requires forall k :: k in nodes ==> views[k].row.bits[i] == after[k].row.bits[i]
    ensures SumBits(views, nodes, i) == SumBits(after, nodes, i)
  {
    if nodes != {} {
      var n :| n in nodes;
      SumWithout(views, nodes, i, n);
      SumWithout(after, nodes, i, n);
      SumAgrees(views, after, nodes - {n}, i);
    }
  }

  /** For bits the sum counts the nodes that hold a copy. */
  lemma {:induction false} SumIsCount(views: map<NodeId, View>, nodes: set<NodeId>, i: nat)
    requires nodes <= views.Keys && forall k :: k in views ==> i < |views[k].row.bits|
    requires forall k :: k in nodes ==> views[k].row.bits[i] == 0 || views[k].row.bits[i] == 1
    ensures SumBits(views, nodes, i) == |CopiesAt(views, i) * nodes|
  {
    if nodes == {} {
      assert CopiesAt(views, i) * nodes == {};
    } else {
      hide SumBits;
      var n :| n in nodes;
      SumWithout(views, nodes, i, n);
      SumIsCount(views, nodes - {n}, i);
      CountWithout(CopiesAt(views, i), nodes, n);
    }
  }

  lemma CountWithout<T>(all: set<T>, nodes: set<T>, n: T)
    requires n in nodes
    ensures |all * nodes| == |all * (nodes - {n})| + if n in all then 1 else 0
  {
    assert all * nodes == if n in all then all * (nodes - {n}) + {n} else all * (nodes - {n});
  }

  /** All rows are well formed. */
  ghost predicate ViewsOk(views: map<NodeId, View>, axeLength: nat) {
    forall k :: k in views ==> ViewOk(views[k], axeLength)
  }

  lemma CopiesAreCounted(views: map<NodeId, View>, axeLength: nat)
    requires ViewsOk(views, axeLength)
    ensures AllShaped(views, axeLength)
    ensures forall i :: 0 <= i < axeLength ==> CopyCounts(views, axeLength)[i] == |CopiesAt(views, i)|
  {
    forall i | 0 <= i < axeLength ensures CopyCounts(views, axeLength)[i] == |CopiesAt(views, i)| {
      SumIsCount(views, views.Keys, i);
      assert CopiesAt(views, i) * views.Keys == CopiesAt(views, i);
    }
  }

  /** Copies are never more than the nodes that have seen the message, these never more than the
      rows, and the seen counts grow along the axis. */
  lemma CountBounds(views: map<NodeId, View>, axeLength: nat)
    requires ViewsOk(views, axeLength)
    ensures AllShaped(views, axeLength)
    ensures forall i :: 0 <= i < axeLength ==>
              CopyCounts(views, axeLength)[i] <= SeenCounts(views, axeLength)[i] <= |views|
    ensures forall i, j :: 0 <= i <= j < axeLength ==>
              SeenCounts(views, axeLength)[i] <= SeenCounts(views, axeLength)[j]
  {
    CopiesAreCounted(views, axeLength);
    forall i | 0 <= i < axeLength
      ensures CopyCounts(views, axeLength)[i] <= SeenCounts(views, axeLength)[i] <= |views|
    {
      SubsetSize(CopiesAt(views, i), SeenAt(views, i));
      SubsetSize(SeenAt(views, i), views.Keys);
      assert |views.Keys| == |views|;
    }
    forall i, j | 0 <= i <= j < axeLength
      ensures SeenCounts(views, axeLength)[i] <= SeenCounts(views, axeLength)[j]
    {
      SubsetSize(SeenAt(views, i), SeenAt(views, j));
    }
  }

  /** Generating the last version of a row changes no count. */
  lemma LastVersionKeepsCounts(views: map<NodeId, View>, axeLength: nat, own: NodeId)
    requires AllShaped(views, axeLength) && own in views
    ensures
      var after := views[own := SetBin(views[own], axeLength, 0, false)];
      && AllShaped(after, axeLength)
      && SeenCounts(after, axeLength) == SeenCounts(views, axeLength)
      && CopyCounts(after, axeLength) == CopyCounts(views, axeLength)
  {
    var after := views[own := SetBin(views[own], axeLength, 0, false)];
    forall i | 0 <= i < axeLength
      ensures SeenAt(after, i) == SeenAt(views, i)
      ensures SumBits(after, after.Keys, i) == SumBits(views, views.Keys, i)
    {
      assert after.Keys == views.Keys;
      SumAgrees(views, after, views.Keys, i);
    }
  }

  lemma NoneShaped(axeLength: nat)
    ensures AllShaped(map[], axeLength)
  {
  }

  lemma ShapedPlus(views: map<NodeId, View>, axeLength: nat, k: NodeId, v: View)
    requires AllShaped(views, axeLength) && Shaped(v, axeLength)
    ensures AllShaped(views[k := v], axeLength)
  {
  }

  lemma SeenMembers(views: map<NodeId, View>, i: nat)
    requires forall k :: k in views ==> i < |views[k].seen|
    ensures SeenAt(views, i) - views.Keys == {}
    ensures forall n :: n in views ==> (n in SeenAt(views, i) <==> views[n].seen[i] == 1)
  {
  }

  lemma CountOne<T>(all: set<T>, rest: set<T>, n: T)
    requires n in rest
    ensures |all - (rest - {n})| == |all - rest| + if n in all then 1 else 0
  {
    assert all - (rest - {n}) == if n in all then (all - rest) + {n} else all - rest;
  }

  // -------- a message as a value, and its operations --------

  datatype Msg = Msg(views: map<NodeId, View>, mi: seq<int>, ni: seq<int>, ttl: int, lifeTime: int,
                     lastLtUpdate: int, updated: int, lastMi: int, lastNi: int, frozen: bool,
                     nulls: set<NodeId>)

  ghost predicate MsgOk(s: Msg, axeLength: nat) {
    AllShaped(s.views, axeLength) && |s.mi| == |s.ni| == axeLength
  }

  /** Entries of the row map, null ones included. */
  ghost function Rows(s: Msg): nat { |s.views| + |s.nulls| }

  ghost function Observed(views: map<NodeId, View>, axeLength: nat, node: NodeId, bin: nat, value: int)
    : (r: map<NodeId, View>)
    requires AllShaped(views, axeLength)
    ensures AllShaped(r, axeLength)
  {
    views[node := if node in views then SetBin(views[node], bin, value, false)
                  else FirstBin(axeLength, bin, value)]
  }

  /** A local update: the bin of life time lt takes the value. */
  ghost function Recorded(s: Msg, axeLength: nat, node: NodeId, bin: nat, value: int, lt: int, ttl: int,
                          now: int): (r: Msg)
    requires MsgOk(s, axeLength)
    ensures MsgOk(r, axeLength)
  {
    s.(views := Observed(s.views, axeLength, node, bin, value), ttl := ttl, lifeTime := lt,
       lastLtUpdate := now, updated := now)
  }

  ghost function Told(views: map<NodeId, View>, axeLength: nat, node: NodeId, row: Row): (r: map<NodeId, View>)
    requires AllShaped(views, axeLength) && |row.bits| == axeLength
    ensures AllShaped(r, axeLength)
  {
    views[node := if node in views then Merge(views[node], row) else TakeReport(Blank(axeLength), row)]
  }

  /** A row received for a known message. The time of the last update stays. */
  ghost function Learned(s: Msg, axeLength: nat, node: NodeId, row: Row, ttl: int): (r: Msg)
    requires MsgOk(s, axeLength) && |row.bits| == axeLength
    ensures MsgOk(r, axeLength)
  {
    s.(views := Told(s.views, axeLength, node, row), ttl := ttl)
  }

  /** Asking for the seen counts recomputes them if there was a local update since the last time. */
  ghost predicate FoldsSeen(s: Msg) { s.lastMi < s.updated && Rows(s) > 0 }

  ghost predicate FoldsCopies(s: Msg) { s.lastNi < s.updated && Rows(s) > 0 }

  ghost function AskedSeen(s: Msg, axeLength: nat, now: int): (r: Msg)
    requires MsgOk(s, axeLength)
    ensures MsgOk(r, axeLength)
  {
    if FoldsSeen(s) then
      s.(mi := if s.frozen then s.mi else SeenCounts(s.views, axeLength), lastMi := now)
    else s
  }

  ghost function AskedCopies(s: Msg, axeLength: nat, now: int): (r: Msg)
    requires MsgOk(s, axeLength)
    ensures MsgOk(r, axeLength)
  {
    if FoldsCopies(s) then
      s.(ni := if s.frozen then s.ni else CopyCounts(s.views, axeLength), lastNi := now)
    else s
  }

  /** Past its time to live, the row of the endpoint is closed with the last version. The look-up of a
      row that is not there leaves a null entry. */
  ghost function Closed(s: Msg, axeLength: nat, endpoint: NodeId, now: int): (r: Msg)
    requires MsgOk(s, axeLength)
    ensures MsgOk(r, axeLength)
  {
    var lt := now - s.lastLtUpdate + s.lifeTime;
    s.(lifeTime := lt, lastLtUpdate := now,
       views := if lt >= s.ttl && endpoint in s.views && s.views[endpoint].row.version < axeLength
                then s.views[endpoint := SetBin(s.views[endpoint], axeLength, 0, false)] else s.views,
       nulls := if lt >= s.ttl && endpoint !in s.views then s.nulls + {endpoint} else s.nulls)
  }

  ghost predicate AllReach(views: map<NodeId, View>, version: int) {
    forall k :: k in views ==> views[k].row.version >= version
  }

  ghost predicate OthersReach(views: map<NodeId, View>, but: set<NodeId>, version: int) {
    forall k :: k in views && k !in but ==> views[k].row.version >= version
  }

  lemma OneMoreReaches(views: map<NodeId, View>, but: set<NodeId>, n: NodeId, version: int)
    requires n in views
    ensures OthersReach(views, but - {n}, version)
            <==> OthersReach(views, but, version) && views[n].row.version >= version
  {
  }

  lemma NoneReaches(views: map<NodeId, View>)
    ensures forall v :: OthersReach(views, views.Keys, v)
  {
  }

  lemma AllReachIs(views: map<NodeId, View>)
    ensures forall v :: AllReach(views, v) <==> OthersReach(views, {}, v)
  {
  }

  /** Two or more entries, and every row has the last version. */
  ghost predicate IsComplete(s: Msg, axeLength: nat) {
    Rows(s) >= 2 && AllReach(s.views, axeLength)
  }

  /** isValid: a complete message is folded once more, its rows are discarded and its counts are kept. */
  ghost function Validated(s: Msg, axeLength: nat, endpoint: NodeId, now: int): (r: Msg)
    requires MsgOk(s, axeLength)
    ensures MsgOk(r, axeLength)
  {
    if s.frozen then s
    else
      var c := Closed(s, axeLength, endpoint, now);
      if IsComplete(c, axeLength) then
        c.(mi := SeenCounts(c.views, axeLength), ni := CopyCounts(c.views, axeLength), views := map[],
           frozen := true, nulls := {})
      else c
  }

  /** A message that has just been created. */
  ghost function New(axeLength: nat, ttl: int, now: int): (s: Msg)
    ensures MsgOk(s, axeLength)
  {
    Msg(map[], Zeros(axeLength), Zeros(axeLength), ttl, 0, now, now, 0, 0, false, {})
  }

  /** A report that is at least as new as every update is the fold over the rows. */
  ghost predicate Current(counts: seq<int>, fold: seq<int>, lastReport: int, updated: int, rows: nat) {
    lastReport >= updated || rows == 0 ==> counts == fold
  }

  ghost predicate CacheOk(s: Msg, axeLength: nat)
    requires MsgOk(s, axeLength)
  {
    && Current(s.mi, SeenCounts(s.views, axeLength), s.lastMi, s.updated, Rows(s))
    && Current(s.ni, CopyCounts(s.views, axeLength), s.lastNi, s.updated, Rows(s))
  }

  /** Without rows there is nothing to count. */
  lemma NewIsCounted(axeLength: nat, ttl: int, now: int)
    ensures CacheOk(New(axeLength, ttl, now), axeLength)
  {
    assert forall i :: 0 <= i < axeLength ==> SeenAt(map[], i) == {};
    assert Zeros(axeLength) == SeenCounts(map[], axeLength) == CopyCounts(map[], axeLength);
  }

  // -------- operations --------

  /** Record is a local update, Learn a row received for a known message, Validate a call of isValid that
      closes the row of the endpoint. */
  datatype Op =
    | Record(node: NodeId, bin: nat, value: int, lt: int, ttl: int, now: int)
    | Learn(node: NodeId, row: Row, ttl: int, now: int)
    | AskSeen(now: int)
    | AskCopies(now: int)
    | Validate(endpoint: NodeId, now: int)

  ghost predicate OpOk(op: Op, axeLength: nat) {
    op.Learn? ==> |op.row.bits| == axeLength
  }

  ghost function Apply(s: Msg, axeLength: nat, op: Op): (r: Msg)
    requires MsgOk(s, axeLength) && OpOk(op, axeLength)
    ensures MsgOk(r, axeLength)
  {
    match op
    case Record(node, bin, value, lt, ttl, now) => Recorded(s, axeLength, node, bin, value, lt, ttl, now)
    case Learn(node, row, ttl, _) => Learned(s, axeLength, node, row, ttl)
    case AskSeen(now) => AskedSeen(s, axeLength, now)
    case AskCopies(now) => AskedCopies(s, axeLength, now)
    case Validate(endpoint, now) => Validated(s, axeLength, endpoint, now)
  }

  /** A row as it is read from the text of a message. */
  datatype RowReport = RowReport(node: NodeId, bits: map<int, int>, meeting: int, version: int, start: int)

  ghost function LearnedAll(s: Msg, axeLength: nat, rs: seq<RowReport>, ttl: int): (r: Msg)
    requires MsgOk(s, axeLength)
    ensures MsgOk(r, axeLength)
  {
    if rs == [] then s.(ttl := ttl)
    else
      var front, r := LearnedAll(s, axeLength, rs[..|rs| - 1], ttl), rs[|rs| - 1];
      Learned(front, axeLength, r.node, Row(FirstEntries(r.bits, axeLength), r.start, r.version), ttl)
  }

  lemma LearnedMore(s: Msg, axeLength: nat, rs: seq<RowReport>, i: nat, ttl: int)
    requires MsgOk(s, axeLength) && i < |rs|
    ensures
      LearnedAll(s, axeLength, rs[..i + 1], ttl)
      == Learned(LearnedAll(s, axeLength, rs[..i], ttl), axeLength, rs[i].node,
                 Row(FirstEntries(rs[i].bits, axeLength), rs[i].start, rs[i].version), ttl)
  {
    hide Learned, MsgOk;
    assert rs[..i + 1][..i] == rs[..i];
  }

  /** The operation reads a null entry as a row, which ends the program: an update of that row, or a sum
      over all rows. */
  ghost predicate ReadsNull(s: Msg, axeLength: nat, op: Op)
    requires MsgOk(s, axeLength)
  {
    match op
    case Record(node, _, _, _, _, _) => node in s.nulls
    case Learn(node, _, _, _) => node in s.nulls
    case AskSeen(_) => FoldsSeen(s) && !s.frozen && axeLength > 0 && s.nulls != {}
    case AskCopies(_) => FoldsCopies(s) && !s.frozen && axeLength > 0 && s.nulls != {}
    case Validate(endpoint, now) =>
      var c := Closed(s, axeLength, endpoint, now);
      !s.frozen && IsComplete(c, axeLength) && axeLength > 0 && c.nulls != {}
  }

  /** DtnStatMessage. The clock is passed in, in seconds since the epoch. */
  class DtnStatMessage {
    const axeLength: nat
    var mapNodes: map<NodeId, StatNode>
    var nullNodes: set<NodeId>  // the entries of mapNodes that are null
    var miMap: map<int, int>
    var niMap: map<int, int>
    var ttl: int
    var lifeTime: int
    var lastLtUpdate: int
    var updated: int
    var lastMiReport: int
    var lastNiReport: int
    var frozen: bool  // messageStatus == 1
    ghost var views: map<NodeId, View>  // the rows as values

    /** The rows have the values of views. */
    ghost predicate Nodes()
      reads this`mapNodes, this`nullNodes, this`views, mapNodes.Values
    {
      && views.Keys == mapNodes.Keys && views.Keys !! nullNodes && AllShaped(views, axeLength)
      && forall k :: k in mapNodes ==> RowIs(mapNodes[k], k, views[k])
    }

    ghost predicate RowIs(n: StatNode, k: NodeId, v: View)
      reads n
    {
      n.nodeId == k && n.axeLength == axeLength && n.Valid() && n.AsView() == v
    }

    /** The counts of the axis, and zeros for other bins that were asked for. */
    ghost predicate CountMap(m: map<int, int>) {
      Covers(m, axeLength) && forall i :: i in m && i >= axeLength ==> m[i] == 0
    }

    ghost predicate Valid()
      reads this`mapNodes, this`nullNodes, this`views, this`miMap, this`niMap, mapNodes.Values
    {
      Nodes() && CountMap(miMap) && CountMap(niMap)
    }

    /** Looking up a bin creates it. */
    function WithBin(m: map<int, int>, bin: nat): (r: map<int, int>)
      requires CountMap(m)
      ensures CountMap(r) && Entries(r, axeLength) == Entries(m, axeLength)
      ensures bin in r && r[bin] == if bin < axeLength then Entries(m, axeLength)[bin] else 0
    {
      if bin in m then m else m[bin := 0]
    }

    lemma SameKeys()
      requires Nodes()
      ensures views.Keys == mapNodes.Keys && views.Keys !! nullNodes && AllShaped(views, axeLength)
    {
    }

    ghost function Mi(): seq<int>
      reads this
      requires Covers(miMap, axeLength)
    {
      Entries(miMap, axeLength)
    }

    ghost function Ni(): seq<int>
      reads this
      requires Covers(niMap, axeLength)
    {
      Entries(niMap, axeLength)
    }

    ghost function State(): (s: Msg)
      reads this, mapNodes.Values
      requires Valid()
      ensures MsgOk(s, axeLength)
    {
      Msg(views, Mi(), Ni(), ttl, lifeTime, lastLtUpdate, updated, lastMiReport, lastNiReport, frozen, nullNodes)
    }

    constructor (axeLength: nat, ttl: int, now: int)
      ensures Valid() && this.axeLength == axeLength
      ensures State() == New(axeLength, ttl, now)
      ensures CacheOk(State(), axeLength)
    {
      this.axeLength := axeLength;
      this.ttl, updated, frozen := ttl, now, false;
      mapNodes, nullNodes, miMap, niMap, views := map[], {}, map[], map[], map[];
      lastMiReport, lastNiReport, lifeTime, lastLtUpdate := 0, 0, 0, now;
      new;
      for i := 0 to axeLength
        invariant forall k :: (k in miMap <==> 0 <= k < i) && (k in miMap ==> miMap[k] == 0)
        invariant forall k :: (k in niMap <==> 0 <= k < i) && (k in niMap ==> niMap[k] == 0)
        invariant mapNodes == map[] && nullNodes == {} && views == map[] && this.ttl == ttl && updated == now && !frozen
        invariant lastMiReport == lastNiReport == lifeTime == 0 && lastLtUpdate == now
      {
        miMap := miMap[i := 0];
        niMap := niMap[i := 0];
      }
      NewIsCounted(axeLength, ttl, now);
      hide SeenCounts, CopyCounts, CacheOk;
      assert Mi() == Zeros(axeLength) == Ni();
    }

    /** getLifeTime advances the life time to the present. */
    method GetLifeTime(now: int) returns (lt: int)
      modifies this`lifeTime, this`lastLtUpdate
      ensures lt == lifeTime == old(lifeTime) + (now - old(lastLtUpdate)) && lastLtUpdate == now
    {
      lifeTime := now - lastLtUpdate + lifeTime;
      lastLtUpdate := now;
      lt := lifeTime;
    }

    /** Creates the entry of a node that has none. */
    method NewNode(nodeId: NodeId, lm: int)
      requires Nodes() && nodeId !in mapNodes && nodeId !in nullNodes
      modifies this`mapNodes, this`views
      ensures Nodes() && nodeId in mapNodes && fresh(mapNodes[nodeId]) && mapNodes[nodeId].lastMeetingTime == lm
      ensures mapNodes == old(mapNodes)[nodeId := mapNodes[nodeId]]
      ensures views == old(views)[nodeId := Blank(axeLength)]
    {
      ShapedPlus(views, axeLength, nodeId, Blank(axeLength));
      hide Blank, AllShaped, RowIs;
      var node := MakeNode(nodeId, lm);
      mapNodes := mapNodes[nodeId := node];
      views := views[nodeId := Blank(axeLength)];
    }

    method MakeNode(nodeId: NodeId, lm: int) returns (node: StatNode)
      ensures fresh(node) && RowIs(node, nodeId, Blank(axeLength)) && node.lastMeetingTime == lm
    {
      node := new StatNode(nodeId, axeLength, lm);
    }

    method Observe(nodeId: NodeId, bin: nat, binValue: int, first: bool) returns (alive: bool)
      requires Nodes() && bin <= axeLength && nodeId in mapNodes
      modifies this`views, mapNodes[nodeId]
      ensures Nodes() && mapNodes[nodeId].lastMeetingTime == old(mapNodes[nodeId].lastMeetingTime)
      ensures views == old(views)[nodeId := SetBin(old(views)[nodeId], bin, binValue, first)]
      ensures alive <==> SaneBit(views[nodeId], bin)
    {
      hide SetBin, SaneBit, StatNode.Valid, StatNode.AsView;
      alive := mapNodes[nodeId].SetTimeBinValue(bin, binValue, true, first);
      views := views[nodeId := mapNodes[nodeId].AsView()];
    }

    method Touch(nodeId: NodeId, meetingTime: int)
      requires Nodes() && nodeId in mapNodes
      modifies mapNodes[nodeId]
      ensures Nodes() && mapNodes[nodeId].lastMeetingTime == meetingTime
    {
      hide StatNode.Valid, StatNode.AsView;
      mapNodes[nodeId].UpdateMeetingTime(meetingTime);
    }

    /** addNode for the node's own observation. The program ends if the entry of the node is null, or
        if the bin observed then holds another number than 0 or 1. */
    method AddNode(nodeId: NodeId, bin: nat, binValue: int, meetingTime: int) returns (alive: bool)
      requires Nodes() && bin <= axeLength
      modifies this`mapNodes, this`views, mapNodes.Values
      ensures Nodes()
      ensures nodeId in nullNodes ==> !alive && views == old(views) && mapNodes == old(mapNodes)
      ensures nodeId !in nullNodes ==>
                && views == Observed(old(views), axeLength, nodeId, bin, binValue)
                && nodeId in views && (alive <==> SaneBit(views[nodeId], bin))
                && nodeId in mapNodes && mapNodes[nodeId].lastMeetingTime == meetingTime
    {
      hide SetBin, SaneBit, Blank, AllShaped, Nodes;
      SameKeys();
      if nodeId in nullNodes { return false; }
      if nodeId in mapNodes {
        alive := Observe(nodeId, bin, binValue, false);
        Touch(nodeId, meetingTime);
      } else {
        NewNode(nodeId, meetingTime);
        alive := Observe(nodeId, bin, binValue, true);
      }
    }

    /** The local update of addStatMessage and updateBundleStatus. */
    method RecordAt(nodeId: NodeId, bin: nat, binValue: int, lt: int, ttl: int, now: int) returns (alive: bool)
      requires Valid() && bin <= axeLength
      modifies this, mapNodes.Values
      ensures Valid()
      ensures ReadsNull(old(State()), axeLength, Record(nodeId, bin, binValue, lt, ttl, now)) ==> !alive
      ensures !ReadsNull(old(State()), axeLength, Record(nodeId, bin, binValue, lt, ttl, now)) ==>
                && State() == Recorded(old(State()), axeLength, nodeId, bin, binValue, lt, ttl, now)
                && nodeId in views && (alive <==> SaneBit(views[nodeId], bin))
                && nodeId in mapNodes && mapNodes[nodeId].lastMeetingTime == now
    {
      hide Observed, SaneBit, Nodes, Entries;
      SameKeys();
      this.ttl := ttl;
      updated := now;
      lifeTime, lastLtUpdate := lt, now;
      alive := AddNode(nodeId, bin, binValue, now);
    }

    method TakeRow(nodeId: NodeId, m: map<int, int>, lm: int, statVersion: int, miStartIndex: int)
      requires Nodes() && nodeId in mapNodes
      modifies this`views, mapNodes[nodeId]
      ensures Nodes()
      ensures
        var r := Row(FirstEntries(m, axeLength), miStartIndex, statVersion);
        views == old(views)[nodeId := TakeReport(old(views)[nodeId], r)]
    {
      hide TakeReport, FirstEntries, StatNode.Valid, StatNode.AsView;
      mapNodes[nodeId].Overwrite(m, lm, statVersion, miStartIndex);
      views := views[nodeId := mapNodes[nodeId].AsView()];
    }

    lemma VersionOf(nodeId: NodeId)
      requires Nodes() && nodeId in mapNodes
      ensures nodeId in views && views[nodeId].row.version == mapNodes[nodeId].statVersion
    {
      mapNodes[nodeId].VersionOfView();
    }

    /** addNode for a received row. It is ignored if it is older than the known one; a version beyond
        the axis and a null entry of the node end the program. */
    method AddReport(nodeId: NodeId, m: map<int, int>, lm: int, statVersion: int, miStartIndex: int)
      returns (alive: bool)
      requires Nodes()
      modifies this`mapNodes, this`views, mapNodes.Values
      ensures Nodes() && (alive <==> statVersion <= axeLength && nodeId !in nullNodes)
      ensures fresh(mapNodes.Values - old(mapNodes.Values))
      ensures !alive ==> mapNodes == old(mapNodes) && views == old(views)
      ensures alive ==>
        views == Told(old(views), axeLength, nodeId, Row(FirstEntries(m, axeLength), miStartIndex, statVersion))
    {
      hide TakeReport, Blank, FirstEntries, AllShaped, Nodes;
      SameKeys();
      if statVersion > axeLength || nodeId in nullNodes { return false; }
      alive := true;
      if nodeId in mapNodes {
        VersionOf(nodeId);
        if mapNodes[nodeId].statVersion <= statVersion {
          TakeRow(nodeId, m, lm, statVersion, miStartIndex);
        } else {
          assert views == views[nodeId := views[nodeId]];
        }
      } else {
        NewNode(nodeId, lm);
        TakeRow(nodeId, m, lm, statVersion, miStartIndex);
      }
    }

    method LearnRow(r: RowReport, ttl: int) returns (alive: bool)
      requires Valid()
      modifies this`mapNodes, this`views, this`ttl, mapNodes.Values
      ensures Valid() && (alive <==> r.version <= axeLength && r.node !in nullNodes)
      ensures fresh(mapNodes.Values - old(mapNodes.Values))
      ensures alive ==>
        var row := Row(FirstEntries(r.bits, axeLength), r.start, r.version);
        State() == Learned(old(State()), axeLength, r.node, row, ttl)
    {
      hide Told, AllShaped, FirstEntries, Entries, Nodes;
      this.ttl := ttl;
      alive := AddReport(r.node, r.bits, r.meeting, r.version, r.start);
    }

    /** updateMessage: the TTL and the rows of a received message, up to the first row that ends the program. */
    method UpdateMessage(rs: seq<RowReport>, ttl: int) returns (alive: bool)
      requires Valid()
      modifies this`mapNodes, this`views, this`ttl, mapNodes.Values
      ensures Valid() && (alive <==> forall r :: r in rs ==> r.version <= axeLength && r.node !in nullNodes)
      ensures alive ==> State() == LearnedAll(old(State()), axeLength, rs, ttl)
    {
      hide Learned, AllShaped, FirstEntries, Entries, Nodes, CountMap;
      this.ttl := ttl;
      alive := true;
      var i := 0;
      while i < |rs|
        invariant 0 <= i <= |rs| && Valid() && fresh(mapNodes.Values - old(mapNodes.Values))
        invariant forall r :: r in rs[..i] ==> r.version <= axeLength && r.node !in nullNodes
        invariant State() == LearnedAll(old(State()), axeLength, rs[..i], ttl)
      {
        var r := rs[i];
        assert r in rs && rs[..i + 1] == rs[..i] + [r];
        LearnedMore(old(State()), axeLength, rs, i, ttl);
        alive := LearnRow(r, ttl);
        if !alive { return; }
        i := i + 1;
      }
      assert rs[..i] == rs;
    }

    /** The sum of the seen-maps at one bin, node by node. */
    method SumSeen(i: nat) returns (sum: int)
      requires Valid() && i < axeLength
      ensures sum == |SeenAt(views, i)|
    {
      hide SeenAt, AllShaped, StatNode.Valid, StatNode.AsView, StatNode.Bit, StatNode.MiBit;
      sum := 0;
      var rest := mapNodes.Keys;
      ghost var all := SeenAt(views, i);
      SeenMembers(views, i);
      while rest != {}
        invariant rest <= mapNodes.Keys && sum == |all - rest|
        decreases rest
      {
        var n :| n in rest;
        CountOne(all, rest, n);
        sum := sum + mapNodes[n].MiBit(i);
        rest := rest - {n};
      }
      assert all - {} == all;
    }

    /** The sum of the bitmaps at one bin. */
    method SumCopies(i: nat) returns (sum: int)
      requires Valid() && i < axeLength
      ensures sum == SumBits(views, views.Keys, i)
    {
      hide SumBits, StatNode.Valid, StatNode.AsView, StatNode.Bit, StatNode.MiBit;
      sum := 0;
      var rest := mapNodes.Keys;
      NothingToSum(i);
      while rest != {}
        invariant rest <= mapNodes.Keys && sum + SumBits(views, rest, i) == SumBits(views, views.Keys, i)
        decreases rest
      {
        var n :| n in rest;
        SumWithout(views, rest, i, n);
        sum := sum + mapNodes[n].Bit(i);
        rest := rest - {n};
      }
    }

    lemma NothingToSum(i: nat)
      requires Valid() && i < axeLength
      ensures SumBits(views, {}, i) == 0
    {
    }

    /** Adds up the seen-maps; a frozen message keeps its counts. A null entry ends the program. */
    method UpdateMiMap() returns (alive: bool)
      requires Valid()
      modifies this`miMap
      ensures Valid() && (alive <==> frozen || axeLength == 0 || nullNodes == {})
      ensures alive ==> Mi() == if frozen then old(Mi()) else SeenCounts(views, axeLength)
    {
      hide SeenAt, StatNode.Valid, StatNode.AsView;
      alive := true;
      if !frozen {
        if axeLength > 0 && nullNodes != {} { return false; }
        for i := 0 to axeLength
          invariant Valid()
          invariant forall k :: 0 <= k < i ==> miMap[k] == |SeenAt(views, k)|
        {
          var sum := SumSeen(i);
          miMap := miMap[i := sum];
        }
        assert Mi() == SeenCounts(views, axeLength);
      }
    }

    method UpdateNiMap() returns (alive: bool)
      requires Valid()
      modifies this`niMap
      ensures Valid() && (alive <==> frozen || axeLength == 0 || nullNodes == {})
      ensures alive ==> Ni() == if frozen then old(Ni()) else CopyCounts(views, axeLength)
    {
      hide SumBits, StatNode.Valid, StatNode.AsView;
      alive := true;
      if !frozen {
        if axeLength > 0 && nullNodes != {} { return false; }
        for i := 0 to axeLength
          invariant Valid()
          invariant forall k :: 0 <= k < i ==> niMap[k] == SumBits(views, views.Keys, k)
        {
          var sum := SumCopies(i);
          niMap := niMap[i := sum];
        }
        assert Ni() == CopyCounts(views, axeLength);
      }
    }

    /** The report of the seen counts is renewed if it is due. */
    method RefreshSeen(now: int) returns (alive: bool)
      requires Valid()
      modifies this`miMap, this`lastMiReport
      ensures Valid() && (alive <==> !ReadsNull(old(State()), axeLength, AskSeen(now)))
      ensures alive ==> State() == AskedSeen(old(State()), axeLength, now)
    {
      hide SeenCounts, Nodes, AllShaped, CountMap, Entries;
      SameSize();
      SameKeys();
      alive := true;
      if lastMiReport < updated && |mapNodes| + |nullNodes| > 0 {
        alive := UpdateMiMap();
        if alive { lastMiReport := now; }
      }
    }

    /** Nodes that have seen the message by binIndex, at least 1. The look-up of a bin that is not on
        the axis creates a zero. */
    method GetNumberOfNodesThatHaveSeenIt(binIndex: nat, now: int) returns (n: int, alive: bool)
      requires Valid()
      modifies this`miMap, this`lastMiReport
      ensures Valid() && (alive <==> !ReadsNull(old(State()), axeLength, AskSeen(now)))
      ensures alive ==> State() == AskedSeen(old(State()), axeLength, now)
      ensures alive ==> n == if binIndex >= axeLength || Mi()[binIndex] == 0 then 1 else Mi()[binIndex]
    {
      hide SeenCounts, AskedSeen, Nodes, CountMap, Entries, ReadsNull;
      alive := RefreshSeen(now);
      if !alive { return 0, false; }
      miMap := WithBin(miMap, binIndex);
      n := if miMap[binIndex] == 0 then 1 else miMap[binIndex];
    }

    /** The report of the copies is renewed if it is due. */
    method RefreshCopies(now: int) returns (alive: bool)
      requires Valid()
      modifies this`niMap, this`lastNiReport
      ensures Valid() && (alive <==> !ReadsNull(old(State()), axeLength, AskCopies(now)))
      ensures alive ==> State() == AskedCopies(old(State()), axeLength, now)
    {
      hide CopyCounts, Nodes, AllShaped, CountMap, Entries;
      SameSize();
      SameKeys();
      alive := true;
      if lastNiReport < updated && |mapNodes| + |nullNodes| > 0 {
        alive := UpdateNiMap();
        if alive { lastNiReport := now; }
      }
    }

    /** Copies of the message in binIndex, at least 1. */
    method GetNumberOfCopiesAt(binIndex: nat, now: int) returns (n: int, alive: bool)
      requires Valid()
      modifies this`niMap, this`lastNiReport
      ensures Valid() && (alive <==> !ReadsNull(old(State()), axeLength, AskCopies(now)))
      ensures alive ==> State() == AskedCopies(old(State()), axeLength, now)
      ensures alive ==> n == if binIndex >= axeLength || Ni()[binIndex] == 0 then 1 else Ni()[binIndex]
    {
      hide CopyCounts, AskedCopies, Nodes, CountMap, Entries, ReadsNull;
      alive := RefreshCopies(now);
      if !alive { return 0, false; }
      niMap := WithBin(niMap, binIndex);
      n := if niMap[binIndex] == 0 then 1 else niMap[binIndex];
    }

    lemma SameSize()
      requires Valid()
      ensures |views| == |mapNodes|
    {
      assert |views.Keys| == |mapNodes.Keys|;
    }

    /** The smallest version of all rows, which stands in for the test whether all of them reach a
        version. Without rows it is ten times the axis length. */
    method SmallestVersion() returns (smallest: int)
      requires Valid()
      ensures forall v :: v <= axeLength ==> (smallest >= v <==> AllReach(views, v))
    {
      hide OthersReach, AllShaped, StatNode.Valid, StatNode.AsView;
      smallest := axeLength * 10;
      var rest := mapNodes.Keys;
      NoneReaches(views);
      while rest != {}
        invariant rest <= mapNodes.Keys
        invariant forall v :: v <= axeLength ==> (smallest >= v <==> OthersReach(views, rest, v))
        decreases rest
      {
        var n :| n in rest;
        mapNodes[n].VersionOfView();
        forall v | v <= axeLength
          ensures OthersReach(views, rest - {n}, v)
                  <==> OthersReach(views, rest, v) && mapNodes[n].statVersion >= v
        {
          OneMoreReaches(views, rest, n, v);
        }
        if mapNodes[n].statVersion < smallest { smallest := mapNodes[n].statVersion; }
        rest := rest - {n};
      }
      AllReachIs(views);
    }

    method CloseKnown(endpoint: NodeId)
      requires Nodes() && endpoint in mapNodes
      modifies this`views, mapNodes[endpoint]
      ensures Nodes() && endpoint in old(views)
      ensures
        var v := old(views)[endpoint];
        views == if v.row.version < axeLength then old(views)[endpoint := SetBin(v, axeLength, 0, false)]
                 else old(views)
    {
      hide SetBin, StatNode.Valid, StatNode.AsView;
      VersionOf(endpoint);
      if mapNodes[endpoint].statVersion < axeLength {
        var _ := Observe(endpoint, axeLength, 0, false);
      }
    }

    /** The look-up of a row that is not there. */
    method NoteNull(endpoint: NodeId)
      requires Nodes() && endpoint !in mapNodes
      modifies this`nullNodes
      ensures Nodes() && nullNodes == old(nullNodes) + {endpoint}
    {
      hide AllShaped, RowIs;
      nullNodes := nullNodes + {endpoint};
    }

    /** Past its time to live, the row of the endpoint gets the last version, or a null entry is made. */
    method CloseRow(endpoint: NodeId, now: int)
      requires Valid()
      modifies this`lifeTime, this`lastLtUpdate, this`views, this`nullNodes, mapNodes.Values
      ensures Valid() && State() == Closed(old(State()), axeLength, endpoint, now)
    {
      hide SetBin, AllShaped, StatNode.Valid, StatNode.AsView, Entries, CountMap, Nodes;
      SameKeys();
      var lt := GetLifeTime(now);
      if lt >= ttl {
        if endpoint in mapNodes {
          CloseKnown(endpoint);
        } else {
          NoteNull(endpoint);
        }
      }
    }

    method FoldBoth() returns (alive: bool)
      requires Valid() && !frozen
      modifies this`miMap, this`niMap
      ensures Valid() && (alive <==> axeLength == 0 || nullNodes == {})
      ensures alive ==>
        var s := old(State());
        State() == s.(mi := SeenCounts(s.views, axeLength), ni := CopyCounts(s.views, axeLength))
    {
      hide SeenCounts, CopyCounts, StatNode.Valid, StatNode.AsView, Entries, CountMap, AllShaped;
      alive := UpdateMiMap();
      if !alive { return; }
      alive := UpdateNiMap();
    }

    /** The counts are folded for the last time and the rows are discarded. */
    method Freeze() returns (alive: bool)
      requires Valid() && !frozen
      modifies this
      ensures Valid() && (alive <==> axeLength == 0 || old(nullNodes) == {})
      ensures alive ==>
        var s := old(State());
        State() == s.(mi := SeenCounts(s.views, axeLength), ni := CopyCounts(s.views, axeLength),
                      views := map[], frozen := true, nulls := {})
    {
      hide SeenCounts, CopyCounts, StatNode.Valid, StatNode.AsView, Entries, CountMap, AllShaped;
      alive := FoldBoth();
      if !alive { return; }
      NoneShaped(axeLength);
      mapNodes, nullNodes, views := map[], {}, map[];
      frozen := true;
    }

    /** isValid. The source looks up the row under the name of the router's endpoint. */
    method IsValid(binIndex: nat, endpoint: NodeId, now: int) returns (valid: bool, alive: bool)
      requires Valid() && binIndex <= axeLength
      modifies this, mapNodes.Values
      ensures Valid() && (alive <==> !ReadsNull(old(State()), axeLength, Validate(endpoint, now)))
      ensures alive ==> State() == Validated(old(State()), axeLength, endpoint, now)
      ensures alive ==> (valid <==> frozen || AllReach(views, binIndex))
    {
      hide SetBin, SeenCounts, CopyCounts, Closed, StatNode.Valid, StatNode.AsView, Entries;
      if frozen { return true, true; }
      CloseRow(endpoint, now);
      var smallest := SmallestVersion();
      SameSize();
      if smallest >= axeLength && |mapNodes| + |nullNodes| >= 2 {
        alive := Freeze();
        return true, alive;
      }
      return smallest >= binIndex, true;
    }
  }
}
