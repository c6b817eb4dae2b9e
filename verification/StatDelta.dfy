/** Sending only the rows the peer lacks: the peer lists the versions it has, and the rows picked by
    comparing versions are merged instead of all rows. */
module StatDelta {
  import opened Text
  import opened StatRow
  import opened StatMessage
  import opened StatText

  datatype ListedVersion = ListedVersion(id: string, version: int)

  /** The version the peer listed for a node; the first entry counts. */
  function Listed(versions: seq<ListedVersion>, id: string): Option<int> {
    if versions == [] then None
    else if versions[0].id == id then Some(versions[0].version)
    else Listed(versions[1..], id)
  }

  /** The peer has not listed this node, or only an older version. */
  predicate Wanted(n: NodeText, versions: seq<ListedVersion>) {
    var v := Listed(versions, n.id);
    v.None? || n.version > v.value
  }

  ghost predicate Distinct(ns: seq<NodeText>) {
    forall i, j :: 0 <= i < j < |ns| ==> ns[i].id != ns[j].id
  }

  lemma {:induction false} ListedFrom(versions: seq<ListedVersion>, id: string, j: nat)
    requires j <= |versions| && forall i :: 0 <= i < j ==> versions[i].id != id
    ensures Listed(versions, id) == Listed(versions[j..], id)
    decreases j
  {
    if j > 0 {
      ListedFrom(versions[1..], id, j - 1);
      assert versions[1..][j - 1..] == versions[j..];
    } else {
      assert versions[0..] == versions;
    }
  }

  /** A node that is listed twice counts with its first entry. */
  lemma FirstEntryCounts(versions: seq<ListedVersion>, id: string, j: nat)
    requires j <= |versions| && forall i :: 0 <= i < j ==> versions[i].id != id
    ensures j == |versions| ==> Listed(versions, id) == None
    ensures j < |versions| && versions[j].id == id ==> Listed(versions, id) == Some(versions[j].version)
  {
    ListedFrom(versions, id, j);
  }

  /** The selection holds exactly the nodes with a wanted row. */
  ghost predicate ById(ns: seq<NodeText>, versions: seq<ListedVersion>, picked: set<string>) {
    forall id :: id in picked <==> exists n :: n in ns && n.id == id && Wanted(n, versions)
  }

  /** The comparison of one message: for every own row the peer's list is searched. */
  method SelectNodes(nodes: seq<NodeText>, versions: seq<ListedVersion>) returns (picked: set<string>)
    ensures ById(nodes, versions, picked)
  {
    picked := {};
    var i := 0;
    while i < |nodes|
      invariant 0 <= i <= |nodes|
      invariant forall id :: id in picked <==> exists k :: 0 <= k < i && nodes[k].id == id && Wanted(nodes[k], versions)
    {
      var haveIt, newer := false, false;
      var j := 0;
      while j < |versions|
        invariant 0 <= j <= |versions|
        invariant forall k :: 0 <= k < j ==> versions[k].id != nodes[i].id
        invariant !haveIt && !newer
      {
        if nodes[i].id == versions[j].id {
          haveIt := true;
          ListedFrom(versions, nodes[i].id, j);
          newer := nodes[i].version > versions[j].version;
          break;
        }
        j := j + 1;
      }
      if !haveIt { ListedFrom(versions, nodes[i].id, |versions|); }
      if newer || !haveIt { picked := picked + {nodes[i].id}; }
      i := i + 1;
    }
  }

  /** The rows of a message that are in a selection. */
  function Chosen(ns: seq<NodeText>, picked: set<string>): (r: seq<NodeText>)
    ensures forall n :: n in r <==> n in ns && n.id in picked
  {
    if ns == [] then []
    else
      var front := Chosen(ns[..|ns| - 1], picked);
      assert ns == ns[..|ns| - 1] + [ns[|ns| - 1]];
      if ns[|ns| - 1].id in picked then front + [ns[|ns| - 1]] else front
  }

  lemma {:induction false} ChosenDistinct(ns: seq<NodeText>, picked: set<string>)
    requires Distinct(ns)
    ensures Distinct(Chosen(ns, picked))
  {
    if ns != [] {
      var front := ns[..|ns| - 1];
      ChosenDistinct(front, picked);
      var c := Chosen(front, picked);
      forall i | 0 <= i < |c| ensures c[i].id != ns[|ns| - 1].id {
        assert c[i] in front;
      }
    }
  }

  // -------- merging rows into the peer's message --------

  function RowOf(n: NodeText): Row { Row(n.bits, n.start, n.version) }

  /** addNode for one received row. */
  ghost function Added(p: map<string, View>, axeLength: nat, n: NodeText): View {
    if n.id in p then Merge(p[n.id], RowOf(n)) else TakeReport(Blank(axeLength), RowOf(n))
  }

  /** updateMessage: one row after the other. */
  ghost function AddAll(p: map<string, View>, axeLength: nat, ns: seq<NodeText>): map<string, View>
    decreases |ns|
  {
    if ns == [] then p else AddAll(p[ns[0].id := Added(p, axeLength, ns[0])], axeLength, ns[1..])
  }

  lemma {:induction false} AddAllAt(p: map<string, View>, axeLength: nat, ns: seq<NodeText>)
    requires Distinct(ns)
    ensures
      var q := AddAll(p, axeLength, ns);
      && (forall n :: n in ns ==> n.id in q && q[n.id] == Added(p, axeLength, n))
      && (forall id :: id in q ==> id in p || exists n :: n in ns && n.id == id)
      && (forall id :: id in p && (forall n :: n in ns ==> n.id != id) ==> id in q && q[id] == p[id])
    decreases |ns|
  {
    hide Merge, TakeReport, Blank;
    if ns != [] {
      var p1 := p[ns[0].id := Added(p, axeLength, ns[0])];
      AddAllAt(p1, axeLength, ns[1..]);
      assert forall n :: n in ns ==> n == ns[0] || n in ns[1..];
      forall n | n in ns[1..] ensures n in ns && n.id != ns[0].id {}
    }
  }

  /** What the peer listed it has, perhaps in a newer version by now. */
  ghost predicate ListedBy(versions: seq<ListedVersion>, p: map<string, View>) {
    forall id :: Listed(versions, id).Some? ==> id in p && Listed(versions, id).value <= p[id].row.version
  }

  ghost predicate Mergeable(p: map<string, View>, axeLength: nat, n: NodeText) {
    && RowOk(RowOf(n), axeLength)
    && (n.id in p ==> ViewOk(p[n.id], axeLength) && p[n.id].row.start == n.start)
  }

  /** Two rows of one node with one version have one content. */
  ghost predicate Agrees(p: map<string, View>, n: NodeText) {
    n.id in p && p[n.id].row.version == n.version ==> p[n.id].row == RowOf(n)
  }

  lemma MergeNothingExactly(p: map<string, View>, axeLength: nat, n: NodeText)
    requires Mergeable(p, axeLength, n) && n.id in p && n.version <= p[n.id].row.version
    ensures Added(p, axeLength, n) == p[n.id] <==> Agrees(p, n)
  {
    hide RowOk;
    assert TakeReport(p[n.id], RowOf(n)).seen == p[n.id].seen;
  }

  /** A row that is not picked. */
  lemma NotPicked(p: map<string, View>, axeLength: nat, ns: seq<NodeText>, versions: seq<ListedVersion>,
                  picked: set<string>, n: NodeText)
    requires Distinct(ns) && ListedBy(versions, p) && ById(ns, versions, picked)
    requires n in ns && n.id !in picked && Mergeable(p, axeLength, n)
    ensures n.id in p && Keeps(p, AddAll(p, axeLength, Chosen(ns, picked)), n.id)
    ensures n.id in AddAll(p, axeLength, ns)
    ensures AddAll(p, axeLength, ns)[n.id] == p[n.id] <==> Agrees(p, n)
  {
    hide AddAll, Added, Agrees, Mergeable, Listed;
    ChosenDistinct(ns, picked);
    AddAllAt(p, axeLength, ns);
    AddAllAt(p, axeLength, Chosen(ns, picked));
    assert !Wanted(n, versions);
    MergeNothingExactly(p, axeLength, n);
  }

  ghost predicate Keeps(p: map<string, View>, q: map<string, View>, id: string)
    requires id in p
  {
    id in q && q[id] == p[id]
  }

  ghost predicate SameAt(p: map<string, View>, q: map<string, View>, id: string) {
    id in p && id in q && q[id] == p[id]
  }

  lemma PickedAt(p: map<string, View>, axeLength: nat, ns: seq<NodeText>, picked: set<string>, n: NodeText)
    requires Distinct(ns) && n in ns && n.id in picked
    ensures SameAt(AddAll(p, axeLength, Chosen(ns, picked)), AddAll(p, axeLength, ns), n.id)
  {
    hide AddAll, Added;
    ChosenDistinct(ns, picked);
    AddAllAt(p, axeLength, ns);
    AddAllAt(p, axeLength, Chosen(ns, picked));
    assert n in Chosen(ns, picked);
  }

  lemma OutsideAt(p: map<string, View>, axeLength: nat, ns: seq<NodeText>, picked: set<string>, id: string)
    requires Distinct(ns) && forall n :: n in ns ==> n.id != id
    ensures id in AddAll(p, axeLength, Chosen(ns, picked)) <==> id in AddAll(p, axeLength, ns)
    ensures id in AddAll(p, axeLength, ns) ==>
              SameAt(AddAll(p, axeLength, Chosen(ns, picked)), AddAll(p, axeLength, ns), id)
  {
    hide AddAll, Added;
    ChosenDistinct(ns, picked);
    AddAllAt(p, axeLength, ns);
    AddAllAt(p, axeLength, Chosen(ns, picked));
  }

  /** Merging the picked rows gives the same bits, start indices, versions and seen-maps as merging
      all rows, exactly when the rows that were not picked agree with the peer's rows of the same
      version. */
  lemma DeltaRefinesFull(p: map<string, View>, axeLength: nat, ns: seq<NodeText>, versions: seq<ListedVersion>,
                         picked: set<string>)
    requires Distinct(ns) && ListedBy(versions, p) && ById(ns, versions, picked)
    requires forall n :: n in ns ==> Mergeable(p, axeLength, n)
    ensures AddAll(p, axeLength, Chosen(ns, picked)) == AddAll(p, axeLength, ns)
            <==> forall n :: n in ns && n.id !in picked ==> Agrees(p, n)
  {
    hide *;
    var full, delta := AddAll(p, axeLength, ns), AddAll(p, axeLength, Chosen(ns, picked));
    if forall n :: n in ns && n.id !in picked ==> Agrees(p, n) {
      forall id ensures id in full <==> id in delta
                ensures id in full ==> SameAt(delta, full, id)
      {
        if n :| n in ns && n.id == id {
          RowAt(p, axeLength, ns, versions, picked, n);
        } else {
          OutsideAt(p, axeLength, ns, picked, id);
        }
      }
      SameMaps(delta, full);
    } else {
      var n :| n in ns && n.id !in picked && !Agrees(p, n);
      NotPicked(p, axeLength, ns, versions, picked, n);
      DifferAt(p, delta, full, n.id);
    }
  }

  lemma RowAt(p: map<string, View>, axeLength: nat, ns: seq<NodeText>, versions: seq<ListedVersion>,
              picked: set<string>, n: NodeText)
    requires Distinct(ns) && ListedBy(versions, p) && ById(ns, versions, picked)
    requires n in ns && Mergeable(p, axeLength, n) && (n.id !in picked ==> Agrees(p, n))
    ensures SameAt(AddAll(p, axeLength, Chosen(ns, picked)), AddAll(p, axeLength, ns), n.id)
    ensures n.id in AddAll(p, axeLength, Chosen(ns, picked)) && n.id in AddAll(p, axeLength, ns)
  {
    hide AddAll, Agrees, Mergeable, Distinct, ListedBy, ById;
    if n.id in picked { PickedAt(p, axeLength, ns, picked, n); }
    else { NotPicked(p, axeLength, ns, versions, picked, n); }
  }

  lemma SameMaps(q: map<string, View>, r: map<string, View>)
    requires forall id :: id in r <==> id in q
    requires forall id :: id in r ==> SameAt(q, r, id)
    ensures q == r
  {
  }

  lemma DifferAt(p: map<string, View>, q: map<string, View>, r: map<string, View>, id: string)
    requires id in p && Keeps(p, q, id) && id in r && r[id] != p[id]
    ensures q != r
  {
  }

  /** If the peer's list is up to date, every picked row is news to it and is what it then has. */
  lemma PickedRowsAreAccepted(p: map<string, View>, axeLength: nat, ns: seq<NodeText>, versions: seq<ListedVersion>,
                              picked: set<string>, n: NodeText)
    requires Distinct(ns) && n in ns && n.id in picked
    requires ById(ns, versions, picked)
    requires forall id :: id in p ==> Listed(versions, id) == Some(p[id].row.version)
    ensures n.id in p ==> p[n.id].row.version < n.version
    ensures
      var q := AddAll(p, axeLength, Chosen(ns, picked));
      n.id in q && q[n.id].row == RowOf(n)
  {
    hide AddAll, Listed;
    ChosenDistinct(ns, picked);
    AddAllAt(p, axeLength, Chosen(ns, picked));
    var m :| m in ns && m.id == n.id && Wanted(m, versions);
    assert m == n;
    assert n in Chosen(ns, picked);
  }
}
