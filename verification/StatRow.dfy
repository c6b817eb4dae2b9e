/** One row of the statistics matrix: what one node reports about one message. Bins 0 .. axeLength-1
    form the axis; version axeLength is the last one a row can reach. */
module StatRow {

  /** bits[i] says whether the node holds a copy in bin i, start is the bin of its first copy and
      version the bin of the last change. This is the part of a row that travels. */
  datatype Row = Row(bits: seq<int>, start: int, version: int)

  /** A row together with the local seen-map. */
  datatype View = View(row: Row, seen: seq<int>)

  /** The seen-map of a node that first saw the message in bin start. */
  function Step(axeLength: nat, start: int): (s: seq<int>)
    ensures |s| == axeLength && forall i :: 0 <= i < axeLength ==> s[i] == if start <= i then 1 else 0
  {
    seq(axeLength, i => if start <= i then 1 else 0)
  }

  function Zeros(n: nat): (s: seq<int>)
    ensures |s| == n && forall i :: 0 <= i < n ==> s[i] == 0
  {
    seq(n, i => 0)
  }

  /** What the constructor makes. */
  function Blank(axeLength: nat): View {
    View(Row(Zeros(axeLength), -1, 0), Zeros(axeLength))
  }

  ghost predicate Shaped(v: View, axeLength: nat) {
    |v.row.bits| == |v.seen| == axeLength
  }

  ghost predicate Binary(s: seq<int>) {
    forall i :: 0 <= i < |s| ==> s[i] == 0 || s[i] == 1
  }

  /** A local observation: value 1 sets one bin, value 0 clears all later ones. */
  function SetBin(v: View, bin: nat, value: int, first: bool): View {
    var bits := v.row.bits;
    View(
      Row(seq(|bits|, i requires 0 <= i < |bits| =>
            if i == bin && value == 1 then 1 else if i > bin && value == 0 then 0 else bits[i]),
          if first then bin else v.row.start,
          bin),
      seq(|v.seen|, i requires 0 <= i < |v.seen| =>
        if i == bin || (first && i > bin) then 1 else v.seen[i]))
  }

  function FirstBin(axeLength: nat, bin: nat, value: int): View {
    SetBin(Blank(axeLength), bin, value, true)
  }

  /** The report replaces the row and adds its part of the seen-map. */
  function TakeReport(v: View, r: Row): View {
    View(r, if r.start == -1 then v.seen
            else seq(|v.seen|, i requires 0 <= i < |v.seen| => if r.start <= i then 1 else v.seen[i]))
  }

  /** A report counts unless it is older than what is known. */
  function Merge(v: View, r: Row): View {
    if v.row.version <= r.version then TakeReport(v, r) else v
  }

  ghost predicate RowOk(r: Row, axeLength: nat) {
    && |r.bits| == axeLength && 0 <= r.start <= r.version <= axeLength
    && (forall i :: 0 <= i < axeLength ==> r.bits[i] == 0 || (r.bits[i] == 1 && r.start <= i <= r.version))
  }

  ghost predicate ViewOk(v: View, axeLength: nat) {
    RowOk(v.row, axeLength) && v.seen == Step(axeLength, v.row.start)
  }

  /** The bins of one row never go down: then every observation keeps the row well formed. */
  lemma SetBinOk(v: View, axeLength: nat, bin: nat, value: int)
    requires ViewOk(v, axeLength) && v.row.version <= bin <= axeLength
    ensures ViewOk(SetBin(v, bin, value, false), axeLength)
  {
    assert SetBin(v, bin, value, false).seen == v.seen;
  }

  /** In general the row stays well formed exactly when the bin is not before the first one and no later
      bin keeps a bit. */
  lemma SetBinOkIff(v: View, axeLength: nat, bin: nat, value: int)
    requires ViewOk(v, axeLength) && bin <= axeLength
    ensures ViewOk(SetBin(v, bin, value, false), axeLength)
            <==> v.row.start <= bin && (value == 0 || forall i :: bin < i < axeLength ==> v.row.bits[i] == 0)
  {
    var w := SetBin(v, bin, value, false);
    if v.row.start <= bin && (value == 0 || forall i :: bin < i < axeLength ==> v.row.bits[i] == 0) {
      assert w.seen == v.seen;
    } else if ViewOk(w, axeLength) && v.row.start <= bin {
      forall i | bin < i < axeLength ensures v.row.bits[i] == 0 { assert w.row.bits[i] == v.row.bits[i]; }
    }
  }

  lemma FirstBinOk(axeLength: nat, bin: nat, value: int)
    requires bin <= axeLength
    ensures ViewOk(FirstBin(axeLength, bin, value), axeLength)
  {
  }

  /** Reports of a row whose start index is already known keep the seen-map exact. */
  lemma MergeOk(v: View, r: Row, axeLength: nat)
    requires ViewOk(v, axeLength) && RowOk(r, axeLength) && r.start == v.row.start
    ensures ViewOk(Merge(v, r), axeLength)
  {
    assert TakeReport(v, r).seen == v.seen;
  }

  lemma FirstReportOk(r: Row, axeLength: nat)
    requires RowOk(r, axeLength)
    ensures ViewOk(TakeReport(Blank(axeLength), r), axeLength)
  {
    assert TakeReport(Blank(axeLength), r).seen == Step(axeLength, r.start);
  }

  /** What the constructor makes is not yet the row of a writer: the first observation or report makes it one. */
  lemma BlankIsNoRow(axeLength: nat, bin: nat, value: int, r: Row)
    requires bin <= axeLength && RowOk(r, axeLength)
    ensures Shaped(Blank(axeLength), axeLength) && !ViewOk(Blank(axeLength), axeLength)
    ensures ViewOk(SetBin(Blank(axeLength), bin, value, true), axeLength)
    ensures ViewOk(TakeReport(Blank(axeLength), r), axeLength)
  {
    FirstBinOk(axeLength, bin, value);
    FirstReportOk(r, axeLength);
  }

  /** Two reports of one version can only disagree if the node drops the message and takes it again
      within one bin: an observation in the bin of the current version changes the bits exactly
      when it sets a bin that was not set. */
  lemma SameVersionChange(v: View, axeLength: nat, value: int)
    requires ViewOk(v, axeLength)
    ensures
      var bin := v.row.version;
      SetBin(v, bin, value, false).row == v.row
      <==> bin == axeLength || value != 1 || v.row.bits[bin] == 1
  {
    var bin := v.row.version;
    var r := SetBin(v, bin, value, false).row;
    if bin < axeLength && value == 1 {
      assert r.bits[bin] == 1;
      if v.row.bits[bin] == 1 { assert r.bits == v.row.bits; }
    } else {
      assert r.bits == v.row.bits;
    }
  }

  /** What the sanity check of an observed bin lets pass. */
  ghost predicate SaneBit(v: View, bin: nat) {
    bin < |v.row.bits| ==> v.row.bits[bin] == 0 || v.row.bits[bin] == 1
  }

  ghost predicate Covers(m: map<int, int>, n: nat) {
    forall i :: 0 <= i < n ==> i in m
  }

  /** The entries of a map over the axis. */
  ghost function Entries(m: map<int, int>, n: nat): (s: seq<int>)
    requires Covers(m, n)
    ensures |s| == n && forall i :: 0 <= i < n ==> s[i] == m[i]
  {
    seq(n, i requires 0 <= i < n => m[i])
  }

  /** Over the axis, with missing entries read as 0. */
  function FirstEntries(m: map<int, int>, n: nat): (s: seq<int>)
    ensures |s| == n
  {
    seq(n, i => if i in m then m[i] else 0)
  }

  /** DtnStatNode. */
  class StatNode {
    const nodeId: string
    const axeLength: nat
    var bitMap: map<int, int>
    var miBitMap: map<int, int>
    var miStartIndex: int
    var miMapDone: bool
    var statVersion: int
    var lastMeetingTime: int

    ghost predicate Valid()
      reads this
    {
      && Covers(bitMap, axeLength) && Covers(miBitMap, axeLength)
      && (forall i :: i in bitMap && i >= axeLength ==> bitMap[i] == 0 || bitMap[i] == 1)
      && (forall i :: i in miBitMap ==> miBitMap[i] == 0 || miBitMap[i] == 1)
    }

    ghost function Bits(): seq<int>
      reads this
      requires Valid()
    {
      Entries(bitMap, axeLength)
    }

    ghost function Seen(): seq<int>
      reads this
      requires Valid()
    {
      Entries(miBitMap, axeLength)
    }

    ghost function AsView(): (v: View)
      reads this
      requires Valid()
      ensures Shaped(v, axeLength) && Binary(v.seen)
    {
      View(Row(Bits(), miStartIndex, statVersion), Seen())
    }

    constructor (nodeId: string, axeLength: nat, lastMeetingTime: int)
      ensures Valid() && AsView() == Blank(axeLength) && !miMapDone
      ensures this.axeLength == axeLength && this.nodeId == nodeId && this.lastMeetingTime == lastMeetingTime
    {
      this.nodeId := nodeId;
      this.axeLength := axeLength;
      this.lastMeetingTime := lastMeetingTime;
      statVersion, miStartIndex, miMapDone := 0, -1, false;
      bitMap, miBitMap := map[], map[];
      new;
      for i := 0 to axeLength
        invariant forall k :: (k in bitMap <==> 0 <= k < i) && (k in bitMap ==> bitMap[k] == 0)
        invariant forall k :: (k in miBitMap <==> 0 <= k < i) && (k in miBitMap ==> miBitMap[k] == 0)
        invariant statVersion == 0 && miStartIndex == -1 && !miMapDone && this.lastMeetingTime == lastMeetingTime
      {
        bitMap := bitMap[i := 0];
        miBitMap := miBitMap[i := 0];
      }
      assert Bits() == Zeros(axeLength) && Seen() == Zeros(axeLength);
    }

    /** The later bins of an observation. */
    method SetLaterBins(bin: nat, value: int, newOld: bool)
      requires Valid()
      modifies this`bitMap, this`miBitMap
      ensures Valid()
      ensures forall i :: 0 <= i < axeLength ==>
                bitMap[i] == if i > bin && value == 0 then 0 else old(bitMap)[i]
      ensures forall i :: 0 <= i < axeLength ==>
                miBitMap[i] == if i > bin && newOld then 1 else old(miBitMap)[i]
      ensures bin in old(bitMap) ==> bin in bitMap
    {
      var j := bin + 1;
      while j < axeLength
        invariant bin + 1 <= j && Valid()
        invariant forall i :: 0 <= i < axeLength ==>
                    bitMap[i] == if bin < i < j && value == 0 then 0 else old(bitMap)[i]
        invariant forall i :: 0 <= i < axeLength ==>
                    miBitMap[i] == if bin < i < j && newOld then 1 else old(miBitMap)[i]
        invariant bin in old(bitMap) ==> bin in bitMap
      {
        if value == 0 { bitMap := bitMap[j := value]; }
        if newOld { miBitMap := miBitMap[j := 1]; }
        j := j + 1;
      }
    }

    method CheckBin(bin: nat) returns (alive: bool)
      requires Valid()
      modifies this`bitMap
      ensures Valid() && AsView() == old(AsView())
      ensures alive <==> SaneBit(AsView(), bin)
    {
      if bin !in bitMap { bitMap := bitMap[bin := 0]; }
      assert Bits() == old(Bits());
      alive := bitMap[bin] == 0 || bitMap[bin] == 1;
      assert bin < axeLength ==> Bits()[bin] == bitMap[bin];
    }

    /** With source set this is the node's own observation; otherwise only the sanity check of the
        bin is left, which reads an absent bin as 0 and thereby creates it. The program ends if the
        bin holds another number than 0 or 1. */
    method SetTimeBinValue(bin: nat, value: int, source: bool, newOld: bool) returns (alive: bool)
      requires Valid() && bin <= axeLength
      modifies this
      ensures Valid()
      ensures AsView() == if source then SetBin(old(AsView()), bin, value, newOld) else old(AsView())
      ensures alive <==> SaneBit(AsView(), bin)
      ensures lastMeetingTime == old(lastMeetingTime) && miMapDone == old(miMapDone)
    {
      ghost var v := AsView();
      if source {
        if newOld { miStartIndex := bin; }
        if value == 1 { bitMap := bitMap[bin := value]; }
        statVersion := bin;
        miBitMap := miBitMap[bin := 1];
        SetLaterBins(bin, value, newOld);
        assert Bits() == SetBin(v, bin, value, newOld).row.bits;
        assert Seen() == SetBin(v, bin, value, newOld).seen;
      }
      alive := CheckBin(bin);
    }

    method UpdateMiBitMap()
      requires Valid()
      modifies this`miBitMap, this`miMapDone
      ensures Valid() && AsView().row == old(AsView()).row
      ensures Seen() == if old(miMapDone) then old(Seen()) else TakeReport(old(AsView()), AsView().row).seen
    {
      ghost var seen := Seen();
      if !miMapDone && miStartIndex != -1 {
        var i := miStartIndex;
        while i < axeLength
          invariant miStartIndex <= i && Valid()
          invariant forall k :: 0 <= k < axeLength ==>
                      miBitMap[k] == if miStartIndex <= k < i then 1 else seen[k]
        {
          miBitMap := miBitMap[i := 1];
          i := i + 1;
        }
        miMapDone := true;
      }
      assert Seen() == if old(miMapDone) then seen else TakeReport(old(AsView()), AsView().row).seen;
    }

    /** Missing entries of the received map read as 0. */
    method UpdateBitMap(m: map<int, int>)
      requires Valid()
      modifies this`bitMap
      ensures Valid() && Seen() == old(Seen())
      ensures Bits() == FirstEntries(m, axeLength)
    {
      for i := 0 to axeLength
        invariant Valid()
        invariant forall k :: 0 <= k < i ==> bitMap[k] == if k in m then m[k] else 0
      {
        bitMap := bitMap[i := if i in m then m[i] else 0];
      }
    }

    method UpdateMeetingTime(t: int)
      requires Valid()
      modifies this`lastMeetingTime
      ensures Valid() && AsView() == old(AsView()) && lastMeetingTime == t
    {
      lastMeetingTime := t;
    }

    /** The part of addNode that takes over a received row. */
    method Overwrite(m: map<int, int>, lm: int, version: int, start: int)
      requires Valid()
      modifies this
      ensures Valid() && lastMeetingTime == lm
      ensures AsView() == TakeReport(old(AsView()), Row(FirstEntries(m, axeLength), start, version))
    {
      miStartIndex := start;
      miMapDone := false;
      UpdateBitMap(m);
      UpdateMeetingTime(lm);
      UpdateMiBitMap();
      statVersion := version;
    }

    function Bit(i: nat): (b: int)
      reads this
      requires Valid() && i < axeLength
      ensures b == AsView().row.bits[i]
    {
      bitMap[i]
    }

    function MiBit(i: nat): (b: int)
      reads this
      requires Valid() && i < axeLength
      ensures b == AsView().seen[i] && (b == 0 || b == 1)
    {
      miBitMap[i]
    }

    lemma VersionOfView()
      requires Valid()
      ensures AsView().row.version == statVersion
    {
    }
  }
}
