/** The time axis of the statistics: axeLength bins of axeSubdivision seconds each. Bin i holds the
    elapsed times above axeSubdivision * i and up to axeSubdivision * (i + 1); time 0 is in bin 0 and
    times beyond the axis are in bin axeLength. */
module StatAxis {
  import opened Text

  datatype Interval = Interval(minLt: real, maxLt: real)

  function Axis(axeLength: nat, axeSubdivision: nat): (a: seq<Interval>)
    ensures |a| == axeLength
    ensures forall i :: 0 <= i < axeLength ==>
              a[i] == Interval((axeSubdivision * i) as real, (axeSubdivision * (i + 1)) as real)
  {
    seq(axeLength, i requires 0 <= i < axeLength =>
      Interval((axeSubdivision * i) as real, (axeSubdivision * (i + 1)) as real))
  }

  ghost predicate IsBin(axeLength: nat, axeSubdivision: nat, et: real, bin: nat) {
    || (bin == axeLength && et > (axeSubdivision * axeLength) as real)
    || (bin == 0 < axeLength && et == 0.0)
    || (&& bin < axeLength
        && (axeSubdivision * bin) as real < et <= (axeSubdivision * (bin + 1)) as real)
  }

  /** None is the exit of the program. */
  method ConvertElapsedTimeToBinIndex(axeLength: nat, axeSubdivision: nat, et: real) returns (bin: Option<nat>)
    ensures bin.Some? <==> et > 0.0 || (et == 0.0 && axeLength > 0)
    ensures bin.Some? ==> IsBin(axeLength, axeSubdivision, et, bin.value)
  {
    var statAxe := Axis(axeLength, axeSubdivision);
    if et > (axeSubdivision * axeLength) as real { return Some(axeLength); }
    var i := 0;
    while i < axeLength
      invariant 0 <= i <= axeLength && (et == 0.0 ==> i == 0)
      invariant et > 0.0 ==> et > (axeSubdivision * i) as real
    {
      if et == 0.0 { return Some(0); }
      if statAxe[i].minLt < et && et <= statAxe[i].maxLt { return Some(i); }
      i := i + 1;
    }
    return None;
  }

  lemma Products(a: nat, i: nat, j: nat)
    requires i <= j
    ensures a * i <= a * j
  {
  }

  /** With a clock that does not go back, the bins recorded for a message never go down; in
      particular an elapsed time has one bin. */
  lemma BinsNeverGoDown(axeLength: nat, axeSubdivision: nat, et1: real, bin1: nat, et2: real, bin2: nat)
    requires IsBin(axeLength, axeSubdivision, et1, bin1) && IsBin(axeLength, axeSubdivision, et2, bin2)
    requires et1 <= et2
    ensures bin1 <= bin2 <= axeLength
  {
    if bin2 < bin1 {
      Products(axeSubdivision, bin2 + 1, bin1);
      Products(axeSubdivision, 0, bin1);
    }
  }

  function BinStart(axeLength: nat, axeSubdivision: nat, binIndex: nat): (et: Option<real>) {
    if binIndex == 0 then Some(0.0)
    else if binIndex < axeLength then Some((axeSubdivision * binIndex) as real + 1.0)
    else None
  }

  /** The start of a bin is one second into it, or zero for the first one. It is a time of this bin, for bins of at
      least a second. */
  lemma StartIsInBin(axeLength: nat, axeSubdivision: nat, binIndex: nat)
    requires binIndex < axeLength
    ensures BinStart(axeLength, axeSubdivision, binIndex).Some?
    ensures BinStart(axeLength, axeSubdivision, binIndex).value
            == Axis(axeLength, axeSubdivision)[binIndex].minLt + if binIndex == 0 then 0.0 else 1.0
    ensures IsBin(axeLength, axeSubdivision, BinStart(axeLength, axeSubdivision, binIndex).value, binIndex)
            <==> binIndex == 0 || axeSubdivision >= 1
  {
    assert axeSubdivision * (binIndex + 1) == axeSubdivision * binIndex + axeSubdivision;
  }
}
