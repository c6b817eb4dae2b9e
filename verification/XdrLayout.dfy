/** Where the fields lie: the order and the byte offsets in which the API types go over the wire, independent of
    encoders and decoders that agree with each other. */
module XdrLayout {
  import opened Text
  import opened Xdr

  /** The bytes of a field from an offset on. */
  ghost predicate FieldAt(s: Stream, at: nat, field: Stream) {
    at + |field| <= |s| && s[at..at + |field|] == field
  }

  lemma InFront(a: Stream, rest: Stream)
    ensures FieldAt(a + rest, 0, a)
  {
  }

  lemma Behind(a: Stream, rest: Stream, at: nat, field: Stream)
    requires FieldAt(rest, at, field)
    ensures FieldAt(a + rest, |a| + at, field)
  {
  }

  lemma Inside(s: Stream, at: nat, part: Stream, i: nat, field: Stream)
    requires FieldAt(s, at, part) && FieldAt(part, i, field)
    ensures FieldAt(s, at + i, field)
  {
    forall k | 0 <= k < |field| ensures s[at + i + k] == field[k] {
      assert field[k] == part[i..i + |field|][k] && part[i + k] == s[at..at + |part|][i + k];
    }
  }

  /** Three or four parts in a row. */
  lemma Three(a: Stream, b: Stream, c: Stream)
    ensures
      var s := a + (b + c);
      FieldAt(s, 0, a) && FieldAt(s, |a|, b) && FieldAt(s, |a| + |b|, c)
  {
  }

  lemma Four(a: Stream, b: Stream, c: Stream, d: Stream)
    ensures
      var s := a + (b + (c + d));
      FieldAt(s, 0, a) && FieldAt(s, |a|, b) && FieldAt(s, |a| + |b|, c) && FieldAt(s, |a| + |b| + |c|, d)
  {
    hide FieldAt;
    Three(b, c, d);
    InFront(a, b + (c + d));
    Behind(a, b + (c + d), 0, b);
    Behind(a, b + (c + d), |b|, c);
    Behind(a, b + (c + d), |b| + |c|, d);
  }

  /** The most significant byte comes first. */
  lemma BigEndian(x: U32)
    ensures
      var r := EncU32(x);
      var a: int, b: int, c: int, d: int := r[0], r[1], r[2], r[3];
      x == 0x100 * (0x100 * (0x100 * a + b) + c) + d
  {
    var y := x / 0x100;
    assert x / 0x1_0000 == y / 0x100 && x / 0x100_0000 == y / 0x100 / 0x100;
  }

  lemma RegInfoLayout(v: RegInfo)
    ensures
      var s := EncRegInfo(v);
      && FieldAt(s, 0, v.endpoint) && FieldAt(s, 256, EncU32(v.regid)) && FieldAt(s, 260, EncU32(v.flags))
      && FieldAt(s, 264, EncU32(v.expiration)) && FieldAt(s, 268, EncBool(v.initPassive))
      && FieldAt(s, 272, EncBytes(v.script))
  {
  }

  lemma BytesLayout(b: Bytes)
    ensures FieldAt(EncBytes(b), 0, EncU32(|b|)) && FieldAt(EncBytes(b), 4, b)
  {
  }

  lemma BlockLayout(b: Block)
    ensures
      var s := EncBlock(b);
      FieldAt(s, 0, EncU32(b.kind)) && FieldAt(s, 4, EncU32(b.flags)) && FieldAt(s, 8, EncBytes(b.data))
  {
  }

  /** The count, and then each block behind the ones before it. */
  lemma BlocksLayout(bs: Blocks, i: nat)
    requires i < |bs|
    ensures FieldAt(EncBlocks(bs), 0, EncU32(|bs|)) && FieldAt(EncBlocks(bs), 4 + BlocksSize(bs[..i]), EncBlock(bs[i]))
  {
    hide FieldAt, EncU32, EncEach, EncBlock;
    InFront(EncU32(|bs|), EncEach(bs));
    EachLayout(bs, i);
    Behind(EncU32(|bs|), EncEach(bs), BlocksSize(bs[..i]), EncBlock(bs[i]));
  }

  lemma {:induction false} EachLayout(bs: seq<Block>, i: nat)
    requires i < |bs|
    ensures FieldAt(EncEach(bs), BlocksSize(bs[..i]), EncBlock(bs[i]))
    decreases i
  {
    hide FieldAt, EncBlock, Padded;
    if i == 0 {
      InFront(EncBlock(bs[0]), EncEach(bs[1..]));
      assert bs[..0] == [];
    } else {
      EachLayout(bs[1..], i - 1);
      assert bs[..i][1..] == bs[1..][..i - 1] && bs[..i][0] == bs[0];
      Behind(EncBlock(bs[0]), EncEach(bs[1..]), BlocksSize(bs[1..][..i - 1]), EncBlock(bs[i]));
    }
  }

  lemma TimestampLayout(t: Timestamp)
    ensures
      var s := EncTimestamp(t);
      && FieldAt(s, 0, EncU64(t.secs)) && FieldAt(s, 8, EncU64(t.seqno))
      && FieldAt(EncU64(t.secs), 0, EncU32(t.secs / 0x1_0000_0000))
      && FieldAt(EncU64(t.secs), 4, EncU32(t.secs % 0x1_0000_0000))
  {
  }

  lemma OptionsLayout(v: Spec)
    ensures
      var s := EncOptions(v);
      && FieldAt(s, 0, EncI32(v.priority)) && FieldAt(s, 4, EncI32(v.dopts)) && FieldAt(s, 8, EncU32(v.expiration))
      && FieldAt(s, 12, EncTimestamp(v.creation)) && FieldAt(s, 28, EncU32(v.deliveryRegid))
  {
  }

  lemma SpecLayout(v: Spec)
    ensures
      var s, ids := EncSpec(v), 800 + |EncBytes(v.sequenceId)|;
      && FieldAt(s, 0, v.source) && FieldAt(s, 256, v.dest) && FieldAt(s, 512, v.replyto)
      && FieldAt(s, 768, EncI32(v.priority)) && FieldAt(s, 772, EncI32(v.dopts)) && FieldAt(s, 776, EncU32(v.expiration))
      && FieldAt(s, 780, EncTimestamp(v.creation)) && FieldAt(s, 796, EncU32(v.deliveryRegid))
      && FieldAt(s, 800, EncBytes(v.sequenceId)) && FieldAt(s, ids, EncBytes(v.obsoletesId))
      && FieldAt(s, ids + |EncBytes(v.obsoletesId)|, EncBlocks(v.blocks))
      && FieldAt(s, ids + |EncBytes(v.obsoletesId)| + |EncBlocks(v.blocks)|, EncBlocks(v.metadata))
  {
    hide FieldAt, EncI32, EncU32, EncBytes, EncBlocks, EncTimestamp, EncOptions, EncOpaque, Padded, BlocksSize;
    var a, b, c := EncAddresses(v), EncOptions(v), EncIdsAndBlocks(v);
    Three(a, b, c);
    var s := a + (b + c);
    AddressesLayout(v);
    Inside(s, 0, a, 0, v.source);
    Inside(s, 0, a, 256, v.dest);
    Inside(s, 0, a, 512, v.replyto);
    OptionsLayout(v);
    Inside(s, 768, b, 0, EncI32(v.priority));
    Inside(s, 768, b, 4, EncI32(v.dopts));
    Inside(s, 768, b, 8, EncU32(v.expiration));
    Inside(s, 768, b, 12, EncTimestamp(v.creation));
    Inside(s, 768, b, 28, EncU32(v.deliveryRegid));
    Four(EncBytes(v.sequenceId), EncBytes(v.obsoletesId), EncBlocks(v.blocks), EncBlocks(v.metadata));
    Inside(s, 800, c, 0, EncBytes(v.sequenceId));
    Inside(s, 800, c, |EncBytes(v.sequenceId)|, EncBytes(v.obsoletesId));
    Inside(s, 800, c, |EncBytes(v.sequenceId)| + |EncBytes(v.obsoletesId)|, EncBlocks(v.blocks));
    Inside(s, 800, c, |EncBytes(v.sequenceId)| + |EncBytes(v.obsoletesId)| + |EncBlocks(v.blocks)|,
           EncBlocks(v.metadata));
  }

  lemma AddressesLayout(v: Spec)
    ensures
      var s := EncAddresses(v);
      FieldAt(s, 0, v.source) && FieldAt(s, 256, v.dest) && FieldAt(s, 512, v.replyto)
  {
  }

  lemma BundleIdLayout(v: BundleId)
    ensures
      var s := EncBundleId(v);
      && FieldAt(s, 0, v.source) && FieldAt(s, 256, EncTimestamp(v.creation))
      && FieldAt(s, 272, EncU32(v.fragOffset)) && FieldAt(s, 276, EncU32(v.origLength))
  {
  }

  lemma TimesLayout(v: Report)
    ensures
      var s := EncTimes(v);
      && FieldAt(s, 0, EncTimestamp(v.receipt)) && FieldAt(s, 16, EncTimestamp(v.custody))
      && FieldAt(s, 32, EncTimestamp(v.forwarding)) && FieldAt(s, 48, EncTimestamp(v.delivery))
      && FieldAt(s, 64, EncTimestamp(v.deletion)) && FieldAt(s, 80, EncTimestamp(v.ack))
  {
    hide FieldAt, EncTimestamp;
    var a, b, c, d, e, f := EncTimestamp(v.receipt), EncTimestamp(v.custody), EncTimestamp(v.forwarding),
                            EncTimestamp(v.delivery), EncTimestamp(v.deletion), EncTimestamp(v.ack);
    Three(d, e, f);
    var t := d + (e + f);
    Four(a, b, c, t);
    Inside(a + (b + (c + t)), 48, t, 0, d);
    Inside(a + (b + (c + t)), 48, t, 16, e);
    Inside(a + (b + (c + t)), 48, t, 32, f);
  }

  lemma ReportLayout(v: Report)
    ensures
      var s := EncReport(v);
      && FieldAt(s, 0, EncBundleId(v.id)) && FieldAt(s, 280, EncI32(v.reason)) && FieldAt(s, 284, EncI32(v.flags))
      && FieldAt(s, 288, EncTimestamp(v.receipt)) && FieldAt(s, 304, EncTimestamp(v.custody))
      && FieldAt(s, 320, EncTimestamp(v.forwarding)) && FieldAt(s, 336, EncTimestamp(v.delivery))
      && FieldAt(s, 352, EncTimestamp(v.deletion)) && FieldAt(s, 368, EncTimestamp(v.ack))
  {
    hide FieldAt, EncTimestamp, EncTimes, EncBundleId, EncI32;
    var s, t := EncReport(v), EncTimes(v);
    Four(EncBundleId(v.id), EncI32(v.reason), EncI32(v.flags), t);
    TimesLayout(v);
    Inside(s, 288, t, 0, EncTimestamp(v.receipt));
    Inside(s, 288, t, 16, EncTimestamp(v.custody));
    Inside(s, 288, t, 32, EncTimestamp(v.forwarding));
    Inside(s, 288, t, 48, EncTimestamp(v.delivery));
    Inside(s, 288, t, 64, EncTimestamp(v.deletion));
    Inside(s, 288, t, 80, EncTimestamp(v.ack));
  }

  /** The report of a payload comes behind a word that says whether there is one. */
  lemma PayloadLayout(v: Payload)
    ensures
      var s, at := EncPayload(v), 4 + |EncBytes(v.filename)|;
      && FieldAt(s, 0, EncI32(v.location)) && FieldAt(s, 4, EncBytes(v.filename)) && FieldAt(s, at, EncBytes(v.buf))
      && FieldAt(s, at + |EncBytes(v.buf)|, EncU32(if v.report.Some? then 1 else 0))
      && (v.report.Some? ==> FieldAt(s, at + |EncBytes(v.buf)| + 4, EncReport(v.report.value)))
  {
  }

  lemma SendLayout(a: SendArgs)
    ensures
      var s := EncSend(a);
      && FieldAt(s, 0, EncU32(a.regid)) && FieldAt(s, 4, EncSpec(a.spec))
      && FieldAt(s, 4 + |EncSpec(a.spec)|, EncPayload(a.payload))
  {
  }
}
