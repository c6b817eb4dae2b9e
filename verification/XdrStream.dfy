/** The XDR routines of the API types over a memory stream: each advances the position in a buffer,
    field by field, and stops at the first field that does not fit or exceeds its limit. The specifications
    are the encodings of module Xdr. */
module XdrStream {
  import opened Collections
  import opened Text
  import opened Xdr

  /** An encoder succeeds exactly when the limits hold and everything fits, and then it has appended
      the encoding. */
  ghost predicate Put(before: Stream, size: nat, ok: bool, after: Stream, limits: bool, e: Stream) {
    (ok <==> limits && |before| + |e| <= size) && (ok ==> after == before + e)
  }

  /** A decoder reads what the stream holds. */
  ghost predicate Got<T>(r: Option<T>, after: Stream, d: Read<T>) {
    if d.None? then r.None? else r == Some(d.value.0) && after == d.value.1
  }

  class XdrMem {
    const buf: array<Byte>
    const base: nat
    const size: nat
    var pos: nat

    ghost predicate Valid()
      reads this
    {
      base + size <= buf.Length && pos <= size
    }

    /** The body encoded so far. */
    ghost function Written(): (s: Stream)
      reads this, buf
      requires Valid()
      ensures |s| == pos <= size
    {
      buf[base..base + pos]
    }

    /** What is left to decode. */
    ghost function Ahead(): (s: Stream)
      reads this, buf
      requires Valid()
      ensures |s| == size - pos
    {
      buf[base + pos..base + size]
    }

    /** The framing before the body. */
    ghost function Frame(): Stream
      reads this, buf
      requires Valid()
    {
      buf[..base]
    }

    constructor (buf: array<Byte>, base: nat, size: nat)
      requires base + size <= buf.Length
      ensures Valid() && this.buf == buf && this.base == base && this.size == size && pos == 0
    {
      this.buf, this.base, this.size, pos := buf, base, size, 0;
    }

    method SetPos(p: nat) returns (ok: bool)
      requires Valid()
      modifies this
      ensures Valid() && pos == if ok then p else old(pos)
      ensures ok <==> p <= size
    {
      if p > size { return false; }
      pos := p;
      return true;
    }

    // -------- encoding --------

    method PutBytes(s: Stream) returns (ok: bool)
      requires Valid()
      modifies this, buf
      ensures Valid() && Frame() == old(Frame())
      ensures Put(old(Written()), size, ok, Written(), true, s)
    {
      if size - pos < |s| { return false; }
      forall i | 0 <= i < |s| { buf[base + pos + i] := s[i]; }
      pos := pos + |s|;
      assert Written() == old(Written()) + s;
      return true;
    }

    method PutLong(x: U32) returns (ok: bool)
      requires Valid()
      modifies this, buf
      ensures Valid() && Frame() == old(Frame())
      ensures Put(old(Written()), size, ok, Written(), true, EncU32(x))
    {
      ok := PutBytes(EncU32(x));
    }

    method EncodeU32(x: U32) returns (ok: bool)
      requires Valid()
      modifies this, buf
      ensures Valid() && Frame() == old(Frame())
      ensures Put(old(Written()), size, ok, Written(), true, EncU32(x))
    {
      ok := PutLong(x);
    }

    /** xdr_int, and xdr_enum of any enumeration. */
    method EncodeI32(x: I32) returns (ok: bool)
      requires Valid()
      modifies this, buf
      ensures Valid() && Frame() == old(Frame())
      ensures Put(old(Written()), size, ok, Written(), true, EncI32(x))
    {
      ok := PutLong(if x < 0 then x + 0x1_0000_0000 else x);
    }

    method EncodeBool(b: bool) returns (ok: bool)
      requires Valid()
      modifies this, buf
      ensures Valid() && Frame() == old(Frame())
      ensures Put(old(Written()), size, ok, Written(), true, EncBool(b))
    {
      ok := EncodeI32(if b then 1 else 0);
    }

    method EncodeU64(x: U64) returns (ok: bool)
      requires Valid()
      modifies this, buf
      ensures Valid() && Frame() == old(Frame())
      ensures Put(old(Written()), size, ok, Written(), true, EncU64(x))
    {
      hide Valid, Written, Frame, EncU32;
      ok := PutLong(x / 0x1_0000_0000);
      if !ok { return; }
      ok := PutLong(x % 0x1_0000_0000);
      Assoc(old(Written()), EncU32(x / 0x1_0000_0000), EncU32(x % 0x1_0000_0000));
    }

    method EncodeOpaque(s: Stream) returns (ok: bool)
      requires Valid()
      modifies this, buf
      ensures Valid() && Frame() == old(Frame())
      ensures Put(old(Written()), size, ok, Written(), true, EncOpaque(s))
    {
      hide Written, Frame, Fill;
      var zeros := seq(Fill(|s|), i => 0);
      Assoc(old(Written()), s, zeros);
      if |s| == 0 {
        NoFill();
        assert zeros == [] && EncOpaque(s) == [];
        assert old(Written()) + [] == old(Written());
        return true;
      }
      ok := PutBytes(s);
      if !ok { return; }
      if Fill(|s|) == 0 {
        assert Written() + zeros == Written();
        return true;
      }
      ok := PutBytes(zeros);
    }

    method EncodeBytes(b: Bytes, max: nat) returns (ok: bool)
      requires Valid()
      modifies this, buf
      ensures Valid() && Frame() == old(Frame())
      ensures Put(old(Written()), size, ok, Written(), |b| <= max, EncBytes(b))
    {
      hide Valid, Written, Frame, EncU32, EncOpaque;
      ok := EncodeU32(|b|);
      if !ok { return; }
      if |b| > max { return false; }
      ok := EncodeOpaque(b);
      Assoc(old(Written()), EncU32(|b|), EncOpaque(b));
    }

    method EncodeTimestamp(t: Timestamp) returns (ok: bool)
      requires Valid()
      modifies this, buf
      ensures Valid() && Frame() == old(Frame())
      ensures Put(old(Written()), size, ok, Written(), true, EncTimestamp(t))
    {
      hide Valid, Written, Frame, EncU64;
      ok := EncodeU64(t.secs);
      if !ok { return; }
      ok := EncodeU64(t.seqno);
      Assoc(old(Written()), EncU64(t.secs), EncU64(t.seqno));
    }

    method EncodeServiceTag(t: ServiceTag) returns (ok: bool)
      requires Valid()
      modifies this, buf
      ensures Valid() && Frame() == old(Frame())
      ensures Put(old(Written()), size, ok, Written(), true, EncChars(t))
    {
      hide Valid, Written, Frame, EncI32;
      var i := 0;
      assert old(Written()) + [] == old(Written());
      while i < |t|
        invariant 0 <= i <= |t| && Valid() && Frame() == old(Frame())
        invariant Written() == old(Written()) + EncChars(t[..i])
        invariant |old(Written())| + 4 * i <= size || i == 0
      {
        ok := EncodeI32(t[i]);
        if !ok { return; }
        Assoc(old(Written()), EncChars(t[..i]), EncI32(t[i]));
        CharsSnoc(t, i);
        i := i + 1;
      }
      assert t[..i] == t;
      return true;
    }

    method EncodeRegInfo(v: RegInfo) returns (ok: bool)
      requires Valid()
      modifies this, buf
      ensures Valid() && Frame() == old(Frame())
      ensures Put(old(Written()), size, ok, Written(), RegInfoOk(v), EncRegInfo(v))
    {
      hide Valid, Written, Frame, EncOpaque, EncU32, EncBool, EncBytes;
      ok := EncodeOpaque(v.endpoint);
      if !ok { return; }
      ok := EncodeU32(v.regid);
      if !ok { return; }
      ok := EncodeU32(v.flags);
      if !ok { return; }
      ok := EncodeU32(v.expiration);
      if !ok { return; }
      ok := EncodeBool(v.initPassive);
      if !ok { return; }
      ok := EncodeBytes(v.script, MAX_EXEC_LEN);
      if !ok { return; }
      Append6(old(Written()), EncOpaque(v.endpoint), EncU32(v.regid), EncU32(v.flags), EncU32(v.expiration),
              EncBool(v.initPassive), EncBytes(v.script));
    }

    method EncodeBlock(b: Block) returns (ok: bool)
      requires Valid()
      modifies this, buf
      ensures Valid() && Frame() == old(Frame())
      ensures Put(old(Written()), size, ok, Written(), BlockOk(b), EncBlock(b))
    {
      hide Valid, Written, Frame, EncU32, EncBytes;
      ok := EncodeU32(b.kind);
      if !ok { return; }
      ok := EncodeU32(b.flags);
      if !ok { return; }
      ok := EncodeBytes(b.data, MAX_BLOCK_LEN);
      if !ok { return; }
      Append3(old(Written()), EncU32(b.kind), EncU32(b.flags), EncBytes(b.data));
    }

    /** xdr_array: the count, and then the blocks one after the other. */
    method EncodeBlocks(bs: Blocks) returns (ok: bool)
      requires Valid()
      modifies this, buf
      ensures Valid() && Frame() == old(Frame())
      ensures Put(old(Written()), size, ok, Written(), BlocksOk(bs), EncBlocks(bs))
    {
      hide Valid, Written, Frame, EncU32, EncBlock, BlockOk, EncEach;
      EachNone();
      ok := EncodeU32(|bs|);
      if !ok { return; }
      if |bs| > MAX_BLOCKS { return false; }
      ghost var w := Written();
      assert w + [] == w;
      var i := 0;
      while i < |bs|
        invariant 0 <= i <= |bs| && Valid() && Frame() == old(Frame())
        invariant Written() == w + EncEach(bs[..i]) && (forall b :: b in bs[..i] ==> BlockOk(b))
        invariant |w| + BlocksSize(bs[..i]) <= size
      {
        ok := EncodeBlock(bs[i]);
        EachSnoc(bs, i);
        assert bs[..i + 1] == bs[..i] + [bs[i]];
        EachPrefix(bs, i + 1);
        if !ok { return; }
        Assoc(w, EncEach(bs[..i]), EncBlock(bs[i]));
        i := i + 1;
      }
      assert bs[..i] == bs;
      Assoc(old(Written()), EncU32(|bs|), EncEach(bs));
      return true;
    }

    method EncodeAddresses(v: Spec) returns (ok: bool)
      requires Valid()
      modifies this, buf
      ensures Valid() && Frame() == old(Frame())
      ensures Put(old(Written()), size, ok, Written(), true, EncAddresses(v))
    {
      hide Valid, Written, Frame, EncOpaque;
      ok := EncodeOpaque(v.source);
      if !ok { return; }
      ok := EncodeOpaque(v.dest);
      if !ok { return; }
      ok := EncodeOpaque(v.replyto);
      if !ok { return; }
      Append3(old(Written()), EncOpaque(v.source), EncOpaque(v.dest), EncOpaque(v.replyto));
    }

    method EncodeOptions(v: Spec) returns (ok: bool)
      requires Valid()
      modifies this, buf
      ensures Valid() && Frame() == old(Frame())
      ensures Put(old(Written()), size, ok, Written(), true, EncOptions(v))
    {
      hide Valid, Written, Frame, EncI32, EncU32, EncTimestamp;
      ok := EncodeI32(v.priority);
      if !ok { return; }
      ok := EncodeI32(v.dopts);
      if !ok { return; }
      ok := EncodeU32(v.expiration);
      if !ok { return; }
      ok := EncodeTimestamp(v.creation);
      if !ok { return; }
      ok := EncodeU32(v.deliveryRegid);
      if !ok { return; }
      Append5(old(Written()), EncI32(v.priority), EncI32(v.dopts), EncU32(v.expiration),
              EncTimestamp(v.creation), EncU32(v.deliveryRegid));
    }

    method EncodeIdsAndBlocks(v: Spec) returns (ok: bool)
      requires Valid()
      modifies this, buf
      ensures Valid() && Frame() == old(Frame())
      ensures Put(old(Written()), size, ok, Written(), SpecOk(v), EncIdsAndBlocks(v))
    {
      hide Valid, Written, Frame, EncBytes, EncBlocks, BlocksOk, Padded;
      ok := EncodeBytes(v.sequenceId, MAX_BLOCK_LEN);
      if !ok { return; }
      ok := EncodeBytes(v.obsoletesId, MAX_BLOCK_LEN);
      if !ok { return; }
      ok := EncodeBlocks(v.blocks);
      if !ok { return; }
      ok := EncodeBlocks(v.metadata);
      if !ok { return; }
      Append4(old(Written()), EncBytes(v.sequenceId), EncBytes(v.obsoletesId), EncBlocks(v.blocks),
              EncBlocks(v.metadata));
    }

    /** The routine of the bundle metadata, whose fields are in three runs here. */
    method EncodeSpec(v: Spec) returns (ok: bool)
      requires Valid()
      modifies this, buf
      ensures Valid() && Frame() == old(Frame())
      ensures Put(old(Written()), size, ok, Written(), SpecOk(v), EncSpec(v))
    {
      hide Valid, Written, Frame, EncAddresses, EncOptions, EncIdsAndBlocks, SpecOk, Padded, BlocksSize;
      ok := EncodeAddresses(v);
      if !ok { return; }
      ok := EncodeOptions(v);
      if !ok { return; }
      ok := EncodeIdsAndBlocks(v);
      if !ok { return; }
      Append3(old(Written()), EncAddresses(v), EncOptions(v), EncIdsAndBlocks(v));
    }

    method EncodeBundleId(v: BundleId) returns (ok: bool)
      requires Valid()
      modifies this, buf
      ensures Valid() && Frame() == old(Frame())
      ensures Put(old(Written()), size, ok, Written(), true, EncBundleId(v))
    {
      hide Valid, Written, Frame, EncOpaque, EncU32, EncTimestamp;
      ok := EncodeOpaque(v.source);
      if !ok { return; }
      ok := EncodeTimestamp(v.creation);
      if !ok { return; }
      ok := EncodeU32(v.fragOffset);
      if !ok { return; }
      ok := EncodeU32(v.origLength);
      if !ok { return; }
      Append4(old(Written()), EncOpaque(v.source), EncTimestamp(v.creation), EncU32(v.fragOffset),
              EncU32(v.origLength));
    }

    method EncodeReport(v: Report) returns (ok: bool)
      requires Valid()
      modifies this, buf
      ensures Valid() && Frame() == old(Frame())
      ensures Put(old(Written()), size, ok, Written(), true, EncReport(v))
    {
      hide Valid, Written, Frame, EncBundleId, EncI32, EncTimestamp;
      ok := EncodeBundleId(v.id);
      if !ok { return; }
      ok := EncodeI32(v.reason);
      if !ok { return; }
      ok := EncodeI32(v.flags);
      if !ok { return; }
      ok := EncodeTimestamp(v.receipt);
      if !ok { return; }
      ok := EncodeTimestamp(v.custody);
      if !ok { return; }
      ok := EncodeTimestamp(v.forwarding);
      if !ok { return; }
      ok := EncodeTimestamp(v.delivery);
      if !ok { return; }
      ok := EncodeTimestamp(v.deletion);
      if !ok { return; }
      ok := EncodeTimestamp(v.ack);
      if !ok { return; }
      AppendReport(old(Written()), v);
    }

    /** xdr_pointer. */
    method EncodeOptional(r: Option<Report>) returns (ok: bool)
      requires Valid()
      modifies this, buf
      ensures Valid() && Frame() == old(Frame())
      ensures Put(old(Written()), size, ok, Written(), true, EncOptional(r))
    {
      hide Valid, Written, Frame, EncBool, EncReport;
      ok := EncodeBool(r.Some?);
      if !ok { return; }
      if r.None? {
        assert EncOptional(r) == EncBool(r.Some?);
        return true;
      }
      ok := EncodeReport(r.value);
      Assoc(old(Written()), EncBool(r.Some?), EncReport(r.value));
    }

    method EncodePayload(v: Payload) returns (ok: bool)
      requires Valid()
      modifies this, buf
      ensures Valid() && Frame() == old(Frame())
      ensures Put(old(Written()), size, ok, Written(), PayloadOk(v), EncPayload(v))
    {
      hide Valid, Written, Frame, EncI32, EncBytes, EncOptional;
      ok := EncodeI32(v.location);
      if !ok { return; }
      ok := EncodeBytes(v.filename, MAX_PATH_LEN);
      if !ok { return; }
      ok := EncodeBytes(v.buf, MAX_BUNDLE_MEM);
      if !ok { return; }
      ok := EncodeOptional(v.report);
      if !ok { return; }
      Append4(old(Written()), EncI32(v.location), EncBytes(v.filename), EncBytes(v.buf), EncOptional(v.report));
    }

    /** The arguments of dtn_send. */
    method EncodeSend(a: SendArgs) returns (ok: bool)
      requires Valid()
      modifies this, buf
      ensures Valid() && Frame() == old(Frame())
      ensures Put(old(Written()), size, ok, Written(), SendOk(a), EncSend(a))
    {
      hide Valid, Written, Frame, EncU32, EncSpec, EncPayload, SpecOk, PayloadOk, SendSize;
      ok := EncodeU32(a.regid);
      if !ok { return; }
      ok := EncodeSpec(a.spec);
      if !ok { return; }
      ok := EncodePayload(a.payload);
      if !ok { return; }
      Append3(old(Written()), EncU32(a.regid), EncSpec(a.spec), EncPayload(a.payload));
    }

    // -------- decoding --------

    method GetLong() returns (r: Option<U32>)
      requires Valid()
      modifies `pos
      ensures Valid() && Got(r, Ahead(), DecU32(old(Ahead())))
    {
      hide Word;
      if size - pos < 4 { return None; }
      var i := base + pos;
      pos := pos + 4;
      assert Ahead() == old(Ahead())[4..];
      return Some(Word(buf[i], buf[i + 1], buf[i + 2], buf[i + 3]));
    }

    method DecodeI32() returns (r: Option<I32>)
      requires Valid()
      modifies `pos
      ensures Valid() && Got(r, Ahead(), DecI32(old(Ahead())))
    {
      hide Valid, Ahead, DecU32;
      var x := GetLong();
      if x.None? { return None; }
      var y: int := x.value;
      return Some(if y < 0x8000_0000 then y else y - 0x1_0000_0000);
    }

    method DecodeBool() returns (r: Option<bool>)
      requires Valid()
      modifies `pos
      ensures Valid() && Got(r, Ahead(), DecBool(old(Ahead())))
    {
      hide Valid, Ahead, DecI32;
      var x := DecodeI32();
      if x.None? { return None; }
      return Some(x.value != 0);
    }

    method DecodeU64() returns (r: Option<U64>)
      requires Valid()
      modifies `pos
      ensures Valid() && Got(r, Ahead(), DecU64(old(Ahead())))
    {
      hide Valid, Ahead, DecU32;
      var hi := GetLong();
      if hi.None? { return None; }
      var lo := GetLong();
      if lo.None? { return None; }
      var x: int := hi.value;
      return Some(x * 0x1_0000_0000 + lo.value);
    }

    method DecodeOpaque(n: nat) returns (r: Option<Stream>)
      requires Valid()
      modifies `pos
      ensures Valid() && Got(r, Ahead(), DecOpaque(n, old(Ahead())))
    {
      hide Fill;
      if n == 0 {
        NoFill();
        assert old(Ahead())[0..] == Ahead();
        return Some([]);
      }
      if size - pos < n { return None; }
      var s := buf[base + pos..base + pos + n];
      pos := pos + n;
      if size - pos < Fill(n) { return None; }
      pos := pos + Fill(n);
      assert Ahead() == old(Ahead())[Padded(n)..] && s == old(Ahead())[..n];
      return Some(s);
    }

    method DecodeBytes(max: nat) returns (r: Option<Bytes>)
      requires Valid()
      modifies `pos
      ensures Valid() && Got(r, Ahead(), DecBytes(max, old(Ahead())))
    {
      hide Valid, Ahead, DecU32, DecOpaque;
      var n := GetLong();
      if n.None? || n.value > max { return None; }
      var s := DecodeOpaque(n.value);
      if s.None? { return None; }
      return Some(s.value);
    }

    method DecodeEndpointId() returns (r: Option<EndpointId>)
      requires Valid()
      modifies `pos
      ensures Valid() && Got(r, Ahead(), DecEndpointId(old(Ahead())))
    {
      hide Valid, Ahead, DecOpaque;
      var s := DecodeOpaque(MAX_ENDPOINT_ID);
      if s.None? { return None; }
      return Some(s.value);
    }

    method DecodeServiceTag() returns (r: Option<ServiceTag>)
      requires Valid()
      modifies `pos
      ensures Valid() && Got(r, Ahead(), DecServiceTag(old(Ahead())))
    {
      hide Valid, Ahead, DecI32, ToChar;
      var tag: seq<Char> := [];
      AfterNone(DecChars(MAX_ENDPOINT_ID, Ahead()));
      while |tag| < MAX_ENDPOINT_ID
        invariant |tag| <= MAX_ENDPOINT_ID && Valid()
        invariant DecServiceTag(old(Ahead())) == After(tag, DecChars(MAX_ENDPOINT_ID - |tag|, Ahead()))
      {
        var x := DecodeI32();
        if x.None? { return None; }
        AfterMore(tag, ToChar(x.value), DecChars(MAX_ENDPOINT_ID - |tag| - 1, Ahead()));
        tag := tag + [ToChar(x.value)];
      }
      assert tag + [] == tag;
      return Some(tag);
    }

    method DecodeTimestamp() returns (r: Option<Timestamp>)
      requires Valid()
      modifies `pos
      ensures Valid() && Got(r, Ahead(), DecTimestamp(old(Ahead())))
    {
      hide Valid, Ahead, DecU64;
      var secs := DecodeU64();
      if secs.None? { return None; }
      var seqno := DecodeU64();
      if seqno.None? { return None; }
      return Some(Timestamp(secs.value, seqno.value));
    }

    method DecodeRegInfo() returns (r: Option<RegInfo>)
      requires Valid()
      modifies `pos
      ensures Valid() && Got(r, Ahead(), DecRegInfo(old(Ahead())))
    {
      hide Valid, Ahead, DecEndpointId, DecU32, DecBool, DecBytes;
      var endpoint := DecodeEndpointId();
      if endpoint.None? { return None; }
      var regid := GetLong();
      if regid.None? { return None; }
      var flags := GetLong();
      if flags.None? { return None; }
      var expiration := GetLong();
      if expiration.None? { return None; }
      var initPassive := DecodeBool();
      if initPassive.None? { return None; }
      var script := DecodeBytes(MAX_EXEC_LEN);
      if script.None? { return None; }
      return Some(RegInfo(endpoint.value, regid.value, flags.value, expiration.value, initPassive.value, script.value));
    }

    method DecodeBlock() returns (r: Option<Block>)
      requires Valid()
      modifies `pos
      ensures Valid() && Got(r, Ahead(), DecBlock(old(Ahead())))
    {
      hide Valid, Ahead, DecU32, DecBytes;
      var kind := GetLong();
      if kind.None? { return None; }
      var flags := GetLong();
      if flags.None? { return None; }
      var data := DecodeBytes(MAX_BLOCK_LEN);
      if data.None? { return None; }
      return Some(Block(kind.value, flags.value, data.value));
    }

    method DecodeBlocks() returns (r: Option<Blocks>)
      requires Valid()
      modifies `pos
      ensures Valid() && Got(r, Ahead(), DecBlocks(old(Ahead())))
    {
      hide Valid, Ahead, DecU32, DecBlock;
      var n := GetLong();
      if n.None? || n.value > MAX_BLOCKS { return None; }
      ghost var start := Ahead();
      var bs: seq<Block> := [];
      AfterNone(DecEach(n.value, start));
      while |bs| < n.value
        invariant |bs| <= n.value && Valid()
        invariant DecEach(n.value, start) == After(bs, DecEach(n.value - |bs|, Ahead()))
      {
        var b := DecodeBlock();
        if b.None? { return None; }
        AfterMore(bs, b.value, DecEach(n.value - |bs| - 1, Ahead()));
        bs := bs + [b.value];
      }
      assert bs + [] == bs;
      return Some(bs);
    }

    method DecodeSpec() returns (r: Option<Spec>)
      requires Valid()
      modifies `pos
      ensures Valid() && Got(r, Ahead(), DecSpec(old(Ahead())))
    {
      hide Valid, Ahead, DecEndpointId, DecI32, DecU32, DecTimestamp, DecBytes, DecBlocks;
      var source := DecodeEndpointId();
      if source.None? { return None; }
      var dest := DecodeEndpointId();
      if dest.None? { return None; }
      var replyto := DecodeEndpointId();
      if replyto.None? { return None; }
      var priority := DecodeI32();
      if priority.None? { return None; }
      var dopts := DecodeI32();
      if dopts.None? { return None; }
      var expiration := GetLong();
      if expiration.None? { return None; }
      var creation := DecodeTimestamp();
      if creation.None? { return None; }
      var regid := GetLong();
      if regid.None? { return None; }
      var sequenceId := DecodeBytes(MAX_BLOCK_LEN);
      if sequenceId.None? { return None; }
      var obsoletesId := DecodeBytes(MAX_BLOCK_LEN);
      if obsoletesId.None? { return None; }
      var blocks := DecodeBlocks();
      if blocks.None? { return None; }
      var metadata := DecodeBlocks();
      if metadata.None? { return None; }
      return Some(Spec(source.value, dest.value, replyto.value, priority.value, dopts.value, expiration.value,
                       creation.value, regid.value, sequenceId.value, obsoletesId.value, blocks.value,
                       metadata.value));
    }

    method DecodeBundleId() returns (r: Option<BundleId>)
      requires Valid()
      modifies `pos
      ensures Valid() && Got(r, Ahead(), DecBundleId(old(Ahead())))
    {
      hide Valid, Ahead, DecEndpointId, DecU32, DecTimestamp;
      var source := DecodeEndpointId();
      if source.None? { return None; }
      var creation := DecodeTimestamp();
      if creation.None? { return None; }
      var fragOffset := GetLong();
      if fragOffset.None? { return None; }
      var origLength := GetLong();
      if origLength.None? { return None; }
      return Some(BundleId(source.value, creation.value, fragOffset.value, origLength.value));
    }

    method DecodeReport() returns (r: Option<Report>)
      requires Valid()
      modifies `pos
      ensures Valid() && Got(r, Ahead(), DecReport(old(Ahead())))
    {
      hide Valid, Ahead, DecBundleId, DecI32, DecTimestamp;
      var id := DecodeBundleId();
      if id.None? { return None; }
      var reason := DecodeI32();
      if reason.None? { return None; }
      var flags := DecodeI32();
      if flags.None? { return None; }
      var receipt := DecodeTimestamp();
      if receipt.None? { return None; }
      var custody := DecodeTimestamp();
      if custody.None? { return None; }
      var forwarding := DecodeTimestamp();
      if forwarding.None? { return None; }
      var delivery := DecodeTimestamp();
      if delivery.None? { return None; }
      var deletion := DecodeTimestamp();
      if deletion.None? { return None; }
      var ack := DecodeTimestamp();
      if ack.None? { return None; }
      return Some(Report(id.value, reason.value, flags.value, receipt.value, custody.value, forwarding.value,
                         delivery.value, deletion.value, ack.value));
    }

    method DecodeOptional() returns (r: Option<Option<Report>>)
      requires Valid()
      modifies `pos
      ensures Valid() && Got(r, Ahead(), DecOptional(old(Ahead())))
    {
      hide Valid, Ahead, DecBool, DecReport;
      var more := DecodeBool();
      if more.None? { return None; }
      if !more.value { return Some(None); }
      var report := DecodeReport();
      if report.None? { return None; }
      return Some(Some(report.value));
    }

    method DecodePayload() returns (r: Option<Payload>)
      requires Valid()
      modifies `pos
      ensures Valid() && Got(r, Ahead(), DecPayload(old(Ahead())))
    {
      hide Valid, Ahead, DecI32, DecBytes, DecOptional;
      var location := DecodeI32();
      if location.None? { return None; }
      var filename := DecodeBytes(MAX_PATH_LEN);
      if filename.None? { return None; }
      var contents := DecodeBytes(MAX_BUNDLE_MEM);
      if contents.None? { return None; }
      var report := DecodeOptional();
      if report.None? { return None; }
      return Some(Payload(location.value, filename.value, contents.value, report.value));
    }

    /** The arguments that handle_send unpacks. */
    method DecodeSend() returns (r: Option<SendArgs>)
      requires Valid()
      modifies `pos
      ensures Valid() && Got(r, Ahead(), DecSend(old(Ahead())))
    {
      hide Valid, Ahead, DecU32, DecSpec, DecPayload;
      var regid := GetLong();
      if regid.None? { return None; }
      var spec := DecodeSpec();
      if spec.None? { return None; }
      var payload := DecodePayload();
      if payload.None? { return None; }
      return Some(SendArgs(regid.value, spec.value, payload.value));
    }
  }

  lemma NoFill()
    ensures Fill(0) == 0
  {
  }

  lemma CharsSnoc(t: seq<Char>, i: nat)
    requires i < |t|
    ensures EncChars(t[..i + 1]) == EncChars(t[..i]) + EncI32(t[i])
    decreases i
  {
    hide EncI32;
    if i == 0 {
      assert t[..1] == [t[0]] && EncChars([]) == [];
      assert EncI32(t[0]) + [] == EncI32(t[0]);
    } else {
      assert t[..i + 1][1..] == t[1..][..i] && t[..i][1..] == t[1..][..i - 1];
      CharsSnoc(t[1..], i - 1);
      Assoc(EncI32(t[0]), EncChars(t[1..][..i - 1]), EncI32(t[i]));
    }
  }

  /** Appending fields one by one appends their sequence. */
  lemma Append3(w: Stream, a: Stream, b: Stream, c: Stream)
    ensures ((w + a) + b) + c == w + (a + (b + c))
  {
    Assoc(w + a, b, c);
    Assoc(w, a, b + c);
  }

  lemma Append4(w: Stream, a: Stream, b: Stream, c: Stream, d: Stream)
    ensures (((w + a) + b) + c) + d == w + (a + (b + (c + d)))
  {
    Append3(w + a, b, c, d);
    Assoc(w, a, b + (c + d));
  }

  lemma Append5(w: Stream, a: Stream, b: Stream, c: Stream, d: Stream, e: Stream)
    ensures ((((w + a) + b) + c) + d) + e == w + (a + (b + (c + (d + e))))
  {
    Append4(w + a, b, c, d, e);
    Assoc(w, a, b + (c + (d + e)));
  }

  lemma Append6(w: Stream, a: Stream, b: Stream, c: Stream, d: Stream, e: Stream, f: Stream)
    ensures (((((w + a) + b) + c) + d) + e) + f == w + (a + (b + (c + (d + (e + f)))))
  {
    Append5(w + a, b, c, d, e, f);
    Assoc(w, a, b + (c + (d + (e + f))));
  }

  lemma EachNone()
    ensures EncEach([]) == [] && BlocksSize([]) == 0
  {
  }

  lemma {:induction false} EachSnoc(bs: seq<Block>, i: nat)
    requires i < |bs|
    ensures EncEach(bs[..i + 1]) == EncEach(bs[..i]) + EncBlock(bs[i])
    decreases i
  {
    hide EncBlock;
    if i == 0 {
      EachNone();
      assert bs[..1] == [bs[0]] && bs[..0] == [] && [bs[0]][1..] == [];
      assert EncBlock(bs[0]) + [] == EncBlock(bs[0]);
      assert [] + EncBlock(bs[0]) == EncBlock(bs[0]);
    } else {
      assert bs[..i + 1][1..] == bs[1..][..i] && bs[..i][1..] == bs[1..][..i - 1];
      EachSnoc(bs[1..], i - 1);
      Assoc(EncBlock(bs[0]), EncEach(bs[1..][..i - 1]), EncBlock(bs[i]));
    }
  }

  lemma {:induction false} EachPrefix(bs: seq<Block>, i: nat)
    requires i <= |bs|
    ensures BlocksSize(bs[..i]) <= BlocksSize(bs)
    decreases i
  {
    hide Padded;
    if i > 0 {
      assert bs[..i][1..] == bs[1..][..i - 1];
      EachPrefix(bs[1..], i - 1);
    }
  }

  lemma AppendReport(w: Stream, v: Report)
    ensures
      ((((((((w + EncBundleId(v.id)) + EncI32(v.reason)) + EncI32(v.flags)) + EncTimestamp(v.receipt))
      + EncTimestamp(v.custody)) + EncTimestamp(v.forwarding)) + EncTimestamp(v.delivery))
      + EncTimestamp(v.deletion)) + EncTimestamp(v.ack)
      == w + EncReport(v)
  {
    hide EncBundleId, EncI32, EncTimestamp;
    var w1 := ((w + EncBundleId(v.id)) + EncI32(v.reason)) + EncI32(v.flags);
    Append6(w1, EncTimestamp(v.receipt), EncTimestamp(v.custody), EncTimestamp(v.forwarding),
            EncTimestamp(v.delivery), EncTimestamp(v.deletion), EncTimestamp(v.ack));
    Append4(w, EncBundleId(v.id), EncI32(v.reason), EncI32(v.flags), EncTimes(v));
  }

  /** Elements read before what follows. */
  ghost function After<T>(front: seq<T>, d: Read<seq<T>>): Read<seq<T>> {
    if d.None? then None else Some((front + d.value.0, d.value.1))
  }

  lemma AfterNone<T>(d: Read<seq<T>>)
    ensures After([], d) == d
  {
    if d.Some? { assert [] + d.value.0 == d.value.0; }
  }

  lemma AfterMore<T>(front: seq<T>, x: T, d: Read<seq<T>>)
    ensures
      After(front, if d.None? then None else Some(([x] + d.value.0, d.value.1))) == After(front + [x], d)
  {
    if d.Some? { assert front + ([x] + d.value.0) == (front + [x]) + d.value.0; }
  }
}
