/** The XDR encodings (RFC 4506) of the types of the DTN client API. */
module Xdr {
  import opened Collections
  import opened Text

  type Byte = x: int | 0 <= x < 256
  type U32 = x: int | 0 <= x < 0x1_0000_0000
  type I32 = x: int | -0x8000_0000 <= x < 0x8000_0000
  type U64 = x: int | 0 <= x < 0x1_0000_0000_0000_0000
  type Char = x: int | -128 <= x < 128
  type Stream = seq<Byte>

  /** Counted data: the count is an unsigned int. */
  type Bytes = s: seq<Byte> | |s| < 0x1_0000_0000

  const MAX_ENDPOINT_ID: nat := 256
  const MAX_PATH_LEN: nat := 4096  // PATH_MAX
  const MAX_EXEC_LEN: nat := 4096  // ARG_MAX, or else _POSIX_ARG_MAX
  const MAX_BUNDLE_MEM: nat := 50000
  const MAX_BLOCK_LEN: nat := 1024
  const MAX_BLOCKS: nat := 256

  type EndpointId = s: seq<Byte> | |s| == MAX_ENDPOINT_ID witness seq(MAX_ENDPOINT_ID, i => 0)
  type ServiceTag = s: seq<Char> | |s| == MAX_ENDPOINT_ID witness seq(MAX_ENDPOINT_ID, i => 0)

  datatype Timestamp = Timestamp(secs: U64, seqno: U64)

  /** Enumerations are any int: the encoding does not check them. */
  datatype RegInfo = RegInfo(endpoint: EndpointId, regid: U32, flags: U32, expiration: U32, initPassive: bool,
                             script: Bytes)

  datatype Block = Block(kind: U32, flags: U32, data: Bytes)
  type Blocks = s: seq<Block> | |s| < 0x1_0000_0000

  datatype Spec = Spec(source: EndpointId, dest: EndpointId, replyto: EndpointId, priority: I32, dopts: I32,
                       expiration: U32, creation: Timestamp, deliveryRegid: U32, sequenceId: Bytes,
                       obsoletesId: Bytes, blocks: Blocks, metadata: Blocks)

  datatype BundleId = BundleId(source: EndpointId, creation: Timestamp, fragOffset: U32, origLength: U32)

  datatype Report = Report(id: BundleId, reason: I32, flags: I32, receipt: Timestamp, custody: Timestamp,
                           forwarding: Timestamp, delivery: Timestamp, deletion: Timestamp, ack: Timestamp)

  datatype Payload = Payload(location: I32, filename: Bytes, buf: Bytes, report: Option<Report>)

  /** What a decoder makes of a stream: a value and the rest, or failure. */
  type Read<T> = Option<(T, Stream)>

  // -------- primitives: sections 4.1 to 4.5 and 4.9 to 4.14 of RFC 4506 --------

  function EncU32(x: U32): (r: Stream)
    ensures |r| == 4
  {
    [x / 0x100_0000, x / 0x1_0000 % 256, x / 0x100 % 256, x % 256]
  }

  function Word(a: int, b: int, c: int, d: int): U32
    requires 0 <= a < 256 && 0 <= b < 256 && 0 <= c < 256 && 0 <= d < 256
  {
    a * 0x100_0000 + b * 0x1_0000 + c * 0x100 + d
  }

  function DecU32(s: Stream): Read<U32> {
    if |s| < 4 then None
    else Some((Word(s[0], s[1], s[2], s[3]), s[4..]))
  }

  function EncI32(x: I32): (r: Stream)
    ensures |r| == 4
  {
    EncU32(if x < 0 then x + 0x1_0000_0000 else x)
  }

  function DecI32(s: Stream): Read<I32> {
    var (x, s) :- DecU32(s);
    Some((if x < 0x8000_0000 then x else x - 0x1_0000_0000, s))
  }

  function EncBool(b: bool): (r: Stream)
    ensures |r| == 4
  {
    EncI32(if b then 1 else 0)
  }

  function DecBool(s: Stream): Read<bool> {
    var (x, s) :- DecI32(s);
    Some((x != 0, s))
  }

  function EncU64(x: U64): (r: Stream)
    ensures |r| == 8
  {
    EncU32(x / 0x1_0000_0000) + EncU32(x % 0x1_0000_0000)
  }

  function DecU64(s: Stream): Read<U64> {
    var (hi, s) :- DecU32(s);
    var (lo, s) :- DecU32(s);
    Some((hi * 0x1_0000_0000 + lo, s))
  }

  /** Bytes to fill the last group of four. */
  function Fill(n: nat): (k: nat)
    ensures k < 4 && (n + k) % 4 == 0
  {
    (4 - n % 4) % 4
  }

  function Padded(n: nat): (k: nat)
    ensures k % 4 == 0 && n <= k < n + 4
  {
    n + Fill(n)
  }

  function EncOpaque(s: Stream): (r: Stream)
    ensures |r| == Padded(|s|)
  {
    s + seq(Fill(|s|), i => 0)
  }

  /** The fill bytes are skipped, whatever they are. */
  function DecOpaque(n: nat, s: Stream): (r: Read<Stream>)
    ensures r.Some? ==> |r.value.0| == n
  {
    if |s| < Padded(n) then None else Some((s[..n], s[Padded(n)..]))
  }

  function EncBytes(b: Bytes): (r: Stream)
    ensures |r| == 4 + Padded(|b|)
  {
    EncU32(|b|) + EncOpaque(b)
  }

  function DecBytes(max: nat, s: Stream): Read<Bytes> {
    var (n, s) :- DecU32(s);
    if n > max then None else DecOpaque(n, s)
  }

  // -------- the types of the API --------

  function DecEndpointId(s: Stream): Read<EndpointId> { DecOpaque(MAX_ENDPOINT_ID, s) }

  /** A service tag is a vector of characters: each takes a whole word. */
  function EncChars(cs: seq<Char>): (r: Stream)
    ensures |r| == 4 * |cs|
  {
    if cs == [] then [] else EncI32(cs[0]) + EncChars(cs[1..])
  }

  /** An int is cut to its low byte. */
  function ToChar(x: I32): Char { (x + 128) % 256 - 128 }

  function DecChars(n: nat, s: Stream): (r: Read<seq<Char>>)
    ensures r.Some? ==> |r.value.0| == n
  {
    if n == 0 then Some(([], s))
    else
      var (x, s) :- DecI32(s);
      var (cs, s) :- DecChars(n - 1, s);
      Some(([ToChar(x)] + cs, s))
  }

  function DecServiceTag(s: Stream): Read<ServiceTag> { DecChars(MAX_ENDPOINT_ID, s) }

  function EncTimestamp(t: Timestamp): (r: Stream)
    ensures |r| == 16
  {
    EncU64(t.secs) + EncU64(t.seqno)
  }

  function DecTimestamp(s: Stream): Read<Timestamp> {
    var (secs, s) :- DecU64(s);
    var (seqno, s) :- DecU64(s);
    Some((Timestamp(secs, seqno), s))
  }

  function EncRegInfo(v: RegInfo): (r: Stream)
    ensures |r| == 276 + Padded(|v.script|)
  {
    EncOpaque(v.endpoint) + (EncU32(v.regid) + (EncU32(v.flags) + (EncU32(v.expiration)
    + (EncBool(v.initPassive) + EncBytes(v.script)))))
  }

  function DecRegInfo(s: Stream): Read<RegInfo> {
    var (endpoint, s) :- DecEndpointId(s);
    var (regid, s) :- DecU32(s);
    var (flags, s) :- DecU32(s);
    var (expiration, s) :- DecU32(s);
    var (initPassive, s) :- DecBool(s);
    var (script, s) :- DecBytes(MAX_EXEC_LEN, s);
    Some((RegInfo(endpoint, regid, flags, expiration, initPassive, script), s))
  }

  function EncBlock(b: Block): (r: Stream)
    ensures |r| == 12 + Padded(|b.data|)
  {
    EncU32(b.kind) + (EncU32(b.flags) + EncBytes(b.data))
  }

  function DecBlock(s: Stream): Read<Block> {
    var (kind, s) :- DecU32(s);
    var (flags, s) :- DecU32(s);
    var (data, s) :- DecBytes(MAX_BLOCK_LEN, s);
    Some((Block(kind, flags, data), s))
  }

  function BlocksSize(bs: seq<Block>): (n: nat)
    ensures n % 4 == 0
  {
    if bs == [] then 0 else 12 + Padded(|bs[0].data|) + BlocksSize(bs[1..])
  }

  function EncEach(bs: seq<Block>): (r: Stream)
    ensures |r| == BlocksSize(bs)
  {
    if bs == [] then [] else EncBlock(bs[0]) + EncEach(bs[1..])
  }

  function EncBlocks(bs: Blocks): (r: Stream)
    ensures |r| == 4 + BlocksSize(bs)
  {
    EncU32(|bs|) + EncEach(bs)
  }

  function DecEach(n: nat, s: Stream): (r: Read<seq<Block>>)
    ensures r.Some? ==> |r.value.0| == n
  {
    if n == 0 then Some(([], s))
    else
      var (b, s) :- DecBlock(s);
      var (bs, s) :- DecEach(n - 1, s);
      Some(([b] + bs, s))
  }

  function DecBlocks(s: Stream): Read<Blocks> {
    var (n, s) :- DecU32(s);
    if n > MAX_BLOCKS then None
    else
      var (bs, s) :- DecEach(n, s);
      Some((bs, s))
  }

  /** Where the bundle comes from and goes to. */
  function EncAddresses(v: Spec): (r: Stream)
    ensures |r| == 768
  {
    EncOpaque(v.source) + (EncOpaque(v.dest) + EncOpaque(v.replyto))
  }

  function EncOptions(v: Spec): (r: Stream)
    ensures |r| == 32
  {
    EncI32(v.priority) + (EncI32(v.dopts) + (EncU32(v.expiration) + (EncTimestamp(v.creation)
    + EncU32(v.deliveryRegid))))
  }

  function EncIdsAndBlocks(v: Spec): (r: Stream)
    ensures |r| == 16 + Padded(|v.sequenceId|) + Padded(|v.obsoletesId|)
                   + BlocksSize(v.blocks) + BlocksSize(v.metadata)
  {
    EncBytes(v.sequenceId) + (EncBytes(v.obsoletesId) + (EncBlocks(v.blocks) + EncBlocks(v.metadata)))
  }

  function EncSpec(v: Spec): (r: Stream)
    ensures |r| == 816 + Padded(|v.sequenceId|) + Padded(|v.obsoletesId|)
                   + BlocksSize(v.blocks) + BlocksSize(v.metadata)
  {
    EncAddresses(v) + (EncOptions(v) + EncIdsAndBlocks(v))
  }

  function DecSpec(s: Stream): Read<Spec> {
    var (source, s) :- DecEndpointId(s);
    var (dest, s) :- DecEndpointId(s);
    var (replyto, s) :- DecEndpointId(s);
    var (priority, s) :- DecI32(s);
    var (dopts, s) :- DecI32(s);
    var (expiration, s) :- DecU32(s);
    var (creation, s) :- DecTimestamp(s);
    var (regid, s) :- DecU32(s);
    var (sequenceId, s) :- DecBytes(MAX_BLOCK_LEN, s);
    var (obsoletesId, s) :- DecBytes(MAX_BLOCK_LEN, s);
    var (blocks, s) :- DecBlocks(s);
    var (metadata, s) :- DecBlocks(s);
    Some((Spec(source, dest, replyto, priority, dopts, expiration, creation, regid, sequenceId, obsoletesId,
               blocks, metadata), s))
  }

  function EncBundleId(v: BundleId): (r: Stream)
    ensures |r| == 280
  {
    EncOpaque(v.source) + (EncTimestamp(v.creation) + (EncU32(v.fragOffset) + EncU32(v.origLength)))
  }

  function DecBundleId(s: Stream): Read<BundleId> {
    var (source, s) :- DecEndpointId(s);
    var (creation, s) :- DecTimestamp(s);
    var (fragOffset, s) :- DecU32(s);
    var (origLength, s) :- DecU32(s);
    Some((BundleId(source, creation, fragOffset, origLength), s))
  }

  function EncTimes(v: Report): (r: Stream)
    ensures |r| == 96
  {
    EncTimestamp(v.receipt) + (EncTimestamp(v.custody) + (EncTimestamp(v.forwarding) + (EncTimestamp(v.delivery)
    + (EncTimestamp(v.deletion) + EncTimestamp(v.ack)))))
  }

  function EncReport(v: Report): (r: Stream)
    ensures |r| == 384
  {
    EncBundleId(v.id) + (EncI32(v.reason) + (EncI32(v.flags) + EncTimes(v)))
  }

  function DecReport(s: Stream): Read<Report> {
    var (id, s) :- DecBundleId(s);
    var (reason, s) :- DecI32(s);
    var (flags, s) :- DecI32(s);
    var (receipt, s) :- DecTimestamp(s);
    var (custody, s) :- DecTimestamp(s);
    var (forwarding, s) :- DecTimestamp(s);
    var (delivery, s) :- DecTimestamp(s);
    var (deletion, s) :- DecTimestamp(s);
    var (ack, s) :- DecTimestamp(s);
    Some((Report(id, reason, flags, receipt, custody, forwarding, delivery, deletion, ack), s))
  }

  /** An optional pointer: a boolean and then perhaps the value. */
  function EncOptional(r: Option<Report>): (e: Stream)
    ensures |e| == if r.Some? then 388 else 4
  {
    EncBool(r.Some?) + if r.Some? then EncReport(r.value) else []
  }

  function DecOptional(s: Stream): Read<Option<Report>> {
    var (more, s) :- DecBool(s);
    if more then
      var (r, s) :- DecReport(s);
      Some((Some(r), s))
    else Some((None, s))
  }

  function EncPayload(v: Payload): (r: Stream)
    ensures |r| == 16 + Padded(|v.filename|) + Padded(|v.buf|) + if v.report.Some? then 384 else 0
  {
    EncI32(v.location) + (EncBytes(v.filename) + (EncBytes(v.buf) + EncOptional(v.report)))
  }

  function DecPayload(s: Stream): Read<Payload> {
    var (location, s) :- DecI32(s);
    var (filename, s) :- DecBytes(MAX_PATH_LEN, s);
    var (buf, s) :- DecBytes(MAX_BUNDLE_MEM, s);
    var (report, s) :- DecOptional(s);
    Some((Payload(location, filename, buf, report), s))
  }

  // -------- the length limits --------

  predicate BlockOk(b: Block) { |b.data| <= MAX_BLOCK_LEN }

  predicate BlocksOk(bs: seq<Block>) {
    |bs| <= MAX_BLOCKS && forall b :: b in bs ==> BlockOk(b)
  }

  predicate SpecOk(v: Spec) {
    && |v.sequenceId| <= MAX_BLOCK_LEN && |v.obsoletesId| <= MAX_BLOCK_LEN
    && BlocksOk(v.blocks) && BlocksOk(v.metadata)
  }

  predicate PayloadOk(v: Payload) {
    |v.filename| <= MAX_PATH_LEN && |v.buf| <= MAX_BUNDLE_MEM
  }

  predicate RegInfoOk(v: RegInfo) { |v.script| <= MAX_EXEC_LEN }

  // -------- decoding undoes encoding, and leaves what follows alone --------

  lemma WordOfBytes(x: U32)
    ensures Word(x / 0x100_0000, x / 0x1_0000 % 256, x / 0x100 % 256, x % 256) == x
  {
    var y := x / 0x100;
    var z := y / 0x100;
    assert x / 0x1_0000 == z && x / 0x100_0000 == z / 0x100;
  }

  lemma U32RoundTrip(x: U32, rest: Stream)
    ensures DecU32(EncU32(x) + rest) == Some((x, rest))
  {
    hide Word;
    WordOfBytes(x);
    var s := EncU32(x) + rest;
    assert s[0] == EncU32(x)[0] && s[1] == EncU32(x)[1] && s[2] == EncU32(x)[2] && s[3] == EncU32(x)[3];
    assert s[4..] == rest;
  }

  lemma I32RoundTrip(x: I32, rest: Stream)
    ensures DecI32(EncI32(x) + rest) == Some((x, rest))
  {
    hide EncU32, DecU32;
    U32RoundTrip(if x < 0 then x + 0x1_0000_0000 else x, rest);
  }

  lemma BoolRoundTrip(b: bool, rest: Stream)
    ensures DecBool(EncBool(b) + rest) == Some((b, rest))
  {
    hide EncI32, DecI32;
    I32RoundTrip(if b then 1 else 0, rest);
  }

  lemma U64RoundTrip(x: U64, rest: Stream)
    ensures DecU64(EncU64(x) + rest) == Some((x, rest))
  {
    hide EncU32, DecU32;
    var hi, lo := EncU32(x / 0x1_0000_0000), EncU32(x % 0x1_0000_0000);
    Assoc(hi, lo, rest);
    U32RoundTrip(x / 0x1_0000_0000, lo + rest);
    U32RoundTrip(x % 0x1_0000_0000, rest);
  }

  lemma OpaqueRoundTrip(b: Stream, rest: Stream)
    ensures DecOpaque(|b|, EncOpaque(b) + rest) == Some((b, rest))
  {
    var fill := seq(Fill(|b|), i => 0);
    Assoc(b, fill, rest);
    assert (EncOpaque(b) + rest)[..|b|] == b;
    assert (EncOpaque(b) + rest)[Padded(|b|)..] == rest;
  }

  lemma BytesRoundTrip(b: Bytes, max: nat, rest: Stream)
    requires |b| <= max
    ensures DecBytes(max, EncBytes(b) + rest) == Some((b, rest))
  {
    hide EncU32, DecU32, EncOpaque, DecOpaque;
    Assoc(EncU32(|b|), EncOpaque(b), rest);
    U32RoundTrip(|b|, EncOpaque(b) + rest);
    OpaqueRoundTrip(b, rest);
  }

  lemma EndpointIdRoundTrip(e: EndpointId, rest: Stream)
    ensures DecEndpointId(EncOpaque(e) + rest) == Some((e, rest))
  {
    hide EncOpaque, DecOpaque;
    OpaqueRoundTrip(e, rest);
  }

  lemma {:induction false} CharsRoundTrip(cs: seq<Char>, rest: Stream)
    ensures DecChars(|cs|, EncChars(cs) + rest) == Some((cs, rest))
  {
    hide EncI32, DecI32;
    if cs == [] {
      assert [] + rest == rest;
    } else {
      Assoc(EncI32(cs[0]), EncChars(cs[1..]), rest);
      I32RoundTrip(cs[0], EncChars(cs[1..]) + rest);
      CharsRoundTrip(cs[1..], rest);
      assert [cs[0]] + cs[1..] == cs;
    }
  }

  lemma ServiceTagRoundTrip(t: ServiceTag, rest: Stream)
    ensures DecServiceTag(EncChars(t) + rest) == Some((t, rest))
  {
    hide EncChars, DecChars;
    CharsRoundTrip(t, rest);
  }

  lemma TimestampRoundTrip(t: Timestamp, rest: Stream)
    ensures DecTimestamp(EncTimestamp(t) + rest) == Some((t, rest))
  {
    hide EncU64, DecU64;
    Assoc(EncU64(t.secs), EncU64(t.seqno), rest);
    U64RoundTrip(t.secs, EncU64(t.seqno) + rest);
    U64RoundTrip(t.seqno, rest);
  }

  lemma RegInfoRoundTrip(v: RegInfo, rest: Stream)
    requires RegInfoOk(v)
    ensures DecRegInfo(EncRegInfo(v) + rest) == Some((v, rest))
  {
    hide EncOpaque, DecEndpointId, EncU32, DecU32, EncBool, DecBool, EncBytes, DecBytes;
    var t5 := EncBytes(v.script);
    var t4 := EncBool(v.initPassive) + t5;
    var t3 := EncU32(v.expiration) + t4;
    var t2 := EncU32(v.flags) + t3;
    var t1 := EncU32(v.regid) + t2;
    Assoc(EncOpaque(v.endpoint), t1, rest);
    EndpointIdRoundTrip(v.endpoint, t1 + rest);
    Assoc(EncU32(v.regid), t2, rest);
    U32RoundTrip(v.regid, t2 + rest);
    Assoc(EncU32(v.flags), t3, rest);
    U32RoundTrip(v.flags, t3 + rest);
    Assoc(EncU32(v.expiration), t4, rest);
    U32RoundTrip(v.expiration, t4 + rest);
    Assoc(EncBool(v.initPassive), t5, rest);
    BoolRoundTrip(v.initPassive, t5 + rest);
    BytesRoundTrip(v.script, MAX_EXEC_LEN, rest);
  }

  lemma BlockRoundTrip(b: Block, rest: Stream)
    requires BlockOk(b)
    ensures DecBlock(EncBlock(b) + rest) == Some((b, rest))
  {
    hide EncU32, DecU32, EncBytes, DecBytes;
    var t2 := EncBytes(b.data);
    var t1 := EncU32(b.flags) + t2;
    Assoc(EncU32(b.kind), t1, rest);
    U32RoundTrip(b.kind, t1 + rest);
    Assoc(EncU32(b.flags), t2, rest);
    U32RoundTrip(b.flags, t2 + rest);
    BytesRoundTrip(b.data, MAX_BLOCK_LEN, rest);
  }

  lemma {:induction false} EachRoundTrip(bs: seq<Block>, rest: Stream)
    requires forall b :: b in bs ==> BlockOk(b)
    ensures DecEach(|bs|, EncEach(bs) + rest) == Some((bs, rest))
  {
    hide EncBlock, DecBlock;
    if bs == [] {
      assert [] + rest == rest;
    } else {
      Assoc(EncBlock(bs[0]), EncEach(bs[1..]), rest);
      BlockRoundTrip(bs[0], EncEach(bs[1..]) + rest);
      EachRoundTrip(bs[1..], rest);
      assert [bs[0]] + bs[1..] == bs;
    }
  }

  lemma BlocksRoundTrip(bs: Blocks, rest: Stream)
    requires BlocksOk(bs)
    ensures DecBlocks(EncBlocks(bs) + rest) == Some((bs, rest))
  {
    hide EncU32, DecU32, EncEach, DecEach;
    Assoc(EncU32(|bs|), EncEach(bs), rest);
    U32RoundTrip(|bs|, EncEach(bs) + rest);
    EachRoundTrip(bs, rest);
  }

  lemma Regroup3(a: Stream, b: Stream, c: Stream, t: Stream)
    ensures (a + (b + c)) + t == a + (b + (c + t))
  {
    Assoc(a, b + c, t);
    Assoc(b, c, t);
  }

  lemma Regroup4(a: Stream, b: Stream, c: Stream, d: Stream, t: Stream)
    ensures (a + (b + (c + d))) + t == a + (b + (c + (d + t)))
  {
    Assoc(a, b + (c + d), t);
    Regroup3(b, c, d, t);
  }

  lemma Regroup5(a: Stream, b: Stream, c: Stream, d: Stream, e: Stream, t: Stream)
    ensures (a + (b + (c + (d + e)))) + t == a + (b + (c + (d + (e + t))))
  {
    Assoc(a, b + (c + (d + e)), t);
    Regroup4(b, c, d, e, t);
  }

  lemma Regroup6(a: Stream, b: Stream, c: Stream, d: Stream, e: Stream, f: Stream, t: Stream)
    ensures (a + (b + (c + (d + (e + f))))) + t == a + (b + (c + (d + (e + (f + t)))))
  {
    Assoc(a, b + (c + (d + (e + f))), t);
    Regroup5(b, c, d, e, f, t);
  }

  lemma SpecFields(v: Spec, rest: Stream)
    requires SpecOk(v)
    ensures
      EncSpec(v) + rest ==
      EncOpaque(v.source) + (EncOpaque(v.dest) + (EncOpaque(v.replyto) + (EncI32(v.priority) + (EncI32(v.dopts)
      + (EncU32(v.expiration) + (EncTimestamp(v.creation) + (EncU32(v.deliveryRegid) + (EncBytes(v.sequenceId)
      + (EncBytes(v.obsoletesId) + (EncBlocks(v.blocks) + (EncBlocks(v.metadata) + rest)))))))))))
  {
    hide EncOpaque, EncI32, EncU32, EncTimestamp, EncBytes, EncBlocks;
    var t3 := EncIdsAndBlocks(v) + rest;
    var t2 := EncOptions(v) + t3;
    Regroup3(EncAddresses(v), EncOptions(v), EncIdsAndBlocks(v), rest);
    assert EncSpec(v) + rest == EncAddresses(v) + t2 by {
      Assoc(EncAddresses(v), EncOptions(v) + EncIdsAndBlocks(v), rest);
      Assoc(EncOptions(v), EncIdsAndBlocks(v), rest);
    }
    Regroup3(EncOpaque(v.source), EncOpaque(v.dest), EncOpaque(v.replyto), t2);
    Regroup5(EncI32(v.priority), EncI32(v.dopts), EncU32(v.expiration), EncTimestamp(v.creation),
             EncU32(v.deliveryRegid), t3);
    Regroup4(EncBytes(v.sequenceId), EncBytes(v.obsoletesId), EncBlocks(v.blocks), EncBlocks(v.metadata), rest);
  }

  lemma SpecRoundTrip(v: Spec, rest: Stream)
    requires SpecOk(v)
    ensures DecSpec(EncSpec(v) + rest) == Some((v, rest))
  {
    hide EncSpec, EncOpaque, DecEndpointId, EncI32, DecI32, EncU32, DecU32, EncTimestamp, DecTimestamp, EncBytes,
         DecBytes, EncBlocks, DecBlocks;
    var t11 := EncBlocks(v.metadata) + rest;
    var t10 := EncBlocks(v.blocks) + t11;
    var t9 := EncBytes(v.obsoletesId) + t10;
    var t8 := EncBytes(v.sequenceId) + t9;
    var t7 := EncU32(v.deliveryRegid) + t8;
    var t6 := EncTimestamp(v.creation) + t7;
    var t5 := EncU32(v.expiration) + t6;
    var t4 := EncI32(v.dopts) + t5;
    var t3 := EncI32(v.priority) + t4;
    var t2 := EncOpaque(v.replyto) + t3;
    var t1 := EncOpaque(v.dest) + t2;
    SpecFields(v, rest);
    EndpointIdRoundTrip(v.source, t1);
    EndpointIdRoundTrip(v.dest, t2);
    EndpointIdRoundTrip(v.replyto, t3);
    I32RoundTrip(v.priority, t4);
    I32RoundTrip(v.dopts, t5);
    U32RoundTrip(v.expiration, t6);
    TimestampRoundTrip(v.creation, t7);
    U32RoundTrip(v.deliveryRegid, t8);
    BytesRoundTrip(v.sequenceId, MAX_BLOCK_LEN, t9);
    BytesRoundTrip(v.obsoletesId, MAX_BLOCK_LEN, t10);
    BlocksRoundTrip(v.blocks, t11);
    BlocksRoundTrip(v.metadata, rest);
  }

  lemma BundleIdRoundTrip(v: BundleId, rest: Stream)
    ensures DecBundleId(EncBundleId(v) + rest) == Some((v, rest))
  {
    hide EncOpaque, DecEndpointId, EncU32, DecU32, EncTimestamp, DecTimestamp;
    var t3 := EncU32(v.origLength) + rest;
    var t2 := EncU32(v.fragOffset) + t3;
    Regroup4(EncOpaque(v.source), EncTimestamp(v.creation), EncU32(v.fragOffset), EncU32(v.origLength), rest);
    EndpointIdRoundTrip(v.source, EncTimestamp(v.creation) + t2);
    TimestampRoundTrip(v.creation, t2);
    U32RoundTrip(v.fragOffset, t3);
    U32RoundTrip(v.origLength, rest);
  }

  lemma ReportRoundTrip(v: Report, rest: Stream)
    ensures DecReport(EncReport(v) + rest) == Some((v, rest))
  {
    hide EncBundleId, DecBundleId, EncI32, DecI32, EncTimestamp, DecTimestamp;
    var t8 := EncTimestamp(v.ack) + rest;
    var t7 := EncTimestamp(v.deletion) + t8;
    var t6 := EncTimestamp(v.delivery) + t7;
    var t5 := EncTimestamp(v.forwarding) + t6;
    var t4 := EncTimestamp(v.custody) + t5;
    var t3 := EncTimestamp(v.receipt) + t4;
    var t2 := EncI32(v.flags) + t3;
    Regroup4(EncBundleId(v.id), EncI32(v.reason), EncI32(v.flags), EncTimes(v), rest);
    Regroup6(EncTimestamp(v.receipt), EncTimestamp(v.custody), EncTimestamp(v.forwarding),
             EncTimestamp(v.delivery), EncTimestamp(v.deletion), EncTimestamp(v.ack), rest);
    BundleIdRoundTrip(v.id, EncI32(v.reason) + t2);
    I32RoundTrip(v.reason, t2);
    I32RoundTrip(v.flags, t3);
    TimestampRoundTrip(v.receipt, t4);
    TimestampRoundTrip(v.custody, t5);
    TimestampRoundTrip(v.forwarding, t6);
    TimestampRoundTrip(v.delivery, t7);
    TimestampRoundTrip(v.deletion, t8);
    TimestampRoundTrip(v.ack, rest);
  }

  lemma OptionalRoundTrip(v: Option<Report>, rest: Stream)
    ensures DecOptional(EncOptional(v) + rest) == Some((v, rest))
  {
    hide EncBool, DecBool, EncReport, DecReport;
    var tail := if v.Some? then EncReport(v.value) else [];
    Assoc(EncBool(v.Some?), tail, rest);
    BoolRoundTrip(v.Some?, tail + rest);
    if v.Some? { ReportRoundTrip(v.value, rest); } else { assert tail + rest == rest; }
  }

  lemma PayloadRoundTrip(v: Payload, rest: Stream)
    requires PayloadOk(v)
    ensures DecPayload(EncPayload(v) + rest) == Some((v, rest))
  {
    hide EncI32, DecI32, EncBytes, DecBytes, EncOptional, DecOptional;
    var t3 := EncOptional(v.report) + rest;
    var t2 := EncBytes(v.buf) + t3;
    Regroup4(EncI32(v.location), EncBytes(v.filename), EncBytes(v.buf), EncOptional(v.report), rest);
    I32RoundTrip(v.location, EncBytes(v.filename) + t2);
    BytesRoundTrip(v.filename, MAX_PATH_LEN, t2);
    BytesRoundTrip(v.buf, MAX_BUNDLE_MEM, t3);
    OptionalRoundTrip(v.report, rest);
  }

  // -------- lengths --------

  ghost predicate Aligned(s: Stream) { |s| % 4 == 0 }

  lemma SumAligned(a: Stream, b: Stream)
    requires Aligned(a) && Aligned(b)
    ensures Aligned(a + b)
  {
  }

  lemma BytesAligned(b: Bytes)
    ensures Aligned(EncBytes(b))
  {
    hide EncU32, EncOpaque, Padded;
    SumAligned(EncU32(|b|), EncOpaque(b));
  }

  lemma BlocksAligned(bs: Blocks)
    ensures Aligned(EncBlocks(bs))
  {
    hide EncU32, EncEach, BlocksSize;
    SumAligned(EncU32(|bs|), EncEach(bs));
  }

  lemma SpecAligned(v: Spec)
    ensures Aligned(EncSpec(v))
  {
    hide EncAddresses, EncOptions, EncBytes, EncBlocks, Padded, BlocksSize;
    BytesAligned(v.sequenceId);
    BytesAligned(v.obsoletesId);
    BlocksAligned(v.blocks);
    BlocksAligned(v.metadata);
    SumAligned(EncBlocks(v.blocks), EncBlocks(v.metadata));
    SumAligned(EncBytes(v.obsoletesId), EncBlocks(v.blocks) + EncBlocks(v.metadata));
    SumAligned(EncBytes(v.sequenceId), EncBytes(v.obsoletesId) + (EncBlocks(v.blocks) + EncBlocks(v.metadata)));
    SumAligned(EncOptions(v), EncIdsAndBlocks(v));
    SumAligned(EncAddresses(v), EncOptions(v) + EncIdsAndBlocks(v));
  }

  lemma PayloadAligned(v: Payload)
    ensures Aligned(EncPayload(v))
  {
    hide EncI32, EncBytes, EncOptional, Padded;
    BytesAligned(v.filename);
    BytesAligned(v.buf);
    SumAligned(EncBytes(v.buf), EncOptional(v.report));
    SumAligned(EncBytes(v.filename), EncBytes(v.buf) + EncOptional(v.report));
    SumAligned(EncI32(v.location), EncBytes(v.filename) + (EncBytes(v.buf) + EncOptional(v.report)));
  }

  // -------- the arguments of dtn_send --------

  datatype SendArgs = SendArgs(regid: U32, spec: Spec, payload: Payload)

  predicate SendOk(a: SendArgs) { SpecOk(a.spec) && PayloadOk(a.payload) }

  function EncSend(a: SendArgs): (r: Stream)
    ensures |r| == SendSize(a)
  {
    EncU32(a.regid) + (EncSpec(a.spec) + EncPayload(a.payload))
  }

  function SendSize(a: SendArgs): nat {
    836 + Padded(|a.spec.sequenceId|) + Padded(|a.spec.obsoletesId|) + BlocksSize(a.spec.blocks)
    + BlocksSize(a.spec.metadata) + Padded(|a.payload.filename|) + Padded(|a.payload.buf|)
    + if a.payload.report.Some? then 384 else 0
  }

  function DecSend(s: Stream): Read<SendArgs> {
    var (regid, s) :- DecU32(s);
    var (spec, s) :- DecSpec(s);
    var (payload, s) :- DecPayload(s);
    Some((SendArgs(regid, spec, payload), s))
  }

  lemma SendRoundTrip(a: SendArgs, rest: Stream)
    requires SendOk(a)
    ensures DecSend(EncSend(a) + rest) == Some((a, rest))
  {
    hide EncU32, DecU32, EncSpec, DecSpec, EncPayload, DecPayload, SpecOk, PayloadOk;
    Regroup3(EncU32(a.regid), EncSpec(a.spec), EncPayload(a.payload), rest);
    U32RoundTrip(a.regid, EncSpec(a.spec) + (EncPayload(a.payload) + rest));
    SpecRoundTrip(a.spec, EncPayload(a.payload) + rest);
    PayloadRoundTrip(a.payload, rest);
  }

  lemma SendAligned(a: SendArgs)
    ensures Aligned(EncSend(a))
  {
    hide EncU32, EncSpec, EncPayload, Padded, BlocksSize, SendSize;
    SpecAligned(a.spec);
    PayloadAligned(a.payload);
    SumAligned(EncSpec(a.spec), EncPayload(a.payload));
    SumAligned(EncU32(a.regid), EncSpec(a.spec) + EncPayload(a.payload));
  }

  /** The part of the message buffer behind the framing. */
  const MAX_BODY: nat := 65528

  lemma PaddedBound(n: nat, max: nat)
    requires n <= max && max % 4 == 0
    ensures Padded(n) <= max
    ensures n == max ==> Padded(n) == max
  {
  }

  lemma {:induction false} BlocksBound(bs: seq<Block>)
    requires forall b :: b in bs ==> BlockOk(b)
    ensures BlocksSize(bs) <= 1036 * |bs|
  {
    hide Padded;
    if bs != [] {
      assert BlockOk(bs[0]);
      PaddedBound(|bs[0].data|, MAX_BLOCK_LEN);
      BlocksBound(bs[1..]);
    }
  }

  lemma {:induction false} FullBlocks(bs: seq<Block>)
    requires forall b :: b in bs ==> |b.data| == MAX_BLOCK_LEN
    ensures BlocksSize(bs) == 1036 * |bs|
  {
    hide Padded;
    if bs != [] {
      PaddedBound(|bs[0].data|, MAX_BLOCK_LEN);
      FullBlocks(bs[1..]);
    }
  }

  /** Payload in memory, as dtn_set_payload makes it. */
  ghost predicate InMemory(a: SendArgs) {
    SendOk(a) && a.payload.filename == [] && a.payload.report.None?
  }

  ghost predicate AllFit(n: nat) {
    forall a :: InMemory(a) && |a.spec.blocks| + |a.spec.metadata| == n ==> SendSize(a) <= MAX_BODY
  }

  lemma SendBound(a: SendArgs)
    requires InMemory(a)
    ensures SendSize(a) <= 52884 + 1036 * (|a.spec.blocks| + |a.spec.metadata|)
  {
    hide Padded, BlocksSize;
    BlocksBound(a.spec.blocks);
    BlocksBound(a.spec.metadata);
    PaddedBound(|a.spec.sequenceId|, MAX_BLOCK_LEN);
    PaddedBound(|a.spec.obsoletesId|, MAX_BLOCK_LEN);
    PaddedBound(0, 0);
    PaddedBound(|a.payload.buf|, MAX_BUNDLE_MEM);
  }

  /** Every send in memory with n blocks fits the message exactly when n is at most 12. */
  lemma TwelveBlocksFit(n: nat)
    requires n <= 2 * MAX_BLOCKS
    ensures AllFit(n) <==> n <= 12
  {
    hide SendSize, InMemory;
    forall a | InMemory(a) && |a.spec.blocks| + |a.spec.metadata| == n
      ensures SendSize(a) <= 52884 + 1036 * n
    {
      SendBound(a);
    }
    if n > 12 {
      var a := LargestSend(n);
    }
  }

  /** A send with n blocks where everything is as long as the limits allow. */
  lemma LargestSend(n: nat) returns (a: SendArgs)
    requires n <= 2 * MAX_BLOCKS
    ensures InMemory(a) && |a.spec.blocks| + |a.spec.metadata| == n
    ensures SendSize(a) == 52884 + 1036 * n
  {
    hide Padded, BlocksSize;
    PaddedBound(MAX_BLOCK_LEN, MAX_BLOCK_LEN);
    PaddedBound(0, 0);
    PaddedBound(MAX_BUNDLE_MEM, MAX_BUNDLE_MEM);
    var k := if n <= 256 then n else 256;
    var id: Bytes := seq(MAX_BLOCK_LEN, i => 0);
    var block := Block(0, 0, id);
    var blocks: Blocks := seq(k, i => block);
    var metadata: Blocks := seq(n - k, i => block);
    FullBlocks(blocks);
    FullBlocks(metadata);
    var eid: EndpointId := seq(MAX_ENDPOINT_ID, i => 0);
    var buf: Bytes := seq(MAX_BUNDLE_MEM, i => 0);
    a := SendArgs(0, Spec(eid, eid, eid, 0, 0, 0, Timestamp(0, 0), 0, id, id, blocks, metadata),
                  Payload(1, [], buf, None));
  }
}
