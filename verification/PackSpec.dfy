/** The db_pack stream format and what its parser makes of a byte stream. */
module PackSpec {

  type byte = x: int | 0 <= x < 0x100
  type uint16 = x: int | 0 <= x < 0x1_0000
  type uint32 = x: int | 0 <= x < 0x1_0000_0000

  const MAGIC: uint16 := 0xF0D5
  const FLAGS_CRC: uint16 := 1
  const HEAD := 16

  /** The CRC-8 of a payload, from the library the code calls: any function will do. */
  type Crc = seq<byte> -> byte

  function Le16(x: uint16): (s: seq<byte>)
    ensures |s| == 2
  {
    [x % 0x100, x / 0x100]
  }

  function Le32(x: uint32): (s: seq<byte>)
    ensures |s| == 4
  {
    [x % 0x100, x / 0x100 % 0x100, x / 0x1_0000 % 0x100, x / 0x100_0000 % 0x100]
  }

  function Word16(s: seq<byte>, i: nat): uint16
    requires i + 1 < |s|
  {
    s[i] as int + 0x100 * (s[i + 1] as int)
  }

  // ----- sending -----

  datatype Message = Message(timestamp: uint32, sequence: uint16, payload: seq<byte>)

  predicate Sendable(m: Message) {
    |m.payload| < 0x1_0000
  }

  /** The header: magic, flags, timestamp, sequence, length, crc, three reserved bytes. */
  function Head(crc: Crc, m: Message): (s: seq<byte>)
    requires Sendable(m)
    ensures |s| == HEAD
  {
    Le16(MAGIC) + Le16(FLAGS_CRC) + Le32(m.timestamp) + Le16(m.sequence) + Le16(|m.payload|)
      + [crc(m.payload), 0, 0, 0]
  }

  function Encode(crc: Crc, m: Message): (s: seq<byte>)
    requires Sendable(m)
    ensures |s| == HEAD + |m.payload|
  {
    Head(crc, m) + m.payload
  }

  function EncodeAll(crc: Crc, ms: seq<Message>): seq<byte>
    requires forall m :: m in ms ==> Sendable(m)
  {
    if ms == [] then [] else Encode(crc, ms[0]) + EncodeAll(crc, ms[1..])
  }

  // ----- receiving -----

  /** A call of the receive callback, and whether a CRC mismatch was reported before it. */
  datatype Delivery = Delivery(payload: seq<byte>, mismatch: bool)

  /** What is made of a complete packet. */
  function Deliver(crc: Crc, s: seq<byte>): Delivery
    requires |s| >= HEAD
  {
    Delivery(s[HEAD..], Word16(s, 2) % 2 == 1 && crc(s[HEAD..]) != s[12])
  }

  datatype Parsed = Parsed(out: seq<Delivery>, rest: seq<byte>)

  /** First p, then q. */
  function Then(p: Parsed, q: Parsed): Parsed {
    Parsed(p.out + q.out, q.rest)
  }

  /** Parse a stream from a packet boundary: the packets delivered, and the bytes
      of an incomplete packet to keep.  A wrong magic drops what follows. */
  function Parse(crc: Crc, s: seq<byte>): Parsed {
    if |s| < HEAD then Parsed([], s)
    else if Word16(s, 0) != MAGIC then Parsed([], [])
    else
      var n := HEAD + Word16(s, 10);
      if |s| < n then Parsed([], s)
      else
        Then(Parsed([Deliver(crc, s[..n])], []), Parse(crc, s[n..]))
  }

  /** No header the parser reaches announces more than max bytes. */
  predicate Fits(s: seq<byte>, max: nat) {
    |s| >= HEAD && Word16(s, 0) == MAGIC ==>
      var n := HEAD + Word16(s, 10);
      n <= HEAD + max && (|s| >= n ==> Fits(s[n..], max))
  }

  /** Every header the parser reaches has the right magic. */
  predicate Clean(s: seq<byte>) {
    |s| >= HEAD ==>
      Word16(s, 0) == MAGIC && (var n := HEAD + Word16(s, 10); |s| >= n ==> Clean(s[n..]))
  }

  /** How many bytes the parser drops: all from the first wrong magic on. */
  function Lost(s: seq<byte>): (n: nat)
    ensures n <= |s|
  {
    if |s| < HEAD then 0
    else if Word16(s, 0) != MAGIC then |s|
    else
      var n := HEAD + Word16(s, 10);
      if |s| < n then 0 else Lost(s[n..])
  }

  /** How many bytes of the data the result of unpack does not count: those it drops, and
      those it puts into an empty cache. A header begun in the cache is completed there
      before it is found wrong, and counts. */
  function Uncounted(crc: Crc, cache: seq<byte>, data: seq<byte>): nat {
    var s := cache + data;
    var r := Parse(crc, s);
    if r.out == [] && cache != [] then if Lost(s) == 0 then 0 else |s| - HEAD
    else |r.rest| + Lost(s)
  }

  /** The start of a packet that is not complete: what the cache may hold. */
  predicate Residue(s: seq<byte>) {
    |s| >= HEAD ==> Word16(s, 0) == MAGIC && |s| < HEAD + Word16(s, 10)
  }

  /** A cache of `size` bytes has room for what is copied into it while s is parsed.
      `begun` says that the first packet of s has been begun in the cache: then it is
      completed there, while packets complete in the data are not copied. */
  predicate Room(s: seq<byte>, begun: bool, size: nat) {
    if |s| < HEAD then |s| <= size
    else Word16(s, 0) == MAGIC ==>
      var n := HEAD + Word16(s, 10);
      if |s| < n then |s| <= size
      else (begun ==> n <= size) && Room(s[n..], false, size)
  }

  /** Feeding a stream chunk by chunk, each with what the ones before left. */
  function Feed(crc: Crc, cache: seq<byte>, chunks: seq<seq<byte>>): Parsed
    decreases |chunks|
  {
    if chunks == [] then Parsed([], cache)
    else
      var p := Parse(crc, cache + chunks[0]);
      Then(p, Feed(crc, p.rest, chunks[1..]))
  }

  function Join(chunks: seq<seq<byte>>): seq<byte> {
    if chunks == [] then [] else chunks[0] + Join(chunks[1..])
  }
}
