/** What db_pack promises of any stream, however it is cut. */
module PackTheorems {
  import opened PackSpec

  // ----- parsing a stream that continues -----

  /** What is kept is an incomplete packet; parsing it again yields nothing. */
  lemma {:induction false} RestIsResidue(crc: Crc, s: seq<byte>)
    ensures Residue(Parse(crc, s).rest)
    decreases |s|
  {
    if |s| >= HEAD && Word16(s, 0) == MAGIC {
      var n := HEAD + Word16(s, 10);
      if |s| >= n {
        RestIsResidue(crc, s[n..]);
      }
    }
  }

  lemma ResidueKept(crc: Crc, s: seq<byte>)
    requires Residue(s)
    ensures Parse(crc, s) == Parsed([], s)
  {
  }

  /** A header is read from the first bytes whatever follows them. */
  lemma HeadOfPrefix(a: seq<byte>, b: seq<byte>)
    requires |a| >= HEAD
    ensures Word16(a + b, 0) == Word16(a, 0) && Word16(a + b, 10) == Word16(a, 10)
  {
  }

  lemma ThenAssociates(p: Parsed, q: Parsed, r: Parsed)
    ensures Then(Then(p, q), r) == Then(p, Then(q, r))
    ensures Then(Parsed([], q.rest), r) == r
  {
    assert (p.out + q.out) + r.out == p.out + (q.out + r.out);
    assert [] + r.out == r.out;
  }

  /** A complete first packet is parsed whatever follows. */
  lemma ParseFirst(crc: Crc, a: seq<byte>, b: seq<byte>)
    requires |a| >= HEAD && Word16(a, 0) == MAGIC && |a| >= HEAD + Word16(a, 10)
    ensures var n := HEAD + Word16(a, 10);
      Parse(crc, a + b) == Then(Parsed([Deliver(crc, a[..n])], []), Parse(crc, a[n..] + b))
  {
    HeadOfPrefix(a, b);
    var n := HEAD + Word16(a, 10);
    assert (a + b)[n..] == a[n..] + b && (a + b)[..n] == a[..n];
  }

  lemma {:induction false} SplitClean(crc: Crc, a: seq<byte>, b: seq<byte>)
    requires Clean(a)
    ensures Parse(crc, a + b) == Then(Parse(crc, a), Parse(crc, Parse(crc, a).rest + b))
    decreases |a|
  {
    if |a| >= HEAD && |a| >= HEAD + Word16(a, 10) {
      var n := HEAD + Word16(a, 10);
      var t := Parse(crc, a[n..]);
      SplitClean(crc, a[n..], b);
      ParseFirst(crc, a, b);
      ThenAssociates(Parsed([Deliver(crc, a[..n])], []), t, Parse(crc, t.rest + b));
    } else {
      ThenAssociates(Parsed([], []), Parsed([], a), Parse(crc, a + b));
    }
  }

  lemma {:induction false} SplitDirty(crc: Crc, a: seq<byte>, b: seq<byte>)
    requires !Clean(a)
    ensures Parse(crc, a + b) == Parse(crc, a) && Parse(crc, a).rest == []
    decreases |a|
  {
    HeadOfPrefix(a, b);
    var n := HEAD + Word16(a, 10);
    if Word16(a, 0) == MAGIC {
      SplitDirty(crc, a[n..], b);
      assert (a + b)[n..] == a[n..] + b && (a + b)[..n] == a[..n];
    }
  }

  lemma AddsNothing(p: Parsed, q: Parsed)
    requires p.rest == []
    ensures p == Then(p, q) <==> q == Parsed([], [])
  {
    assert q.out == [] ==> p.out + q.out == p.out;
    assert |p.out + q.out| == |p.out| + |q.out|;
  }

  /** Parsing may be interrupted at a point exactly when no wrong magic came before it,
      nothing follows, or a wrong magic follows at once. */
  lemma SplitExactly(crc: Crc, a: seq<byte>, b: seq<byte>)
    ensures Parse(crc, a + b) == Then(Parse(crc, a), Parse(crc, Parse(crc, a).rest + b))
      <==> Clean(a) || b == [] || (|b| >= HEAD && Word16(b, 0) != MAGIC)
  {
    if Clean(a) {
      SplitClean(crc, a, b);
    } else {
      SplitDirty(crc, a, b);
      assert [] + b == b;
      AddsNothing(Parse(crc, a), Parse(crc, b));
    }
  }

  lemma {:induction false} CleanPrefix(a: seq<byte>, b: seq<byte>)
    requires Clean(a + b)
    ensures Clean(a)
    decreases |a|
  {
    if |a| >= HEAD {
      HeadOfPrefix(a, b);
      var n := HEAD + Word16(a, 10);
      if |a| >= n {
        assert (a + b)[n..] == a[n..] + b;
        CleanPrefix(a[n..], b);
      }
    }
  }

  /** What follows a clean start is as clean as the whole. */
  lemma {:induction false} CleanRest(crc: Crc, a: seq<byte>, b: seq<byte>)
    requires Clean(a)
    ensures Clean(Parse(crc, a).rest + b) <==> Clean(a + b)
    decreases |a|
  {
    if |a| >= HEAD {
      HeadOfPrefix(a, b);
      var n := HEAD + Word16(a, 10);
      if |a| >= n {
        assert (a + b)[n..] == a[n..] + b;
        CleanRest(crc, a[n..], b);
      }
    }
  }

  lemma {:induction false} FitsRest(crc: Crc, a: seq<byte>, b: seq<byte>, max: nat)
    requires Fits(a + b, max) && Clean(a)
    ensures Fits(a, max) && Fits(Parse(crc, a).rest + b, max)
    decreases |a|
  {
    if |a| >= HEAD {
      HeadOfPrefix(a, b);
      var n := HEAD + Word16(a, 10);
      if |a| >= n {
        assert (a + b)[n..] == a[n..] + b;
        FitsRest(crc, a[n..], b, max);
      }
    }
  }

  /** Fragmentation invariance: chunk by chunk or at once, a clean stream yields the
      same packets and leaves the same bytes in the cache. */
  lemma {:induction false} Fragmentation(crc: Crc, cache: seq<byte>, chunks: seq<seq<byte>>)
    requires Residue(cache) && Clean(cache + Join(chunks))
    ensures Feed(crc, cache, chunks) == Parse(crc, cache + Join(chunks))
    decreases |chunks|
  {
    if chunks == [] {
      assert cache + [] == cache;
    } else {
      var a, b := cache + chunks[0], Join(chunks[1..]);
      assert cache + Join(chunks) == a + b;
      CleanPrefix(a, b);
      SplitClean(crc, a, b);
      CleanRest(crc, a, b);
      RestIsResidue(crc, a);
      Fragmentation(crc, Parse(crc, a).rest, chunks[1..]);
    }
  }

  // ----- the size of the cache -----

  /** Headers that announce no more than the receive size never overfill the cache. */
  lemma {:induction false} FitsHasRoom(s: seq<byte>, begun: bool, max: nat)
    requires Fits(s, max)
    ensures Room(s, begun, HEAD + max)
    decreases |s|
  {
    if |s| >= HEAD && Word16(s, 0) == MAGIC {
      var n := HEAD + Word16(s, 10);
      if |s| >= n {
        FitsHasRoom(s[n..], false, max);
      }
    }
  }

  lemma HeadFields(crc: Crc, m: Message, t: seq<byte>)
    requires Sendable(m)
    ensures var s := Encode(crc, m) + t;
      && Word16(s, 0) == MAGIC && Word16(s, 10) == |m.payload|
      && s[..HEAD + |m.payload|] == Encode(crc, m) && s[HEAD + |m.payload|..] == t
  {
    var s := Encode(crc, m) + t;
    var h := Head(crc, m);
    assert s[0] == h[0] && s[1] == h[1] && s[10] == h[10] && s[11] == h[11];
  }

  /** An oversize packet: there is room for it in one chunk, and none once more of it
      than the cache holds has come without its end, or when it was begun in the cache. */
  lemma OversizeNeedsOneChunk(crc: Crc, m: Message, size: nat, k: nat)
    requires Sendable(m) && HEAD <= size < k < |Encode(crc, m)|
    ensures Room(Encode(crc, m), false, size)
    ensures !Room(Encode(crc, m)[..k], false, size)
    ensures !Room(Encode(crc, m), true, size)
  {
    var s := Encode(crc, m);
    HeadFields(crc, m, []);
    assert s + [] == s;
    assert s[..k][0] == s[0] && s[..k][1] == s[1] && s[..k][10] == s[10] && s[..k][11] == s[11];
  }

  // ----- round trip -----

  function Deliveries(ms: seq<Message>): seq<Delivery> {
    seq(|ms|, i requires 0 <= i < |ms| => Delivery(ms[i].payload, false))
  }

  /** Where each field of the header is, in little endian. */
  lemma HeadLayout(crc: Crc, m: Message)
    requires Sendable(m)
    ensures var h := Head(crc, m);
      && Word16(h, 0) == 0xF0D5 && Word16(h, 2) == 1
      && Word16(h, 4) + 0x1_0000 * Word16(h, 6) == m.timestamp
      && Word16(h, 8) == m.sequence && Word16(h, 10) == |m.payload|
      && h[12] == crc(m.payload) && h[13..] == [0, 0, 0]
  {
    var h, t := Head(crc, m), m.timestamp;
    assert h[4] == t % 0x100 && h[5] == t / 0x100 % 0x100;
    assert h[6] == t / 0x1_0000 % 0x100 && h[7] == t / 0x100_0000 % 0x100;
    var t1, t2 := t / 0x100, t / 0x1_0000;
    assert t1 / 0x100 == t2 && t == t % 0x100 + 0x100 * (t1 % 0x100) + 0x1_0000 * t2;
    assert t2 / 0x100 == t / 0x100_0000 < 0x100;
  }

  /** The message in a packet. */
  function Decode(s: seq<byte>): Message
    requires |s| >= HEAD
  {
    Message(Word16(s, 4) + 0x1_0000 * Word16(s, 6), Word16(s, 8), s[HEAD..])
  }

  /** A packet determines its message: timestamp, sequence number and payload. */
  lemma DecodeEncode(crc: Crc, m: Message)
    requires Sendable(m)
    ensures Decode(Encode(crc, m)) == m
  {
    HeadLayout(crc, m);
    var s, h := Encode(crc, m), Head(crc, m);
    assert s[HEAD..] == m.payload;
    assert forall i :: 0 <= i < HEAD ==> s[i] == h[i];
  }

  /** The recomputed CRC of what was sent equals the stored one. */
  lemma SentIsDelivered(crc: Crc, m: Message)
    requires Sendable(m)
    ensures Deliver(crc, Encode(crc, m)) == Delivery(m.payload, false)
  {
    var s := Encode(crc, m);
    assert s[HEAD..] == m.payload;
    assert s[12] == Head(crc, m)[12];
  }

  /** A packet is delivered whatever its payload has become, and a mismatch is reported
      exactly when the CRC is not that of the payload sent. */
  lemma MismatchIsReported(crc: Crc, m: Message, p: seq<byte>, t: seq<byte>)
    requires Sendable(m) && |p| == |m.payload|
    ensures Parse(crc, Head(crc, m) + p + t)
      == Then(Parsed([Delivery(p, crc(p) != crc(m.payload))], []), Parse(crc, t))
  {
    var h := Head(crc, m);
    HeadLayout(crc, m);
    HeadOfPrefix(h, p);
    var s := h + p;
    assert s[HEAD..] == p && s[12] == h[12] && Word16(s, 2) == Word16(h, 2);
    ParseFirst(crc, s, t);
    assert s[..|s|] == s && s[|s|..] + t == t;
  }

  /** Without the CRC flag no mismatch is ever reported. */
  lemma UncheckedIsSilent(crc: Crc, s: seq<byte>)
    requires |s| >= HEAD && s[2] % 2 == 0
    ensures Deliver(crc, s) == Delivery(s[HEAD..], false)
  {
    assert Word16(s, 2) % 2 == s[2] as int % 2;
  }

  lemma ParseOne(crc: Crc, m: Message, t: seq<byte>)
    requires Sendable(m)
    ensures Parse(crc, Encode(crc, m) + t) == Then(Parsed([Delivery(m.payload, false)], []), Parse(crc, t))
  {
    HeadFields(crc, m, t);
    SentIsDelivered(crc, m);
  }

  lemma DeliveriesMore(ms: seq<Message>)
    requires ms != []
    ensures Deliveries(ms) == [Delivery(ms[0].payload, false)] + Deliveries(ms[1..])
  {
  }

  /** The parser takes apart what the sender put together. */
  lemma {:induction false} ParseEncoded(crc: Crc, ms: seq<Message>, t: seq<byte>)
    requires forall m :: m in ms ==> Sendable(m)
    ensures Parse(crc, EncodeAll(crc, ms) + t) == Then(Parsed(Deliveries(ms), []), Parse(crc, t))
    decreases |ms|
  {
    if ms == [] {
      assert EncodeAll(crc, ms) + t == t;
      ThenAssociates(Parsed([], []), Parsed([], []), Parse(crc, t));
      assert Deliveries(ms) == [];
    } else {
      var u := EncodeAll(crc, ms[1..]) + t;
      assert EncodeAll(crc, ms) + t == Encode(crc, ms[0]) + u;
      ParseOne(crc, ms[0], u);
      ParseEncoded(crc, ms[1..], t);
      DeliveriesMore(ms);
      ThenAssociates(Parsed([Delivery(ms[0].payload, false)], []), Parsed(Deliveries(ms[1..]), []), Parse(crc, t));
    }
  }

  lemma PrefixSplit(e: seq<byte>, u: seq<byte>, s: seq<byte>)
    requires s <= e + u
    ensures if |s| < |e| then s < e else s == e + s[|e|..] && s[|e|..] <= u
  {
    assert s == (e + u)[..|s|];
    if |s| < |e| {
      assert s == e[..|s|];
    } else {
      assert s[..|e|] == e && s[|e|..] == u[..|s| - |e|];
    }
  }

  lemma EncodeNone(crc: Crc, ms: seq<Message>, t: seq<byte>)
    requires forall m :: m in ms ==> Sendable(m)
    ensures EncodeAll(crc, ms[..0]) + t == t
  {
    assert ms[..0] == [] && [] + t == t;
  }

  lemma EncodeMore(crc: Crc, ms: seq<Message>, k: nat, t: seq<byte>)
    requires (forall m :: m in ms ==> Sendable(m)) && k < |ms|
    ensures EncodeAll(crc, ms[..k + 1]) + t == Encode(crc, ms[0]) + (EncodeAll(crc, ms[1..][..k]) + t)
  {
    assert ms[..k + 1][0] == ms[0] && ms[..k + 1][1..] == ms[1..][..k];
    assert EncodeAll(crc, ms[..k + 1]) == Encode(crc, ms[0]) + EncodeAll(crc, ms[1..][..k]);
  }

  /** A beginning of an encoded stream is some whole packets and part of the next. */
  lemma {:induction false} PrefixOfEncoded(crc: Crc, ms: seq<Message>, s: seq<byte>) returns (k: nat, t: seq<byte>)
    requires forall m :: m in ms ==> Sendable(m)
    requires s <= EncodeAll(crc, ms)
    ensures k <= |ms| && s == EncodeAll(crc, ms[..k]) + t
    ensures if k == |ms| then t == [] else t < Encode(crc, ms[k])
    decreases |ms|
  {
    if ms == [] {
      k, t := 0, [];
      EncodeNone(crc, ms, t);
    } else {
      var e := Encode(crc, ms[0]);
      PrefixSplit(e, EncodeAll(crc, ms[1..]), s);
      if |s| < |e| {
        k, t := 0, s;
        EncodeNone(crc, ms, s);
      } else {
        var j: nat;
        j, t := PrefixOfEncoded(crc, ms[1..], s[|e|..]);
        EncodeMore(crc, ms, j, t);
        k := j + 1;
      }
    }
  }

  /** Part of a packet is kept as it is. */
  lemma PartOfPacket(crc: Crc, m: Message, t: seq<byte>, max: nat)
    requires Sendable(m) && |m.payload| <= max && t < Encode(crc, m)
    ensures Parse(crc, t) == Parsed([], t) && Clean(t) && Fits(t, max)
  {
    HeadFields(crc, m, []);
    assert Encode(crc, m) + [] == Encode(crc, m);
    if |t| >= HEAD {
      assert t[0] == Encode(crc, m)[0] && t[1] == Encode(crc, m)[1];
      assert t[10] == Encode(crc, m)[10] && t[11] == Encode(crc, m)[11];
    }
  }

  lemma {:induction false} EncodedIsClean(crc: Crc, ms: seq<Message>, t: seq<byte>, max: nat)
    requires forall m :: m in ms ==> Sendable(m) && |m.payload| <= max
    requires Clean(t) && Fits(t, max)
    ensures Clean(EncodeAll(crc, ms) + t) && Fits(EncodeAll(crc, ms) + t, max)
    decreases |ms|
  {
    if ms == [] {
      assert EncodeAll(crc, ms) + t == t;
    } else {
      var u := EncodeAll(crc, ms[1..]) + t;
      EncodedIsClean(crc, ms[1..], t, max);
      assert EncodeAll(crc, ms) + t == Encode(crc, ms[0]) + u;
      HeadFields(crc, ms[0], u);
    }
  }

  /** The state of the receiver after any chunks of a stream of packed messages, at
      any point of the stream: the messages whose last byte has arrived were
      delivered, in order and without a CRC mismatch; the bytes fed are their
      encodings and the cache; the cache is part of the next packet. */
  lemma ReceiverState(crc: Crc, ms: seq<Message>, chunks: seq<seq<byte>>) returns (k: nat)
    requires forall m :: m in ms ==> Sendable(m)
    requires Join(chunks) <= EncodeAll(crc, ms)
    ensures k <= |ms|
    ensures var r := Feed(crc, [], chunks);
      && r.out == Deliveries(ms[..k])
      && Join(chunks) == EncodeAll(crc, ms[..k]) + r.rest
      && (if k == |ms| then r.rest == [] else r.rest < Encode(crc, ms[k]))
  {
    var s := Join(chunks);
    var t: seq<byte>;
    k, t := PrefixOfEncoded(crc, ms, s);
    if k < |ms| {
      PartOfPacket(crc, ms[k], t, 0x1_0000);
    }
    ParseEncoded(crc, ms[..k], t);
    EncodedIsClean(crc, ms[..k], t, 0x1_0000);
    assert [] + s == s;
    Fragmentation(crc, [], chunks);
    assert Deliveries(ms[..k]) + [] == Deliveries(ms[..k]);
  }

  /** Round trip: the packed messages, cut into any chunks, are delivered exactly,
      in order, with matching CRCs, and nothing is left over. */
  lemma RoundTrip(crc: Crc, ms: seq<Message>, chunks: seq<seq<byte>>)
    requires forall m :: m in ms ==> Sendable(m)
    requires Join(chunks) == EncodeAll(crc, ms)
    ensures Feed(crc, [], chunks) == Parsed(Deliveries(ms), [])
  {
    ParseEncoded(crc, ms, []);
    EncodedIsClean(crc, ms, [], 0x1_0000);
    assert EncodeAll(crc, ms) + [] == EncodeAll(crc, ms) == [] + Join(chunks);
    Fragmentation(crc, [], chunks);
    assert Deliveries(ms) + [] == Deliveries(ms);
  }

  /** Whatever has been fed, the next chunk of the stream fits the cache. */
  lemma NextChunkFits(crc: Crc, ms: seq<Message>, fed: seq<seq<byte>>, chunk: seq<byte>, max: nat)
    requires forall m :: m in ms ==> Sendable(m) && |m.payload| <= max
    requires Join(fed) + chunk <= EncodeAll(crc, ms)
    ensures var cache := Feed(crc, [], fed).rest;
      Residue(cache) && Room(cache + chunk, cache != [], HEAD + max)
  {
    var s := Join(fed);
    var k, t := PrefixOfEncoded(crc, ms, s + chunk);
    if k < |ms| {
      PartOfPacket(crc, ms[k], t, max);
    }
    EncodedIsClean(crc, ms[..k], t, max);
    CleanPrefix(s, chunk);
    FitsRest(crc, s, chunk, max);
    RestIsResidue(crc, s);
    FitsHasRoom(Parse(crc, s).rest + chunk, Parse(crc, s).rest != [], max);
    assert [] + s == s;
    Fragmentation(crc, [], fed);
  }

  lemma FeedOne(crc: Crc, cache: seq<byte>, c: seq<byte>)
    ensures Feed(crc, cache, [c]) == Parse(crc, cache + c)
  {
    var p := Parse(crc, cache + c);
    assert Feed(crc, p.rest, [c][1..]) == Parsed([], p.rest);
    assert p.out + [] == p.out;
  }

  lemma {:induction false} FeedConcat(crc: Crc, cache: seq<byte>, cs: seq<seq<byte>>, ds: seq<seq<byte>>)
    ensures var p := Feed(crc, cache, cs); Feed(crc, cache, cs + ds) == Then(p, Feed(crc, p.rest, ds))
    decreases |cs|
  {
    if cs == [] {
      assert [] + ds == ds;
      ThenAssociates(Parsed([], []), Parsed([], cache), Feed(crc, cache, ds));
    } else {
      var p := Parse(crc, cache + cs[0]);
      FeedConcat(crc, p.rest, cs[1..], ds);
      assert (cs + ds)[0] == cs[0] && (cs + ds)[1..] == cs[1..] + ds;
      var t := Feed(crc, p.rest, cs[1..]);
      ThenAssociates(p, t, Feed(crc, t.rest, ds));
    }
  }

  lemma FeedSnoc(crc: Crc, cache: seq<byte>, cs: seq<seq<byte>>, c: seq<byte>)
    ensures var p := Feed(crc, cache, cs); Feed(crc, cache, cs + [c]) == Then(p, Parse(crc, p.rest + c))
  {
    FeedConcat(crc, cache, cs, [c]);
    FeedOne(crc, Feed(crc, cache, cs).rest, c);
  }

  lemma {:induction false} JoinConcat(cs: seq<seq<byte>>, ds: seq<seq<byte>>)
    ensures Join(cs + ds) == Join(cs) + Join(ds)
    decreases |cs|
  {
    if cs == [] {
      assert cs + ds == ds;
    } else {
      JoinConcat(cs[1..], ds);
      assert (cs + ds)[0] == cs[0] && (cs + ds)[1..] == cs[1..] + ds;
    }
  }

  // ----- a stream with a wrong magic -----

  /** Cut after the bad header, the packet that follows is delivered; uncut, it is dropped
      with it. */
  lemma WrongMagicDependsOnChunks(crc: Crc, m: Message, bad: seq<byte>)
    requires Sendable(m) && |bad| == HEAD && Word16(bad, 0) != MAGIC
    ensures Feed(crc, [], [bad + Encode(crc, m)]) == Parsed([], [])
    ensures Feed(crc, [], [bad, Encode(crc, m)]) == Parsed([Delivery(m.payload, false)], [])
  {
    var e := Encode(crc, m);
    assert e + [] == e && [] + bad == bad && [] + e == e && [] + (bad + e) == bad + e;
    FeedOne(crc, [], bad + e);
    SplitDirty(crc, bad, e);
    FeedOne(crc, [], e);
    ParseOne(crc, m, []);
    assert [bad, e][1..] == [e];
    assert Parse(crc, e) == Parsed([Delivery(m.payload, false)], []);
    ThenAssociates(Parsed([], []), Parsed([], []), Parse(crc, e));
  }

  /** Fed on top of the cache, every header that becomes complete is wrong, and nothing
      remains after the last one. */
  predicate Vanishes(cache: seq<byte>, chunks: seq<seq<byte>>)
    decreases |chunks|
  {
    if chunks == [] then cache == []
    else
      var a := cache + chunks[0];
      if |a| < HEAD then Vanishes(a, chunks[1..])
      else Word16(a, 0) != MAGIC && Vanishes([], chunks[1..])
  }

  /** A packet whose magic has arrived is kept or delivered. */
  lemma {:induction false} BegunStays(crc: Crc, cache: seq<byte>, chunks: seq<seq<byte>>)
    requires |cache| >= HEAD && Word16(cache, 0) == MAGIC
    ensures Feed(crc, cache, chunks) != Parsed([], [])
    decreases |chunks|
  {
    if chunks != [] {
      HeadOfPrefix(cache, chunks[0]);
      BegunStays(crc, cache + chunks[0], chunks[1..]);
    }
  }

  lemma {:induction false} VanishesIff(crc: Crc, cache: seq<byte>, chunks: seq<seq<byte>>)
    requires |cache| < HEAD
    ensures Feed(crc, cache, chunks) == Parsed([], []) <==> Vanishes(cache, chunks)
    decreases |chunks|
  {
    if chunks != [] {
      var a := cache + chunks[0];
      if |a| < HEAD {
        VanishesIff(crc, a, chunks[1..]);
      } else if Word16(a, 0) != MAGIC {
        VanishesIff(crc, [], chunks[1..]);
      } else {
        BegunStays(crc, a, chunks[1..]);
      }
    }
  }

  /** The k-th chunk brings the first wrong magic. */
  predicate DirtyAt(cache: seq<byte>, chunks: seq<seq<byte>>, k: nat)
    requires k < |chunks|
  {
    Clean(cache + Join(chunks[..k])) && !Clean(cache + Join(chunks[..k]) + chunks[k])
  }

  lemma {:induction false} FirstDirty(cache: seq<byte>, chunks: seq<seq<byte>>) returns (k: nat)
    requires Clean(cache) && !Clean(cache + Join(chunks))
    ensures k < |chunks| && DirtyAt(cache, chunks, k)
    decreases |chunks|
  {
    assert cache + [] == cache;
    var a := cache + chunks[0];
    if !Clean(a) {
      k := 0;
      assert cache + Join(chunks[..0]) == cache;
    } else {
      assert cache + Join(chunks) == a + Join(chunks[1..]);
      var j := FirstDirty(a, chunks[1..]);
      k := j + 1;
      assert chunks[..k][0] == chunks[0] && chunks[..k][1..] == chunks[1..][..j];
      assert cache + Join(chunks[..k]) == a + Join(chunks[1..][..j]);
    }
  }

  /** Fed chunk by chunk, the stream is parsed up to the first wrong magic, and what comes
      after its chunk is parsed on its own. */
  lemma DirtyFeed(crc: Crc, cache: seq<byte>, chunks: seq<seq<byte>>, k: nat)
    requires Residue(cache) && k < |chunks| && DirtyAt(cache, chunks, k)
    ensures Feed(crc, cache, chunks[..k + 1]) == Parse(crc, cache + Join(chunks[..k]) + chunks[k])
  {
    var s, c := cache + Join(chunks[..k]), chunks[k];
    Fragmentation(crc, cache, chunks[..k]);
    SplitClean(crc, s, c);
    FeedSnoc(crc, cache, chunks[..k], c);
    assert chunks[..k + 1] == chunks[..k] + [c];
  }

  /** Uncut, the stream is parsed up to the first wrong magic. */
  lemma DirtyParse(crc: Crc, cache: seq<byte>, chunks: seq<seq<byte>>, k: nat)
    requires k < |chunks| && DirtyAt(cache, chunks, k)
    ensures var p := Parse(crc, cache + Join(chunks[..k]) + chunks[k]);
      Parse(crc, cache + Join(chunks)) == p && p.rest == []
  {
    var c, after := chunks[k], chunks[k + 1..];
    var s := cache + Join(chunks[..k]);
    assert chunks == chunks[..k] + chunks[k..];
    JoinConcat(chunks[..k], chunks[k..]);
    assert chunks[k..][0] == c && chunks[k..][1..] == after;
    assert cache + Join(chunks) == (s + c) + Join(after);
    SplitDirty(crc, s + c, Join(after));
  }

  lemma FeedAfter(crc: Crc, cache: seq<byte>, cs: seq<seq<byte>>, ds: seq<seq<byte>>, p: Parsed)
    requires Feed(crc, cache, cs) == p && p.rest == []
    ensures Feed(crc, cache, cs + ds) == Then(p, Feed(crc, [], ds))
  {
    FeedConcat(crc, cache, cs, ds);
  }

  lemma DirtyFragmentation(crc: Crc, cache: seq<byte>, chunks: seq<seq<byte>>, k: nat)
    requires Residue(cache) && k < |chunks| && DirtyAt(cache, chunks, k)
    ensures Feed(crc, cache, chunks) == Parse(crc, cache + Join(chunks)) <==> Vanishes([], chunks[k + 1..])
  {
    var p, after := Parse(crc, cache + Join(chunks)), chunks[k + 1..];
    DirtyFeed(crc, cache, chunks, k);
    DirtyParse(crc, cache, chunks, k);
    FeedAfter(crc, cache, chunks[..k + 1], after, p);
    assert chunks == chunks[..k + 1] + after;
    AddsNothing(p, Feed(crc, [], after));
    VanishesIff(crc, [], after);
  }

  /** Fragmentation does not matter exactly when no magic is wrong, or what follows the
      chunk with the first wrong one are wrong headers and nothing else. */
  lemma FragmentationExactly(crc: Crc, cache: seq<byte>, chunks: seq<seq<byte>>)
    requires Residue(cache)
    ensures Feed(crc, cache, chunks) == Parse(crc, cache + Join(chunks)) <==>
      || Clean(cache + Join(chunks))
      || exists k: nat :: k < |chunks| && DirtyAt(cache, chunks, k) && Vanishes([], chunks[k + 1..])
  {
    if Clean(cache + Join(chunks)) {
      Fragmentation(crc, cache, chunks);
    } else {
      forall k: nat | k < |chunks| && DirtyAt(cache, chunks, k)
        ensures Feed(crc, cache, chunks) == Parse(crc, cache + Join(chunks)) <==> Vanishes([], chunks[k + 1..])
      {
        DirtyFragmentation(crc, cache, chunks, k);
      }
      var first := FirstDirty(cache, chunks);
    }
  }

  // ----- what the result of unpack counts -----

  lemma {:induction false} CleanLosesNothing(s: seq<byte>)
    ensures Clean(s) <==> Lost(s) == 0
    ensures Lost(s) > 0 && |s| == HEAD ==> Lost(s) == HEAD
    decreases |s|
  {
    if |s| >= HEAD && Word16(s, 0) == MAGIC && |s| >= HEAD + Word16(s, 10) {
      CleanLosesNothing(s[HEAD + Word16(s, 10)..]);
    }
  }

  lemma CleanFirst(a: seq<byte>, t: seq<byte>)
    requires |a| >= HEAD && Word16(a, 0) == MAGIC && |a| == HEAD + Word16(a, 10)
    ensures Clean(a + t) <==> Clean(t)
    ensures Lost(a + t) == Lost(t)
  {
    HeadOfPrefix(a, t);
    assert (a + t)[|a|..] == t;
  }

  lemma SameAfterFirst(crc: Crc, a: seq<byte>, t: seq<byte>, u: seq<byte>)
    requires |a| >= HEAD && Word16(a, 0) == MAGIC && |a| == HEAD + Word16(a, 10)
    requires Parse(crc, t) == Parse(crc, u)
    ensures Parse(crc, a + t) == Parse(crc, a + u)
  {
    ParseFirst(crc, a, t);
    ParseFirst(crc, a, u);
    assert a[|a|..] + t == t && a[|a|..] + u == u;
  }

  function Kept(s: seq<byte>): seq<byte> {
    s[..|s| - Lost(s)]
  }

  lemma KeptAfterFirst(a: seq<byte>, u: seq<byte>)
    requires |a| >= HEAD && Word16(a, 0) == MAGIC && |a| == HEAD + Word16(a, 10)
    ensures Kept(a + u) == a + Kept(u) && (Clean(a + Kept(u)) <==> Clean(Kept(u)))
  {
    CleanFirst(a, u);
    CleanFirst(a, Kept(u));
  }

  /** Parsing a stream without the bytes that are dropped gives the same. */
  lemma {:induction false} LostIsDropped(crc: Crc, s: seq<byte>)
    ensures Clean(Kept(s)) && Parse(crc, Kept(s)) == Parse(crc, s)
    decreases |s|
  {
    if |s| < HEAD || Word16(s, 0) != MAGIC || |s| < HEAD + Word16(s, 10) {
      assert Lost(s) == 0 ==> Kept(s) == s;
    } else {
      var n := HEAD + Word16(s, 10);
      LostIsDropped(crc, s[n..]);
      KeptAfterFirst(s[..n], s[n..]);
      SameAfterFirst(crc, s[..n], Kept(s[n..]), s[n..]);
      assert s == s[..n] + s[n..];
    }
  }

  /** The result of unpack is the length of the data exactly when the stream has no wrong
      magic and nothing was put into an empty cache, or a wrong header begun in the cache
      ends with the data. */
  lemma AllCountedIff(crc: Crc, cache: seq<byte>, data: seq<byte>)
    ensures var s, r := cache + data, Parse(crc, cache + data);
      Uncounted(crc, cache, data) == 0 <==>
        if Clean(s) then r.rest == [] || (cache != [] && r.out == [])
        else cache != [] && |s| == HEAD
  {
    CleanLosesNothing(cache + data);
  }

  /** Part of a header that comes alone is kept, and the result does not count it. */
  lemma PartialHeaderIsNotCounted(crc: Crc, data: seq<byte>)
    requires data != [] && |data| < HEAD
    ensures Parse(crc, [] + data) == Parsed([], data) && Uncounted(crc, [], data) == |data|
  {
    assert [] + data == data;
  }
}
