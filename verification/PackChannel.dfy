/** db_pack.c in place: one channel with its two buffers. */
module PackChannels {
  import opened PackSpec
  import opened PackTheorems

  lemma Le32Halves(t: uint32)
    ensures Le16(t % 0x1_0000) + Le16(t / 0x1_0000) == Le32(t)
  {
    var t1, t2 := t / 0x100, t / 0x1_0000;
    assert t1 / 0x100 == t2 && t % 0x1_0000 == t % 0x100 + 0x100 * (t1 % 0x100);
    assert t2 / 0x100 == t / 0x100_0000 < 0x100;
  }

  /** The header as the code writes it, word by word. */
  lemma HeadPieces(crc: Crc, m: Message)
    requires Sendable(m)
    ensures (((((([] + Le16(MAGIC)) + Le16(FLAGS_CRC)) + Le16(m.timestamp % 0x1_0000)) + Le16(m.timestamp / 0x1_0000))
        + Le16(m.sequence)) + Le16(|m.payload|)) + [crc(m.payload), 0, 0, 0] == Head(crc, m)
  {
    Le32Halves(m.timestamp);
  }

  /** `sofar` was delivered of the stream s, and `left` remains of it, with room or
      without as for the whole. */
  ghost predicate Progress(
    crc: Crc, s: seq<byte>, sofar: seq<Delivery>, left: seq<byte>, room: bool, begun: bool, size: nat)
  {
    && room == Room(left, begun, size)
    && Parse(crc, s) == Then(Parsed(sofar, []), Parse(crc, left))
    && Lost(s) == Lost(left)
  }

  /** Delivering `out` leaves `rest` of the stream s. */
  ghost predicate Consumes(
    crc: Crc, s: seq<byte>, begun: bool, size: nat, out: seq<Delivery>, rest: seq<byte>)
  {
    && Room(s, begun, size) == Room(rest, false, size)
    && Parse(crc, s) == Then(Parsed(out, []), Parse(crc, rest))
    && Lost(s) == Lost(rest)
  }

  /** A packet complete in the data is delivered and takes no room. */
  lemma ConsumesPacket(crc: Crc, s: seq<byte>, n: nat, size: nat)
    requires |s| >= HEAD && Word16(s, 0) == MAGIC && n == HEAD + Word16(s, 10) <= |s|
    ensures Consumes(crc, s, false, size, [Deliver(crc, s[..n])], s[n..])
  {
  }

  lemma Slices(data: seq<byte>, p: nat, n: nat)
    requires HEAD <= n && p + n <= |data|
    ensures data[p..p + n] == data[p..][..n] && data[p + n..] == data[p..][n..]
    ensures Word16(data[p..p + n], 0) == Word16(data[p..], 0)
    ensures Word16(data[p..p + n], 10) == Word16(data[p..], 10)
  {
  }

  lemma ConsumesAt(crc: Crc, data: seq<byte>, p: nat, p': nat, size: nat)
    requires p + HEAD <= p' <= |data|
    requires Word16(data[p..], 0) == MAGIC && p' == p + HEAD + Word16(data[p..], 10)
    ensures Consumes(crc, data[p..], false, size, [Deliver(crc, data[p..p'])], data[p'..])
  {
    Slices(data, p, p' - p);
    ConsumesPacket(crc, data[p..], p' - p, size);
  }

  lemma Alone(p: Parsed)
    ensures Then(Parsed([], []), p) == p
  {
    assert [] + p.out == p.out;
  }

  lemma Chain(out: seq<Delivery>, more: seq<Delivery>, p: Parsed)
    ensures Then(Parsed(out, []), Then(Parsed(more, []), p)) == Then(Parsed(out + more, []), p)
  {
    assert out + (more + p.out) == (out + more) + p.out;
  }

  class Channel {
    const cbuf: array<byte>   // bytes of the packet being received
    var csize: uint16
    var ccount: uint16
    var sequence: uint16
    const tbuf: array<byte>   // the packet being sent
    var tsize: uint16

    constructor (maxRx: uint16, maxTx: uint16)
      ensures fresh(cbuf) && fresh(tbuf) && cbuf != tbuf
      ensures cbuf.Length == maxRx + HEAD && tbuf.Length == maxTx + HEAD
      ensures csize == (maxRx + HEAD) % 0x1_0000 && tsize == maxTx && ccount == 0 && sequence == 0
    {
      cbuf := new byte[maxRx + HEAD];
      csize := (maxRx + HEAD) % 0x1_0000;
      tbuf := new byte[maxTx + HEAD];
      tsize := maxTx;
      ccount, sequence := 0, 0;
    }

    /** The receive buffer holds a header, its size fits the 16-bit counters, and its
        bytes are the start of a packet. */
    ghost predicate Valid()
      reads this, cbuf, tbuf
    {
      && cbuf != tbuf
      && HEAD <= cbuf.Length < 0x1_0000
      && tbuf.Length == tsize + HEAD
      && ccount <= cbuf.Length
      && Residue(cbuf[..ccount])
    }

    /** The bytes kept of an incomplete packet. */
    ghost function Cache(): seq<byte>
      reads this, cbuf
      requires ccount <= cbuf.Length
    {
      cbuf[..ccount]
    }

    // ----- sending -----

    /** Put the word after the first i bytes. */
    method PutWord(i: nat, x: uint16)
      requires i + 1 < tbuf.Length
      modifies tbuf
      ensures tbuf[..i + 2] == old(tbuf[..i]) + Le16(x)
    {
      tbuf[i] := x % 0x100;
      tbuf[i + 1] := x / 0x100;
    }

    /** Put the crc and the reserved bytes after the first i bytes. */
    method PutTail(i: nat, crc: byte)
      requires i + 3 < tbuf.Length
      modifies tbuf
      ensures tbuf[..i + 4] == old(tbuf[..i]) + [crc, 0, 0, 0]
    {
      tbuf[i] := crc;
      tbuf[i + 1], tbuf[i + 2], tbuf[i + 3] := 0, 0, 0;
    }

    /** The header in front of the payload. */
    method PutHead(crc: Crc, data: seq<byte>, timestamp: uint32)
      requires |data| < 0x1_0000 && tbuf.Length >= HEAD
      modifies tbuf
      ensures tbuf[..HEAD] == Head(crc, Message(timestamp, sequence, data))
    {
      PutWord(0, MAGIC);
      PutWord(2, FLAGS_CRC);
      PutWord(4, timestamp % 0x1_0000);
      PutWord(6, timestamp / 0x1_0000);
      PutWord(8, sequence);
      PutWord(10, |data|);
      PutTail(12, crc(data));
      HeadPieces(crc, Message(timestamp, sequence, data));
    }

    /** db_pack_pack: the packet is in tbuf; its length, or -1. */
    method Pack(crc: Crc, data: seq<byte>, timestamp: uint32) returns (length: int)
      requires Valid()
      modifies this`sequence, tbuf
      ensures Valid() && Cache() == old(Cache())
      ensures |data| > tsize ==> length == -1 && sequence == old(sequence)
      ensures |data| <= tsize ==>
        && sequence == (old(sequence) + 1) % 0x1_0000
        && length == HEAD + |data| <= tbuf.Length
        && tbuf[..length] == Encode(crc, Message(timestamp, sequence, data))
    {
      if |data| > tsize {
        return -1;
      }
      sequence := (sequence + 1) % 0x1_0000;
      PutHead(crc, data, timestamp);
      forall k | 0 <= k < |data| {
        tbuf[HEAD + k] := data[k];
      }
      length := HEAD + |data|;
    }

    // ----- receiving -----

    /** Copy n bytes of the incoming data to the end of the cache. */
    method Append(data: seq<byte>, p: nat, n: nat)
      requires p + n <= |data| && ccount + n <= cbuf.Length < 0x1_0000 && cbuf != tbuf
      modifies this`ccount, cbuf
      ensures ccount == old(ccount) + n && Cache() == old(Cache()) + data[p..p + n]
    {
      forall k | 0 <= k < n {
        cbuf[ccount + k] := data[p + k];
      }
      ccount := ccount + n;
    }

    /** One round of the loop with an empty cache: deliver the packet at p, or stop, with
        `over` when the cache has no room for what must be kept. */
    method Direct(crc: Crc, data: seq<byte>, p: nat)
      returns (p': nat, out: seq<Delivery>, stop: bool, over: bool)
      requires Valid() && ccount == 0 && p < |data|
      modifies this`ccount, cbuf
      ensures Valid() && p <= p' <= |data| && (over ==> stop)
      ensures stop ==> out == [] && (over <==> !Room(data[p..], false, cbuf.Length))
      ensures stop && !over ==> Parse(crc, data[p..]) == Parsed([], Cache())
      ensures stop && !over ==> p' + |Cache()| + Lost(data[p..]) == |data|
      ensures !stop ==>
        ccount == 0 && p < p' && |out| == 1 && Consumes(crc, data[p..], false, cbuf.Length, out, data[p'..])
    {
      ghost var s := data[p..];
      var left := |data| - p;
      p', out, stop, over := p, [], true, false;
      if left < HEAD {
        Append(data, p, left);
        return;
      }
      Slices(data, p, HEAD);
      if Word16(data[p..p + HEAD], 0) != MAGIC {
        return;
      }
      var length := Word16(data[p..p + HEAD], 10);
      if left < HEAD + length {
        over := left > cbuf.Length;
        if !over {
          Append(data, p, left);
        }
        return;
      }
      p' := p + HEAD + length;
      ConsumesAt(crc, data, p, p', cbuf.Length);
      out := [Deliver(crc, data[p..p'])];
      stop := false;
    }

    /** Copy what is missing of the first n bytes of a packet, or all there is, if the
        cache has room for it. */
    method FillTo(n: nat, data: seq<byte>, p: nat) returns (p': nat, short: bool, over: bool)
      requires p <= |data| && ccount < n && ccount <= cbuf.Length < 0x1_0000 && cbuf != tbuf
      modifies this`ccount, cbuf
      ensures var size := |old(Cache())| + (|data| - p);
        (short <==> size < n) && (over <==> cbuf.Length < if short then size else n)
      ensures over ==> p' == p && ccount == old(ccount) && Cache() == old(Cache())
      ensures !over ==>
        && p <= p' <= |data| && ccount <= cbuf.Length
        && old(Cache() + data[p..]) == Cache() + data[p'..]
        && if short then p' == |data| && ccount < n else p < p' && ccount == n
    {
      ghost var s := Cache() + data[p..];
      var need, left := n - ccount, |data| - p;
      short := left < need;
      var take := if short then left else need;
      p', over := p, ccount + take > cbuf.Length;
      if !over {
        Append(data, p, take);
        p' := p + take;
        assert data[p..] == data[p..p + take] + data[p'..];
      }
    }

    /** One round of the loop with a packet begun in the cache. */
    method Cached(crc: Crc, data: seq<byte>, p: nat)
      returns (p': nat, out: seq<Delivery>, stop: bool, over: bool)
      requires Valid() && ccount != 0 && p < |data|
      modifies this`ccount, cbuf
      ensures Valid() && p <= p' <= |data| && (over ==> stop)
      ensures stop ==> out == [] && (over <==> !Room(old(Cache()) + data[p..], true, cbuf.Length))
      ensures stop && !over ==> Parse(crc, old(Cache()) + data[p..]) == Parsed([], Cache())
      ensures var s := old(Cache()) + data[p..];
        stop && !over ==> p' + (if Lost(s) == 0 then 0 else |s| - HEAD) == |data|
      ensures !stop ==>
        && ccount == 0 && p < p' && |out| == 1
        && Consumes(crc, old(Cache()) + data[p..], true, cbuf.Length, out, data[p'..])
    {
      ghost var s := Cache() + data[p..];
      p', out, stop, over := p, [], true, false;
      var short := false;
      if ccount < HEAD {
        p', short, over := FillTo(HEAD, data, p);
        if short {
          assert s == Cache();
          return;
        }
      }
      HeadOfPrefix(Cache(), data[p'..]);
      if Word16(cbuf[..ccount], 0) != MAGIC {
        ccount := 0;
        return;
      }
      var length := Word16(cbuf[..ccount], 10);
      if ccount < HEAD + length {
        p', short, over := FillTo(HEAD + length, data, p');
        if short || over {
          assert !over ==> s == Cache();
          return;
        }
      }
      assert s[..HEAD + length] == Cache() && s[HEAD + length..] == data[p'..];
      out := [Deliver(crc, cbuf[..ccount])];
      ccount := 0;
      stop := false;
    }

    /** One round of the loop. */
    method Round(crc: Crc, data: seq<byte>, p: nat, ghost room: bool, ghost s: seq<byte>, ghost sofar: seq<Delivery>)
      returns (p': nat, out: seq<Delivery>, stop: bool, over: bool)
      requires Valid() && p < |data|
      requires Progress(crc, s, sofar, Cache() + data[p..], room, Cache() != [], cbuf.Length)
      modifies this`ccount, cbuf
      ensures Valid() && p <= p' <= |data| && (over ==> stop)
      ensures stop ==> out == [] && (over <==> !room)
      ensures over ==> sofar <= Parse(crc, s).out
      ensures stop && !over ==> Parse(crc, s) == Parsed(sofar, Cache())
      ensures stop && !over ==>
        |data| - p' == if old(Cache()) == [] then |Cache()| + Lost(s)
                       else if Lost(s) == 0 then 0 else |old(Cache())| + (|data| - p) - HEAD
      ensures !stop ==>
        Cache() == [] && p < p' && |out| == 1 && Progress(crc, s, sofar + out, data[p'..], room, false, cbuf.Length)
    {
      if ccount == 0 {
        assert Cache() + data[p..] == data[p..];
        p', out, stop, over := Direct(crc, data, p);
      } else {
        p', out, stop, over := Cached(crc, data, p);
      }
      if stop {
        assert sofar + [] == sofar;
      } else {
        Chain(sofar, out, Parse(crc, data[p'..]));
      }
    }

    /** The loop of db_pack_unpack: what is delivered and kept is what Parse makes of
        the cache followed by the data, exactly if the cache has room; `over` says that it
        stopped in front of a copy that does not fit.
        The result is the length of the data but for what Uncounted says. */
    method UnpackData(crc: Crc, data: seq<byte>) returns (out: seq<Delivery>, used: nat, over: bool)
      requires Valid()
      modifies this`ccount, cbuf
      ensures Valid()
      ensures over <==> !Room(old(Cache()) + data, old(Cache()) != [], cbuf.Length)
      ensures over ==> out <= Parse(crc, old(Cache()) + data).out
      ensures !over ==> Parse(crc, old(Cache()) + data) == Parsed(out, Cache())
      ensures !over ==> used == |data| - Uncounted(crc, old(Cache()), data)
    {
      ghost var s, cache := Cache() + data, Cache();
      ghost var room := Room(s, cache != [], cbuf.Length);
      var p: nat := 0;
      out, over := [], false;
      assert data[0..] == data;
      Alone(Parse(crc, s));
      while p < |data|
        invariant p <= |data| && Valid()
        invariant Progress(crc, s, out, Cache() + data[p..], room, Cache() != [], cbuf.Length)
        invariant if out == [] then p == 0 && Cache() == cache else Cache() == []
        decreases |data| - p
      {
        var more, stop;
        p, more, stop, over := Round(crc, data, p, room, s, out);
        if stop {
          return out, p, over;
        }
        assert Cache() + data[p..] == data[p..];
        out := out + more;
      }
      ResidueKept(crc, Cache());
      assert data[p..] == [] && Cache() + [] == Cache() && out + [] == out;
      used, over := p, false;
    }
  }

  lemma PrefixOfSum(a: seq<byte>, b: seq<byte>, c: seq<byte>)
    ensures a + b <= a + (b + c)
  {
  }

  lemma JoinUpTo(chunks: seq<seq<byte>>, i: nat)
    requires i < |chunks|
    ensures Join(chunks[..i]) + chunks[i] <= Join(chunks)
  {
    var tail := chunks[i..];
    assert chunks == chunks[..i] + tail;
    JoinConcat(chunks[..i], tail);
    PrefixOfSum(Join(chunks[..i]), tail[0], Join(tail[1..]));
  }

  /** The i-th chunk has room in the cache and continues what the ones before fed. */
  lemma NextChunk(crc: Crc, ms: seq<Message>, chunks: seq<seq<byte>>, i: nat, max: nat)
    requires forall m :: m in ms ==> Sendable(m) && |m.payload| <= max
    requires Join(chunks) == EncodeAll(crc, ms) && i < |chunks|
    ensures var fed := Feed(crc, [], chunks[..i]);
      && Room(fed.rest + chunks[i], fed.rest != [], HEAD + max)
      && Feed(crc, [], chunks[..i + 1]) == Then(fed, Parse(crc, fed.rest + chunks[i]))
  {
    JoinUpTo(chunks, i);
    NextChunkFits(crc, ms, chunks[..i], chunks[i], max);
    FeedSnoc(crc, [], chunks[..i], chunks[i]);
    assert chunks[..i + 1] == chunks[..i] + [chunks[i]];
  }

  /** Feed chunk after chunk of a stream of packed messages to the channel: the
      callback gets the messages, in order, and nothing is left in the cache. */
  method ReceiveAll(chan: Channel, crc: Crc, ghost ms: seq<Message>, chunks: seq<seq<byte>>)
    returns (out: seq<Delivery>)
    requires chan.Valid() && chan.Cache() == []
    requires forall m :: m in ms ==> Sendable(m) && HEAD + |m.payload| <= chan.cbuf.Length
    requires Join(chunks) == EncodeAll(crc, ms)
    modifies chan`ccount, chan.cbuf
    ensures chan.Valid() && chan.Cache() == [] && out == Deliveries(ms)
  {
    out := [];
    for i := 0 to |chunks|
      invariant chan.Valid()
      invariant Feed(crc, [], chunks[..i]) == Parsed(out, chan.Cache())
    {
      NextChunk(crc, ms, chunks, i, chan.cbuf.Length - HEAD);
      var more, _, _ := chan.UnpackData(crc, chunks[i]);
      out := out + more;
    }
    assert chunks[..|chunks|] == chunks;
    RoundTrip(crc, ms, chunks);
  }

  lemma ResidueIs(crc: Crc, s: seq<byte>, t: seq<byte>)
    ensures Residue(s) && t == [] ==> Parse(crc, s + t) == Parsed([], s)
  {
    assert t == [] ==> s + t == s;
  }

  /** The module: the channel exists between init and deinit. */
  class DbPack {
    var chan: Channel?

    constructor ()
      ensures chan == null
    {
      chan := null;
    }

    /** `memory` says whether there is room for the channel and its two buffers. */
    method Init(maxRx: uint16, maxTx: uint16, memory: bool) returns (ok: bool)
      modifies this
      ensures old(chan) != null ==> ok && chan == old(chan)
      ensures old(chan) == null ==> (ok <==> memory) && (chan != null <==> memory)
      ensures old(chan) == null && ok ==>
        (fresh(chan) && fresh(chan.cbuf) && fresh(chan.tbuf)
        && chan.ccount == 0 && chan.sequence == 0 && chan.tsize == maxTx && chan.cbuf.Length == maxRx + HEAD
        && (chan.Valid() <==> maxRx + HEAD < 0x1_0000))
    {
      if chan != null {
        return true;
      }
      if !memory {
        return false;
      }
      chan := new Channel(maxRx, maxTx);
      ok := true;
    }

    method Deinit()
      modifies this
      ensures chan == null
    {
      chan := null;
    }

    method Pack(crc: Crc, data: seq<byte>, timestamp: uint32) returns (length: int)
      requires chan != null ==> chan.Valid()
      modifies if chan == null then {} else {chan, chan.tbuf}
      ensures chan == old(chan)
      ensures chan == null ==> length == -1
      ensures chan != null ==>
        (chan.Valid() && chan.Cache() == old(chan.Cache())
        && if |data| > chan.tsize then length == -1 && chan.sequence == old(chan.sequence)
           else
             && chan.sequence == (old(chan.sequence) + 1) % 0x1_0000
             && length == HEAD + |data| <= chan.tbuf.Length
             && chan.tbuf[..length] == Encode(crc, Message(timestamp, chan.sequence, data)))
    {
      if chan == null {
        return -1;
      }
      length := chan.Pack(crc, data, timestamp);
    }

    /** db_pack_unpack: the callback calls, the result, and whether it stopped in front of
        a copy that does not fit the cache. */
    method Unpack(crc: Crc, data: seq<byte>) returns (out: seq<Delivery>, result: int, over: bool)
      requires chan != null ==> chan.Valid()
      modifies if chan == null then {} else {chan, chan.cbuf}
      ensures chan == old(chan)
      ensures chan == null || data == [] ==> out == [] && result == -1 && !over
      ensures chan != null ==>
        var cache := old(chan.Cache());
        && chan.Valid() && chan.sequence == old(chan.sequence)
        && (data != [] ==> (over <==> !Room(cache + data, cache != [], chan.cbuf.Length)))
        && (if over then out <= Parse(crc, cache + data).out
            else Parse(crc, cache + data) == Parsed(out, chan.Cache()))
        && (data != [] && !over ==> result == |data| - Uncounted(crc, cache, data))
    {
      if chan == null || data == [] {
        ghost var kept := if chan == null then [] else chan.Cache();
        ResidueIs(crc, kept, data);
        return [], -1, false;
      }
      out, result, over := chan.UnpackData(crc, data);
    }
  }
}
