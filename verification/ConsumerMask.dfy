/** Consumer masks as the code stores them, 32-bit words, and the sets they stand for. */
module ConsumerMask {
  import opened Wrappers
  import opened QueueSpec

  /** A mask made of consumer ids: the ids are the bits 0 to 7. */
  type Mask = m: bv32 | m & 0xFFFF_FF00 == 0

  /** The id of a consumer, `1 << c`. */
  function Bit(c: Consumer): (b: bv32)
    ensures b & 0xFFFF_FF00 == 0
  {
    match c
    case 0 => 0x01
    case 1 => 0x02
    case 2 => 0x04
    case 3 => 0x08
    case 4 => 0x10
    case 5 => 0x20
    case 6 => 0x40
    case _ => 0x80
  }

  predicate Has(m: bv32, c: Consumer) {
    m & Bit(c) != 0
  }

  /** The consumers below k in a mask. */
  function Below(m: bv32, k: nat): set<Consumer>
    requires k <= 8
  {
    if k == 0 then {} else if Has(m, k - 1) then Below(m, k - 1) + {k - 1} else Below(m, k - 1)
  }

  function Members(m: bv32): set<Consumer> {
    Below(m, 8)
  }

  lemma {:induction false} BelowHas(m: bv32, k: nat, c: Consumer)
    requires k <= 8
    ensures c in Below(m, k) <==> c < k && Has(m, c)
  {
    if k > 0 {
      BelowHas(m, k - 1, c);
    }
  }

  lemma MemberHas(m: bv32, c: Consumer)
    ensures c in Members(m) <==> Has(m, c)
  {
    BelowHas(m, 8, c);
  }

  lemma DistinctBits(c: Consumer, d: Consumer)
    ensures Bit(c) & Bit(d) == if c == d then Bit(c) else 0
    ensures Bit(c) != 0
  {
  }

  lemma OrWord(m: bv32, b: bv32, x: bv32)
    ensures (m | b) & x == (m & x) | (b & x)
    ensures (m & !b) & x == (m & x) & !(b & x)
    ensures (m & x) & !x == 0
  {
  }

  /** The words the code stores stay masks. */
  lemma OrLow(m: bv32, b: bv32)
    requires m & 0xFFFF_FF00 == 0 && b & 0xFFFF_FF00 == 0
    ensures (m | b) & 0xFFFF_FF00 == 0
    ensures (m & !b) & 0xFFFF_FF00 == 0
  {
  }

  lemma OrZero(y: bv32)
    ensures y | 0 == y && y & !0 == y
  {
  }

  lemma OrNonzero(y: bv32, z: bv32)
    ensures z != 0 ==> y | z != 0
  {
  }

  lemma OrAt(m: bv32, c: Consumer, d: Consumer)
    ensures Has(m | Bit(d), c) <==> Has(m, c) || c == d
  {
    OrWord(m, Bit(d), Bit(c));
    DistinctBits(d, c);
    OrZero(m & Bit(c));
    OrNonzero(m & Bit(c), Bit(c));
  }

  lemma ClearAt(m: bv32, c: Consumer, d: Consumer)
    ensures Has(m & !Bit(d), c) <==> Has(m, c) && c != d
  {
    OrWord(m, Bit(d), Bit(c));
    DistinctBits(d, c);
    OrZero(m & Bit(c));
  }

  lemma OrMember(m: bv32, c: Consumer, d: Consumer)
    ensures c in Members(m | Bit(d)) <==> c in Members(m) || c == d
  {
    OrAt(m, c, d);
    MemberHas(m | Bit(d), c);
    MemberHas(m, c);
  }

  lemma ClearMember(m: bv32, c: Consumer, d: Consumer)
    ensures c in Members(m & !Bit(d)) <==> c in Members(m) && c != d
  {
    ClearAt(m, c, d);
    MemberHas(m & !Bit(d), c);
    MemberHas(m, c);
  }

  /** `m | id` adds the consumer. */
  lemma OrBit(m: bv32, d: Consumer)
    ensures Members(m | Bit(d)) == Members(m) + {d}
  {
    forall c: Consumer ensures c in Members(m | Bit(d)) <==> c in Members(m) + {d} {
      OrMember(m, c, d);
    }
  }

  /** `m & ~id` removes the consumer. */
  lemma ClearBit(m: bv32, d: Consumer)
    ensures Members(m & !Bit(d)) == Members(m) - {d}
  {
    forall c: Consumer ensures c in Members(m & !Bit(d)) <==> c in Members(m) - {d} {
      ClearMember(m, c, d);
    }
  }

  lemma LowBits(a: bv32, m: bv32)
    requires m & 0xFFFF_FF00 == 0
    requires Has(m, 0) ==> Has(a, 0)
    requires Has(m, 1) ==> Has(a, 1)
    requires Has(m, 2) ==> Has(a, 2)
    requires Has(m, 3) ==> Has(a, 3)
    requires Has(m, 4) ==> Has(a, 4)
    requires Has(m, 5) ==> Has(a, 5)
    requires Has(m, 6) ==> Has(a, 6)
    requires Has(m, 7) ==> Has(a, 7)
    ensures a & m == m
  {
  }

  lemma CoveredAt(a: bv32, m: bv32, c: Consumer)
    requires a & m == m
    ensures Has(m, c) ==> Has(a, c)
  {
  }

  /** `(a & m) == m` holds when every consumer of m is in a. */
  lemma Covers(a: bv32, m: bv32)
    requires m & 0xFFFF_FF00 == 0
    ensures a & m == m <==> Members(m) <= Members(a)
  {
    forall c: Consumer
      ensures c in Members(m) <==> Has(m, c)
      ensures c in Members(a) <==> Has(a, c)
      ensures a & m == m ==> Has(m, c) ==> Has(a, c)
    {
      MemberHas(m, c);
      MemberHas(a, c);
      if a & m == m {
        CoveredAt(a, m, c);
      }
    }
    if Members(m) <= Members(a) {
      forall c: Consumer ensures Has(m, c) ==> Has(a, c) {
        assert c in Members(m) ==> c in Members(a);
      }
      LowBits(a, m);
    }
  }

  lemma ZeroAnd(m: bv32)
    ensures 0 & m == 0
  {
  }

  /** `m == 0` says that the mask has no consumer. */
  lemma Empty(m: bv32)
    requires m & 0xFFFF_FF00 == 0
    ensures m == 0 <==> Members(m) == {}
  {
    Covers(0, m);
    ZeroAnd(m);
    forall c: Consumer ensures c !in Members(0) {
      MemberHas(0, c);
      ZeroAnd(Bit(c));
    }
  }

  /** A consumer id is one bit, as the API asks; ids without a bit below 8 are refused. */
  ghost predicate OneConsumer(id: bv32) {
    id & 0xFF == 0 || exists c: Consumer :: id == Bit(c)
  }

  lemma NoLowBit(id: bv32, c: Consumer)
    requires id & 0xFF == 0
    ensures id & Bit(c) == 0
  {
  }

  lemma NoBits(id: bv32)
    requires !Has(id, 0) && !Has(id, 1) && !Has(id, 2) && !Has(id, 3)
    requires !Has(id, 4) && !Has(id, 5) && !Has(id, 6) && !Has(id, 7)
    ensures id & 0xFF == 0
  {
  }

  /** The lowest bit of the id at k or above, the one the code indexes its consumer table with. */
  function LowestFrom(id: bv32, k: nat): (r: Option<Consumer>)
    requires k <= 8
    decreases 8 - k
  {
    if k == 8 then None else if Has(id, k) then Some(k) else LowestFrom(id, k + 1)
  }

  function LowestOf(id: bv32): Option<Consumer> {
    LowestFrom(id, 0)
  }

  /** The position of the lowest bit of the id, or -1 if it has none of the first eight. */
  method ConsumerIndex(id: bv32) returns (idx: int)
    ensures -1 <= idx < 8
    ensures if idx < 0 then LowestOf(id) == None else LowestOf(id) == Some(idx)
    ensures idx >= 0 ==> Has(id, idx)
    ensures forall d: Consumer :: idx < 0 || d < idx ==> !Has(id, d)
    ensures idx < 0 <==> id & 0xFF == 0
  {
    for i := 0 to 8
      invariant LowestOf(id) == LowestFrom(id, i)
      invariant forall c: Consumer :: c < i ==> !Has(id, c)
    {
      if id & Bit(i) != 0 {
        if id & 0xFF == 0 {
          NoLowBit(id, i);
        }
        return i;
      }
    }
    NoBits(id);
    return -1;
  }

  /** The lowest bit of a one-bit id is the bit. */
  lemma OneBit(id: bv32, i: Consumer)
    requires OneConsumer(id) && Has(id, i)
    ensures id == Bit(i)
    ensures forall c: Consumer :: id == Bit(c) ==> c == i
  {
    if id & 0xFF == 0 {
      NoLowBit(id, i);
    }
    forall c: Consumer | id == Bit(c)
      ensures c == i
    {
      DistinctBits(c, i);
    }
  }

  /** `m | id` */
  method With(m: Mask, c: Consumer, id: bv32) returns (r: Mask)
    requires id == Bit(c)
    ensures Members(r) == Members(m) + {c}
  {
    OrBit(m, c);
    OrLow(m, id);
    r := m | id;
  }

  /** `m & ~id` */
  method Without(m: Mask, c: Consumer, id: bv32) returns (r: Mask)
    requires id == Bit(c)
    ensures Members(r) == Members(m) - {c}
  {
    ClearBit(m, c);
    OrLow(m, id);
    r := m & !id;
  }
}
