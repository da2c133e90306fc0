/**
 CRC-32 with the IEEE polynomial, as section 8 of RFC 1952 defines it and
 crc32.ChecksumIEEE computes it for internal/protocol/custom_protocol.go.
 */
module Crc {
  import opened LinearSteps

  type Bytes = seq<bv8>

  // ---- one bit ----

  function BitStep(c: bv32): bv32 { if c & 1 == 1 then (c >> 1) ^ 0xEDB88320 else c >> 1 }

  /** Runs BitStep backwards: the polynomial's top bit tells which case was taken. */
  function BitUnstep(c: bv32): bv32 { if c >> 31 == 1 then ((c ^ 0xEDB88320) << 1) | 1 else c << 1 }

  lemma {:induction false} BitInverse(c: bv32)
    ensures BitUnstep(BitStep(c)) == c
  {
  }

  lemma {:induction false} BitLinear(a: bv32, b: bv32)
    ensures BitStep(a ^ b) == BitStep(a) ^ BitStep(b)
  {
    LowBits(a, b);
    ShiftXor(a, b);
    XorCancels(a >> 1, b >> 1, 0xEDB88320);
  }

  lemma {:induction false} LowBits(a: bv32, b: bv32)
    ensures (a & 1 == 0 || a & 1 == 1) && (b & 1 == 0 || b & 1 == 1)
    ensures (a ^ b) & 1 == (if a & 1 == b & 1 then 0 else 1)
  {
  }

  lemma {:induction false} ShiftXor(a: bv32, b: bv32)
    ensures (a ^ b) >> 1 == (a >> 1) ^ (b >> 1)
  {
  }

  lemma {:induction false} XorCancels(a: bv32, b: bv32, p: bv32)
    ensures (a ^ p) ^ b == (a ^ b) ^ p && a ^ (b ^ p) == (a ^ b) ^ p && (a ^ p) ^ (b ^ p) == a ^ b
  {
  }

  // ---- the register ----

  function Xor(a: bv32, b: bv32): bv32 { a ^ b }

  function Widen(b: bv8): bv32 { b as bv32 }

  function Raise(b: bv8, k: nat): bv32 {
    if k == 0 then b as bv32
    else if k == 1 then (b as bv32) << 8
    else if k == 2 then (b as bv32) << 16
    else (b as bv32) << 24
  }

  /** CRC-32: a 32-bit register, eight bit steps after each byte. */
  const CRC32: Machine<bv32, bv8> := Machine(BitStep, BitUnstep, Xor, Widen, Raise, 8, 0)

  function Checksum(s: Bytes): bv32 { Xor(Feed(CRC32, 0xFFFFFFFF, s), 0xFFFFFFFF) }

  /** While the low bits are zero, stepping only shifts. */
  lemma {:induction false} ByteShift(x: bv32)
    requires x & 0xFF == 0
    ensures Iterate(BitStep, 8, x) == x >> 8
  {
    EightShift(x);
    EightSteps(x);
  }

  function Eight(c: bv32): bv32 { BitStep(BitStep(BitStep(BitStep(BitStep(BitStep(BitStep(BitStep(c)))))))) }

  lemma {:induction false} EightShift(x: bv32)
    requires x & 0xFF == 0
    ensures Eight(x) == x >> 8
  {
  }

  lemma {:induction false} EightSteps(x: bv32)
    ensures Iterate(BitStep, 8, x) == Eight(x)
  {
    assert Iterate(BitStep, 1, x) == BitStep(x);
    assert Iterate(BitStep, 2, x) == BitStep(BitStep(x));
    assert Iterate(BitStep, 3, x) == BitStep(BitStep(BitStep(x)));
    var y := Iterate(BitStep, 4, x);
    StepsCompose(BitStep, 4, 4, x);
    assert Iterate(BitStep, 1, y) == BitStep(y);
    assert Iterate(BitStep, 2, y) == BitStep(BitStep(y));
    assert Iterate(BitStep, 3, y) == BitStep(BitStep(BitStep(y)));
  }

  lemma {:induction false} Room(b: bv8)
    ensures var x := b as bv32;
      && (x << 8) & 0xFF == 0 && (x << 16) & 0xFF == 0 && (x << 24) & 0xFF == 0
      && (x << 8) >> 8 == x && (x << 16) >> 8 == x << 8 && (x << 24) >> 8 == x << 16
  {
  }

  /** A byte raised by k bytes is back in place after k rounds. */
  lemma {:induction false} RaisedReturns(b: bv8, k: nat)
    requires 1 <= k <= 3
    ensures Rounds(CRC32, k, Raise(b, k)) == Widen(b)
  {
    RaisedDrops(b, k);
    if k > 1 {
      RaisedReturns(b, k - 1);
      StepsCompose(BitStep, (k - 1) * 8, 8, Raise(b, k));
    }
  }

  lemma {:induction false} RaisedDrops(b: bv8, k: nat)
    requires 1 <= k <= 3
    ensures Iterate(BitStep, 8, Raise(b, k)) == Raise(b, k - 1)
  {
    Room(b);
    ByteShift(Raise(b, k));
  }

  lemma {:induction false} XorSame(x: bv32, y: bv32, b: bv32)
    ensures x ^ b == y ^ b ==> x == y
  {
  }

  lemma {:induction false} RegisterLinear()
    ensures Linear(CRC32)
  {
    forall a, b ensures BitStep(Xor(a, b)) == Xor(BitStep(a), BitStep(b)) {
      BitLinear(a, b);
    }
    forall a ensures BitUnstep(BitStep(a)) == a {
      BitInverse(a);
    }
    forall a, b, x ensures Xor(a, x) == Xor(b, x) ==> a == b {
      XorSame(a, b, x);
    }
    forall b, k: nat | 1 <= k <= 3 ensures Rounds(CRC32, k, CRC32.up(b, k)) == CRC32.wide(b) {
      RaisedReturns(b, k);
    }
  }

  function Spread(s: bv32, a: bv8, b: bv8, c: bv8, d: bv8): bv32 {
    Xor(Xor(Xor(Xor(s, Widen(a)), Raise(b, 1)), Raise(c, 2)), Raise(d, 3))
  }

  /** Four bytes as one word, the first lowest. */
  function Word(a: bv8, b: bv8, c: bv8, d: bv8): bv32 { Xor(Xor(Xor(Widen(a), Raise(b, 1)), Raise(c, 2)), Raise(d, 3)) }

  lemma {:induction false} SpreadWord(s: bv32, a: bv8, b: bv8, c: bv8, d: bv8)
    ensures Xor(Spread(s, a, b, c, d), s) == Word(a, b, c, d)
  {
    XorOut(s, Widen(a), Raise(b, 1), Raise(c, 2), Raise(d, 3));
  }

  lemma {:induction false} XorOut(s: bv32, a: bv32, b: bv32, c: bv32, d: bv32)
    ensures Xor(Xor(Xor(Xor(Xor(s, a), b), c), d), s) == Xor(Xor(Xor(a, b), c), d)
  {
  }

  lemma {:induction false} WordBytes(a: bv8, b: bv8, c: bv8, d: bv8)
    ensures var w := Word(a, b, c, d);
      && w & 0xFF == a as bv32 && (w >> 8) & 0xFF == b as bv32
      && (w >> 16) & 0xFF == c as bv32 && (w >> 24) & 0xFF == d as bv32
  {
    RawBytes(a, b, c, d);
    RawWord(a, b, c, d);
  }

  lemma {:induction false} RawWord(a: bv8, b: bv8, c: bv8, d: bv8)
    ensures Word(a, b, c, d) == (((a as bv32) ^ ((b as bv32) << 8)) ^ ((c as bv32) << 16)) ^ ((d as bv32) << 24)
  {
    assert Raise(b, 1) == (b as bv32) << 8 && Raise(c, 2) == (c as bv32) << 16 && Raise(d, 3) == (d as bv32) << 24;
  }

  lemma {:induction false} RawBytes(a: bv8, b: bv8, c: bv8, d: bv8)
    ensures var w := (((a as bv32) ^ ((b as bv32) << 8)) ^ ((c as bv32) << 16)) ^ ((d as bv32) << 24);
      && w & 0xFF == a as bv32 && (w >> 8) & 0xFF == b as bv32
      && (w >> 16) & 0xFF == c as bv32 && (w >> 24) & 0xFF == d as bv32
  {
  }

  lemma {:induction false} NarrowWide(a: bv8, b: bv8)
    ensures a as bv32 == b as bv32 ==> a == b
  {
  }

  lemma {:induction false} BytesApart(s: bv32, a: bv8, b: bv8, c: bv8, d: bv8, a': bv8, b': bv8, c': bv8, d': bv8)
    requires Spread(s, a, b, c, d) == Spread(s, a', b', c', d')
    ensures a == a' && b == b' && c == c' && d == d'
  {
    SpreadWord(s, a, b, c, d);
    SpreadWord(s, a', b', c', d');
    WordBytes(a, b, c, d);
    WordBytes(a', b', c', d');
    NarrowWide(a, a');
    NarrowWide(b, b');
    NarrowWide(c, c');
    NarrowWide(d, d');
  }

  lemma {:induction false} RegisterPacks()
    ensures PackInjective(CRC32)
  {
    forall s, a, b, c, d, a', b', c', d' | Pack(CRC32, s, a, b, c, d) == Pack(CRC32, s, a', b', c', d')
      ensures a == a' && b == b' && c == c' && d == d'
    {
      PackIs(s, a, b, c, d);
      PackIs(s, a', b', c', d');
      BytesApart(s, a, b, c, d, a', b', c', d');
    }
  }

  lemma {:induction false} PackIs(s: bv32, a: bv8, b: bv8, c: bv8, d: bv8)
    ensures Pack(CRC32, s, a, b, c, d) == Spread(s, a, b, c, d)
  {
    assert CRC32.xor == Xor && CRC32.wide == Widen && CRC32.up == Raise;
  }

  // ---- error detection ----

  /** Any change confined to four consecutive bytes changes the checksum. */
  lemma {:induction false} BurstDetected(p: Bytes, q: Bytes, i: nat)
    requires WithinBurst(p, q, i)
    ensures Checksum(p) == Checksum(q) <==> p == q
  {
    if Checksum(p) == Checksum(q) {
      XorSame(Feed(CRC32, 0xFFFFFFFF, p), Feed(CRC32, 0xFFFFFFFF, q), 0xFFFFFFFF);
      RegisterLinear();
      RegisterPacks();
      BurstChanges(CRC32, 0xFFFFFFFF, p, q, i);
    }
  }

  // ---- the table-driven form ----

  lemma {:induction false} SplitLow(c: bv32, b: bv8)
    ensures var x := c ^ (b as bv32); (x & 0xFF) ^ ((c >> 8) << 8) == x
    ensures ((c >> 8) << 8) & 0xFF == 0 && ((c >> 8) << 8) >> 8 == c >> 8
  {
  }

  /** One lookup in RFC 1952's table of eight-step results, with the rest of the register shifted, takes in a byte. */
  lemma {:induction false} TableStep(c: bv32, b: bv8)
    ensures Take(CRC32, c, b) == Xor(TableEntry((c ^ (b as bv32)) & 0xFF), c >> 8)
  {
    SplitLow(c, b);
    HighShift(c);
    TakeParts(c, b, (c ^ (b as bv32)) & 0xFF, (c >> 8) << 8, c >> 8);
  }

  lemma {:induction false} HighShift(c: bv32)
    ensures TableEntry((c >> 8) << 8) == c >> 8
  {
    SplitLow(c, 0);
    ByteShift((c >> 8) << 8);
  }

  lemma {:induction false} TakeParts(c: bv32, b: bv8, low: bv32, high: bv32, shifted: bv32)
    requires low ^ high == c ^ (b as bv32) && TableEntry(high) == shifted
    ensures Take(CRC32, c, b) == Xor(TableEntry(low), shifted)
  {
    RegisterLinear();
    assert CRC32.xor(c, CRC32.wide(b)) == CRC32.xor(low, high);
    TakeSplit(CRC32, c, b, low, high, shifted);
  }

  function TableEntry(n: bv32): bv32 { Rounds(CRC32, 1, n) }
}
