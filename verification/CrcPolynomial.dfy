/**
 Which CRC the register computes: polynomials over the two-element field as sets
 of exponents, the generator of section 8.1.1.6.2 of ITU-T V.42, and the
 standard check value.
 */
module CrcPolynomial {
  import opened LinearSteps
  import opened Crc

  /** The exponents with coefficient one. */
  type Poly = set<nat>

  const GENERATOR: Poly := {32, 26, 23, 22, 16, 12, 11, 10, 8, 7, 5, 4, 2, 1, 0}

  function Plus(p: Poly, q: Poly): Poly { (p - q) + (q - p) }

  function Shift(p: Poly, n: nat): Poly { set k | k in p :: k + n }

  /** The remainder of a polynomial of degree at most 32. */
  function Reduce(p: Poly): Poly { if 32 in p then Plus(p, GENERATOR) else p }

  /** The register's low bit is the coefficient of the 31st power, its top bit that of the constant. */
  function Coefficient(c: bv32, k: nat): bool
    requires k < 32
    decreases 31 - k
  {
    if k == 31 then c & 1 == 1 else Coefficient(c >> 1, k + 1)
  }

  function PolyOf(c: bv32): Poly { set k | 0 <= k < 32 && Coefficient(c, k) }

  // ---- coefficients of shifted and combined registers ----

  lemma {:induction false} Unfold(c: bv32, half: bv32, k: nat)
    requires k < 31 && half == c >> 1
    ensures Coefficient(c, k) == Coefficient(half, k + 1)
  {
  }

  lemma {:induction false} XorCoefficient(a: bv32, b: bv32, c: bv32, k: nat)
    requires k < 32 && c == a ^ b
    ensures Coefficient(c, k) <==> Coefficient(a, k) != Coefficient(b, k)
    decreases 31 - k
  {
    if k == 31 {
      LowBits(a, b);
    } else {
      var a', b', c' := a >> 1, b >> 1, c >> 1;
      Unfold(a, a', k);
      Unfold(b, b', k);
      Unfold(c, c', k);
      ShiftXor(a, b);
      XorCoefficient(a', b', c', k + 1);
    }
  }

  /** A bound on the register that leaves nothing at power k once shifted out. */
  function Bound(k: nat): bv32
    requires k < 32
    decreases 31 - k
  {
    if k == 31 then 0 else (Bound(k + 1) << 1) | 1
  }

  lemma {:induction false} BelowBound(c: bv32, m: bv32, k: nat)
    requires k < 32 && m == Bound(k) && c <= m
    ensures !Coefficient(c, k)
    decreases 31 - k
  {
    if k == 31 {
      AtMostZero(c);
    } else {
      var half, m' := c >> 1, Bound(k + 1);
      Unfold(c, half, k);
      HalfBound(c, half, m, m');
      BelowBound(half, m', k + 1);
    }
  }

  lemma {:induction false} AtMostZero(c: bv32)
    requires c <= 0
    ensures c & 1 == 0
  {
  }

  lemma {:induction false} HalfBound(c: bv32, half: bv32, m: bv32, m': bv32)
    requires half == c >> 1 && m == (m' << 1) | 1 && c <= m
    ensures half <= m'
  {
  }

  lemma {:induction false} FullBound()
    ensures Bound(0) == 0x7FFFFFFF
  {
    assert Bound(27) == 0xF;
    assert Bound(23) == 0xFF;
    assert Bound(19) == 0xFFF;
    assert Bound(15) == 0xFFFF;
    assert Bound(11) == 0xFFFFF;
    assert Bound(7) == 0xFFFFFF;
    assert Bound(3) == 0xFFFFFFF;
  }

  lemma {:induction false} Halved(c: bv32)
    ensures c >> 1 <= 0x7FFFFFFF
  {
  }

  lemma {:induction false} ShiftCoefficient(c: bv32, k: nat)
    requires k < 32
    ensures Coefficient(c >> 1, k) <==> k > 0 && Coefficient(c, k - 1)
  {
    if k == 0 {
      FullBound();
      Halved(c);
      BelowBound(c >> 1, Bound(0), 0);
    }
  }

  // ---- the feedback constant, four powers at a time ----

  /** The register without its n low bits. */
  function Drop(c: bv32, n: nat): bv32
    decreases n
  {
    if n == 0 then c else Drop(c >> 1, n - 1)
  }

  lemma {:induction false} DropCoefficient(c: bv32, k: nat, n: nat)
    requires k + n < 32
    ensures Coefficient(c, k) <==> Coefficient(Drop(c, n), k + n)
    decreases n
  {
    if n > 0 {
      var half := c >> 1;
      Unfold(c, half, k);
      DropCoefficient(half, k + 1, n - 1);
    }
  }

  lemma {:induction false} DropDrop(c: bv32, m: nat, n: nat)
    ensures Drop(Drop(c, m), n) == Drop(c, m + n)
    decreases m
  {
    if m > 0 {
      DropDrop(c >> 1, m - 1, n);
    }
  }

  lemma {:induction false} DropFour(c: bv32)
    ensures Drop(c, 4) == c >> 4
  {
    assert Drop(c >> 1, 3) == Drop((c >> 1) >> 1, 2);
  }

  /** What is left of the constant once its low nibbles are dropped. */
  lemma {:induction false} Nibbles(c: bv32)
    requires c == 0xEDB88320
    ensures Drop(c, 4) == 0xEDB8832 && Drop(c, 8) == 0xEDB883
    ensures Drop(c, 12) == 0xEDB88 && Drop(c, 16) == 0xEDB8
    ensures Drop(c, 20) == 0xEDB && Drop(c, 24) == 0xED && Drop(c, 28) == 0xE
  {
    DropFour(c);
    DropFour(0xEDB8832);
    DropFour(0xEDB883);
    DropFour(0xEDB88);
    DropFour(0xEDB8);
    DropFour(0xEDB);
    DropFour(0xED);
    DropDrop(c, 4, 4);
    DropDrop(c, 8, 4);
    DropDrop(c, 12, 4);
    DropDrop(c, 16, 4);
    DropDrop(c, 20, 4);
    DropDrop(c, 24, 4);
  }

  predicate Low(c: bv32, a: bool, b: bool, d: bool, e: bool) {
    && (c & 1 == 1) == e && ((c >> 1) & 1 == 1) == d
    && (((c >> 1) >> 1) & 1 == 1) == b && ((((c >> 1) >> 1) >> 1) & 1 == 1) == a
  }

  lemma {:induction false} LastFour(c: bv32, a: bool, b: bool, d: bool, e: bool)
    requires Low(c, a, b, d, e)
    ensures Coefficient(c, 28) == a && Coefficient(c, 29) == b && Coefficient(c, 30) == d && Coefficient(c, 31) == e
  {
    var c1 := c >> 1;
    var c2 := c1 >> 1;
    var c3 := c2 >> 1;
    Unfold(c, c1, 28);
    Unfold(c1, c2, 29);
    Unfold(c2, c3, 30);
    Unfold(c, c1, 29);
    Unfold(c1, c2, 30);
    Unfold(c, c1, 30);
  }

  lemma {:induction false} Group(c: bv32, k: nat, n: nat, a: bool, b: bool, d: bool, e: bool)
    requires k + n == 28 && Low(Drop(c, n), a, b, d, e)
    ensures Coefficient(c, k) == a && Coefficient(c, k + 1) == b
    ensures Coefficient(c, k + 2) == d && Coefficient(c, k + 3) == e
  {
    DropCoefficient(c, k, n);
    DropCoefficient(c, k + 1, n);
    DropCoefficient(c, k + 2, n);
    DropCoefficient(c, k + 3, n);
    LastFour(Drop(c, n), a, b, d, e);
  }

  lemma {:induction false} HighPowers(c: bv32)
    requires c == 0xEDB88320
    ensures forall k :: 16 <= k < 32 ==> (Coefficient(c, k) <==> k in GENERATOR)
  {
    Nibbles(c);
    Group(c, 16, 12, true, false, false, false);
    Group(c, 20, 8, false, false, true, true);
    Group(c, 24, 4, false, false, true, false);
    Group(c, 28, 0, false, false, false, false);
  }

  lemma {:induction false} LowPowers(c: bv32)
    requires c == 0xEDB88320
    ensures forall k :: 0 <= k < 16 ==> (Coefficient(c, k) <==> k in GENERATOR)
  {
    Nibbles(c);
    Group(c, 0, 28, true, true, true, false);
    Group(c, 4, 24, true, true, false, true);
    Group(c, 8, 20, true, false, true, true);
    Group(c, 12, 16, true, false, false, false);
  }

  // ---- one step ----

  /** A step multiplies by x and takes the remainder by the generator. */
  lemma {:induction false} StepMultiplies(c: bv32)
    ensures PolyOf(BitStep(c)) == Reduce(Shift(PolyOf(c), 1))
  {
    forall k: nat ensures k in PolyOf(BitStep(c)) <==> k in Reduce(Shift(PolyOf(c), 1)) {
      LowPower(c);
      ShiftedIn(PolyOf(c), 1, k);
      ShiftedIn(PolyOf(c), 1, 32);
      if k < 32 {
        StepCoefficient(c, k);
      }
    }
  }

  lemma {:induction false} LowPower(c: bv32)
    ensures 31 in PolyOf(c) <==> c & 1 == 1
  {
  }

  lemma {:induction false} ShiftedIn(p: Poly, n: nat, k: nat)
    ensures k in Shift(p, n) <==> k >= n && k - n in p
  {
  }

  lemma {:induction false} StepCoefficient(c: bv32, k: nat)
    requires k < 32
    ensures Coefficient(BitStep(c), k) <==> (k > 0 && Coefficient(c, k - 1)) != (c & 1 == 1 && k in GENERATOR)
  {
    var half, g: bv32 := c >> 1, 0xEDB88320;
    ShiftCoefficient(c, k);
    if c & 1 == 1 {
      XorCoefficient(half, g, BitStep(c), k);
      HighPowers(g);
      LowPowers(g);
    }
  }

  // ---- remainders ----

  /** The sum of the generator's multiples by the given powers. */
  function Multiple(ks: seq<nat>): Poly {
    if ks == [] then {} else Plus(Multiple(ks[..|ks| - 1]), Shift(GENERATOR, ks[|ks| - 1]))
  }

  /** The same remainder: the difference is a multiple of the generator. */
  ghost predicate Congruent(p: Poly, q: Poly) { exists ks :: Plus(p, q) == Multiple(ks) }

  lemma {:induction false} MultipleAppend(ks: seq<nat>, js: seq<nat>)
    ensures Multiple(ks + js) == Plus(Multiple(ks), Multiple(js))
  {
    if js == [] {
      assert ks + js == ks;
    } else {
      assert (ks + js)[..|ks + js| - 1] == ks + js[..|js| - 1];
      MultipleAppend(ks, js[..|js| - 1]);
    }
  }

  lemma {:induction false} ShiftPlus(p: Poly, q: Poly, n: nat)
    ensures Shift(Plus(p, q), n) == Plus(Shift(p, n), Shift(q, n))
  {
    forall k: nat ensures k in Shift(Plus(p, q), n) <==> k in Plus(Shift(p, n), Shift(q, n)) {
      ShiftedIn(Plus(p, q), n, k);
      ShiftedIn(p, n, k);
      ShiftedIn(q, n, k);
    }
  }

  lemma {:induction false} ShiftShift(p: Poly, m: nat, n: nat)
    ensures Shift(Shift(p, m), n) == Shift(p, m + n)
  {
    forall k: nat ensures k in Shift(Shift(p, m), n) <==> k in Shift(p, m + n) {
      ShiftedIn(Shift(p, m), n, k);
      ShiftedIn(p, m + n, k);
      if k >= n {
        ShiftedIn(p, m, k - n);
      }
    }
  }

  lemma {:induction false} MultipleShifted(ks: seq<nat>, n: nat) returns (js: seq<nat>)
    ensures Shift(Multiple(ks), n) == Multiple(js)
  {
    if ks == [] {
      js := [];
    } else {
      var last := |ks| - 1;
      js := MultipleShifted(ks[..last], n);
      ShiftPlus(Multiple(ks[..last]), Shift(GENERATOR, ks[last]), n);
      ShiftShift(GENERATOR, ks[last], n);
      js := js + [ks[last] + n];
    }
  }

  lemma {:induction false} CongruentShift(p: Poly, q: Poly, n: nat)
    requires Congruent(p, q)
    ensures Congruent(Shift(p, n), Shift(q, n))
  {
    var ks :| Plus(p, q) == Multiple(ks);
    var js := MultipleShifted(ks, n);
    ShiftPlus(p, q, n);
  }

  lemma {:induction false} CongruentPlus(p: Poly, q: Poly, r: Poly)
    requires Congruent(p, q)
    ensures Congruent(Plus(p, r), Plus(q, r))
  {
    assert Plus(Plus(p, r), Plus(q, r)) == Plus(p, q);
  }

  lemma {:induction false} CongruentTrans(p: Poly, q: Poly, r: Poly)
    requires Congruent(p, q) && Congruent(q, r)
    ensures Congruent(p, r)
  {
    var ks :| Plus(p, q) == Multiple(ks);
    var js :| Plus(q, r) == Multiple(js);
    MultipleAppend(ks, js);
    assert Plus(p, r) == Plus(Plus(p, q), Plus(q, r));
  }

  lemma {:induction false} ReduceCongruent(p: Poly)
    ensures Congruent(Reduce(p), p)
  {
    if 32 in p {
      ShiftNone(GENERATOR);
      assert Multiple([0]) == GENERATOR;
      assert Plus(Plus(p, GENERATOR), p) == GENERATOR;
    } else {
      assert Plus(p, p) == Multiple([]);
    }
  }

  lemma {:induction false} ShiftNone(p: Poly)
    ensures Shift(p, 0) == p
  {
    forall k: nat ensures k in Shift(p, 0) <==> k in p {
      ShiftedIn(p, 0, k);
    }
  }

  // ---- the register as a remainder ----

  lemma {:induction false} OneMore(p: Poly, q: Poly)
    requires Congruent(p, q)
    ensures Congruent(Reduce(Shift(p, 1)), Shift(q, 1))
  {
    ReduceCongruent(Shift(p, 1));
    CongruentShift(p, q, 1);
    CongruentTrans(Reduce(Shift(p, 1)), Shift(p, 1), Shift(q, 1));
  }

  lemma {:induction false} CongruentSelf(p: Poly)
    ensures Congruent(p, p)
  {
    assert Plus(p, p) == Multiple([]);
  }

  /** Steps that multiply by x, in general. */
  lemma {:induction false} IterateRemainder<W(!new)>(step: W -> W, poly: W -> Poly, n: nat, c: W)
    requires forall w :: poly(step(w)) == Reduce(Shift(poly(w), 1))
    ensures Congruent(poly(Iterate(step, n, c)), Shift(poly(c), n))
  {
    if n == 0 {
      ShiftNone(poly(c));
      CongruentSelf(poly(c));
    } else {
      IterateRemainder(step, poly, n - 1, c);
      OneMore(poly(Iterate(step, n - 1, c)), Shift(poly(c), n - 1));
      ShiftShift(poly(c), n - 1, 1);
    }
  }

  lemma {:induction false} EightRemainder(c: bv32)
    ensures Congruent(PolyOf(Iterate(BitStep, 8, c)), Shift(PolyOf(c), 8))
  {
    forall w ensures PolyOf(BitStep(w)) == Reduce(Shift(PolyOf(w), 1)) {
      StepMultiplies(w);
    }
    IterateRemainder(BitStep, PolyOf, 8, c);
  }

  lemma {:induction false} XorAdds(a: bv32, b: bv32)
    ensures PolyOf(Xor(a, b)) == Plus(PolyOf(a), PolyOf(b))
  {
    forall k: nat ensures k in PolyOf(Xor(a, b)) <==> k in Plus(PolyOf(a), PolyOf(b)) {
      if k < 32 {
        XorCoefficient(a, b, Xor(a, b), k);
      }
    }
  }

  function ByteOf(b: bv8): Poly { PolyOf(Widen(b)) }

  /** The bytes as one polynomial times the 32nd power, each byte's low bit its highest power. */
  function Message<B>(byte: B -> Poly, s: seq<B>): Poly {
    if s == [] then {} else Shift(Plus(Message(byte, s[..|s| - 1]), byte(s[|s| - 1])), 8)
  }

  /** Inputs that add eight more coefficients, in general. */
  lemma {:induction false} FeedCongruent<W(!new), B(!new)>(M: Machine<W, B>, poly: W -> Poly, byte: B -> Poly,
                                                           c: W, s: seq<B>)
    requires forall r, b :: Congruent(poly(Take(M, r, b)), Shift(Plus(poly(r), byte(b)), 8))
    ensures Congruent(poly(Feed(M, c, s)), Plus(Shift(poly(c), 8 * |s|), Message(byte, s)))
  {
    if s == [] {
      ShiftNone(poly(c));
      CongruentSelf(poly(c));
      assert Plus(poly(c), {}) == poly(c);
    } else {
      var n := |s| - 1;
      var r := Feed(M, c, s[..n]);
      FeedCongruent(M, poly, byte, c, s[..n]);
      AddedByte(poly(r), Shift(poly(c), 8 * n), Message(byte, s[..n]), byte(s[n]));
      CongruentTrans(poly(Take(M, r, s[n])), Shift(Plus(poly(r), byte(s[n])), 8),
                     Plus(Shift(Shift(poly(c), 8 * n), 8), Message(byte, s)));
      ShiftShift(poly(c), 8 * n, 8);
    }
  }

  lemma {:induction false} AddedByte(r: Poly, p: Poly, m: Poly, w: Poly)
    requires Congruent(r, Plus(p, m))
    ensures Congruent(Shift(Plus(r, w), 8), Plus(Shift(p, 8), Shift(Plus(m, w), 8)))
  {
    CongruentPlus(r, Plus(p, m), w);
    CongruentShift(Plus(r, w), Plus(Plus(p, m), w), 8);
    assert Plus(Plus(p, m), w) == Plus(p, Plus(m, w));
    ShiftPlus(p, Plus(m, w), 8);
  }

  lemma {:induction false} TakeRemainder(r: bv32, b: bv8)
    ensures Congruent(PolyOf(Take(CRC32, r, b)), Shift(Plus(PolyOf(r), ByteOf(b)), 8))
  {
    var x := Xor(r, Widen(b));
    TakeIs(r, b, x);
    EightRemainder(x);
    XorAdds(r, Widen(b));
  }

  lemma {:induction false} TakeIs(r: bv32, b: bv8, x: bv32)
    requires x == Xor(r, Widen(b))
    ensures Take(CRC32, r, b) == Iterate(BitStep, 8, x)
  {
  }

  /**
   The register after taking in s, started at c, is the remainder by the
   generator of the message with c added to its 32 highest coefficients.
   */
  lemma {:induction false} FeedRemainder(c: bv32, s: Bytes)
    ensures Congruent(PolyOf(Feed(CRC32, c, s)), Plus(Shift(PolyOf(c), 8 * |s|), Message(ByteOf, s)))
    ensures forall k :: k in PolyOf(Feed(CRC32, c, s)) ==> k < 32
  {
    forall r, b ensures Congruent(PolyOf(Take(CRC32, r, b)), Shift(Plus(PolyOf(r), ByteOf(b)), 8)) {
      TakeRemainder(r, b);
    }
    FeedCongruent(CRC32, PolyOf, ByteOf, c, s);
  }

  // ---- the check value ----

  lemma {:induction false} FeedOne<W, B>(M: Machine<W, B>, c: W, s: seq<B>, i: nat)
    requires i < |s|
    ensures Feed(M, c, s[..i + 1]) == Take(M, Feed(M, c, s[..i]), s[i])
  {
    assert s[..i + 1][..i] == s[..i];
  }

  /** The register after three more inputs, from the three single results. */
  lemma {:induction false} FeedThree<W, B>(M: Machine<W, B>, c: W, s: seq<B>, i: nat, r0: W, r1: W, r2: W, r3: W)
    requires i + 3 <= |s| && Feed(M, c, s[..i]) == r0
    requires Take(M, r0, s[i]) == r1 && Take(M, r1, s[i + 1]) == r2 && Take(M, r2, s[i + 2]) == r3
    ensures Feed(M, c, s[..i + 3]) == r3
  {
    FeedOne(M, c, s, i);
    FeedOne(M, c, s, i + 1);
    FeedOne(M, c, s, i + 2);
  }

  lemma {:induction false} TakeEight(r: bv32, b: bv8)
    ensures Take(CRC32, r, b) == Eight(r ^ (b as bv32))
  {
    var x := Xor(r, Widen(b));
    TakeIs(r, b, x);
    EightSteps(x);
  }

  lemma {:induction false} FirstThree()
    ensures Take(CRC32, 0xFFFFFFFF, 0x31) == 0x7C231048
    ensures Take(CRC32, 0x7C231048, 0x32) == 0xB0ACBB32
    ensures Take(CRC32, 0xB0ACBB32, 0x33) == 0x77B79C2D
  {
    TakeEight(0xFFFFFFFF, 0x31);
    TakeEight(0x7C231048, 0x32);
    TakeEight(0xB0ACBB32, 0x33);
  }

  lemma {:induction false} NextThree()
    ensures Take(CRC32, 0x77B79C2D, 0x34) == 0x641C1F5C
    ensures Take(CRC32, 0x641C1F5C, 0x35) == 0x340AC5E3
    ensures Take(CRC32, 0x340AC5E3, 0x36) == 0xF68D2C9E
  {
    TakeEight(0x77B79C2D, 0x34);
    TakeEight(0x641C1F5C, 0x35);
    TakeEight(0x340AC5E3, 0x36);
  }

  lemma {:induction false} LastThree()
    ensures Take(CRC32, 0xF68D2C9E, 0x37) == 0xAFFC9660
    ensures Take(CRC32, 0xAFFC9660, 0x38) == 0x651F2550
    ensures Take(CRC32, 0x651F2550, 0x39) == 0x340BC6D9
  {
    TakeEight(0xF68D2C9E, 0x37);
    TakeEight(0xAFFC9660, 0x38);
    TakeEight(0x651F2550, 0x39);
  }

  lemma {:induction false} FirstDigits(s: Bytes)
    requires |s| == 9 && Feed(CRC32, 0xFFFFFFFF, s[..0]) == 0xFFFFFFFF
    requires s[0] == 0x31 && s[1] == 0x32 && s[2] == 0x33
    ensures Feed(CRC32, 0xFFFFFFFF, s[..3]) == 0x77B79C2D
  {
    FirstThree();
    FeedThree(CRC32, 0xFFFFFFFF, s, 0, 0xFFFFFFFF, 0x7C231048, 0xB0ACBB32, 0x77B79C2D);
  }

  lemma {:induction false} NextDigits(s: Bytes)
    requires |s| == 9 && Feed(CRC32, 0xFFFFFFFF, s[..3]) == 0x77B79C2D
    requires s[3] == 0x34 && s[4] == 0x35 && s[5] == 0x36
    ensures Feed(CRC32, 0xFFFFFFFF, s[..6]) == 0xF68D2C9E
  {
    NextThree();
    FeedThree(CRC32, 0xFFFFFFFF, s, 3, 0x77B79C2D, 0x641C1F5C, 0x340AC5E3, 0xF68D2C9E);
  }

  lemma {:induction false} LastDigits(s: Bytes)
    requires |s| == 9 && Feed(CRC32, 0xFFFFFFFF, s[..6]) == 0xF68D2C9E
    requires s[6] == 0x37 && s[7] == 0x38 && s[8] == 0x39
    ensures Feed(CRC32, 0xFFFFFFFF, s[..9]) == 0x340BC6D9
  {
    LastThree();
    FeedThree(CRC32, 0xFFFFFFFF, s, 6, 0xF68D2C9E, 0xAFFC9660, 0x651F2550, 0x340BC6D9);
  }

  lemma {:induction false} NineDigits(s: Bytes)
    requires |s| == 9 && s[0] == 0x31 && s[1] == 0x32 && s[2] == 0x33 && s[3] == 0x34 && s[4] == 0x35
    requires s[5] == 0x36 && s[6] == 0x37 && s[7] == 0x38 && s[8] == 0x39
    ensures Feed(CRC32, 0xFFFFFFFF, s) == 0x340BC6D9
  {
    FirstDigits(s);
    NextDigits(s);
    LastDigits(s);
    assert s[..9] == s;
  }

  /** The standard check value, which fixes the initial register and the final complement too. */
  lemma {:induction false} CheckValue()
    ensures Checksum([0x31, 0x32, 0x33, 0x34, 0x35, 0x36, 0x37, 0x38, 0x39]) == 0xCBF43926
  {
    NineDigits([0x31, 0x32, 0x33, 0x34, 0x35, 0x36, 0x37, 0x38, 0x39]);
  }
}
