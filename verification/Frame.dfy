/**
 The binary frame of internal/protocol/custom_protocol.go: a 20-byte big-endian
 header with a CRC-32 of the payload, then the payload.
 */
module Frame {
  import opened Wrappers
  import opened Crc
  import opened CrcPolynomial
  import opened LinearSteps

  // ---- big-endian words ----

  function Read32(a: bv8, b: bv8, c: bv8, d: bv8): bv32 {
    ((a as bv32) << 24) | ((b as bv32) << 16) | ((c as bv32) << 8) | (d as bv32)
  }

  function Write32(x: bv32): (r: Bytes)
    ensures |r| == 4
  {
    [(x >> 24) as bv8, ((x >> 16) & 0xFF) as bv8, ((x >> 8) & 0xFF) as bv8, (x & 0xFF) as bv8]
  }

  lemma {:induction false} WriteRead(x: bv32)
    ensures var w := Write32(x); Read32(w[0], w[1], w[2], w[3]) == x
  {
  }

  lemma {:induction false} ReadWrite(a: bv8, b: bv8, c: bv8, d: bv8)
    ensures Write32(Read32(a, b, c, d)) == [a, b, c, d]
  {
  }

  /** uint32(n): the low 32 bits of a length, byte by byte. */
  function Len32(n: nat): bv32 {
    Read32(Digit(n / 0x1000000), Digit(n / 0x10000), Digit(n / 0x100), Digit(n))
  }

  /** The byte of value n % 256. */
  function Digit(n: nat): bv8 { Counted(n % 0x100) }

  function Counted(n: nat): (b: bv8)
    requires n < 0x100
    ensures b as int == n
  {
    if n == 0 then 0 else
      Increment(Counted(n - 1));
      Counted(n - 1) + 1
  }

  lemma {:induction false} Increment(b: bv8)
    requires b as int < 0xFF
    ensures (b + 1) as int == b as int + 1
  {
  }

  lemma {:induction false} DigitExact(m: nat, n: nat)
    ensures Digit(m) == Digit(n) <==> m % 0x100 == n % 0x100
  {
  }

  const TWO32: nat := 0x1_0000_0000

  /** Truncation to 32 bits confuses exactly the lengths that agree modulo 2^32. */
  lemma {:induction false} Len32Exact(m: nat, n: nat)
    ensures Len32(m) == Len32(n) <==> m % TWO32 == n % TWO32
  {
    if Len32(m) == Len32(n) {
      Read32Injective(Digit(m / 0x1000000), Digit(m / 0x10000), Digit(m / 0x100), Digit(m),
                      Digit(n / 0x1000000), Digit(n / 0x10000), Digit(n / 0x100), Digit(n));
    }
    DigitExact(m / 0x1000000, n / 0x1000000);
    DigitExact(m / 0x10000, n / 0x10000);
    DigitExact(m / 0x100, n / 0x100);
    DigitExact(m, n);
    SameDigits(m, n);
  }

  lemma {:induction false} Read32Injective(a: bv8, b: bv8, c: bv8, d: bv8, a': bv8, b': bv8, c': bv8, d': bv8)
    ensures Read32(a, b, c, d) == Read32(a', b', c', d') ==> a == a' && b == b' && c == c' && d == d'
  {
    ReadWrite(a, b, c, d);
    ReadWrite(a', b', c', d');
  }

  lemma {:induction false} SameDigits(m: nat, n: nat)
    ensures m % TWO32 == n % TWO32 <==>
      && m / 0x1000000 % 0x100 == n / 0x1000000 % 0x100 && m / 0x10000 % 0x100 == n / 0x10000 % 0x100
      && m / 0x100 % 0x100 == n / 0x100 % 0x100 && m % 0x100 == n % 0x100
  {
    Digits(m);
    Digits(n);
    Weighted(m / 0x1000000 % 0x100, m / 0x10000 % 0x100, m / 0x100 % 0x100, m % 0x100,
             n / 0x1000000 % 0x100, n / 0x10000 % 0x100, n / 0x100 % 0x100, n % 0x100);
  }

  lemma {:induction false} Weighted(a: nat, b: nat, c: nat, d: nat, a': nat, b': nat, c': nat, d': nat)
    requires a < 0x100 && b < 0x100 && c < 0x100 && d < 0x100 && a' < 0x100 && b' < 0x100 && c' < 0x100 && d' < 0x100
    ensures 0x1000000 * a + 0x10000 * b + 0x100 * c + d == 0x1000000 * a' + 0x10000 * b' + 0x100 * c' + d' <==>
              a == a' && b == b' && c == c' && d == d'
  {
  }

  lemma {:induction false} Digits(n: nat)
    ensures n % TWO32 == 0x1000000 * (n / 0x1000000 % 0x100) + 0x10000 * (n / 0x10000 % 0x100) +
        0x100 * (n / 0x100 % 0x100) + n % 0x100
  {
    var q1, q2, q3 := n / 0x100, n / 0x10000, n / 0x1000000;
    var q4 := q3 / 0x100;
    assert q2 == q1 / 0x100 && q3 == q2 / 0x100;
    var low := 0x1000000 * (q3 % 0x100) + 0x10000 * (q2 % 0x100) + 0x100 * (q1 % 0x100) + n % 0x100;
    assert n == TWO32 * q4 + low;
    Remainder(q4, low);
  }

  lemma {:induction false} Remainder(q: nat, low: nat)
    requires low < TWO32
    ensures (TWO32 * q + low) % TWO32 == low
  {
  }

  /** Counting up the lowest byte that is not full, the full ones below it going back to zero. */
  lemma {:induction false} CountD(a: bv8, b: bv8, c: bv8, d: bv8)
    requires d != 0xFF
    ensures Read32(a, b, c, d + 1) == Read32(a, b, c, d) + 1
  {
    var x := ((a as bv32) << 24) | ((b as bv32) << 16) | ((c as bv32) << 8);
    Widened(d);
    LowRoom(a, b, c);
    AddBelow(x, d as bv32);
  }

  lemma {:induction false} Widened(d: bv8)
    requires d != 0xFF
    ensures (d + 1) as bv32 == (d as bv32) + 1 && (d as bv32) < 0xFF
  {
  }

  lemma {:induction false} LowRoom(a: bv8, b: bv8, c: bv8)
    ensures (((a as bv32) << 24) | ((b as bv32) << 16) | ((c as bv32) << 8)) & 0xFF == 0
  {
  }

  lemma {:induction false} AddBelow(x: bv32, d: bv32)
    requires x & 0xFF == 0 && d < 0xFF
    ensures x | (d + 1) == (x | d) + 1
  {
  }

  lemma {:induction false} CountC(a: bv8, b: bv8, c: bv8)
    requires c != 0xFF
    ensures Read32(a, b, c + 1, 0) == Read32(a, b, c, 0xFF) + 1
  {
    var x := ((a as bv32) << 24) | ((b as bv32) << 16);
    Widened(c);
    MiddleRoom(a, b);
    AddMiddle(x, c as bv32);
    NoLow(x, (c + 1) as bv32);
  }

  lemma {:induction false} NoLow(x: bv32, c: bv32)
    ensures x | (c << 8) | (0 as bv8 as bv32) == x | (c << 8)
  {
  }

  lemma {:induction false} MiddleRoom(a: bv8, b: bv8)
    ensures (((a as bv32) << 24) | ((b as bv32) << 16)) & 0xFFFF == 0
  {
  }

  lemma {:induction false} AddMiddle(x: bv32, c: bv32)
    requires x & 0xFFFF == 0 && c < 0xFF
    ensures x | ((c + 1) << 8) == (x | (c << 8) | 0xFF) + 1
  {
  }

  lemma {:induction false} CountB(a: bv8, b: bv8)
    requires b != 0xFF
    ensures Read32(a, b + 1, 0, 0) == Read32(a, b, 0xFF, 0xFF) + 1
  {
    var x := (a as bv32) << 24;
    Widened(b);
    HighRoom(a);
    AddHigh(x, b as bv32);
    NoTwoLow(x, (b + 1) as bv32);
  }

  lemma {:induction false} HighRoom(a: bv8)
    ensures ((a as bv32) << 24) & 0xFFFFFF == 0
  {
  }

  lemma {:induction false} AddHigh(x: bv32, b: bv32)
    requires x & 0xFFFFFF == 0 && b < 0xFF
    ensures x | ((b + 1) << 16) == (x | (b << 16) | (0xFF << 8) | 0xFF) + 1
  {
  }

  lemma {:induction false} NoTwoLow(x: bv32, b: bv32)
    ensures x | (b << 16) | ((0 as bv8 as bv32) << 8) | (0 as bv8 as bv32) == x | (b << 16)
  {
  }

  lemma {:induction false} CountA(a: bv8)
    ensures Read32(a + 1, 0, 0, 0) == Read32(a, 0xFF, 0xFF, 0xFF) + 1
  {
  }

  /** Four bytes, the highest first. */
  datatype Quad = Quad(a: bv8, b: bv8, c: bv8, d: bv8)
  {
    function Word(): bv32 { Read32(a, b, c, d) }

    /** The next four bytes, counting up. */
    function Next(): Quad {
      if d != 0xFF then Quad(a, b, c, d + 1)
      else if c != 0xFF then Quad(a, b, c + 1, 0)
      else if b != 0xFF then Quad(a, b + 1, 0, 0)
      else Quad(a + 1, 0, 0, 0)
    }
  }

  lemma {:induction false} NextD(q: Quad)
    requires q.d != 0xFF
    ensures Quad(q.a, q.b, q.c, q.d + 1).Word() == q.Word() + 1
  {
    CountD(q.a, q.b, q.c, q.d);
  }

  lemma {:induction false} NextC(q: Quad)
    requires q.d == 0xFF && q.c != 0xFF
    ensures Quad(q.a, q.b, q.c + 1, 0).Word() == q.Word() + 1
  {
    CountC(q.a, q.b, q.c);
  }

  lemma {:induction false} NextB(q: Quad)
    requires q.d == 0xFF && q.c == 0xFF && q.b != 0xFF
    ensures Quad(q.a, q.b + 1, 0, 0).Word() == q.Word() + 1
  {
    CountB(q.a, q.b);
  }

  lemma {:induction false} NextA(q: Quad)
    requires q.d == 0xFF && q.c == 0xFF && q.b == 0xFF
    ensures Quad(q.a + 1, 0, 0, 0).Word() == q.Word() + 1
  {
    CountA(q.a);
  }

  lemma {:induction false} Successor(q: Quad)
    ensures q.Next().Word() == q.Word() + 1
  {
    if q.d != 0xFF {
      NextD(q);
    } else if q.c != 0xFF {
      NextC(q);
    } else if q.b != 0xFF {
      NextB(q);
    } else {
      NextA(q);
    }
  }

  lemma {:induction false} FullByte(b: bv8)
    ensures b == 0xFF <==> b as int == 0xFF
    ensures b == 0xFF ==> b + 1 == 0
  {
  }

  lemma {:induction false} SameByte(b: bv8, c: bv8)
    ensures b == c <==> b as int == c as int
  {
  }

  /** One digit of the next number: this one's successor if the digits below it are full. */
  lemma {:induction false} DigitNext(n: nat)
    ensures Digit(n + 1) == Digit(n) + 1
    ensures (n + 1) / 0x100 == if Digit(n) == 0xFF then n / 0x100 + 1 else n / 0x100
  {
    var d := Digit(n);
    FullByte(d);
    Remainders(n);
    if d == 0xFF {
      SameByte(Digit(n + 1), 0);
    } else {
      Increment(d);
      SameByte(Digit(n + 1), d + 1);
    }
  }

  lemma {:induction false} Remainders(n: nat)
    ensures n % 0x100 == 0xFF ==> (n + 1) % 0x100 == 0 && (n + 1) / 0x100 == n / 0x100 + 1
    ensures n % 0x100 != 0xFF ==> (n + 1) % 0x100 == n % 0x100 + 1 && (n + 1) / 0x100 == n / 0x100
  {
  }

  lemma {:induction false} DigitsNested(n: nat)
    ensures n / 0x10000 == n / 0x100 / 0x100 && n / 0x1000000 == n / 0x100 / 0x100 / 0x100
  {
  }

  lemma {:induction false} ZeroLength()
    ensures Len32(0) == 0
  {
    SameByte(Digit(0), 0);
  }

  /** The digit counts up, and the number above it does when the digit was full. */
  predicate Carry(digit: nat -> bv8, up: nat -> nat, n: nat) {
    digit(n + 1) == digit(n) + 1 && up(n + 1) == if digit(n) == 0xFF then up(n) + 1 else up(n)
  }

  function Digits4(digit: nat -> bv8, up: nat -> nat, n: nat): Quad {
    Quad(digit(up(up(up(n)))), digit(up(up(n))), digit(up(n)), digit(n))
  }

  lemma {:induction false} CountDigits(digit: nat -> bv8, up: nat -> nat, n: nat)
    requires Carry(digit, up, n) && Carry(digit, up, up(n)) && Carry(digit, up, up(up(n)))
    requires Carry(digit, up, up(up(up(n))))
    ensures Digits4(digit, up, n + 1) == Digits4(digit, up, n).Next()
  {
    FullNext(digit(n));
    FullNext(digit(up(n)));
    FullNext(digit(up(up(n))));
  }

  lemma {:induction false} FullNext(b: bv8)
    ensures b == 0xFF ==> b + 1 == 0
  {
  }

  function Above(n: nat): nat { n / 0x100 }

  lemma {:induction false} DigitsCarry(n: nat)
    ensures Carry(Digit, Above, n)
  {
    DigitNext(n);
  }

  lemma {:induction false} Len32Is(n: nat, q: Quad)
    requires q == Digits4(Digit, Above, n)
    ensures Len32(n) == q.Word()
  {
    DigitsNested(n);
  }

  lemma {:induction false} LenDigits(n: nat)
    ensures Digits4(Digit, Above, n + 1) == Digits4(Digit, Above, n).Next()
  {
    DigitsCarry(n);
    DigitsCarry(Above(n));
    DigitsCarry(Above(Above(n)));
    DigitsCarry(Above(Above(Above(n))));
    CountDigits(Digit, Above, n);
  }

  lemma {:induction false} NextWord(x: bv32, y: bv32, q: Quad, r: Quad)
    requires x == q.Word() && y == r.Word() && r == q.Next()
    ensures y == x + 1
  {
    Successor(q);
  }

  lemma {:induction false} Len32Next(n: nat)
    ensures Len32(n + 1) == Len32(n) + 1
  {
    var q, r := Digits4(Digit, Above, n), Digits4(Digit, Above, n + 1);
    Len32Is(n, q);
    Len32Is(n + 1, r);
    LenDigits(n);
    NextWord(Len32(n), Len32(n + 1), q, r);
  }

  /** The length field counts the bytes, from zero, wrapping at 2^32. */
  lemma {:induction false} Len32Counts(n: nat)
    ensures Len32(0) == 0 && Len32(n + 1) == Len32(n) + 1
  {
    ZeroLength();
    Len32Next(n);
  }

  // ---- headers and errors ----

  const MAGIC: bv32 := 0x54435053
  const VERSION: bv8 := 0x01
  const HEADER_SIZE: nat := 20
  const CODEC_JSON: bv8 := 0x00
  const CODEC_BINARY: bv8 := 0x01

  datatype Header = Header(
    magic: bv32, version: bv8, kind: bv8, messageId: bv32,
    codec: bv8, reserved: bv8, length: bv32, checksum: bv32)

  datatype Error =
    | InvalidMagicNumber | InvalidChecksum | InvalidMessageSize
    | UnsupportedVersion(got: bv8) | CodecMismatch(expected: bv8, got: bv8) | CodecFailed | UnexpectedEnd

  type FrameResult<T> = Result<T, Error>

  /** A payload codec; `binary` says whether it is the BinaryCodec. */
  datatype Codec<!V> = Codec(encode: V -> FrameResult<Bytes>, decode: Bytes -> FrameResult<V>, binary: bool)

  /** NewCustomProtocol's choice of codec byte. */
  function CodecType<V>(codec: Codec<V>): bv8 { if codec.binary then CODEC_BINARY else CODEC_JSON }

  ghost predicate RoundTrips<V(!new)>(codec: Codec<V>) {
    forall v :: codec.encode(v).Ok? ==> codec.decode(codec.encode(v).value) == Ok(v)
  }

  /** The fields at their places in the 20 bytes. */
  function HeaderAt(data: Bytes): Header
    requires |data| >= HEADER_SIZE
  {
    Header(Read32(data[0], data[1], data[2], data[3]), data[4], data[5],
           Read32(data[6], data[7], data[8], data[9]), data[10], data[11],
           Read32(data[12], data[13], data[14], data[15]),
           Read32(data[16], data[17], data[18], data[19]))
  }

  function HeaderBytes(h: Header): (r: Bytes)
    ensures |r| == HEADER_SIZE
  {
    Write32(h.magic) + [h.version] + [h.kind] + Write32(h.messageId) + [h.codec] + [h.reserved] +
    Write32(h.length) + Write32(h.checksum)
  }

  /** A header is read back as written. */
  lemma {:induction false} HeaderRoundTrip(h: Header, payload: Bytes)
    ensures HeaderAt(HeaderBytes(h) + payload) == h
    ensures (HeaderBytes(h) + payload)[HEADER_SIZE..] == payload
  {
    WriteRead(h.magic);
    WriteRead(h.messageId);
    WriteRead(h.length);
    WriteRead(h.checksum);
  }

  /** Every 20 bytes are some header's bytes. */
  lemma {:induction false} HeaderOnto(data: Bytes)
    requires |data| >= HEADER_SIZE
    ensures HeaderBytes(HeaderAt(data)) + data[HEADER_SIZE..] == data
  {
    ReadWrite(data[0], data[1], data[2], data[3]);
    ReadWrite(data[6], data[7], data[8], data[9]);
    ReadWrite(data[12], data[13], data[14], data[15]);
    ReadWrite(data[16], data[17], data[18], data[19]);
    Twenty(data[..HEADER_SIZE]);
  }

  lemma {:induction false} Twenty(d: Bytes)
    requires |d| == HEADER_SIZE
    ensures d == [d[0], d[1], d[2], d[3]] + [d[4]] + [d[5]] + [d[6], d[7], d[8], d[9]] + [d[10]] + [d[11]] +
                 [d[12], d[13], d[14], d[15]] + [d[16], d[17], d[18], d[19]]
  {
  }

  // ---- what Decode accepts ----

  /** The header Encode writes. */
  function HeaderFor(kind: bv8, messageId: bv32, codec: bv8, payload: Bytes): Header {
    Header(MAGIC, VERSION, kind, messageId, codec, 0, Len32(|payload|), Checksum(payload))
  }

  /** Decode's checks on a header and the payload that follows it, in order. */
  function Check(codec: bv8, h: Header, payload: Bytes): FrameResult<Bytes> {
    if h.magic != MAGIC then Err(InvalidMagicNumber)
    else if h.version != VERSION then Err(UnsupportedVersion(h.version))
    else if h.codec != codec then Err(CodecMismatch(codec, h.codec))
    else if Len32(|payload|) != h.length then Err(InvalidMessageSize)
    else if Checksum(payload) != h.checksum then Err(InvalidChecksum)
    else Ok(payload)
  }

  /** The payload of a frame, or why there is none. */
  function Payload(codec: bv8, data: Bytes): FrameResult<Bytes> {
    if |data| < HEADER_SIZE then Err(InvalidMessageSize)
    else Check(codec, HeaderAt(data), data[HEADER_SIZE..])
  }

  function FrameOf(kind: bv8, messageId: bv32, codec: bv8, payload: Bytes): Bytes {
    HeaderBytes(HeaderFor(kind, messageId, codec, payload)) + payload
  }

  /** Whatever the payload's length, a frame yields its payload and its header fields. */
  lemma {:induction false} FrameAccepted(kind: bv8, messageId: bv32, codec: bv8, payload: Bytes)
    ensures Payload(codec, FrameOf(kind, messageId, codec, payload)) == Ok(payload)
    ensures HeaderAt(FrameOf(kind, messageId, codec, payload)) == HeaderFor(kind, messageId, codec, payload)
  {
    HeaderRoundTrip(HeaderFor(kind, messageId, codec, payload), payload);
  }

  /** Decode's checks pass on exactly the frames Encode could have written, up to the reserved byte. */
  lemma {:induction false} AcceptedExactly(codec: bv8, data: Bytes)
    ensures Payload(codec, data).Ok? <==>
      && |data| >= HEADER_SIZE
      && data == HeaderBytes(HeaderFor(HeaderAt(data).kind, HeaderAt(data).messageId, codec, data[HEADER_SIZE..])
                             .(reserved := HeaderAt(data).reserved)) + data[HEADER_SIZE..]
  {
    if |data| >= HEADER_SIZE {
      var h, payload := HeaderAt(data), data[HEADER_SIZE..];
      var written := HeaderFor(h.kind, h.messageId, codec, payload).(reserved := h.reserved);
      HeaderOnto(data);
      HeaderRoundTrip(written, payload);
      assert Payload(codec, data).Ok? <==> h == written;
    }
  }

  // ---- what corruption does ----

  /** A change within four consecutive payload bytes is always found, and is reported as a bad checksum. */
  lemma {:induction false} PayloadBurstFound(
    kind: bv8, messageId: bv32, codec: bv8, payload: Bytes, data: Bytes, i: nat)
    requires var f := FrameOf(kind, messageId, codec, payload); WithinBurst(f, data, i) && data != f
    requires i >= HEADER_SIZE
    ensures Payload(codec, data) == Err(InvalidChecksum)
  {
    var h := HeaderFor(kind, messageId, codec, payload);
    var f := FrameOf(kind, messageId, codec, payload);
    var q := data[HEADER_SIZE..];
    HeaderRoundTrip(h, payload);
    assert data[..HEADER_SIZE] == f[..HEADER_SIZE] == HeaderBytes(h);
    assert data == HeaderBytes(h) + q;
    HeaderRoundTrip(h, q);
    assert WithinBurst(payload, q, i - HEADER_SIZE) by {
      forall k | 0 <= k < |payload| && !(i - HEADER_SIZE <= k < i - HEADER_SIZE + 4) ensures payload[k] == q[k] {
        assert f[k + HEADER_SIZE] == data[k + HEADER_SIZE];
      }
    }
    BurstDetected(payload, q, i - HEADER_SIZE);
  }

  /** The header bytes no check looks at: type, message id and reserved. */
  predicate Unchecked(k: nat) { 5 <= k <= 9 || k == 11 }

  /** The two headers agree on every field Decode looks at. */
  predicate SameChecked(g: Header, h: Header) {
    && g.magic == h.magic && g.version == h.version && g.codec == h.codec
    && g.length == h.length && g.checksum == h.checksum
  }

  ghost predicate SameCheckedBytes(data: Bytes, f: Bytes)
    requires |data| >= HEADER_SIZE && |f| >= HEADER_SIZE
  {
    forall k :: 0 <= k < HEADER_SIZE && !Unchecked(k) ==> data[k] == f[k]
  }

  lemma {:induction false} CheckedBytes(data: Bytes, f: Bytes)
    requires |data| >= HEADER_SIZE && |f| >= HEADER_SIZE
    ensures SameChecked(HeaderAt(data), HeaderAt(f)) <==> SameCheckedBytes(data, f)
  {
    Read32Injective(data[0], data[1], data[2], data[3], f[0], f[1], f[2], f[3]);
    Read32Injective(data[12], data[13], data[14], data[15], f[12], f[13], f[14], f[15]);
    Read32Injective(data[16], data[17], data[18], data[19], f[16], f[17], f[18], f[19]);
    if SameCheckedBytes(data, f) {
      assert data[0] == f[0] && data[1] == f[1] && data[2] == f[2] && data[3] == f[3];
      assert data[12] == f[12] && data[13] == f[13] && data[14] == f[14] && data[15] == f[15];
      assert data[16] == f[16] && data[17] == f[17] && data[18] == f[18] && data[19] == f[19];
    }
  }

  /** A changed header is accepted exactly when only unchecked bytes were changed. */
  lemma {:induction false} HeaderChangeFound(kind: bv8, messageId: bv32, codec: bv8, payload: Bytes, data: Bytes)
    requires |data| >= HEADER_SIZE && data[HEADER_SIZE..] == payload
    ensures Payload(codec, data).Ok? <==> SameCheckedBytes(data, FrameOf(kind, messageId, codec, payload))
  {
    var h := HeaderFor(kind, messageId, codec, payload);
    HeaderRoundTrip(h, payload);
    CheckedBytes(data, FrameOf(kind, messageId, codec, payload));
    CheckFields(codec, HeaderAt(data), h, payload);
  }

  lemma {:induction false} CheckFields(codec: bv8, g: Header, h: Header, payload: Bytes)
    requires Check(codec, h, payload).Ok?
    ensures Check(codec, g, payload).Ok? <==> SameChecked(g, h)
  {
  }

  /** One changed header byte is found unless it is unchecked. */
  lemma {:induction false} HeaderByteFound(kind: bv8, messageId: bv32, codec: bv8, payload: Bytes, i: nat, b: bv8)
    requires i < HEADER_SIZE && b != FrameOf(kind, messageId, codec, payload)[i]
    ensures Payload(codec, FrameOf(kind, messageId, codec, payload)[i := b]).Ok? <==> Unchecked(i)
  {
    var f := FrameOf(kind, messageId, codec, payload);
    var data := f[i := b];
    assert data[HEADER_SIZE..] == payload;
    HeaderChangeFound(kind, messageId, codec, payload, data);
    assert data[i] != f[i];
  }

  /** And it is reported by the check of the field it is in. */
  lemma {:induction false} HeaderByteNamed(kind: bv8, messageId: bv32, codec: bv8, payload: Bytes, i: nat, b: bv8)
    requires i < HEADER_SIZE && b != FrameOf(kind, messageId, codec, payload)[i] && !Unchecked(i)
    ensures Payload(codec, FrameOf(kind, messageId, codec, payload)[i := b]) ==
            Err(if i < 4 then InvalidMagicNumber
                else if i == 4 then UnsupportedVersion(b)
                else if i == 10 then CodecMismatch(codec, b)
                else if i < 16 then InvalidMessageSize
                else InvalidChecksum)
  {
    var h := HeaderFor(kind, messageId, codec, payload);
    var f := FrameOf(kind, messageId, codec, payload);
    var data := f[i := b];
    HeaderRoundTrip(h, payload);
    assert data[HEADER_SIZE..] == payload;
    ByteField(data, f, i);
  }

  /** Changing one byte changes its field and no other checked one. */
  lemma {:induction false} ByteField(data: Bytes, f: Bytes, i: nat)
    requires |f| == |data| >= HEADER_SIZE && i < HEADER_SIZE && data[i] != f[i]
    requires forall k :: 0 <= k < HEADER_SIZE && k != i ==> data[k] == f[k]
    ensures var g, h := HeaderAt(data), HeaderAt(f);
      && (g.magic != h.magic <==> i < 4) && (g.version != h.version <==> i == 4) && (i == 4 ==> g.version == data[4])
      && (g.codec != h.codec <==> i == 10) && (i == 10 ==> g.codec == data[10])
      && (g.length != h.length <==> 12 <= i < 16) && (g.checksum != h.checksum <==> 16 <= i)
  {
    WordField(data, f, i, 0, HeaderAt(data).magic, HeaderAt(f).magic);
    WordField(data, f, i, 12, HeaderAt(data).length, HeaderAt(f).length);
    WordField(data, f, i, 16, HeaderAt(data).checksum, HeaderAt(f).checksum);
  }

  /** Whether the word at this place has changed. */
  lemma {:induction false} WordField(data: Bytes, f: Bytes, i: nat, at: nat, v: bv32, w: bv32)
    requires |f| == |data| && i < |f| && at + 4 <= |f| && data[i] != f[i]
    requires forall k :: at <= k < at + 4 && k != i ==> data[k] == f[k]
    requires v == Read32(data[at], data[at + 1], data[at + 2], data[at + 3])
    requires w == Read32(f[at], f[at + 1], f[at + 2], f[at + 3])
    ensures v != w <==> at <= i < at + 4
  {
    Read32Injective(data[at], data[at + 1], data[at + 2], data[at + 3], f[at], f[at + 1], f[at + 2], f[at + 3]);
  }

  /** Other bytes after a frame's header are a size error exactly when the length differs modulo 2^32. */
  lemma {:induction false} ResizeFound(kind: bv8, messageId: bv32, codec: bv8, payload: Bytes, other: Bytes)
    ensures var data := HeaderBytes(HeaderFor(kind, messageId, codec, payload)) + other;
      Payload(codec, data) == Err(InvalidMessageSize) <==> |other| % TWO32 != |payload| % TWO32
  {
    HeaderRoundTrip(HeaderFor(kind, messageId, codec, payload), other);
    Len32Exact(|other|, |payload|);
  }

  /** Every proper prefix of a frame is refused while payloads stay below 2^32 bytes. */
  lemma {:induction false} PrefixRefused(kind: bv8, messageId: bv32, codec: bv8, payload: Bytes, k: nat)
    requires |payload| < TWO32 && k < HEADER_SIZE + |payload|
    ensures Payload(codec, FrameOf(kind, messageId, codec, payload)[..k]) == Err(InvalidMessageSize)
  {
    var data := FrameOf(kind, messageId, codec, payload)[..k];
    if k >= HEADER_SIZE {
      SmallLength(k - HEADER_SIZE, |payload|);
      PrefixIsFrameLike(kind, messageId, codec, payload, k);
      ResizeFound(kind, messageId, codec, payload, payload[..k - HEADER_SIZE]);
    } else {
      assert |data| < HEADER_SIZE;
    }
  }

  lemma {:induction false} PrefixIsFrameLike(kind: bv8, messageId: bv32, codec: bv8, payload: Bytes, k: nat)
    requires HEADER_SIZE <= k <= HEADER_SIZE + |payload|
    ensures FrameOf(kind, messageId, codec, payload)[..k] ==
            HeaderBytes(HeaderFor(kind, messageId, codec, payload)) + payload[..k - HEADER_SIZE]
  {
    CutAfter(HeaderBytes(HeaderFor(kind, messageId, codec, payload)), payload, k);
  }

  /** So is every extension that stays below 2^32 bytes. */
  lemma {:induction false} ExtensionRefused(kind: bv8, messageId: bv32, codec: bv8, payload: Bytes, more: Bytes)
    requires more != [] && |payload| + |more| < TWO32
    ensures Payload(codec, FrameOf(kind, messageId, codec, payload) + more) == Err(InvalidMessageSize)
  {
    SmallLength(|payload| + |more|, |payload|);
    Regroup(HeaderBytes(HeaderFor(kind, messageId, codec, payload)), payload, more);
    ResizeFound(kind, messageId, codec, payload, payload + more);
  }

  lemma {:induction false} SmallLength(m: nat, n: nat)
    requires m < TWO32 && n < TWO32 && m != n
    ensures m % TWO32 != n % TWO32
  {
  }

  lemma {:induction false} CutAfter(a: Bytes, b: Bytes, k: nat)
    requires |a| <= k <= |a| + |b|
    ensures (a + b)[..k] == a + b[..k - |a|]
  {
  }

  lemma {:induction false} Regroup(a: Bytes, b: Bytes, c: Bytes)
    ensures (a + b) + c == a + (b + c)
  {
  }

  // ---- a frame byte by byte ----

  /** The check value's payload as message 7 of type 2 in JSON. */
  lemma {:induction false} ExampleFrame()
    ensures FrameOf(0x02, 7, 0, [0x31, 0x32, 0x33, 0x34, 0x35, 0x36, 0x37, 0x38, 0x39]) ==
            [0x54, 0x43, 0x50, 0x53,  0x01,  0x02,  0x00, 0x00, 0x00, 0x07,  0x00,  0x00,
             0x00, 0x00, 0x00, 0x09,  0xCB, 0xF4, 0x39, 0x26,
             0x31, 0x32, 0x33, 0x34, 0x35, 0x36, 0x37, 0x38, 0x39]
  {
    CheckValue();
    ExampleWords();
    NineBytes();
  }

  lemma {:induction false} ExampleWords()
    ensures Write32(0x54435053) == [0x54, 0x43, 0x50, 0x53] && Write32(7) == [0x00, 0x00, 0x00, 0x07]
    ensures Write32(9) == [0x00, 0x00, 0x00, 0x09] && Write32(0xCBF43926) == [0xCB, 0xF4, 0x39, 0x26]
  {
  }

  lemma {:induction false} NineBytes()
    ensures Len32(9) == 9
  {
    Len32Counts(0);
    Len32Counts(1);
    Len32Counts(2);
    Len32Counts(3);
    Len32Counts(4);
    Len32Counts(5);
    Len32Counts(6);
    Len32Counts(7);
    Len32Counts(8);
  }

  // ---- the operations ----

  /** A byte reader, as bytes.NewReader with binary.Read in big-endian order. */
  class Reader {
    const data: Bytes
    var pos: nat

    constructor (data: Bytes)
      ensures this.data == data && pos == 0
    {
      this.data, pos := data, 0;
    }

    method ReadByte() returns (r: FrameResult<bv8>)
      modifies this
      ensures old(pos) < |data| ==> r == Ok(data[old(pos)]) && pos == old(pos) + 1
      ensures old(pos) >= |data| ==> r == Err(UnexpectedEnd) && pos == old(pos)
    {
      if pos >= |data| {
        return Err(UnexpectedEnd);
      }
      r := Ok(data[pos]);
      pos := pos + 1;
    }

    method ReadWord() returns (r: FrameResult<bv32>)
      modifies this
      ensures old(pos) + 4 <= |data| ==>
                r == Ok(Read32(data[old(pos)], data[old(pos) + 1], data[old(pos) + 2], data[old(pos) + 3]))
                    && pos == old(pos) + 4
      ensures old(pos) + 4 > |data| ==> r == Err(UnexpectedEnd)
    {
      if pos + 4 > |data| {
        return Err(UnexpectedEnd);
      }
      r := Ok(Read32(data[pos], data[pos + 1], data[pos + 2], data[pos + 3]));
      pos := pos + 4;
    }
  }

  /** The eight binary.Read calls that Decode and ParseHeader share. */
  method ReadHeader(data: Bytes) returns (r: FrameResult<Header>)
    ensures |data| >= HEADER_SIZE ==> r == Ok(HeaderAt(data))
    ensures |data| < HEADER_SIZE ==> r == Err(UnexpectedEnd)
  {
    var buf := new Reader(data);
    var magic :- buf.ReadWord();
    var version :- buf.ReadByte();
    var kind :- buf.ReadByte();
    var messageId :- buf.ReadWord();
    var codec :- buf.ReadByte();
    var reserved :- buf.ReadByte();
    var length :- buf.ReadWord();
    var checksum :- buf.ReadWord();
    r := Ok(Header(magic, version, kind, messageId, codec, reserved, length, checksum));
  }

  /** Encode: the codec's error, or the frame written field by field. */
  method Encode<V>(codec: Codec<V>, kind: bv8, messageId: bv32, v: V) returns (r: FrameResult<Bytes>)
    ensures codec.encode(v).Err? ==> r == Err(codec.encode(v).error)
    ensures codec.encode(v).Ok? ==> r == Ok(FrameOf(kind, messageId, CodecType(codec), codec.encode(v).value))
  {
    var payload :- codec.encode(v);
    var header := Header(MAGIC, VERSION, kind, messageId, CodecType(codec), 0, Len32(|payload|), 0);
    header := header.(checksum := Checksum(payload));
    var buf := Write32(header.magic);
    buf := buf + [header.version];
    buf := buf + [header.kind];
    buf := buf + Write32(header.messageId);
    buf := buf + [header.codec];
    buf := buf + [header.reserved];
    buf := buf + Write32(header.length);
    buf := buf + Write32(header.checksum);
    buf := buf + payload;
    r := Ok(buf);
  }

  /** Decode: the first check that fails, or the codec's answer on the payload. */
  method Decode<V>(codec: Codec<V>, data: Bytes) returns (r: FrameResult<V>)
    ensures Payload(CodecType(codec), data).Ok? ==> r == codec.decode(Payload(CodecType(codec), data).value)
    ensures Payload(CodecType(codec), data).Err? ==> r == Err(Payload(CodecType(codec), data).error)
  {
    if |data| < HEADER_SIZE {
      return Err(InvalidMessageSize);
    }
    var read := ReadHeader(data);
    var header := read.value;
    if header.magic != MAGIC {
      return Err(InvalidMagicNumber);
    }
    if header.version != VERSION {
      return Err(UnsupportedVersion(header.version));
    }
    if header.codec != CodecType(codec) {
      return Err(CodecMismatch(CodecType(codec), header.codec));
    }
    if Len32(|data| - HEADER_SIZE) != header.length {
      return Err(InvalidMessageSize);
    }
    var payload := data[HEADER_SIZE..];
    if Checksum(payload) != header.checksum {
      return Err(InvalidChecksum);
    }
    r := codec.decode(payload);
  }

  /** ParseHeader: only the size and the magic number are checked. */
  method ParseHeader(data: Bytes) returns (r: FrameResult<Header>)
    ensures |data| < HEADER_SIZE ==> r == Err(InvalidMessageSize)
    ensures |data| >= HEADER_SIZE && HeaderAt(data).magic != MAGIC ==> r == Err(InvalidMagicNumber)
    ensures |data| >= HEADER_SIZE && HeaderAt(data).magic == MAGIC ==>
              r.Ok? && HeaderBytes(r.value) + data[HEADER_SIZE..] == data
  {
    if |data| < HEADER_SIZE {
      return Err(InvalidMessageSize);
    }
    var read := ReadHeader(data);
    var header := read.value;
    if header.magic != MAGIC {
      return Err(InvalidMagicNumber);
    }
    HeaderOnto(data);
    r := Ok(header);
  }

  /** Encode then Decode and ParseHeader: the value and the header fields come back, whatever the length. */
  method SendAndReceive<V(!new)>(codec: Codec<V>, kind: bv8, messageId: bv32, v: V)
    returns (value: FrameResult<V>, header: FrameResult<Header>)
    requires RoundTrips(codec)
    ensures codec.encode(v).Ok? ==>
              value == Ok(v) && header == Ok(HeaderFor(kind, messageId, CodecType(codec), codec.encode(v).value))
    ensures codec.encode(v).Err? ==> value == Err(codec.encode(v).error)
  {
    var bytes := Encode(codec, kind, messageId, v);
    if bytes.Err? {
      return Err(bytes.error), Err(bytes.error);
    }
    FrameAccepted(kind, messageId, CodecType(codec), codec.encode(v).value);
    value := Decode(codec, bytes.value);
    header := ParseHeader(bytes.value);
    HeaderRoundTrip(header.value, bytes.value[HEADER_SIZE..]);
  }
}
