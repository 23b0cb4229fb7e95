/**
 frame_crc_compute of src/giga_spi_8adc/motor_controller.c: CRC-32/MPEG-2
 (Annex A of ISO/IEC 13818-1).  A uint32_t register is its 32 bits and a byte its
 8 bits, most significant first, so `<< 1` drops the first bit and appends a zero.
 */
module Crc {

  type Bits = seq<bool>

  const WIDTH: nat := 32

  type Register = r: Bits | |r| == WIDTH witness Zeros(WIDTH)
  type Byte = b: Bits | |b| == 8 witness Zeros(8)

  function Zeros(n: nat): (z: Bits)
    ensures |z| == n
    ensures forall i :: 0 <= i < n ==> !z[i]
  {
    seq(n, i => false)
  }

  function Ones(n: nat): (z: Bits)
    ensures |z| == n
    ensures forall i :: 0 <= i < n ==> z[i]
  {
    seq(n, i => true)
  }

  function Xor(a: Bits, b: Bits): (c: Bits)
    requires |a| == |b|
    ensures |c| == |a|
    ensures forall i :: 0 <= i < |a| ==> c[i] == (a[i] != b[i])
  {
    seq(|a|, i requires 0 <= i < |a| => a[i] != b[i])
  }

  /** 0x04C11DB7, with its low bit set. */
  function Poly(): (p: Register)
    ensures p[WIDTH - 1]
  {
    [false, false, false, false, false, true, false, false,    // 0x04
     true, true, false, false, false, false, false, true,    // 0xC1
     false, false, false, true, true, true, false, true,    // 0x1D
     true, false, true, true, false, true, true, true]    // 0xB7
  }

  /** One turn of the inner loop. */
  function Shift(crc: Register): Register {
    if crc[0] then Xor(crc[1..] + [false], Poly()) else crc[1..] + [false]
  }

  function ShiftBy(crc: Register, n: nat): Register
    decreases n
  {
    if n == 0 then crc else ShiftBy(Shift(crc), n - 1)
  }

  /** `(uint32_t)data[i] << 24`. */
  function Top(b: Byte): Register {
    b + Zeros(WIDTH - 8)
  }

  /** One turn of the outer loop. */
  function Absorb(crc: Register, b: Byte): Register {
    ShiftBy(Xor(crc, Top(b)), 8)
  }

  function AbsorbAll(crc: Register, data: seq<Byte>): Register
    decreases |data|
  {
    if data == [] then crc else AbsorbAll(Absorb(crc, data[0]), data[1..])
  }

  function Compute(data: seq<Byte>): Register {
    AbsorbAll(Ones(WIDTH), data)
  }

  lemma {:induction false} AbsorbSnoc(crc: Register, data: seq<Byte>, b: Byte)
    ensures AbsorbAll(crc, data + [b]) == Absorb(AbsorbAll(crc, data), b)
    decreases |data|
  {
    if data == [] {
      assert [b][1..] == [];
    } else {
      AbsorbSnoc(Absorb(crc, data[0]), data[1..], b);
      assert (data + [b])[1..] == data[1..] + [b];
    }
  }

  lemma {:induction false} ShiftByLast(crc: Register, n: nat)
    ensures ShiftBy(crc, n + 1) == Shift(ShiftBy(crc, n))
    decreases n
  {
    if n > 0 {
      ShiftByLast(Shift(crc), n - 1);
    }
  }

  /** The controller's loops. */
  method FrameCrcCompute(data: array<Byte>, len: nat) returns (crc: Register)
    requires len <= data.Length
    ensures crc == Compute(data[..len])
  {
    crc := Ones(WIDTH);
    for i := 0 to len
      invariant crc == AbsorbAll(Ones(WIDTH), data[..i])
    {
      ghost var mixed := Xor(crc, Top(data[i]));
      crc := Xor(crc, Top(data[i]));
      for b := 0 to 8
        invariant crc == ShiftBy(mixed, b)
      {
        ShiftByLast(mixed, b);
        crc := if crc[0] then Xor(crc[1..] + [false], Poly()) else crc[1..] + [false];
      }
      assert data[..i + 1] == data[..i] + [data[i]];
      AbsorbSnoc(Ones(WIDTH), data[..i], data[i]);
    }
  }

  // ---- the register update is a bijection ------------------------------------------

  /** The shift undone: the polynomial is odd, so the low bit says whether it was added. */
  function Unshift(crc: Register): Register {
    var low := crc[WIDTH - 1];
    [low] + (if low then Xor(crc, Poly()) else crc)[..WIDTH - 1]
  }

  lemma UnshiftShift(crc: Register)
    ensures Unshift(Shift(crc)) == crc
  {
  }

  lemma ShiftUnshift(crc: Register)
    ensures Shift(Unshift(crc)) == crc
  {
  }

  lemma {:induction false} ShiftByInjective(a: Register, b: Register, n: nat)
    requires ShiftBy(a, n) == ShiftBy(b, n)
    ensures a == b
    decreases n
  {
    if n > 0 {
      ShiftByInjective(Shift(a), Shift(b), n - 1);
      UnshiftShift(a);
      UnshiftShift(b);
    }
  }

  function UnshiftBy(crc: Register, n: nat): Register
    decreases n
  {
    if n == 0 then crc else Unshift(UnshiftBy(crc, n - 1))
  }

  lemma {:induction false} ShiftUnshiftBy(crc: Register, n: nat)
    ensures ShiftBy(UnshiftBy(crc, n), n) == crc
    decreases n
  {
    if n > 0 {
      ShiftUnshift(UnshiftBy(crc, n - 1));
      ShiftUnshiftBy(crc, n - 1);
    }
  }

  lemma XorCancels(a: Bits, b: Bits, x: Bits)
    requires |a| == |b| == |x| && Xor(a, x) == Xor(b, x)
    ensures a == b
  {
    forall i | 0 <= i < |a| ensures a[i] == b[i] {
      assert Xor(a, x)[i] == Xor(b, x)[i];
    }
  }

  lemma XorTwice(a: Bits, x: Bits)
    requires |a| == |x|
    ensures Xor(Xor(a, x), x) == a
  {
  }

  /** For any fixed data the register update is one-to-one ... */
  lemma {:induction false} AbsorbAllInjective(a: Register, b: Register, data: seq<Byte>)
    requires AbsorbAll(a, data) == AbsorbAll(b, data)
    ensures a == b
    decreases |data|
  {
    if data != [] {
      AbsorbAllInjective(Absorb(a, data[0]), Absorb(b, data[0]), data[1..]);
      ShiftByInjective(Xor(a, Top(data[0])), Xor(b, Top(data[0])), 8);
      XorCancels(a, b, Top(data[0]));
    }
  }

  /** ... and onto: every register value is reached. */
  lemma {:induction false} AbsorbAllOnto(crc: Register, data: seq<Byte>) returns (start: Register)
    ensures AbsorbAll(start, data) == crc
    decreases |data|
  {
    if data == [] {
      start := crc;
    } else {
      var mid := AbsorbAllOnto(crc, data[1..]);
      start := Xor(UnshiftBy(mid, 8), Top(data[0]));
      XorTwice(UnshiftBy(mid, 8), Top(data[0]));
      ShiftUnshiftBy(mid, 8);
    }
  }

  // ---- bit by bit --------------------------------------------------------------------

  /** The same register fed one message bit at a time. */
  function Feed(crc: Register, bits: Bits): Register
    decreases |bits|
  {
    if bits == [] then crc else Feed(Shift(Xor(crc, [bits[0]] + Zeros(WIDTH - 1))), bits[1..])
  }

  lemma ShiftLinear(a: Register, b: Register)
    ensures Shift(Xor(a, b)) == Xor(Shift(a), Shift(b))
  {
    forall i | 0 <= i < WIDTH ensures Shift(Xor(a, b))[i] == Xor(Shift(a), Shift(b))[i] {
    }
  }

  lemma SplitMix(crc: Register, bits: Bits, pad: nat)
    requires bits != [] && |bits| + pad == WIDTH
    ensures Xor(crc, bits + Zeros(pad))
            == Xor(Xor(crc, [bits[0]] + Zeros(WIDTH - 1)), [false] + (bits[1..] + Zeros(pad)))
  {
    var first := Xor(crc, [bits[0]] + Zeros(WIDTH - 1));
    var later := [false] + (bits[1..] + Zeros(pad));
    forall i | 0 <= i < WIDTH ensures Xor(crc, bits + Zeros(pad))[i] == Xor(first, later)[i] {
      if i == 0 {
        assert first[0] == (crc[0] != bits[0]);
      } else {
        assert (bits + Zeros(pad))[i] == (bits[1..] + Zeros(pad))[i - 1];
      }
    }
  }

  lemma ShiftZeroFirst(x: Bits)
    requires |x| == WIDTH - 1
    ensures Shift([false] + x) == x + [false]
  {
    assert ([false] + x)[1..] == x;
  }

  lemma ZerosEnd(n: nat)
    ensures Zeros(n) + [false] == Zeros(n + 1)
  {
  }

  /** A first bit mixed in now, the others after the shift. */
  lemma MixLater(crc: Register, bits: Bits)
    requires 0 < |bits| <= WIDTH
    ensures Shift(Xor(crc, bits + Zeros(WIDTH - |bits|)))
            == Xor(Shift(Xor(crc, [bits[0]] + Zeros(WIDTH - 1))), bits[1..] + Zeros(WIDTH - |bits[1..]|))
  {
    var pad := WIDTH - |bits|;
    var rest := bits[1..] + Zeros(pad);
    SplitMix(crc, bits, pad);
    ShiftLinear(Xor(crc, [bits[0]] + Zeros(WIDTH - 1)), [false] + rest);
    ShiftZeroFirst(rest);
    ZerosEnd(pad);
    assert rest + [false] == bits[1..] + (Zeros(pad) + [false]);
  }

  /** Up to 32 message bits may be mixed in all at once, before any of them is shifted out. */
  lemma {:induction false} FeedShort(crc: Register, bits: Bits)
    requires |bits| <= WIDTH
    ensures Feed(crc, bits) == ShiftBy(Xor(crc, bits + Zeros(WIDTH - |bits|)), |bits|)
    decreases |bits|
  {
    if bits == [] {
      assert Xor(crc, [] + Zeros(WIDTH)) == crc;
    } else {
      MixLater(crc, bits);
      FeedShort(Shift(Xor(crc, [bits[0]] + Zeros(WIDTH - 1))), bits[1..]);
    }
  }

  function Flatten(data: seq<Byte>): (bits: Bits)
    ensures |bits| == 8 * |data|
  {
    if data == [] then [] else data[0] + Flatten(data[1..])
  }

  lemma {:induction false} FeedAppend(crc: Register, a: Bits, b: Bits)
    ensures Feed(crc, a + b) == Feed(Feed(crc, a), b)
    decreases |a|
  {
    if a == [] {
      assert a + b == b;
    } else {
      assert (a + b)[1..] == a[1..] + b;
      FeedAppend(Shift(Xor(crc, [a[0]] + Zeros(WIDTH - 1))), a[1..], b);
    }
  }

  lemma {:induction false} AbsorbAllFeeds(crc: Register, data: seq<Byte>)
    ensures AbsorbAll(crc, data) == Feed(crc, Flatten(data))
    decreases |data|
  {
    if data != [] {
      FeedShort(crc, data[0]);
      FeedAppend(crc, data[0], Flatten(data[1..]));
      AbsorbAllFeeds(Absorb(crc, data[0]), data[1..]);
    }
  }

  // ---- polynomial division -------------------------------------------------------------

  /** The number that bits spell, highest first. */
  function Number(bits: Bits): nat {
    if bits == [] then 0
    else 2 * Number(bits[..|bits| - 1]) + (if bits[|bits| - 1] then 1 else 0)
  }

  lemma {:induction false} NumberInjective(a: Bits, b: Bits)
    requires |a| == |b| && Number(a) == Number(b)
    ensures a == b
    decreases |a|
  {
    if a != [] {
      var n := |a| - 1;
      NumberInjective(a[..n], b[..n]);
      assert a == a[..n] + [a[n]] && b == b[..n] + [b[n]];
    }
  }

  lemma NumberSnoc(bits: Bits, x: bool)
    ensures Number(bits + [x]) == 2 * Number(bits) + (if x then 1 else 0)
  {
    assert (bits + [x])[..|bits|] == bits;
  }

  function ByteNumber(b: Byte): nat {
    (if b[0] then 128 else 0) + (if b[1] then 64 else 0) + (if b[2] then 32 else 0) + (if b[3] then 16 else 0)
    + (if b[4] then 8 else 0) + (if b[5] then 4 else 0) + (if b[6] then 2 else 0) + (if b[7] then 1 else 0)
  }

  /** Eight bits more. */
  lemma NumberByte(bits: Bits, b: Byte)
    ensures Number(bits + b) == 256 * Number(bits) + ByteNumber(b)
  {
    hide Number;
    assert bits + b == bits + [b[0]] + [b[1]] + [b[2]] + [b[3]] + [b[4]] + [b[5]] + [b[6]] + [b[7]];
    NumberSnoc(bits, b[0]);
    NumberSnoc(bits + [b[0]], b[1]);
    NumberSnoc(bits + [b[0]] + [b[1]], b[2]);
    NumberSnoc(bits + [b[0]] + [b[1]] + [b[2]], b[3]);
    NumberSnoc(bits + [b[0]] + [b[1]] + [b[2]] + [b[3]], b[4]);
    NumberSnoc(bits + [b[0]] + [b[1]] + [b[2]] + [b[3]] + [b[4]], b[5]);
    NumberSnoc(bits + [b[0]] + [b[1]] + [b[2]] + [b[3]] + [b[4]] + [b[5]], b[6]);
    NumberSnoc(bits + [b[0]] + [b[1]] + [b[2]] + [b[3]] + [b[4]] + [b[5]] + [b[6]], b[7]);
  }

  lemma NumberOfByte(b: Byte)
    ensures Number(b) == ByteNumber(b)
  {
    NumberByte([], b);
    assert [] + b == b;
  }

  lemma NumberOfRegister(r: Register, a: Byte, b: Byte, c: Byte, d: Byte)
    requires r == a + b + c + d
    ensures Number(r) == 0x100_0000 * ByteNumber(a) + 0x1_0000 * ByteNumber(b) + 0x100 * ByteNumber(c) + ByteNumber(d)
  {
    hide Number;
    hide ByteNumber;
    NumberByte(a + b + c, d);
    NumberByte(a + b, c);
    NumberByte(a, b);
    NumberOfByte(a);
  }

  lemma PolyNumber()
    ensures Number(Poly()) == 0x04C1_1DB7
  {
    hide Number;
    NumberOfRegister(Poly(),
                     [false, false, false, false, false, true, false, false],
                     [true, true, false, false, false, false, false, true],
                     [false, false, false, true, true, true, false, true],
                     [true, false, true, true, false, true, true, true]);
  }

  /** Textbook long division of a polynomial over GF(2), highest power first, by
      x^32 plus the polynomial of `g`: cancel the leading term or drop it, down to 32 bits. */
  function Remainder(dividend: Bits, g: Register): Register
    requires |dividend| >= WIDTH
    decreases |dividend|
  {
    if |dividend| == WIDTH then dividend
    else if dividend[0] then Remainder(Xor(dividend[1..WIDTH + 1], g) + dividend[WIDTH + 1..], g)
    else Remainder(dividend[1..], g)
  }

  lemma RemainderStep(h: Register, k: nat, v: Bits)
    requires k >= 1 && |v| == WIDTH + k && !v[0]
    ensures Remainder(Xor(h + Zeros(k), v), Poly()) == Remainder(Xor(Shift(h) + Zeros(k - 1), v[1..]), Poly())
  {
    var d := Xor(h + Zeros(k), v);
    var d' := Xor(Shift(h) + Zeros(k - 1), v[1..]);
    assert d[0] == h[0];
    if h[0] {
      var reduced := Xor(d[1..WIDTH + 1], Poly()) + d[WIDTH + 1..];
      forall i | 0 <= i < WIDTH + k - 1 ensures reduced[i] == d'[i] {
        assert i >= WIDTH ==> d[i + 1] == v[i + 1];
      }
      assert reduced == d';
    } else {
      forall i | 0 <= i < WIDTH + k - 1 ensures d[1..][i] == d'[i] {
        assert i >= WIDTH ==> d[i + 1] == v[i + 1];
      }
      assert d[1..] == d';
    }
  }

  lemma {:induction false} FeedIsRemainder(crc: Register, bits: Bits)
    ensures Feed(crc, bits) == Remainder(Xor(crc + Zeros(|bits|), bits + Zeros(WIDTH)), Poly())
    decreases |bits|
  {
    var n := |bits|;
    if n == 0 {
      assert Xor(crc + Zeros(0), bits + Zeros(WIDTH)) == crc;
    } else {
      var h := Xor(crc, [bits[0]] + Zeros(WIDTH - 1));
      var v := [false] + bits[1..] + Zeros(WIDTH);
      assert Xor(crc + Zeros(n), bits + Zeros(WIDTH)) == Xor(h + Zeros(n), v);
      RemainderStep(h, n, v);
      assert v[1..] == bits[1..] + Zeros(WIDTH);
      FeedIsRemainder(Shift(h), bits[1..]);
    }
  }

  /** The loops compute the remainder of the message, followed by 32 zeros, with its
      first 32 bits inverted, by x^32 plus the polynomial of 0x04C11DB7. */
  lemma CrcIsRemainder(data: seq<Byte>, g: Register)
    requires Number(g) == 0x04C1_1DB7
    ensures Compute(data)
            == Remainder(Xor(Ones(WIDTH) + Zeros(8 * |data|), Flatten(data) + Zeros(WIDTH)), g)
  {
    PolyNumber();
    NumberInjective(g, Poly());
    AbsorbAllFeeds(Ones(WIDTH), data);
    FeedIsRemainder(Ones(WIDTH), Flatten(data));
  }

  /** Leading zeros are shifted out as they are. */
  lemma {:induction false} ShiftZeros(n: nat, rest: Bits)
    requires n + |rest| == WIDTH
    ensures ShiftBy(Zeros(n) + rest, n) == rest + Zeros(n)
    decreases n
  {
    if n == 0 {
      assert Zeros(0) + rest == rest == rest + Zeros(0);
    } else {
      assert Zeros(n) + rest == [false] + (Zeros(n - 1) + rest);
      ShiftZeroFirst(Zeros(n - 1) + rest);
      assert (Zeros(n - 1) + rest) + [false] == Zeros(n - 1) + (rest + [false]);
      ShiftZeros(n - 1, rest + [false]);
      assert (rest + [false]) + Zeros(n - 1) == rest + Zeros(n);
    }
  }

  /** A value to check by hand: the CRC of the single byte 0xFE. */
  lemma CrcOfOneByte(b: Byte)
    requires Number(b) == 0xFE
    ensures Number(Compute([b])) == 0xFB3E_E2B7
  {
    NumberOfByte(b);
    var mixed := Xor(Ones(WIDTH), Top(b));
    assert mixed == Zeros(7) + ([true] + Ones(24));
    ShiftZeros(7, [true] + Ones(24));
    ShiftByLast(mixed, 7);
    hide ShiftBy;
    assert [b][1..] == [];
    assert Compute([b]) == AbsorbAll(Absorb(Ones(WIDTH), b), []) == ShiftBy(mixed, 8);
    OneSubtracted();
  }

  lemma OneSubtracted()
    ensures Number(Shift([true] + Ones(24) + Zeros(7))) == 0xFB3E_E2B7
  {
    assert ([true] + Ones(24) + Zeros(7))[1..] + [false] == Ones(24) + Zeros(8);
    hide Number;
    hide Poly;
    Inverted();
    NumberOfRegister(Xor(Ones(24) + Zeros(8), Poly()),
                     [true, true, true, true, true, false, true, true],
                     [false, false, true, true, true, true, true, false],
                     [true, true, true, false, false, false, true, false],
                     [true, false, true, true, false, true, true, true]);
  }

  lemma Inverted()
    ensures Xor(Ones(24) + Zeros(8), Poly())
            == [true, true, true, true, true, false, true, true] + [false, false, true, true, true, true, true, false]
               + [true, true, true, false, false, false, true, false] + [true, false, true, true, false, true, true, true]
  {
    var p := Poly();
    forall i | 0 <= i < 24 ensures Xor(Ones(24) + Zeros(8), p)[i] == !p[i] {
    }
    forall i | 24 <= i < WIDTH ensures Xor(Ones(24) + Zeros(8), p)[i] == p[i] {
    }
  }

  // ---- bursts ------------------------------------------------------------------------

  lemma {:induction false} FeedInjective(a: Register, b: Register, bits: Bits)
    requires Feed(a, bits) == Feed(b, bits)
    ensures a == b
    decreases |bits|
  {
    if bits != [] {
      var x := [bits[0]] + Zeros(WIDTH - 1);
      FeedInjective(Shift(Xor(a, x)), Shift(Xor(b, x)), bits[1..]);
      UnshiftShift(Xor(a, x));
      UnshiftShift(Xor(b, x));
      XorCancels(a, b, x);
    }
  }

  /** Two messages of any length that differ only inside a window of at most 32
      consecutive bits have the same CRC only if they are the same message. */
  lemma BurstsAreDetected(m1: seq<Byte>, m2: seq<Byte>, before: Bits, w1: Bits, w2: Bits, after: Bits)
    requires |w1| == |w2| <= WIDTH
    requires Flatten(m1) == before + w1 + after && Flatten(m2) == before + w2 + after
    ensures Compute(m1) == Compute(m2) <==> w1 == w2
  {
    var crc := Feed(Ones(WIDTH), before);
    AbsorbAllFeeds(Ones(WIDTH), m1);
    AbsorbAllFeeds(Ones(WIDTH), m2);
    FeedAppend(Ones(WIDTH), before + w1, after);
    FeedAppend(Ones(WIDTH), before + w2, after);
    FeedAppend(Ones(WIDTH), before, w1);
    FeedAppend(Ones(WIDTH), before, w2);
    if Compute(m1) == Compute(m2) {
      FeedInjective(Feed(crc, w1), Feed(crc, w2), after);
      SameWindow(crc, w1, w2);
    }
  }

  lemma SameWindow(crc: Register, w1: Bits, w2: Bits)
    requires |w1| == |w2| <= WIDTH && Feed(crc, w1) == Feed(crc, w2)
    ensures w1 == w2
  {
    var pad := Zeros(WIDTH - |w1|);
    FeedShort(crc, w1);
    FeedShort(crc, w2);
    ShiftByInjective(Xor(crc, w1 + pad), Xor(crc, w2 + pad), |w1|);
    forall i | 0 <= i < |w1| ensures w1[i] == w2[i] {
      assert Xor(crc, w1 + pad)[i] == Xor(crc, w2 + pad)[i];
    }
  }

  lemma {:induction false} FlattenAppend(a: seq<Byte>, b: seq<Byte>)
    ensures Flatten(a + b) == Flatten(a) + Flatten(b)
    decreases |a|
  {
    if a == [] {
      assert a + b == b;
    } else {
      assert (a + b)[1..] == a[1..] + b;
      FlattenAppend(a[1..], b);
    }
  }

  lemma {:induction false} FlattenInjective(a: seq<Byte>, b: seq<Byte>)
    requires |a| == |b| && Flatten(a) == Flatten(b)
    ensures a == b
    decreases |a|
  {
    if a != [] {
      var fa, fb := Flatten(a), Flatten(b);
      assert fa[..8] == a[0] && fb[..8] == b[0];
      assert fa[8..] == Flatten(a[1..]) && fb[8..] == Flatten(b[1..]);
      FlattenInjective(a[1..], b[1..]);
      assert a == [a[0]] + a[1..] && b == [b[0]] + b[1..];
    }
  }

  /** In particular any corruption confined to four consecutive bytes is detected. */
  lemma FourByteBurstsAreDetected(before: seq<Byte>, w1: seq<Byte>, w2: seq<Byte>, after: seq<Byte>)
    requires |w1| == |w2| <= 4
    ensures Compute(before + w1 + after) == Compute(before + w2 + after) <==> w1 == w2
  {
    FlattenAppend(before + w1, after);
    FlattenAppend(before + w2, after);
    FlattenAppend(before, w1);
    FlattenAppend(before, w2);
    BurstsAreDetected(before + w1 + after, before + w2 + after,
                      Flatten(before), Flatten(w1), Flatten(w2), Flatten(after));
    if Flatten(w1) == Flatten(w2) {
      FlattenInjective(w1, w2);
    }
  }
}
