/** Bytes, chunk lists and the bitwise operators that the wire client and the decoders share. */
module Bytes {

  type byte = x: int | 0 <= x < 256

  datatype Option<+T> = None | Some(value: T)

  // ---------------------------------------------------------------- chunks

  /** The byte stream that a list of buffers stands for (`Buffer.concat`). */
  function Flatten(chunks: seq<seq<byte>>): seq<byte> {
    if chunks == [] then [] else chunks[0] + Flatten(chunks[1..])
  }

  lemma {:induction false} FlattenConcat(xs: seq<seq<byte>>, ys: seq<seq<byte>>)
    ensures Flatten(xs + ys) == Flatten(xs) + Flatten(ys)
  {
    if xs == [] {
      assert xs + ys == ys;
    } else {
      var x, xs' := xs[0], xs[1..];
      FlattenConcat(xs', ys);
      FlattenCons(x, xs' + ys);
      FlattenCons(x, xs');
      hide Flatten;
      assert [x] + xs' == xs && [x] + (xs' + ys) == xs + ys;
      Joined(x, Flatten(xs'), Flatten(ys));
    }
  }

  lemma {:induction false} FlattenCons(x: seq<byte>, xs: seq<seq<byte>>)
    ensures Flatten([x] + xs) == x + Flatten(xs)
  {
    assert ([x] + xs)[1..] == xs;
  }

  lemma {:induction false} Joined(a: seq<byte>, b: seq<byte>, c: seq<byte>)
    ensures a + (b + c) == (a + b) + c
  {}

  lemma {:induction false} FlattenOne(x: seq<byte>)
    ensures Flatten([x]) == x
  {
    assert Flatten([x]) == x + Flatten([]);
  }

  lemma {:induction false} FlattenSnoc(xs: seq<seq<byte>>, x: seq<byte>)
    ensures Flatten(xs + [x]) == Flatten(xs) + x
  {
    FlattenConcat(xs, [x]);
    FlattenOne(x);
  }

  /** `Buffer.alloc(n)`. */
  function Zeros(n: nat): (z: seq<byte>)
    ensures |z| == n && forall k :: 0 <= k < n ==> z[k] == 0
  {
    seq(n, _ => 0)
  }

  /** `Buffer.subarray` takes a negative offset from the end and clips to the buffer. */
  function Clip(n: int, length: nat): (c: nat)
    ensures c <= length
    ensures 0 <= n <= length ==> c == n
  {
    if n < 0 then (if length + n < 0 then 0 else length + n)
    else if n < length then n else length
  }

  /** `subarray` with offsets that may pass the end. */
  function Slice(b: seq<byte>, from: nat, to: nat): seq<byte>
    requires from <= to
  {
    b[Clip(from, |b|)..Clip(to, |b|)]
  }

  /** `t` is what is left of `s` after some bytes were taken off its front. */
  predicate EndsWith(s: seq<byte>, t: seq<byte>) {
    |t| <= |s| && s[|s| - |t|..] == t
  }

  lemma {:induction false} EndsNow(s: seq<byte>)
    ensures EndsWith(s, s)
  {}

  lemma {:induction false} EndsTransitive(s: seq<byte>, t: seq<byte>, u: seq<byte>)
    requires EndsWith(s, t) && EndsWith(t, u)
    ensures EndsWith(s, u)
  {
    assert t[|t| - |u|..] == s[|s| - |u|..];
  }

  lemma {:induction false} EndsShorter(s: seq<byte>, t: seq<byte>)
    requires EndsWith(s, t)
    ensures |t| <= |s|
  {}

  /** The bytes of an ASCII text, one per character. */
  function Ascii(s: string): (b: seq<byte>)
    requires forall k :: 0 <= k < |s| ==> s[k] as int < 128
    ensures |b| == |s| && forall k :: 0 <= k < |s| ==> b[k] == s[k] as int
  {
    seq(|s|, k requires 0 <= k < |s| => s[k] as int)
  }

  // ---------------------------------------------------------- exclusive or

  function Pow2(w: nat): (r: nat)
    ensures r >= 1
  {
    if w == 0 then 1 else 2 * Pow2(w - 1)
  }

  /** Exclusive or of two non-negative integers, bit by bit from the least significant one. */
  function XorBits(a: nat, b: nat): nat
    decreases a + b
  {
    if a == 0 && b == 0 then 0 else (a % 2 + b % 2) % 2 + 2 * XorBits(a / 2, b / 2)
  }

  lemma {:induction false} XorBitsBounded(a: nat, b: nat, w: nat)
    requires a < Pow2(w) && b < Pow2(w)
    ensures XorBits(a, b) < Pow2(w)
    decreases w
  {
    if w != 0 {
      XorBitsBounded(a / 2, b / 2, w - 1);
    }
  }

  lemma {:induction false} XorBitsTwice(a: nat, b: nat)
    ensures XorBits(XorBits(a, b), b) == a
    decreases a + b
  {
    if a != 0 || b != 0 {
      var t := XorBits(a / 2, b / 2);
      var e := (a % 2 + b % 2) % 2;
      assert XorBits(a, b) == e + 2 * t;
      assert (e + b % 2) % 2 == a % 2;
      hide XorBits;
      XorBitsTwice(a / 2, b / 2);
      XorBitsLowBit(t, e, b);
    }
  }

  lemma {:induction false} XorBitsLowBit(t: nat, e: nat, b: nat)
    requires e < 2
    ensures XorBits(e + 2 * t, b) == (e + b % 2) % 2 + 2 * XorBits(t, b / 2)
  {
    assert (e + 2 * t) / 2 == t && (e + 2 * t) % 2 == e;
  }

  /** The `^` of two bytes. */
  function Xor(a: byte, b: byte): byte {
    XorBitsBounded(a, b, 8);
    XorBits(a, b)
  }

  lemma {:induction false} XorTwice(a: byte, b: byte)
    ensures Xor(Xor(a, b), b) == a
  {
    XorBitsTwice(a, b);
  }

  /** Bit number `k`, from the least significant one. */
  function BitOf(n: nat, k: nat): nat
    decreases k
  {
    if k == 0 then n % 2 else BitOf(n / 2, k - 1)
  }

  lemma {:induction false} XorLowBit(a: nat, b: nat)
    ensures XorBits(a, b) / 2 == XorBits(a / 2, b / 2)
    ensures XorBits(a, b) % 2 == 1 <==> a % 2 != b % 2
  {
    var e, t := (a % 2 + b % 2) % 2, XorBits(a / 2, b / 2);
    assert XorBits(a, b) == e + 2 * t;
    hide XorBits;
  }

  /** Every bit of the exclusive or is one exactly where the two bits differ. */
  lemma {:induction false} XorBitwise(a: nat, b: nat, k: nat)
    ensures BitOf(XorBits(a, b), k) == 1 <==> BitOf(a, k) != BitOf(b, k)
    decreases k
  {
    hide XorBits;
    XorLowBit(a, b);
    if k > 0 {
      XorBitwise(a / 2, b / 2, k - 1);
    }
  }

  lemma {:induction false} XorZero(b: nat)
    ensures XorBits(0, b) == b
  {
    if b != 0 {
      XorZero(b / 2);
    }
  }

  // -------------------------------------------------- fixed-width integers

  type int32 = x: int | -0x8000_0000 <= x < 0x8000_0000

  /** The low `k` base-256 digits of `u`, most significant first. */
  function BigEndian(u: nat, k: nat): (b: seq<byte>)
    ensures |b| == k
    decreases u + k
  {
    if k == 0 then [] else BigEndian(u / 256, k - 1) + [u % 256]
  }

  /** `writeInt32BE`: four bytes, two's complement, most significant first. */
  function EncodeInt(v: int32): (b: seq<byte>)
    ensures |b| == 4
  {
    BigEndian(if v < 0 then v + 0x1_0000_0000 else v, 4)
  }

  /** `readInt32BE`. */
  function DecodeInt(b: seq<byte>): int32
    requires |b| == 4
  {
    var u := Quad(b);
    if u >= 0x8000_0000 then u - 0x1_0000_0000 else u
  }

  /** The unsigned value of four bytes. */
  function Quad(b: seq<byte>): nat
    requires |b| == 4
  {
    b[0] as int * 0x100_0000 + b[1] as int * 0x1_0000 + b[2] as int * 0x100 + b[3]
  }

  lemma {:induction false} FourDigits(u: nat)
    requires u < 0x1_0000_0000
    ensures Quad(BigEndian(u, 4)) == u
  {
    hide BigEndian;
    DigitByDigit(u);
  }

  lemma {:induction false} DigitByDigit(u: nat)
    requires u < 0x1_0000_0000
    ensures var u1 := u / 256;
            var u2 := u1 / 256;
            BigEndian(u, 4) == [u2 / 256, u2 % 256, u1 % 256, u % 256]
  {
    var u1 := u / 256;
    var u2 := u1 / 256;
    var u3 := u2 / 256;
    assert BigEndian(u3, 1) == BigEndian(u3 / 256, 0) + [u3 % 256] == [u3];
    assert BigEndian(u2, 2) == BigEndian(u3, 1) + [u2 % 256];
    assert BigEndian(u1, 3) == BigEndian(u2, 2) + [u1 % 256];
  }

  lemma {:induction false} DecodeEncodeInt(v: int32)
    ensures DecodeInt(EncodeInt(v)) == v
  {
    FourDigits(if v < 0 then v + 0x1_0000_0000 else v);
  }

  /** The four bytes are the base-256 digits of the two's complement, most significant first. */
  lemma {:induction false} IntDigits(v: int32)
    ensures var u := if v < 0 then v + 0x1_0000_0000 else v;
            EncodeInt(v) == [u / 0x100_0000, u / 0x1_0000 % 256, u / 0x100 % 256, u % 256]
  {
    hide BigEndian;
    FourBytes(if v < 0 then v + 0x1_0000_0000 else v);
  }

  lemma {:induction false} FourBytes(u: nat)
    requires u < 0x1_0000_0000
    ensures BigEndian(u, 4) == [u / 0x100_0000, u / 0x1_0000 % 256, u / 0x100 % 256, u % 256]
  {
    hide BigEndian;
    DigitByDigit(u);
  }

  /** The value of little-endian bytes. */
  function LittleEndian(s: seq<byte>): nat {
    if s == [] then 0 else s[0] as int + 256 * LittleEndian(s[1..])
  }

  /** Two bytes are read least significant first, and written so that this gives the value back. */
  lemma {:induction false} U16LittleEndian(b: seq<byte>, i: nat, v: nat)
    requires i + 1 < |b| && v < 0x1_0000
    ensures U16At(b, i) == LittleEndian(b[i..i + 2])
    ensures LittleEndian(EncodeU16(v)) == v && |EncodeU16(v)| == 2
  {
    TwoDigits(b[i], b[i + 1]);
    assert b[i..i + 2] == [b[i], b[i + 1]];
    TwoDigits(v % 256, v / 256);
  }

  lemma {:induction false} TwoDigits(x: byte, y: byte)
    ensures LittleEndian([x, y]) == x as int + 256 * y as int
  {
    assert [x, y][1..] == [y] && [y][1..] == [];
    assert LittleEndian([y]) == y as int + 256 * LittleEndian([]);
  }

  /** Two bytes, least significant first; the shifted operands of the source's `|` share no bits. */
  function U16At(b: seq<byte>, i: nat): (v: nat)
    requires i + 1 < |b|
    ensures v < 0x1_0000
  {
    b[i] as int + 256 * b[i + 1] as int
  }

  function EncodeU16(v: nat): (b: seq<byte>)
    requires v < 0x1_0000
    ensures |b| == 2 && U16At(b, 0) == v
  {
    [v % 256, v / 256]
  }
}
