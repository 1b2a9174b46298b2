/** Big integers as hexadecimal digits and as bytes: `bigToHex`, `bigToBuf`, `bufToBig`. */
module Hex {
  import opened Bytes
  import opened Modular

  type nibble = x: int | 0 <= x < 16

  /** `toString(16)`: at least one digit, no leading zero. */
  function ToHex(n: nat): (h: seq<nibble>)
    ensures h != [] && (n > 0 ==> h[0] != 0)
  {
    if n < 16 then [n] else ToHex(n / 16) + [n % 16]
  }

  /** `BigInt('0x' + digits)`, and 0 without digits. */
  function HexValue(h: seq<nibble>): nat {
    if h == [] then 0 else HexValue(h[..|h| - 1]) * 16 + h[|h| - 1]
  }

  /** Padded to whole bytes. */
  function BigToHex(n: nat): (h: seq<nibble>)
    ensures |h| % 2 == 0
  {
    if |ToHex(n)| % 2 == 1 then [0] + ToHex(n) else ToHex(n)
  }

  /** `Buffer.from(h, 'hex')`. */
  function Pairs(h: seq<nibble>): (b: seq<byte>)
    requires |h| % 2 == 0
    ensures |b| == |h| / 2
  {
    if h == [] then []
    else Pairs(h[..|h| - 2]) + [h[|h| - 2] as int * 16 + h[|h| - 1]]
  }

  /** `buf.toString('hex')`. */
  function Nibbles(b: seq<byte>): (h: seq<nibble>)
    ensures |h| == 2 * |b|
  {
    if b == [] then [] else Nibbles(b[..|b| - 1]) + [b[|b| - 1] / 16, b[|b| - 1] % 16]
  }

  function BigToBuf(n: nat): seq<byte> {
    Pairs(BigToHex(n))
  }

  function BufToBig(b: seq<byte>): nat {
    HexValue(Nibbles(b))
  }

  // ------------------------------------------------------------ round trip

  lemma {:induction false} ValueOfHex(n: nat)
    ensures HexValue(ToHex(n)) == n
  {
    if n < 16 {
      assert HexValue([n][..0]) == 0;
    } else {
      ValueOfHex(n / 16);
      var h := ToHex(n);
      assert h[..|h| - 1] == ToHex(n / 16);
    }
  }

  lemma {:induction false} LeadingZero(h: seq<nibble>)
    ensures HexValue([0] + h) == HexValue(h)
    decreases |h|
  {
    var z := [0] + h;
    if h == [] {
      assert z[..0] == [];
    } else {
      LeadingZero(h[..|h| - 1]);
      assert z[..|z| - 1] == [0] + h[..|h| - 1];
    }
  }

  lemma {:induction false} NibblesOfPairs(h: seq<nibble>)
    requires |h| % 2 == 0
    ensures Nibbles(Pairs(h)) == h
    decreases |h|
  {
    if h != [] {
      var k := |h| - 2;
      NibblesOfPairs(h[..k]);
      var front, d := Pairs(h[..k]), h[k] as int * 16 + h[k + 1];
      assert Pairs(h) == front + [d] && (front + [d])[..|front|] == front;
      assert d / 16 == h[k] && d % 16 == h[k + 1];
      assert h == h[..k] + [h[k], h[k + 1]];
    }
  }

  lemma {:induction false} FirstOfPairs(h: seq<nibble>)
    requires |h| % 2 == 0 && h != []
    ensures Pairs(h)[0] == h[0] as int * 16 + h[1]
    decreases |h|
  {
    if |h| > 2 {
      FirstOfPairs(h[..|h| - 2]);
    } else {
      assert Pairs(h[..0]) == [];
    }
  }

  /** Minimal big-endian bytes: the value survives, and the leading byte of a positive number is not zero. */
  lemma {:induction false} CanonicalBytes(n: nat)
    ensures BufToBig(BigToBuf(n)) == n
    ensures BigToBuf(n) != [] && (n > 0 ==> BigToBuf(n)[0] != 0)
  {
    NibblesOfPairs(BigToHex(n));
    LeadingZero(ToHex(n));
    ValueOfHex(n);
    FirstOfPairs(BigToHex(n));
  }

  // ---------------------------------------------------------------- bounds

  lemma {:induction false} BufToBigSnoc(b: seq<byte>)
    requires b != []
    ensures BufToBig(b) == BufToBig(b[..|b| - 1]) * 256 + b[|b| - 1]
  {
    var k := |b| - 1;
    var d, front := b[k], Nibbles(b[..k]);
    var g := front + [d / 16];
    var h := g + [d % 16];
    assert Nibbles(b) == h;
    assert h[..|h| - 1] == g && g[..|g| - 1] == front;
    assert HexValue(h) == HexValue(g) * 16 + d % 16;
    assert HexValue(g) == HexValue(front) * 16 + d / 16;
  }

  /** `k` bytes hold less than 256^k, and with a non-zero leading byte at least 256^(k-1). */
  lemma {:induction false} ByteBounds(b: seq<byte>)
    ensures BufToBig(b) < Pow(256, |b|)
    ensures b != [] && b[0] != 0 ==> BufToBig(b) >= Pow(256, |b| - 1)
    decreases |b|
  {
    if b != [] {
      BufToBigSnoc(b);
      ByteBounds(b[..|b| - 1]);
      if |b| == 1 {
        assert BufToBig(b[..0]) == 0;
      } else {
        assert Pow(256, |b| - 1) == 256 * Pow(256, |b| - 2);
      }
    }
  }

  lemma {:induction false} PowGrows(e: nat, f: nat)
    requires e <= f
    ensures 0 < Pow(256, e) <= Pow(256, f)
    decreases f
  {
    if f != 0 && e < f {
      PowGrows(e, f - 1);
    } else if f != 0 {
      PowGrows(e - 1, f - 1);
    }
  }

  /** A number below 256^k needs at most k bytes, and exactly k if it is at least 256^(k-1). */
  lemma {:induction false} ByteCount(n: nat, k: nat)
    requires k > 0 && n < Pow(256, k)
    ensures |BigToBuf(n)| <= k
    ensures |BigToBuf(n)| == k <==> (k == 1 || n >= Pow(256, k - 1))
  {
    var b := BigToBuf(n);
    CanonicalBytes(n);
    ByteBounds(b);
    if n == 0 {
      assert ToHex(0) == [0] && BigToHex(0) == [0, 0] && |b| == 1;
      PowGrows(0, k - 1);
    } else {
      if |b| > k {
        PowGrows(k, |b| - 1);
      }
      if |b| < k {
        PowGrows(|b|, k - 1);
      }
    }
  }

  // ------------------------------------------------------------------ PAD

  /** PAD of section 2.1 of RFC 5054: left-padded with zero bytes to the length of N. */
  function Pad(n: nat, width: nat): seq<byte>
    requires |BigToBuf(n)| <= width
  {
    Zeros(width - |BigToBuf(n)|) + BigToBuf(n)
  }

  /** The client hashes A and B unpadded; that is PAD(A) | PAD(B) exactly when both are full-width. */
  lemma {:induction false} UnpaddedIsPadded(a: nat, b: nat, width: nat)
    requires |BigToBuf(a)| <= width && |BigToBuf(b)| <= width
    ensures BigToBuf(a) + BigToBuf(b) == Pad(a, width) + Pad(b, width) <==>
            |BigToBuf(a)| == width && |BigToBuf(b)| == width
  {
    var x, y := BigToBuf(a), BigToBuf(b);
    if |x| == width && |y| == width {
      assert Pad(a, width) == x && Pad(b, width) == y;
    } else {
      assert |x + y| < |Pad(a, width) + Pad(b, width)|;
    }
  }

  // ------------------------------------------------------------ hex text

  /** The value of one character of hex text, in either case. */
  function DigitOf(c: byte): Option<nibble> {
    if 48 <= c <= 57 then Some(c - 48)
    else if 97 <= c <= 102 then Some(c - 87)
    else if 65 <= c <= 70 then Some(c - 55)
    else None
  }

  function DigitsOf(t: seq<byte>): (r: Option<seq<nibble>>)
    ensures r.Some? ==> |r.value| == |t|
  {
    if t == [] then Some([])
    else
      var d, rest := DigitOf(t[0]), DigitsOf(t[1..]);
      if d.None? || rest.None? then None else Some([d.value] + rest.value)
  }

  /** `BigInt('0x' + text)`; None where it throws. */
  function ParseHexText(t: seq<byte>): Option<nat> {
    var d := DigitsOf(t);
    if t == [] || d.None? then None else Some(HexValue(d.value))
  }

  /** Lower-case hex text. */
  function HexText(h: seq<nibble>): (t: seq<byte>)
    ensures |t| == |h|
  {
    if h == [] then [] else [if h[0] < 10 then h[0] as int + 48 else h[0] as int + 87] + HexText(h[1..])
  }

  lemma {:induction false} DigitsOfText(h: seq<nibble>)
    ensures DigitsOf(HexText(h)) == Some(h)
  {
    if h != [] {
      DigitsOfText(h[1..]);
      var t := HexText(h);
      assert t[1..] == HexText(h[1..]) && DigitOf(t[0]) == Some(h[0]);
      hide HexText, DigitOf;
      assert [h[0]] + h[1..] == h;
    }
  }

  /** The digits of the text, by their characters; they are read in either case, and no other character is. */
  lemma {:induction false} HexCharacters(h: seq<nibble>, k: nat, c: byte, d: nibble)
    requires k < |h|
    ensures HexText(h)[k] == "0123456789abcdef"[h[k]] as int
    ensures DigitOf(c) == Some(d) <==> c == "0123456789abcdef"[d] as int || c == "0123456789ABCDEF"[d] as int
    decreases k
  {
    if k > 0 {
      HexCharacters(h[1..], k - 1, c, d);
    } else {
      OneCharacter(h[0]);
    }
    OneDigit(c, d);
  }

  lemma {:induction false} OneCharacter(d: nibble)
    ensures (if d < 10 then d as int + 48 else d as int + 87) == "0123456789abcdef"[d] as int
  {}

  lemma {:induction false} OneDigit(c: byte, d: nibble)
    ensures DigitOf(c) == Some(d) <==> c == "0123456789abcdef"[d] as int || c == "0123456789ABCDEF"[d] as int
  {}

  /** A number sent as hex text is read back. */
  lemma {:induction false} HexTextRoundTrip(n: nat)
    ensures ParseHexText(HexText(BigToHex(n))) == Some(n)
  {
    DigitsOfText(BigToHex(n));
    LeadingZero(ToHex(n));
    ValueOfHex(n);
  }
}
