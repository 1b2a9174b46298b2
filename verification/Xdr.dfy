/**
 The XDR layer of the wire client: `Writer`, and `Reader` over a TCP stream that arrives
 in arbitrary data events and may be enciphered from some point on.
 */
module Xdr {
  import opened Bytes
  import opened Arc4Cipher
  import Modular

  // --------------------------------------------------------------- encoding

  predicate FitsInt32(v: int) {
    -0x8000_0000 <= v < 0x8000_0000
  }

  /** Bytes that bring an opaque of length `n` to a multiple of four. */
  function Padding(n: nat): (p: nat)
    ensures p < 4 && n + p == 4 * ((n + 3) / 4)
  {
    (4 - n % 4) % 4
  }

  lemma {:induction false} WholeUnits(x: nat, k: nat)
    requires x == 4 * k
    ensures x % 4 == 0
  {}

  lemma {:induction false} UnitsAddUp(x: nat, y: nat)
    requires x % 4 == 0 && y % 4 == 0
    ensures (x + y) % 4 == 0
  {}

  /** Variable-length opaque data: length, data, padding (section 4.10 of RFC 4506). */
  function EncodeOpaque(d: seq<byte>): (b: seq<byte>)
    requires FitsInt32(|d|)
    ensures |b| == 4 + |d| + Padding(|d|) && |b| % 4 == 0
  {
    hide EncodeInt, Padding;
    WholeUnits(4 + |d| + Padding(|d|), 1 + (|d| + 3) / 4);
    EncodeInt(|d|) + d + Zeros(Padding(|d|))
  }

  /** The bytes of an opaque: the length as an integer, the data, and zero bytes up to a whole unit. */
  lemma {:induction false} OpaqueBytes(d: seq<byte>)
    requires FitsInt32(|d|)
    ensures var b, n := EncodeOpaque(d), |d|;
            && |b| == 4 * ((n + 3) / 4) + 4
            && b[..4] == [n / 0x100_0000, n / 0x1_0000 % 256, n / 0x100 % 256, n % 256]
            && b[4..4 + n] == d && forall k :: 4 + n <= k < |b| ==> b[k] == 0
  {
    IntDigits(|d|);
    hide EncodeInt, Padding;
  }

  datatype Field = IntField(v: int32) | OpaqueField(data: seq<byte>)
  datatype Kind = AnInt | AnOpaque

  predicate Fits(f: Field) {
    f.OpaqueField? ==> FitsInt32(|f.data|)
  }

  predicate AllFit(fs: seq<Field>) {
    forall k :: 0 <= k < |fs| ==> Fits(fs[k])
  }

  function KindOf(f: Field): Kind {
    if f.IntField? then AnInt else AnOpaque
  }

  function Kinds(fs: seq<Field>): (ks: seq<Kind>)
    ensures |ks| == |fs| && forall k :: 0 <= k < |fs| ==> ks[k] == KindOf(fs[k])
  {
    if fs == [] then [] else [KindOf(fs[0])] + Kinds(fs[1..])
  }

  function EncodeField(f: Field): (b: seq<byte>)
    requires Fits(f)
    ensures |b| % 4 == 0
  {
    hide EncodeInt, EncodeOpaque;
    match f
    case IntField(v) => EncodeInt(v)
    case OpaqueField(d) => EncodeOpaque(d)
  }

  /** A packet: its fields one after another, always whole four-byte units. */
  function Encode(fs: seq<Field>): (b: seq<byte>)
    requires AllFit(fs)
    ensures |b| % 4 == 0
  {
    hide EncodeField;
    if fs == [] then []
    else
      var first, rest := EncodeField(fs[0]), Encode(fs[1..]);
      UnitsAddUp(|first|, |rest|);
      first + rest
  }

  // --------------------------------------------------------------- decoding

  /** What `int()` takes off a stream; None when the stream is still too short. */
  function ParseInt(s: seq<byte>): Option<(int32, seq<byte>)> {
    if |s| < 4 then None else Some((DecodeInt(s[..4]), s[4..]))
  }

  /** What `bytes()` takes off a stream; None when it is too short or announces a negative length. */
  function ParseOpaque(s: seq<byte>): Option<(seq<byte>, seq<byte>)> {
    if |s| < 4 then None
    else
      var n := DecodeInt(s[..4]);
      if n < 0 || |s| < 4 + n + Padding(n) then None
      else Some((s[4..4 + n], s[4 + n + Padding(n)..]))
  }

  function ParseField(k: Kind, s: seq<byte>): Option<(Field, seq<byte>)> {
    match k
    case AnInt =>
      (match ParseInt(s)
       case None => None
       case Some((v, rest)) => Some((IntField(v), rest)))
    case AnOpaque =>
      (match ParseOpaque(s)
       case None => None
       case Some((d, rest)) => Some((OpaqueField(d), rest)))
  }

  function Parse(ks: seq<Kind>, s: seq<byte>): Option<(seq<Field>, seq<byte>)>
    decreases |ks|
  {
    if ks == [] then Some(([], s))
    else match ParseField(ks[0], s)
      case None => None
      case Some((f, rest)) =>
        match Parse(ks[1..], rest)
        case None => None
        case Some((fs, rest')) => Some(([f] + fs, rest'))
  }

  lemma {:induction false} ParseEncodedField(f: Field, rest: seq<byte>)
    requires Fits(f)
    ensures ParseField(KindOf(f), EncodeField(f) + rest) == Some((f, rest))
  {
    var s := EncodeField(f) + rest;
    match f
    case IntField(v) =>
      assert s[..4] == EncodeInt(v) && s[4..] == rest;
      DecodeEncodeInt(v);
    case OpaqueField(d) =>
      assert s[..4] == EncodeInt(|d|);
      DecodeEncodeInt(|d|);
      assert s[4..4 + |d|] == d;
      assert s[4 + |d| + Padding(|d|)..] == rest;
  }

  lemma {:induction false} ParseNext(ks: seq<Kind>, s: seq<byte>, f: Field, t: seq<byte>, fs: seq<Field>, rest: seq<byte>)
    requires ks != [] && ParseField(ks[0], s) == Some((f, t)) && Parse(ks[1..], t) == Some((fs, rest))
    ensures Parse(ks, s) == Some(([f] + fs, rest))
  {
    hide ParseField;
  }

  lemma {:induction false} PacketParts(fs: seq<Field>, rest: seq<byte>)
    requires AllFit(fs) && fs != []
    ensures Encode(fs) + rest == EncodeField(fs[0]) + (Encode(fs[1..]) + rest)
    ensures Kinds(fs)[0] == KindOf(fs[0]) && Kinds(fs)[1..] == Kinds(fs[1..]) && [fs[0]] + fs[1..] == fs
  {
    hide EncodeField;
  }

  /** Round trip: reading the kinds that were written returns the fields and exactly the rest. */
  lemma {:induction false} ParseEncoded(fs: seq<Field>, rest: seq<byte>)
    requires AllFit(fs)
    ensures Parse(Kinds(fs), Encode(fs) + rest) == Some((fs, rest))
    decreases fs
  {
    if fs == [] {
      assert Encode(fs) + rest == rest;
    } else {
      ParseEncodedTail(fs, rest);
    }
  }

  lemma {:induction false} ParseEncodedTail(fs: seq<Field>, rest: seq<byte>)
    requires AllFit(fs) && fs != []
    ensures Parse(Kinds(fs), Encode(fs) + rest) == Some((fs, rest))
    decreases fs, 0
  {
    hide EncodeField, ParseField, Parse, Encode, Kinds;
    var tail := Encode(fs[1..]) + rest;
    PacketParts(fs, rest);
    ParseEncodedField(fs[0], tail);
    ParseEncoded(fs[1..], rest);
    ParseNext(Kinds(fs), Encode(fs) + rest, fs[0], tail, fs[1..], rest);
  }

  lemma {:induction false} ParseFieldExtends(k: Kind, s: seq<byte>, more: seq<byte>)
    requires ParseField(k, s).Some?
    ensures ParseField(k, s + more) ==
            Some((ParseField(k, s).value.0, ParseField(k, s).value.1 + more))
  {
    assert (s + more)[..4] == s[..4];
    match k
    case AnInt =>
      assert (s + more)[4..] == s[4..] + more;
    case AnOpaque =>
      var n := DecodeInt(s[..4]);
      assert (s + more)[4..4 + n] == s[4..4 + n];
      var e := 4 + n + Padding(n);
      assert (s + more)[e..] == s[e..] + more;
  }

  /** Later arrivals never change what has already been decoded. */
  lemma {:induction false} ParseExtends(ks: seq<Kind>, s: seq<byte>, more: seq<byte>)
    requires Parse(ks, s).Some?
    ensures Parse(ks, s + more) == Some((Parse(ks, s).value.0, Parse(ks, s).value.1 + more))
    decreases |ks|
  {
    if ks != [] {
      ParseFieldExtends(ks[0], s, more);
      ParseExtends(ks[1..], ParseField(ks[0], s).value.1, more);
    }
  }

  /** Packets are self-delimiting: no proper prefix of one is complete. */
  lemma {:induction false} ProperPrefixIncomplete(fs: seq<Field>, s: seq<byte>, more: seq<byte>)
    requires AllFit(fs) && s + more == Encode(fs) && more != []
    ensures Parse(Kinds(fs), s).None?
  {
    assert Encode(fs) + [] == Encode(fs);
    ParseEncoded(fs, []);
    if Parse(Kinds(fs), s).Some? {
      ParseExtends(Kinds(fs), s, more);
    }
  }

  /** The three takes of `bytes()` put together. */
  lemma {:induction false} OpaqueUnparsed(s: seq<byte>)
    ensures |s| < 4 ==> ParseOpaque(s).None?
    ensures |s| >= 4 && DecodeInt(s[..4]) >= 0 && |s| < 4 + DecodeInt(s[..4]) + Padding(DecodeInt(s[..4])) ==>
              ParseOpaque(s).None?
  {
    hide DecodeInt, Padding;
  }

  lemma {:induction false} PaddingOf(n: int32)
    ensures n >= 0 ==> (4 - Modular.JsRem(n, 4)) % 4 == Padding(n)
    ensures 0 <= (4 - Modular.JsRem(n, 4)) % 4 < 4
  {}

  /**
   What `bytes()` does after a negative length `n` with `m` bytes buffered: all but the last `-n` of them are
   returned, the padding is skipped as far as it is there, and the counter is right exactly if it all was.
   */
  predicate Garbled(n: int, m: int, returned: int, skipped: int, right: bool) {
    && returned == (if m + n < 0 then 0 else m + n)
    && skipped == (if (-n) % 4 <= m then (-n) % 4 else m)
    && (right <==> (-n) % 4 <= m)
  }

  /** The two takes of a negative length on `m` buffered bytes. */
  lemma {:induction false} NegativeTakes(n: int, m: nat)
    requires n < 0
    ensures var pad, cut := (4 - Modular.JsRem(n, 4)) % 4, Clip(n, m);
            pad <= m - n && Garbled(n, m, cut, Clip(pad, m - cut), pad <= m - cut)
  {}

  // ----------------------------------------------------------------- Writer

  class Writer {
    var parts: seq<seq<byte>>

    ghost function Contents(): seq<byte>
      reads this
    {
      Flatten(parts)
    }

    constructor ()
      ensures Contents() == []
    {
      parts := [];
    }

    /** `writeInt32BE` throws on a value outside the signed 32-bit range. */
    method Int(v: int) returns (ok: bool)
      modifies this
      ensures ok == FitsInt32(v)
      ensures Contents() == old(Contents()) + if ok then EncodeInt(v) else []
    {
      ok := FitsInt32(v);
      if ok {
        FlattenSnoc(parts, EncodeInt(v));
        parts := parts + [EncodeInt(v)];
      }
    }

    method Opaque(buf: seq<byte>) returns (ok: bool)
      modifies this
      ensures ok == FitsInt32(|buf|)
      ensures Contents() == old(Contents()) + if ok then EncodeOpaque(buf) else []
    {
      hide EncodeInt, Flatten;
      ok := Int(|buf|);
      if ok {
        var pad := Zeros((4 - |buf| % 4) % 4);
        FlattenSnoc(parts, buf);
        FlattenSnoc(parts + [buf], pad);
        parts := parts + [buf] + [pad];
      }
    }

    method Buf() returns (b: seq<byte>)
      ensures b == Contents()
    {
      b := Flatten(parts);
    }
  }

  // ----------------------------------------------------------------- Reader

  /** How an awaited read ends: with a value, never (the stream stopped short), or with an exception. */
  datatype Await<+T> = Ready(value: T) | Blocked | RangeError

  /** How many bytes a reader that has `have` of them holds once `take(n)` need not wait any more. */
  function Gathered(have: int, events: seq<seq<byte>>, n: int): int
    decreases |events|
  {
    if have >= n || events == [] then have else Gathered(have + |events[0]|, events[1..], n)
  }

  class Reader {
    var chunks: seq<seq<byte>>
    var len: int
    var dec: Arc4?
    /** The data events the socket will still raise, in order; any packetisation of what is to come. */
    var pending: seq<seq<byte>>

    ghost function Cipherprint(): set<object>
      reads this`dec
    {
      if dec == null then {} else {dec, dec.s}
    }

    ghost function Footprint(): set<object>
      reads this`dec
    {
      {this} + Cipherprint()
    }

    ghost predicate Valid()
      reads this`dec
    {
      dec != null ==> dec.Valid()
    }

    /** The byte counter agrees with the buffered bytes. */
    ghost predicate Consistent()
      reads this`len, this`chunks
    {
      len == |Flatten(chunks)|
    }

    /** The plaintext of the bytes that have not arrived yet. */
    ghost function Arriving(): seq<byte>
      requires Valid()
      reads this`dec, this`pending, Cipherprint()
    {
      if dec == null then Flatten(pending) else Transformed(dec.State(), Flatten(pending))
    }

    /** All plaintext this reader can still deliver: what is buffered, then what is to arrive. */
    ghost function Stream(): seq<byte>
      requires Valid()
      reads this`dec, this`pending, this`chunks, Cipherprint()
    {
      Flatten(chunks) + Arriving()
    }

    constructor (events: seq<seq<byte>>)
      ensures Valid() && Consistent() && dec == null
      ensures chunks == [] && pending == events && Stream() == Flatten(events)
    {
      chunks, len, dec, pending := [], 0, null, events;
      new;
      assert Flatten(chunks) == [];
    }

    /** The next data event, deciphered if the decryptor is armed. */
    method Received() returns (plain: seq<byte>)
      requires Valid() && pending != []
      modifies this`pending, Cipherprint()
      ensures pending == old(pending)[1..]
      ensures |plain| == |old(pending)[0]|
      ensures old(Arriving()) == plain + Arriving()
    {
      plain := pending[0];
      if dec != null {
        TransformSplits(dec.State(), plain, Flatten(pending[1..]));
        plain := dec.Transform(plain);
      }
      pending := pending[1..];
    }

    /** The handler of the socket's `data` event. */
    method OnData()
      requires Valid() && pending != []
      modifies Footprint()
      ensures Valid() && dec == old(dec)
      ensures pending == old(pending)[1..]
      ensures len == old(len) + |old(pending)[0]|
      ensures old(Consistent()) ==> Consistent()
      ensures Stream() == old(Stream())
    {
      hide Flatten, Arriving;
      var plain := Received();
      ghost var buffered, arriving := Flatten(chunks), Arriving();
      assert buffered + (plain + arriving) == (buffered + plain) + arriving;
      FlattenSnoc(chunks, plain);
      chunks := chunks + [plain];
      len := len + |plain|;
      assert Flatten(chunks) == buffered + plain && Arriving() == arriving;
    }

    /** Arming the decryptor is transparent exactly as far as no buffered byte was enciphered. */
    method EnableDecryption(cipher: Arc4)
      requires Valid() && cipher.Valid()
      modifies this
      ensures Valid() && dec == cipher
      ensures old(Consistent()) ==> Consistent()
      ensures pending == old(pending) && chunks == old(chunks) && len == old(len)
      ensures Stream() == Flatten(old(chunks)) + Transformed(cipher.State(), Flatten(old(pending)))
    {
      dec := cipher;
    }

    /** The waiting loop of `take`: each data event wakes it, and it ends when the stream does. */
    method AwaitBytes(n: int)
      requires Valid()
      modifies Footprint()
      ensures Valid() && dec == old(dec)
      ensures Stream() == old(Stream())
      ensures old(Consistent()) ==> Consistent()
      ensures len >= n || Arriving() == []
      ensures len == Gathered(old(len), old(pending), n)
      ensures old(len) >= n ==> len == old(len) && chunks == old(chunks)
    {
      hide Stream, Arriving, Consistent, Footprint, Cipherprint;
      while len < n && pending != []
        invariant Valid() && dec == old(dec)
        invariant Stream() == old(Stream())
        invariant old(Consistent()) ==> Consistent()
        invariant Gathered(len, pending, n) == Gathered(old(len), old(pending), n)
        invariant old(len) >= n ==> len == old(len) && chunks == old(chunks)
        decreases |pending|
      {
        OnData();
      }
      if len < n { NothingArrives(); }
    }

    lemma {:induction false} NothingArrives()
      requires Valid() && pending == []
      ensures Arriving() == []
    {}

    /**
     Take `n` bytes. A non-negative count is served exactly and keeps the counter right,
     however the bytes arrive; a negative one always leaves the counter wrong.
     */
    method Take(n: int) returns (r: Await<seq<byte>>)
      requires Valid()
      modifies Footprint()
      ensures Valid() && dec == old(dec) && !r.RangeError?
      ensures old(Stream()) == (if r.Ready? then r.value else []) + Stream()
      ensures old(Consistent()) ==> (Consistent() <==> n >= 0)
      ensures old(Consistent()) && n >= 0 ==>
                (r.Ready? <==> n <= |old(Stream())|) && (r.Ready? ==> |r.value| == n)
      ensures r.Ready? && n >= 0 ==> |r.value| <= n
      ensures old(Consistent()) && n < 0 ==> r.Ready?
      ensures old(Consistent()) && r.Ready? ==> len == Gathered(old(len), old(pending), n) - n
      ensures old(len) >= n ==>
                var all := Flatten(old(chunks));
                && r.Ready? && |r.value| == Clip(n, |all|)
                && |Flatten(chunks)| == |all| - |r.value| && len == |all| - n
    {
      hide Flatten, Arriving, Gathered;
      AwaitBytes(n);
      if len < n {
        return Blocked;
      }
      ghost var arriving := Arriving();
      var all := Flatten(chunks);
      var cut := Clip(n, |all|);
      assert all + arriving == all[..cut] + (all[cut..] + arriving);
      chunks := [all[cut..]];
      len := |all| - n;
      FlattenOne(all[cut..]);
      assert Arriving() == arriving;
      return Ready(all[..cut]);
    }

    method Int() returns (r: Await<int32>)
      requires Valid()
      modifies Footprint()
      ensures Valid() && dec == old(dec)
      ensures EndsWith(old(Stream()), Stream())
      ensures r.Ready? ==> |old(Stream())| >= 4 && Stream() == old(Stream())[4..]
      ensures old(Consistent()) && r.Ready? ==> len == Gathered(old(len), old(pending), 4) - 4
      ensures old(Consistent()) ==>
                && Consistent() && !r.RangeError?
                && (r.Ready? <==> ParseInt(old(Stream())).Some?)
                && (r.Ready? ==> ParseInt(old(Stream())) == Some((r.value, Stream())))
    {
      ghost var s := Stream();
      var t := Take(4);
      if t.Blocked? {
        return Blocked;
      }
      if |t.value| < 4 {
        return RangeError;
      }
      assert s[..4] == t.value && s[4..] == Stream();
      return Ready(DecodeInt(t.value));
    }

    /** What follows the length: that many bytes, then the padding. */
    method Sized(n: int32) returns (r: Await<seq<byte>>)
      requires Valid()
      modifies Footprint()
      ensures Valid() && dec == old(dec) && !r.RangeError?
      ensures EndsWith(old(Stream()), Stream())
      ensures r.Ready? ==> Skips(old(Stream()), r.value, Stream())
      ensures old(Consistent()) && n >= 0 ==>
                && Consistent() && (r.Ready? <==> n + Padding(n) <= |old(Stream())|)
                && (r.Ready? ==> |r.value| == n && |Stream()| == |old(Stream())| - n - Padding(n))
      ensures old(Consistent()) && n < 0 ==>
                r.Ready? && Garbled(n, old(len), |r.value|, |old(Stream())| - |r.value| - |Stream()|, Consistent())
    {
      hide Stream, Arriving, Footprint, Cipherprint, Padding, EndsWith, Skips, Flatten, Clip, Garbled, Modular.JsRem, Gathered;
      ghost var s, m := Stream(), len;
      PaddingOf(n);
      var data := Take(n);
      if !data.Ready? {
        LeftOver(s, [], Stream());
        return Blocked;
      }
      ghost var s1 := Stream();
      if old(Consistent()) && n < 0 { NegativeTakes(n, m); }
      var pad := Take((4 - Modular.JsRem(n, 4)) % 4);
      if !pad.Ready? {
        LeftOver(s, data.value, s1);
        assert s1 == Stream();
        return Blocked;
      }
      SkipsPadding(s, data.value, pad.value, Stream());
      return Ready(data.value);
    }

    /**
     A length, that many bytes, the padding. Whatever the length says, the value is stream data from right
     after it, and at most three bytes are skipped then. What a negative length does is exactly `Garbled`.
     */
    method Opaque() returns (r: Await<seq<byte>>)
      requires Valid()
      modifies Footprint()
      ensures Valid() && dec == old(dec)
      ensures EndsWith(old(Stream()), Stream())
      ensures r.Ready? ==> |old(Stream())| >= 4 && Skips(old(Stream())[4..], r.value, Stream())
      ensures old(Consistent()) && !NegativeLength(old(Stream())) ==>
                && Consistent() && !r.RangeError?
                && (r.Ready? <==> ParseOpaque(old(Stream())).Some?)
                && (r.Ready? ==> ParseOpaque(old(Stream())) == Some((r.value, Stream())))
      ensures old(Consistent()) && NegativeLength(old(Stream())) ==>
                && r.Ready?
                && Garbled(DecodeInt(old(Stream())[..4]), Gathered(old(len), old(pending), 4) - 4, |r.value|,
                           |old(Stream())| - 4 - |r.value| - |Stream()|, Consistent())
    {
      hide Stream, Arriving, Footprint, Cipherprint, DecodeInt, ParseOpaque, Padding, EndsWith, Skips, Garbled, Gathered;
      ghost var s := Stream();
      OpaqueUnparsed(s);
      var n := Int();
      if !n.Ready? {
        return if n.Blocked? then Blocked else RangeError;
      }
      ghost var s1 := Stream();
      r := Sized(n.value);
      EndsTransitive(s, s1, Stream());
      if old(Consistent()) && n.value >= 0 && r.Ready? {
        SkipsIsParsed(s, n.value, r.value, Stream());
      }
    }
  }

  /** `s` starts with `d`, and between it and what is left are at most three bytes. */
  predicate Skips(s: seq<byte>, d: seq<byte>, left: seq<byte>) {
    && |d| + |left| <= |s| <= |d| + |left| + 3
    && s[..|d|] == d && EndsWith(s, left)
  }

  lemma {:induction false} LeftOver(s: seq<byte>, d: seq<byte>, left: seq<byte>)
    requires s == d + left
    ensures EndsWith(s, left)
  {}

  lemma {:induction false} SkipsPadding(s: seq<byte>, d: seq<byte>, pad: seq<byte>, left: seq<byte>)
    requires s == d + (pad + left) && |pad| <= 3
    ensures Skips(s, d, left) && EndsWith(s, left)
  {}

  lemma {:induction false} SkipsIsParsed(s: seq<byte>, n: int32, d: seq<byte>, left: seq<byte>)
    requires |s| >= 4 && DecodeInt(s[..4]) == n && n >= 0 && Skips(s[4..], d, left)
    requires |d| == n && |left| == |s[4..]| - n - Padding(n)
    ensures ParseOpaque(s) == Some((d, left))
  {
    hide Padding, DecodeInt;
    assert s[4..4 + n] == s[4..][..n] == d;
    assert s[4 + n + Padding(n)..] == s[4..][n + Padding(n)..] == left;
  }

  /** The next opaque on the stream announces a negative length. */
  predicate NegativeLength(s: seq<byte>) {
    |s| >= 4 && DecodeInt(s[..4]) < 0
  }
}
