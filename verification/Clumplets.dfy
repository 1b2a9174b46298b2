/** The info buffer of `getInfo`: {item, 2-byte length, value} clumplets, and the scanner that looks one up. */
module Clumplets {
  import opened Bytes
  import opened Modular

  const ISC_INFO_END: byte := 1

  datatype Clumplet = Clumplet(item: byte, value: seq<byte>)

  predicate Fits(c: Clumplet) {
    c.item != ISC_INFO_END && |c.value| < 0x1_0000
  }

  predicate AllFit(cs: seq<Clumplet>) {
    forall k :: 0 <= k < |cs| ==> Fits(cs[k])
  }

  function EncodeOne(c: Clumplet): (b: seq<byte>)
    requires Fits(c)
    ensures |b| == 3 + |c.value|
  {
    [c.item] + EncodeU16(|c.value|) + c.value
  }

  function EncodeList(cs: seq<Clumplet>): seq<byte>
    requires AllFit(cs)
  {
    if cs == [] then [ISC_INFO_END] else EncodeOne(cs[0]) + EncodeList(cs[1..])
  }

  // ------------------------------------------------------------- meaning

  function FirstFour(s: seq<byte>): seq<byte> {
    if |s| < 4 then s else s[..4]
  }

  /** The first clumplet with this item decides; -1 without one. */
  function Answer(cs: seq<Clumplet>, item: byte): int {
    if cs == [] then -1
    else if cs[0].item == item then LittleEndian(FirstFour(cs[0].value))
    else Answer(cs[1..], item)
  }

  // ------------------------------------------------------------- grammar

  /** The clumplets from `p` on and the offset of the terminator, or of the end of the buffer. */
  function Walk(b: seq<byte>, p: nat): (r: Option<(seq<Clumplet>, nat)>)
    requires p <= |b|
    ensures r.Some? ==> p <= r.value.1 <= |b|
    decreases |b| - p
  {
    if p == |b| || b[p] == ISC_INFO_END then Some(([], p))
    else if p + 3 > |b| || p + 3 + U16At(b, p + 1) > |b| then None
    else
      var q := p + 3 + U16At(b, p + 1);
      var rest := Walk(b, q);
      if rest.None? then None else Some(([Clumplet(b[p], b[p + 3..q])] + rest.value.0, rest.value.1))
  }

  lemma {:induction false} OneInPlace(c: Clumplet, pre: seq<byte>, post: seq<byte>)
    requires Fits(c)
    ensures var b, p := pre + (EncodeOne(c) + post), |pre|;
            b[p] == c.item && U16At(b, p + 1) == |c.value| && b[p + 3..p + 3 + |c.value|] == c.value
  {
    var b, p, u := pre + (EncodeOne(c) + post), |pre|, EncodeU16(|c.value|);
    assert b[p + 1] == u[0] && b[p + 2] == u[1];
  }

  lemma {:induction false} WalkNext(b: seq<byte>, p: nat, item: byte)
    requires p < |b| && b[p] != ISC_INFO_END && p + 3 <= |b| && p + 3 + U16At(b, p + 1) <= |b|
    ensures var q := p + 3 + U16At(b, p + 1);
            var c, rest, all := Clumplet(b[p], b[p + 3..q]), Walk(b, q), Walk(b, p);
            && (rest.Some? <==> all.Some?)
            && (rest.Some? ==>
                  && all == Some(([c] + rest.value.0, rest.value.1))
                  && Answer(all.value.0, item) ==
                     if b[p] == item then LittleEndian(FirstFour(c.value)) else Answer(rest.value.0, item))
  {
    var q := p + 3 + U16At(b, p + 1);
    var c, rest := Clumplet(b[p], b[p + 3..q]), Walk(b, q);
    if rest.Some? {
      assert ([c] + rest.value.0)[1..] == rest.value.0;
    }
  }

  lemma {:induction false} WalkEnds(b: seq<byte>, p: nat, item: byte)
    requires p <= |b| && (p == |b| || b[p] == ISC_INFO_END)
    ensures Walk(b, p) == Some(([], p)) && Answer([], item) == -1
  {}

  lemma {:induction false} ListStep(cs: seq<Clumplet>, pre: seq<byte>, post: seq<byte>)
    requires AllFit(cs) && cs != []
    ensures var c, tail := EncodeOne(cs[0]), EncodeList(cs[1..]);
            && EncodeList(cs) == c + tail
            && pre + (EncodeList(cs) + post) == pre + (c + (tail + post)) == (pre + c) + (tail + post)
    ensures [cs[0]] + cs[1..] == cs
  {
    hide EncodeOne;
  }

  lemma {:induction false} ListIsWalked(cs: seq<Clumplet>, pre: seq<byte>, post: seq<byte>)
    requires AllFit(cs)
    ensures Walk(pre + (EncodeList(cs) + post), |pre|) == Some((cs, |pre| + |EncodeList(cs)| - 1))
    decreases |cs|
  {
    var b := pre + (EncodeList(cs) + post);
    if cs == [] {
      hide Walk, U16At;
      assert b[|pre|] == ISC_INFO_END;
      WalkEnds(b, |pre|, 0);
    } else {
      RestIsWalked(cs, pre, post);
    }
  }

  lemma {:induction false} RestIsWalked(cs: seq<Clumplet>, pre: seq<byte>, post: seq<byte>)
    requires AllFit(cs) && cs != []
    ensures Walk(pre + (EncodeList(cs) + post), |pre|) == Some((cs, |pre| + |EncodeList(cs)| - 1))
    decreases |cs|, 0
  {
    hide EncodeOne, EncodeList, U16At, Walk, Answer;
    var c, tail := EncodeOne(cs[0]), EncodeList(cs[1..]);
    OneInPlace(cs[0], pre, tail + post);
    ListStep(cs, pre, post);
    ListIsWalked(cs[1..], pre + c, post);
    WalkNext(pre + (EncodeList(cs) + post), |pre|, 0);
  }

  // ------------------------------------------------------------ infoValue

  /** What the scanner answers from offset `p` on any bytes at all; None where it reads past the buffer. */
  function Scan(b: seq<byte>, p: nat, item: byte): Option<int>
    decreases |b| - p
  {
    if p >= |b| || b[p] == ISC_INFO_END then Some(-1)
    else if p + 3 > |b| then None
    else
      var n := U16At(b, p + 1);
      if b[p] != item then Scan(b, p + 3 + n, item)
      else if p + 3 + Shown(n) > |b| then None
      else Some(LittleEndian(b[p + 3..p + 3 + Shown(n)]))
  }

  /** How many bytes of a value the scanner looks at. */
  function Shown(n: nat): nat {
    if n < 4 then n else 4
  }

  lemma {:induction false} LittleEndianNext(s: seq<byte>, x: byte)
    ensures LittleEndian(s + [x]) == LittleEndian(s) + Pow(256, |s|) * x
    decreases |s|
  {
    if s == [] {
      assert [x][1..] == [] && s + [x] == [x];
    } else {
      LittleEndianNext(s[1..], x);
      assert (s + [x])[1..] == s[1..] + [x];
      var e, p := LittleEndian(s[1..]), Pow(256, |s| - 1);
      assert 256 * (e + p * x) == 256 * e + (256 * p) * x;
    }
  }

  /** Every read of the buffer; `high` is one past the last offset read so far. */
  method At(b: seq<byte>, i: nat, ghost high: nat) returns (x: byte, ghost high': nat)
    requires i < |b| && high <= |b|
    ensures x == b[i]
    ensures high' == (if high < i + 1 then i + 1 else high) <= |b|
  {
    x, high' := b[i], if high < i + 1 then i + 1 else high;
  }

  /** `v |= p[i] << 8*i` for the first four bytes; the shifted byte meets only zero bits. */
  method ReadValue(b: seq<byte>, p: nat, clen: nat, ghost high: nat) returns (v: nat, ghost high': nat)
    requires p + Shown(clen) <= |b| && high <= p
    ensures v == LittleEndian(b[p..p + Shown(clen)])
    ensures high' <= p + Shown(clen)
  {
    v, high' := 0, high;
    var i := 0;
    while i < clen && i < 4
      invariant 0 <= i <= clen && i <= 4 && high' <= p + i
      invariant v == LittleEndian(b[p..p + i])
    {
      var x;
      x, high' := At(b, p + i, high');
      LittleEndianNext(b[p..p + i], x);
      assert b[p..p + i + 1] == b[p..p + i] + [x];
      v := v + Pow(256, i) * x;
      i := i + 1;
    }
  }

  /**
   The scanner on any bytes: `ok` is false exactly where it reads past the buffer. A list that reaches its
   terminator or the end of the buffer is answered from the first match, without a read past the terminator.
   */
  method InfoValue(b: seq<byte>, item: byte) returns (ok: bool, v: int, ghost high: nat)
    ensures Scan(b, 0, item) == if ok then Some(v) else None
    ensures Walk(b, 0).Some? ==> ok && v == Answer(Walk(b, 0).value.0, item)
    ensures high <= |b| && (Walk(b, 0).Some? ==> high <= Walk(b, 0).value.1 + 1)
  {
    hide Walk, Answer, LittleEndian, Scan;
    WalkedAnswer(b, 0, item);
    ok, v, high := true, -1, 0;
    ghost var goal := Walk(b, 0);
    var p := 0;
    while p < |b|
      invariant high <= p && high <= |b| && ok && v == -1
      invariant Scan(b, 0, item) == Scan(b, p, item)
      invariant goal.Some? ==> p <= |b| && Walk(b, p).Some? && Walk(b, p).value.1 == goal.value.1
      decreases |b| - p
    {
      ScanStep(b, p, item);
      var it, lo, hi;
      it, high := At(b, p, high);
      if it == ISC_INFO_END {
        return;
      }
      if p + 3 > |b| {
        return false, -1, high;
      }
      lo, high := At(b, p + 1, high);
      hi, high := At(b, p + 2, high);
      var clen := lo as int + 256 * hi as int;
      p := p + 3;
      if it == item {
        if p + Shown(clen) > |b| {
          return false, -1, high;
        }
        v, high := ReadValue(b, p, clen, high);
        return;
      }
      p := p + clen;
    }
    ScanEnds(b, p, item);
  }

  lemma {:induction false} ScanEnds(b: seq<byte>, p: nat, item: byte)
    requires p >= |b|
    ensures Scan(b, p, item) == Some(-1)
  {}

  /** One round of the loop, for the answer and for the walk. */
  lemma {:induction false} ScanStep(b: seq<byte>, p: nat, item: byte)
    requires p < |b|
    ensures b[p] == ISC_INFO_END ==> Scan(b, p, item) == Some(-1) && Walk(b, p) == Some(([], p))
    ensures b[p] != ISC_INFO_END && p + 3 > |b| ==> Scan(b, p, item).None? && Walk(b, p).None?
    ensures b[p] != ISC_INFO_END && p + 3 <= |b| ==>
              var q, m := p + 3 + U16At(b, p + 1), p + 3 + Shown(U16At(b, p + 1));
              && Scan(b, p, item) == (if b[p] != item then Scan(b, q, item)
                                      else if m > |b| then None else Some(LittleEndian(b[p + 3..m])))
              && (Walk(b, p).Some? ==> q <= |b| && Walk(b, q).Some? && q <= Walk(b, q).value.1 == Walk(b, p).value.1)
  {
    hide U16At, LittleEndian;
  }

  /** On a well-formed list the scanner's answer is the list's. */
  lemma {:induction false} WalkedAnswer(b: seq<byte>, p: nat, item: byte)
    requires p <= |b|
    ensures Walk(b, p).Some? ==> Scan(b, p, item) == Some(Answer(Walk(b, p).value.0, item))
    decreases |b| - p
  {
    hide Walk, Answer, LittleEndian, Scan, U16At;
    if p == |b| || b[p] == ISC_INFO_END {
      WalkEnds(b, p, item);
      if p < |b| { ScanStep(b, p, item); } else { ScanEnds(b, p, item); }
    } else if Walk(b, p).Some? {
      ScanStep(b, p, item);
      var n := U16At(b, p + 1);
      WalkNext(b, p, item);
      WalkedAnswer(b, p + 3 + n, item);
      assert FirstFour(b[p + 3..p + 3 + n]) == b[p + 3..p + 3 + Shown(n)];
    }
  }

  // ------------------------------------------------------- any buffer

  /** Clumplets without a terminator. */
  function Body(cs: seq<Clumplet>): seq<byte>
    requires AllFit(cs)
  {
    if cs == [] then [] else EncodeOne(cs[0]) + Body(cs[1..])
  }

  lemma {:induction false} BodyStep(cs: seq<Clumplet>, pre: seq<byte>, post: seq<byte>)
    requires AllFit(cs) && cs != []
    ensures var c, tail := EncodeOne(cs[0]), Body(cs[1..]);
            && Body(cs) == c + tail
            && pre + (Body(cs) + post) == pre + (c + (tail + post)) == (pre + c) + (tail + post)
  {
    hide EncodeOne;
  }

  /** Whole clumplets are passed until one matches; the first match decides, whatever follows. */
  lemma {:induction false} FirstMatchDecides(cs: seq<Clumplet>, pre: seq<byte>, post: seq<byte>, item: byte)
    requires AllFit(cs)
    ensures Scan(pre + (Body(cs) + post), |pre|, item) ==
            if Answer(cs, item) != -1 then Some(Answer(cs, item))
            else Scan(pre + (Body(cs) + post), |pre| + |Body(cs)|, item)
    decreases |cs|
  {
    hide EncodeOne, U16At, Scan, LittleEndian, Body;
    if cs == [] {
      NoBody();
    } else {
      var b, c, tail := pre + (Body(cs) + post), EncodeOne(cs[0]), Body(cs[1..]);
      OneInPlace(cs[0], pre, tail + post);
      BodyStep(cs, pre, post);
      ScanStep(b, |pre|, item);
      FirstMatchDecides(cs[1..], pre + c, post, item);
      var p, n := |pre|, |cs[0].value|;
      assert b[p + 3..p + 3 + Shown(n)] == b[p + 3..p + 3 + n][..Shown(n)] == FirstFour(cs[0].value);
    }
  }

  lemma {:induction false} NoBody()
    ensures Body([]) == []
  {}

  /**
   A buffer that ends inside a clumplet: the scan stays inside it, with the answer of the whole list, exactly
   if an earlier clumplet matches, or the header is there and, for a match, the bytes that are looked at.
   */
  lemma {:induction false} CutShort(cs: seq<Clumplet>, c: Clumplet, n: nat, item: byte)
    requires AllFit(cs) && Fits(c) && 0 < n < 3 + |c.value|
    ensures Scan(Body(cs) + EncodeOne(c)[..n], 0, item) ==
            if Answer(cs, item) != -1 || (n >= 3 && (c.item == item ==> n >= 3 + Shown(|c.value|)))
            then Some(Answer(cs + [c], item)) else None
  {
    hide Scan, Body, Answer, U16At, LittleEndian;
    var cut := EncodeOne(c)[..n];
    FirstMatchDecides(cs, [], cut, item);
    assert [] + (Body(cs) + cut) == Body(cs) + cut;
    AnswerOfBoth(cs, c, item);
    ScanCut(Body(cs), c, n, item);
  }

  /** There are no other buffers: one that is not a walkable list is whole clumplets and the start of another. */
  lemma {:induction false} EndsInside(b: seq<byte>, p: nat) returns (cs: seq<Clumplet>, c: Clumplet, n: nat)
    requires p <= |b| && Walk(b, p).None?
    ensures AllFit(cs) && Fits(c) && 0 < n < 3 + |c.value|
    ensures b[p..] == Body(cs) + EncodeOne(c)[..n]
    decreases |b| - p
  {
    if p + 3 <= |b| && p + 3 + U16At(b, p + 1) <= |b| {
      var q := p + 3 + U16At(b, p + 1);
      var first := Clumplet(b[p], b[p + 3..q]);
      var rest;
      rest, c, n := EndsInside(b, q);
      hide Walk, Fits;
      WholeFirst(b, p);
      BodyOf(first, rest, EncodeOne(c)[..n]);
      cs := [first] + rest;
    } else {
      c, n := StartOf(b, p);
      cs := [];
      hide EncodeOne;
      assert Body(cs) + EncodeOne(c)[..n] == EncodeOne(c)[..n];
    }
  }

  lemma {:induction false} WholeFirst(b: seq<byte>, p: nat)
    requires p + 3 <= |b| && p + 3 + U16At(b, p + 1) <= |b| && b[p] != ISC_INFO_END
    ensures var q := p + 3 + U16At(b, p + 1);
            var c := Clumplet(b[p], b[p + 3..q]);
            Fits(c) && b[p..] == EncodeOne(c) + b[q..]
  {
    var q := p + 3 + U16At(b, p + 1);
    assert EncodeU16(U16At(b, p + 1)) == [b[p + 1], b[p + 2]];
  }

  lemma {:induction false} BodyOf(c: Clumplet, cs: seq<Clumplet>, post: seq<byte>)
    requires Fits(c) && AllFit(cs)
    ensures AllFit([c] + cs) && Body([c] + cs) + post == EncodeOne(c) + (Body(cs) + post)
  {
    hide EncodeOne, Fits;
    assert ([c] + cs)[1..] == cs;
  }

  /** The bytes from `p` on are the start of a clumplet that does not end in the buffer. */
  lemma {:induction false} StartOf(b: seq<byte>, p: nat) returns (c: Clumplet, n: nat)
    requires p < |b| && b[p] != ISC_INFO_END && (p + 3 > |b| || p + 3 + U16At(b, p + 1) > |b|)
    ensures Fits(c) && 0 < n < 3 + |c.value| && b[p..] == EncodeOne(c)[..n]
  {
    n := |b| - p;
    if n == 1 {
      c := Clumplet(b[p], []);
    } else if n == 2 {
      c := Clumplet(b[p], Zeros(b[p + 1]));
      assert EncodeU16(b[p + 1])[0] == b[p + 1];
    } else {
      var len := U16At(b, p + 1);
      c := Clumplet(b[p], b[p + 3..] + Zeros(p + 3 + len - |b|));
      assert EncodeU16(len) == [b[p + 1], b[p + 2]];
    }
  }

  lemma {:induction false} AnswerOfBoth(cs: seq<Clumplet>, c: Clumplet, item: byte)
    ensures Answer(cs + [c], item) ==
            if Answer(cs, item) != -1 then Answer(cs, item)
            else if c.item == item then LittleEndian(FirstFour(c.value)) else -1
    decreases |cs|
  {
    hide LittleEndian, FirstFour;
    if cs == [] {
      assert cs + [c] == [c];
    } else {
      AnswerOfBoth(cs[1..], c, item);
      assert (cs + [c])[1..] == cs[1..] + [c];
    }
  }

  lemma {:induction false} ScanCut(pre: seq<byte>, c: Clumplet, n: nat, item: byte)
    requires Fits(c) && 0 < n < 3 + |c.value|
    ensures Scan(pre + EncodeOne(c)[..n], |pre|, item) ==
            if n < 3 then None else if c.item != item then Some(-1)
            else if n < 3 + Shown(|c.value|) then None else Some(LittleEndian(FirstFour(c.value)) as int)
  {
    hide Scan, LittleEndian, Walk, EncodeU16;
    var b, p, u := pre + EncodeOne(c)[..n], |pre|, EncodeU16(|c.value|);
    assert b[p] == c.item;
    ScanStep(b, p, item);
    if n >= 3 {
      assert b[p + 1] == u[0] && b[p + 2] == u[1];
      assert U16At(b, p + 1) == U16At(u, 0) == |c.value|;
      if c.item != item {
        ScanEnds(b, p + 3 + |c.value|, item);
      } else if n >= 3 + Shown(|c.value|) {
        assert b[p + 3..p + 3 + Shown(|c.value|)] == FirstFour(c.value);
      }
    }
  }

  /**
   For every list of clumplets the scanner answers from the first match, or -1, whatever follows the terminator;
   since that may be nothing at all, it reads nothing past the terminator.
   */
  method Lookup(cs: seq<Clumplet>, junk: seq<byte>, item: byte) returns (ok: bool, v: int, ghost high: nat)
    requires AllFit(cs)
    ensures ok && v == Answer(cs, item)
    ensures high <= |EncodeList(cs)|
  {
    hide Walk, EncodeList, Answer, Scan;
    var b := EncodeList(cs) + junk;
    ListIsWalked(cs, [], junk);
    assert [] + (EncodeList(cs) + junk) == b;
    ok, v, high := InfoValue(b, item);
  }

  /** Buffers and their answers: a value of two bytes, one of five behind another item, and an item that is not there. */
  lemma {:induction false} KnownAnswers(x: byte, y: byte, junk: seq<byte>)
    ensures Scan([53, 2, 0, x, y] + junk, 0, 53) == Some(x as int + 256 * y as int)
    ensures Scan([53, 0, 0, 12, 5, 0, 1, 2, 3, x] + junk, 0, 12) == Some(0x03_0201 + 0x100_0000 * x as int)
    ensures Scan([53, 0, 0, 1, 20, 0, 0] + junk, 0, 20) == Some(-1)
  {
    KnownTwo(x, y, junk);
    KnownFour(x, junk);
    KnownNone(junk);
  }

  lemma {:induction false} KnownTwo(x: byte, y: byte, junk: seq<byte>)
    ensures Scan([53, 2, 0, x, y] + junk, 0, 53) == Some(x as int + 256 * y as int)
  {
    hide Scan, Walk, LittleEndian;
    var b: seq<byte> := [53, 2, 0, x, y] + junk;
    ScanStep(b, 0, 53);
    assert b[3..5] == [x, y];
    TwoDigits(x, y);
  }

  lemma {:induction false} KnownFour(x: byte, junk: seq<byte>)
    ensures Scan([53, 0, 0, 12, 5, 0, 1, 2, 3, x] + junk, 0, 12) == Some(0x03_0201 + 0x100_0000 * x as int)
  {
    hide Scan, Walk, LittleEndian;
    var b: seq<byte> := [53, 0, 0, 12, 5, 0, 1, 2, 3, x] + junk;
    ScanStep(b, 0, 12);
    ScanStep(b, 3, 12);
    assert b[6..10] == [1, 2, 3, x];
    FourDigitsLE(1, 2, 3, x);
  }

  lemma {:induction false} KnownNone(junk: seq<byte>)
    ensures Scan([53, 0, 0, 1, 20, 0, 0] + junk, 0, 20) == Some(-1)
  {
    hide Scan, Walk, LittleEndian;
    var b: seq<byte> := [53, 0, 0, 1, 20, 0, 0] + junk;
    ScanStep(b, 0, 20);
    ScanStep(b, 3, 20);
  }

  lemma {:induction false} FourDigitsLE(a: byte, b: byte, c: byte, d: byte)
    ensures LittleEndian([a, b, c, d]) == a as int + 0x100 * b as int + 0x1_0000 * c as int + 0x100_0000 * d as int
  {
    TwoDigits(c, d);
    assert [a, b, c, d][1..] == [b, c, d] && [b, c, d][1..] == [c, d];
    assert LittleEndian([b, c, d]) == b as int + 256 * LittleEndian([c, d]);
  }

  /** What `Answer` means: the value at the least matching index, and -1 exactly without a match. */
  lemma {:induction false} AnswerIsFirst(cs: seq<Clumplet>, item: byte)
    ensures Answer(cs, item) == -1 <==> forall k :: 0 <= k < |cs| ==> cs[k].item != item
    ensures forall k :: 0 <= k < |cs| && cs[k].item == item && (forall j :: 0 <= j < k ==> cs[j].item != item) ==>
              Answer(cs, item) == LittleEndian(FirstFour(cs[k].value))
    decreases |cs|
  {
    if cs != [] && cs[0].item != item {
      AnswerIsFirst(cs[1..], item);
      assert forall k :: 0 < k < |cs| ==> cs[k] == cs[1..][k - 1];
      forall k | 0 <= k < |cs| && cs[k].item == item && (forall j :: 0 <= j < k ==> cs[j].item != item)
        ensures Answer(cs, item) == LittleEndian(FirstFour(cs[k].value))
      {
        assert cs[1..][k - 1].item == item;
        assert forall j :: 0 <= j < k - 1 ==> cs[1..][j] == cs[j + 1];
      }
    }
  }
}
