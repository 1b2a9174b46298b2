/** The user identification block of op_connect: tagged values, and the client key split into numbered parts. */
module Tlv {
  import opened Bytes

  const TAG_USER: byte := 1
  const TAG_HOST: byte := 4
  const TAG_USER_VERIFICATION: byte := 6
  const TAG_SPECIFIC_DATA: byte := 7
  const TAG_PLUGIN_NAME: byte := 8
  const TAG_LOGIN: byte := 9
  const TAG_PLUGIN_LIST: byte := 10
  const TAG_CLIENT_CRYPT: byte := 11

  datatype Item = Item(tag: byte, data: seq<byte>)

  // --------------------------------------------------------------- reading

  /** One item off the front: tag, one-byte length, data. */
  function ParseItem(b: seq<byte>): Option<(Item, seq<byte>)> {
    if |b| < 2 || |b| < 2 + b[1] as int then None
    else Some((Item(b[0], b[2..2 + b[1] as int]), b[2 + b[1] as int..]))
  }

  function ParseItems(b: seq<byte>): Option<seq<Item>> {
    if b == [] then Some([])
    else
      var first := ParseItem(b);
      if first.None? then None
      else
        var rest := ParseItems(first.value.1);
        if rest.None? then None else Some([first.value.0] + rest.value)
  }

  // --------------------------------------------------------------- writing

  /** `Buffer.from([tag, length])` keeps the low eight bits of the length. */
  function EncodeItem(tag: byte, data: seq<byte>): seq<byte> {
    [tag, |data| % 256] + data
  }

  /** A tagged value is read back exactly when its length fits the length byte. */
  lemma {:induction false} ItemExactly(tag: byte, data: seq<byte>, rest: seq<byte>)
    ensures ParseItem(EncodeItem(tag, data) + rest) == Some((Item(tag, data), rest)) <==> |data| <= 255
  {
    var b := EncodeItem(tag, data) + rest;
    assert b[0] == tag && b[1] == |data| % 256;
    if |data| <= 255 {
      assert b[2..2 + |data|] == data && b[2 + |data|..] == rest;
    }
  }

  lemma {:induction false} ItemFollowed(tag: byte, data: seq<byte>, rest: seq<byte>)
    requires |data| <= 255 && ParseItems(rest).Some?
    ensures ParseItems(EncodeItem(tag, data) + rest) == Some([Item(tag, data)] + ParseItems(rest).value)
  {
    hide ParseItem;
    ItemExactly(tag, data, rest);
  }

  /** An item in front of others is read back exactly when its length fits and the others are. */
  lemma {:induction false} ItemFollowedExactly(tag: byte, data: seq<byte>, rest: seq<byte>, xs: seq<Item>)
    ensures ParseItems(EncodeItem(tag, data) + rest) == Some([Item(tag, data)] + xs)
            <==> |data| <= 255 && ParseItems(rest) == Some(xs)
  {
    hide EncodeItem;
    var b, x := EncodeItem(tag, data) + rest, Item(tag, data);
    ItemExactly(tag, data, rest);
    if ParseItems(b) == Some([x] + xs) {
      FirstItem(b);
      assert ([x] + xs)[0] == x && ([x] + xs)[1..] == xs;
    }
  }

  /** What is parsed first fits its length byte, and the rest is parsed from what is left. */
  lemma {:induction false} FirstItem(b: seq<byte>)
    requires ParseItems(b).Some? && ParseItems(b).value != []
    ensures ParseItem(b).Some? && |ParseItem(b).value.0.data| <= 255
    ensures ParseItems(b).value[0] == ParseItem(b).value.0
    ensures ParseItems(ParseItem(b).value.1) == Some(ParseItems(b).value[1..])
  {}

  /** The first part of what is left of the specific data. */
  function Head(s: seq<byte>): (h: seq<byte>)
    ensures |h| <= 254 && (s != [] ==> h != []) && h <= s
  {
    s[..if |s| < 254 then |s| else 254]
  }

  function Tail(s: seq<byte>): (t: seq<byte>)
    ensures s != [] ==> |t| < |s|
    ensures s == Head(s) + t
  {
    s[|Head(s)|..]
  }

  /** The parts from number `i` on, each with its sequence byte. */
  function EncodeParts(s: seq<byte>, i: nat): seq<byte>
    decreases |s|
  {
    if s == [] then [] else EncodeItem(TAG_SPECIFIC_DATA, [i % 256] + Head(s)) + EncodeParts(Tail(s), i + 1)
  }

  function Block(login: seq<byte>, name: seq<byte>, list: seq<byte>, specific: seq<byte>): seq<byte> {
    EncodeItem(TAG_LOGIN, login) + (EncodeItem(TAG_PLUGIN_NAME, name) + (EncodeItem(TAG_PLUGIN_LIST, list) +
    (EncodeParts(specific, 0) + Trailer())))
  }

  /** Wire-crypt stance, user, host, and the empty user verification. */
  function Trailer(): seq<byte> {
    EncodeItem(TAG_CLIENT_CRYPT, [1, 0, 0, 0]) + (EncodeItem(TAG_USER, Ascii("demo")) +
    (EncodeItem(TAG_HOST, Ascii("localhost")) + EncodeItem(TAG_USER_VERIFICATION, [])))
  }

  /** The loop over the specific data: parts of at most 254 bytes, each with its number. */
  method SpecificData(specific: seq<byte>) returns (p: seq<byte>)
    ensures p == EncodeParts(specific, 0)
  {
    hide EncodeItem, Head, Tail, EncodeParts;
    p := [];
    var i := 0;
    ghost var left := specific;
    assert [] + EncodeParts(specific, 0) == EncodeParts(specific, 0);
    while i * 254 < |specific|
      invariant left == if i * 254 < |specific| then specific[i * 254..] else []
      invariant EncodeParts(specific, 0) == p + EncodeParts(left, i)
      decreases |left|
    {
      var end := if i * 254 + 254 < |specific| then i * 254 + 254 else |specific|;
      CutPart(specific, i, end);
      NextPart(left, i, p);
      p := p + EncodeItem(TAG_SPECIFIC_DATA, [i % 256] + specific[i * 254..end]);
      left := Tail(left);
      i := i + 1;
    }
    NoParts(i);
  }

  method UserIdBlock(login: seq<byte>, name: seq<byte>, list: seq<byte>, specific: seq<byte>)
    returns (block: seq<byte>)
    ensures block == Block(login, name, list, specific)
  {
    hide EncodeItem, EncodeParts, Trailer;
    var p := EncodeItem(TAG_LOGIN, login) + EncodeItem(TAG_PLUGIN_NAME, name) + EncodeItem(TAG_PLUGIN_LIST, list);
    var parts := SpecificData(specific);
    block := p + (parts + Trailer());
  }

  lemma {:induction false} NoParts(i: nat)
    ensures EncodeParts([], i) == [] && Parts([], i) == []
  {}

  lemma {:induction false} CutPart(specific: seq<byte>, i: nat, end: nat)
    requires i * 254 < |specific|
    requires end == if i * 254 + 254 < |specific| then i * 254 + 254 else |specific|
    ensures Head(specific[i * 254..]) == specific[i * 254..end]
    ensures Tail(specific[i * 254..]) == if (i + 1) * 254 < |specific| then specific[(i + 1) * 254..] else []
  {}

  lemma {:induction false} NextPart(left: seq<byte>, i: nat, done: seq<byte>)
    requires left != []
    ensures done + EncodeParts(left, i) ==
            (done + EncodeItem(TAG_SPECIFIC_DATA, [i % 256] + Head(left))) + EncodeParts(Tail(left), i + 1)
  {
    hide EncodeItem, Head, Tail;
  }

  // ------------------------------------------------------------ round trip

  /** The parts as items. */
  function Parts(s: seq<byte>, i: nat): (ps: seq<Item>)
    ensures forall k :: 0 <= k < |ps| ==> ps[k].data != []
    decreases |s|
  {
    if s == [] then [] else [Item(TAG_SPECIFIC_DATA, [i % 256] + Head(s))] + Parts(Tail(s), i + 1)
  }

  function TrailerItems(): seq<Item> {
    [Item(TAG_CLIENT_CRYPT, [1, 0, 0, 0])] + ([Item(TAG_USER, Ascii("demo"))] +
    ([Item(TAG_HOST, Ascii("localhost"))] + [Item(TAG_USER_VERIFICATION, [])]))
  }

  lemma {:induction false} TrailerParses()
    ensures ParseItems(Trailer()) == Some(TrailerItems())
  {
    hide EncodeItem, ParseItems, Ascii;
    var t3 := EncodeItem(TAG_USER_VERIFICATION, []);
    assert t3 + [] == t3;
    NothingParses();
    ItemFollowed(TAG_USER_VERIFICATION, [], []);
    assert [Item(TAG_USER_VERIFICATION, [])] + [] == [Item(TAG_USER_VERIFICATION, [])];
    var t2 := EncodeItem(TAG_HOST, Ascii("localhost")) + t3;
    ItemFollowed(TAG_HOST, Ascii("localhost"), t3);
    var t1 := EncodeItem(TAG_USER, Ascii("demo")) + t2;
    ItemFollowed(TAG_USER, Ascii("demo"), t2);
    ItemFollowed(TAG_CLIENT_CRYPT, [1, 0, 0, 0], t1);
  }

  lemma {:induction false} NothingParses()
    ensures ParseItems([]) == Some([])
  {}

  lemma {:induction false} PartsFirst(s: seq<byte>, i: nat, rest: seq<byte>)
    requires s != []
    ensures EncodeParts(s, i) + rest ==
            EncodeItem(TAG_SPECIFIC_DATA, [i % 256] + Head(s)) + (EncodeParts(Tail(s), i + 1) + rest)
    ensures Parts(s, i) == [Item(TAG_SPECIFIC_DATA, [i % 256] + Head(s))] + Parts(Tail(s), i + 1)
  {
    hide EncodeItem, Head, Tail;
  }

  lemma {:induction false} PartsParse(s: seq<byte>, i: nat, rest: seq<byte>)
    requires ParseItems(rest).Some?
    ensures ParseItems(EncodeParts(s, i) + rest) == Some(Parts(s, i) + ParseItems(rest).value)
    decreases |s|
  {
    hide EncodeItem, ParseItems, Head, Tail, Parts, EncodeParts;
    if s == [] {
      NoParts(i);
      assert EncodeParts(s, i) + rest == rest;
      assert Parts(s, i) + ParseItems(rest).value == ParseItems(rest).value;
    } else {
      PartsParse(Tail(s), i + 1, rest);
      PartsFirst(s, i, rest);
      ItemFollowed(TAG_SPECIFIC_DATA, [i % 256] + Head(s), EncodeParts(Tail(s), i + 1) + rest);
      Associate([Item(TAG_SPECIFIC_DATA, [i % 256] + Head(s))], Parts(Tail(s), i + 1), ParseItems(rest).value);
    }
  }

  lemma {:induction false} Associate(a: seq<Item>, b: seq<Item>, c: seq<Item>)
    ensures a + (b + c) == (a + b) + c
  {}

  /** The block is read back field by field, in order, exactly if the text fields fit their length bytes. */
  lemma {:induction false} BlockRoundTrip(login: seq<byte>, name: seq<byte>, list: seq<byte>, specific: seq<byte>)
    ensures ParseItems(Block(login, name, list, specific)) ==
            Some([Item(TAG_LOGIN, login)] + ([Item(TAG_PLUGIN_NAME, name)] + ([Item(TAG_PLUGIN_LIST, list)]
                 + (Parts(specific, 0) + TrailerItems()))))
            <==> |login| <= 255 && |name| <= 255 && |list| <= 255
  {
    hide EncodeItem, ParseItems, EncodeParts, Parts, Trailer, TrailerItems;
    TrailerParses();
    PartsParse(specific, 0, Trailer());
    var t3, x3 := EncodeParts(specific, 0) + Trailer(), Parts(specific, 0) + TrailerItems();
    var t2, x2 := EncodeItem(TAG_PLUGIN_LIST, list) + t3, [Item(TAG_PLUGIN_LIST, list)] + x3;
    ItemFollowedExactly(TAG_PLUGIN_LIST, list, t3, x3);
    ItemFollowedExactly(TAG_PLUGIN_NAME, name, t2, x2);
    ItemFollowedExactly(TAG_LOGIN, login, EncodeItem(TAG_PLUGIN_NAME, name) + t2, [Item(TAG_PLUGIN_NAME, name)] + x2);
  }

  /** The bytes of the block: each tag as the protocol numbers it, each length modulo 256, each value. */
  lemma {:induction false} BlockBytes(login: seq<byte>, name: seq<byte>, list: seq<byte>, specific: seq<byte>)
    ensures Block(login, name, list, specific) ==
            [9, |login| % 256] + login + [8, |name| % 256] + name + [10, |list| % 256] + list
            + EncodeParts(specific, 0)
            + ([11, 4, 1, 0, 0, 0] + ([1, 4, 100, 101, 109, 111] +
               ([4, 9, 108, 111, 99, 97, 108, 104, 111, 115, 116] + [6, 0])))
  {
    hide EncodeParts, Trailer;
    TrailerBytes();
    Assembled([9, |login| % 256], login, [8, |name| % 256], name, [10, |list| % 256], list,
              EncodeParts(specific, 0), Trailer());
  }

  lemma {:induction false} Assembled(a: seq<byte>, x: seq<byte>, b: seq<byte>, y: seq<byte>, c: seq<byte>, z: seq<byte>,
                                     p: seq<byte>, t: seq<byte>)
    ensures (a + x) + ((b + y) + ((c + z) + (p + t))) == a + x + b + y + c + z + p + t
  {}

  lemma {:induction false} TrailerBytes()
    ensures Trailer() == [11, 4, 1, 0, 0, 0] + ([1, 4, 100, 101, 109, 111] +
                         ([4, 9, 108, 111, 99, 97, 108, 104, 111, 115, 116] + [6, 0]))
  {
    hide Ascii;
    TrailerTexts();
    assert EncodeItem(TAG_USER, Ascii("demo")) == [1, 4, 100, 101, 109, 111];
    assert EncodeItem(TAG_HOST, Ascii("localhost")) == [4, 9, 108, 111, 99, 97, 108, 104, 111, 115, 116];
    assert EncodeItem(TAG_CLIENT_CRYPT, [1, 0, 0, 0]) == [11, 4, 1, 0, 0, 0];
    assert EncodeItem(TAG_USER_VERIFICATION, []) == [6, 0];
    hide EncodeItem;
  }

  lemma {:induction false} TrailerTexts()
    ensures Ascii("demo") == [100, 101, 109, 111]
    ensures Ascii("localhost") == [108, 111, 99, 97, 108, 104, 111, 115, 116]
  {}

  /** One part after the other: tag 7, length, number, and the next 254 bytes, or what is left of them. */
  lemma {:induction false} PartBytes(s: seq<byte>, i: nat)
    ensures EncodeParts([], i) == []
    ensures var n := if |s| < 254 then |s| else 254;
            s != [] ==> EncodeParts(s, i) == [7, n + 1, i % 256] + s[..n] + EncodeParts(s[n..], i + 1)
  {
    if s != [] {
      var n := if |s| < 254 then |s| else 254;
      assert Head(s) == s[..n] && Tail(s) == s[n..];
      assert EncodeItem(TAG_SPECIFIC_DATA, [i % 256] + s[..n]) == [7, n + 1, i % 256] + s[..n];
    }
  }

  /** Concatenate the parts without their sequence bytes. */
  function Reassembled(items: seq<Item>): seq<byte>
    requires forall k :: 0 <= k < |items| ==> items[k].data != []
  {
    if items == [] then [] else items[0].data[1..] + Reassembled(items[1..])
  }

  predicate Numbered(p: Item, n: nat) {
    p.tag == TAG_SPECIFIC_DATA && 1 <= |p.data| <= 255 && p.data[0] == n % 256
  }

  /** Every part fits its length byte, carries its number modulo 256, and together they are the data. */
  lemma {:induction false} PartsReassemble(s: seq<byte>, i: nat)
    ensures |Parts(s, i)| == (|s| + 253) / 254
    ensures forall k :: 0 <= k < |Parts(s, i)| ==> Numbered(Parts(s, i)[k], i + k)
    ensures Reassembled(Parts(s, i)) == s
    decreases |s|
  {
    hide Head, Tail, Parts, Reassembled, Numbered;
    if s == [] {
      NoParts(i);
      NothingReassembled();
    } else {
      PartsReassemble(Tail(s), i + 1);
      var first, rest := Item(TAG_SPECIFIC_DATA, [i % 256] + Head(s)), Parts(Tail(s), i + 1);
      PartsFirst(s, i, []);
      OneMore(first, rest, Head(s));
      TailLength(s);
      FirstNumbered(s, i);
      forall k | 0 <= k < |Parts(s, i)|
        ensures Numbered(Parts(s, i)[k], i + k)
      {
        if k > 0 {
          assert Numbered(rest[k - 1], i + 1 + (k - 1));
        }
      }
    }
  }

  lemma {:induction false} NothingReassembled()
    ensures Reassembled([]) == []
  {}

  lemma {:induction false} OneMore(first: Item, rest: seq<Item>, h: seq<byte>)
    requires |first.data| == 1 + |h| && first.data[1..] == h
    requires forall k :: 0 <= k < |rest| ==> rest[k].data != []
    ensures Reassembled([first] + rest) == h + Reassembled(rest)
  {
    assert ([first] + rest)[1..] == rest;
  }

  lemma {:induction false} TailLength(s: seq<byte>)
    requires s != []
    ensures (|s| + 253) / 254 == 1 + (|Tail(s)| + 253) / 254
  {}

  lemma {:induction false} FirstNumbered(s: seq<byte>, i: nat)
    ensures Numbered(Item(TAG_SPECIFIC_DATA, [i % 256] + Head(s)), i)
    ensures ([i % 256] + Head(s))[1..] == Head(s)
  {}

  /** The sequence byte is the number of the part for all parts exactly up to 256 * 254 bytes of data. */
  lemma {:induction false} SequenceExactly(s: seq<byte>)
    ensures (forall k :: 0 <= k < |Parts(s, 0)| ==> Parts(s, 0)[k].data != [] && Parts(s, 0)[k].data[0] == k)
            <==> |s| <= 256 * 254
  {
    PartsReassemble(s, 0);
    var ps := Parts(s, 0);
    hide Parts;
    if |s| <= 256 * 254 {
      forall k | 0 <= k < |ps|
        ensures ps[k].data != [] && ps[k].data[0] == k
      {
        assert Numbered(ps[k], 0 + k);
      }
    } else {
      assert Numbered(ps[256], 0 + 256);
    }
  }
}
