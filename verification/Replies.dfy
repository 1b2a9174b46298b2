/**
 What the client reads: each server reply, as the sequence of takes that the run performs,
 and `readResponse` proved against it.
 */
module Replies {
  import opened Bytes
  import opened Xdr

  const OP_REJECT: int32 := 4
  const OP_RESPONSE: int32 := 9
  const OP_ACCEPT_DATA: int32 := 94
  const OP_COND_ACCEPT: int32 := 98

  /** An entry of the error text: a gds code, or a string of the status vector. */
  datatype ErrorText = Gds(code: int32) | Message(text: seq<byte>)

  /** How reading one reply ends. */
  datatype Outcome =
    | Accepted(data: seq<byte>, plugin: seq<byte>)
    | Answer(handle: int32)
    | ServerError(text: seq<ErrorText>)
    | Unexpected(op: int32)

  // ------------------------------------------------- the reading machine

  /** What an awaited integer is for. */
  datatype IntPlace =
    | ReplyOp | Version(op: int32) | Architecture(op: int32) | PacketType(op: int32)
    | Authenticated(data: seq<byte>, plugin: seq<byte>)
    | ResponseOp | Handle
    | Tag(handle: int32, text: seq<ErrorText>)
    | Code(handle: int32, text: seq<ErrorText>, tag: int32)

  /** What an awaited opaque is for. */
  datatype OpaquePlace =
    | PluginData | PluginName(data: seq<byte>) | Keys(data: seq<byte>, plugin: seq<byte>)
    | ResponseData(handle: int32)
    | Text(handle: int32, text: seq<ErrorText>)

  /** The three takes of `bytes()`. */
  datatype OpaqueStep = AtLength | AtBody(n: nat) | AtPadding(data: seq<byte>)

  /**
   Where the client is suspended. `Lost` stands for what follows a negative opaque length: what is read
   then depends on how many bytes have arrived, and not on the stream alone.
   */
  datatype Place =
    | IntAt(i: IntPlace)
    | BlobId(handle: int32)
    | OpaqueAt(o: OpaquePlace, step: OpaqueStep)
    | Got(outcome: Outcome)
    | Lost

  predicate Final(p: Place) {
    p.Got? || p.Lost?
  }

  /** The argument of the `take` the client is suspended in. */
  function Need(p: Place): nat {
    match p
    case IntAt(_) => 4
    case BlobId(_) => 8
    case OpaqueAt(_, AtLength) => 4
    case OpaqueAt(_, AtBody(n)) => n
    case OpaqueAt(_, AtPadding(d)) => Padding(|d|)
    case _ => 0
  }

  predicate Numeric(tag: int32) {
    tag == 1 || tag == 4 || tag == 19
  }

  function EndOfVector(handle: int32, text: seq<ErrorText>): Outcome {
    if text == [] then Answer(handle) else ServerError(text)
  }

  function AfterInt(i: IntPlace, v: int32): Place {
    match i
    case ReplyOp => if v == OP_REJECT then Got(Unexpected(v)) else IntAt(Version(v))
    case Version(op) => IntAt(Architecture(op))
    case Architecture(op) => IntAt(PacketType(op))
    case PacketType(op) =>
      if op != OP_COND_ACCEPT && op != OP_ACCEPT_DATA then Got(Unexpected(op))
      else OpaqueAt(PluginData, AtLength)
    case Authenticated(d, p) => OpaqueAt(Keys(d, p), AtLength)
    case ResponseOp => if v == OP_RESPONSE then IntAt(Handle) else Got(Unexpected(v))
    case Handle => BlobId(v)
    case Tag(h, text) =>
      if v == 0 then Got(EndOfVector(h, text))
      else if Numeric(v) then IntAt(Code(h, text, v))
      else OpaqueAt(Text(h, text), AtLength)
    case Code(h, text, t) =>
      IntAt(Tag(h, if t == 1 && v != 0 then text + [Gds(v)] else text))
  }

  function AfterOpaque(o: OpaquePlace, d: seq<byte>): Place {
    match o
    case PluginData => OpaqueAt(PluginName(d), AtLength)
    case PluginName(data) => IntAt(Authenticated(data, d))
    case Keys(data, plugin) => Got(Accepted(data, plugin))
    case ResponseData(h) => IntAt(Tag(h, []))
    case Text(h, text) => IntAt(Tag(h, text + [Message(d)]))
  }

  /** Where the client is after the `take` it was suspended in returned `b`. */
  function Next(p: Place, b: seq<byte>): Place
    requires !Final(p) && |b| == Need(p)
  {
    match p
    case IntAt(i) => AfterInt(i, DecodeInt(b))
    case BlobId(h) => OpaqueAt(ResponseData(h), AtLength)
    case OpaqueAt(o, AtLength) =>
      var n := DecodeInt(b);
      if n < 0 then Lost else OpaqueAt(o, AtBody(n))
    case OpaqueAt(o, AtBody(_)) => OpaqueAt(o, AtPadding(b))
    case OpaqueAt(o, AtPadding(d)) => AfterOpaque(o, d)
  }

  /** How many takes of zero bytes can follow one another. */
  function Slack(p: Place): nat {
    match p
    case OpaqueAt(_, AtBody(_)) => 2
    case OpaqueAt(_, AtPadding(_)) => 1
    case _ => 0
  }

  /** Take as long as the stream holds enough: the place reached and the bytes left. */
  function Feed(p: Place, s: seq<byte>): (r: (Place, seq<byte>))
    decreases |s|, Slack(p)
  {
    if Final(p) || |s| < Need(p) then (p, s)
    else Feed(Next(p, s[..Need(p)]), s[Need(p)..])
  }

  /** Feeding in two arrivals is feeding at once. */
  lemma {:induction false} FeedSplits(p: Place, s: seq<byte>, more: seq<byte>)
    ensures Feed(p, s + more) == Feed(Feed(p, s).0, Feed(p, s).1 + more)
    decreases |s|, Slack(p)
  {
    hide DecodeInt, AfterInt;
    if !Final(p) && |s| >= Need(p) {
      var n := Need(p);
      FeedSplits(Next(p, s[..n]), s[n..], more);
      SplitAt(s, more, n);
    }
  }

  lemma {:induction false} SplitAt(s: seq<byte>, more: seq<byte>, n: nat)
    requires n <= |s|
    ensures (s + more)[..n] == s[..n] && (s + more)[n..] == s[n..] + more
  {}

  /** Taking what a place needs is one step of feeding. */
  lemma {:induction false} FeedTake(start: Place, taken: seq<byte>, p: Place, b: seq<byte>)
    requires Feed(start, taken) == Feed(p, []) && !Final(p) && |b| == Need(p)
    ensures Feed(start, taken + b) == Feed(Next(p, b), [])
  {
    FeedSplits(start, taken, b);
    FeedSplits(p, [], b);
    assert [] + b == b && b[..Need(p)] == b && b[Need(p)..] == [];
  }

  /** `bytes()` on the stream is one step of the machine, or a wait. */
  lemma {:induction false} FeedOpaque(o: OpaquePlace, s: seq<byte>)
    requires !NegativeLength(s)
    ensures var parsed, end := ParseOpaque(s), Feed(OpaqueAt(o, AtLength), s);
            if parsed.Some? then end == Feed(AfterOpaque(o, parsed.value.0), parsed.value.1)
            else !Final(end.0)
  {
    if |s| >= 4 {
      var n, t := DecodeInt(s[..4]), s[4..];
      assert Feed(OpaqueAt(o, AtLength), s) == Feed(OpaqueAt(o, AtBody(n)), t);
      if |t| >= n {
        assert Feed(OpaqueAt(o, AtBody(n)), t) == Feed(OpaqueAt(o, AtPadding(t[..n])), t[n..]);
        assert t[..n] == s[4..4 + n];
        if |t[n..]| >= Padding(n) {
          assert t[n..][Padding(n)..] == s[4 + n + Padding(n)..];
        }
      }
    }
  }

  lemma {:induction false} FeedNegative(o: OpaquePlace, s: seq<byte>)
    requires NegativeLength(s)
    ensures Feed(OpaqueAt(o, AtLength), s) == (Lost, s[4..])
  {}

  // -------------------------------------------------------------- replies

  datatype StatusItem = Number(tag: int32, value: int32) | Str(tag: int32, text: seq<byte>)

  predicate WellTagged(i: StatusItem) {
    match i
    case Number(t, _) => Numeric(t)
    case Str(t, s) => t != 0 && !Numeric(t) && FitsInt32(|s|)
  }

  predicate AllTagged(v: seq<StatusItem>) {
    forall k :: 0 <= k < |v| ==> WellTagged(v[k])
  }

  function EncodeItem(i: StatusItem): seq<byte>
    requires WellTagged(i)
  {
    match i
    case Number(t, v) => EncodeInt(t) + EncodeInt(v)
    case Str(t, s) => EncodeInt(t) + EncodeOpaque(s)
  }

  /** The status vector: tagged items, closed by isc_arg_end. */
  function EncodeVector(v: seq<StatusItem>): seq<byte>
    requires AllTagged(v)
  {
    if v == [] then EncodeInt(0) else EncodeItem(v[0]) + EncodeVector(v[1..])
  }

  /** The items that make a response an error: non-zero gds codes, and strings of any kind. */
  predicate Complains(i: StatusItem) {
    i.Str? || (i.tag == 1 && i.value != 0)
  }

  function Complaint(i: StatusItem): ErrorText {
    if i.Str? then Message(i.text) else Gds(i.value)
  }

  function Complaints(v: seq<StatusItem>): seq<ErrorText> {
    if v == [] then []
    else (if Complains(v[0]) then [Complaint(v[0])] else []) + Complaints(v[1..])
  }

  lemma {:induction false} ComplaintsAppear(v: seq<StatusItem>)
    ensures Complaints(v) != [] <==> exists k :: 0 <= k < |v| && Complains(v[k])
  {
    if v != [] {
      ComplaintsAppear(v[1..]);
      if Complains(v[0]) {
      } else if Complaints(v) != [] {
        var k :| 0 <= k < |v[1..]| && Complains(v[1..][k]);
        assert Complains(v[k + 1]);
      } else {
        forall k | 0 <= k < |v|
          ensures !Complains(v[k])
        {
          assert k > 0 ==> v[k] == v[1..][k - 1];
        }
      }
    }
  }

  datatype Reply =
    | Accept(op: int32, version: int32, architecture: int32, ptype: int32,
             data: seq<byte>, plugin: seq<byte>, authenticated: int32, keys: seq<byte>)
    | Response(handle: int32, blobId: seq<byte>, data: seq<byte>, vector: seq<StatusItem>)
    | Other(op: int32, rest: seq<byte>)

  /** A well-formed reply to op_connect: an acceptance, or any packet with another opcode. */
  predicate ConnectReply(r: Reply) {
    match r
    case Accept(op, _, _, _, d, p, _, k) =>
      && (op == OP_COND_ACCEPT || op == OP_ACCEPT_DATA)
      && FitsInt32(|d|) && FitsInt32(|p|) && FitsInt32(|k|)
    case Other(op, _) => op != OP_COND_ACCEPT && op != OP_ACCEPT_DATA
    case Response(_, _, _, _) => false
  }

  /**
   The client takes three integers before it looks at an opcode that is not op_reject. A foreign packet with
   fewer bytes than that after its opcode is never refused: the client waits for the rest of it.
   */
  predicate Stalls(r: Reply) {
    r.Other? && r.op != OP_REJECT && |r.rest| < 12
  }

  /** A well-formed reply to any later request: a response, or a packet with another opcode. */
  predicate RequestReply(r: Reply) {
    match r
    case Response(_, b, d, v) => |b| == 8 && FitsInt32(|d|) && AllTagged(v)
    case Other(op, _) => op != OP_RESPONSE
    case Accept(_, _, _, _, _, _, _, _) => false
  }

  function EncodeReply(r: Reply): seq<byte>
    requires ConnectReply(r) || RequestReply(r)
  {
    match r
    case Accept(op, v, a, t, d, p, au, k) =>
      EncodeInt(op) + (EncodeInt(v) + (EncodeInt(a) + (EncodeInt(t) +
      (EncodeOpaque(d) + (EncodeOpaque(p) + (EncodeInt(au) + EncodeOpaque(k)))))))
    case Response(h, b, d, v) =>
      EncodeInt(OP_RESPONSE) + (EncodeInt(h) + (b + (EncodeOpaque(d) + EncodeVector(v))))
    case Other(op, rest) => EncodeInt(op) + rest
  }

  /** What a reply means, said without the reading machine. */
  function Meaning(r: Reply): Outcome {
    match r
    case Accept(_, _, _, _, d, p, _, _) => Accepted(d, p)
    case Response(h, _, _, v) => EndOfVector(h, Complaints(v))
    case Other(op, _) => Unexpected(op)
  }

  lemma {:induction false} FeedInt(i: IntPlace, v: int32, rest: seq<byte>)
    ensures Feed(IntAt(i), EncodeInt(v) + rest) == Feed(AfterInt(i, v), rest)
  {
    DecodeEncodeInt(v);
    hide EncodeInt, DecodeInt, AfterInt;
    var s := EncodeInt(v) + rest;
    assert s[..4] == EncodeInt(v) && s[4..] == rest;
  }

  lemma {:induction false} FeedEncodedOpaque(o: OpaquePlace, d: seq<byte>, rest: seq<byte>)
    requires FitsInt32(|d|)
    ensures Feed(OpaqueAt(o, AtLength), EncodeOpaque(d) + rest) == Feed(AfterOpaque(o, d), rest)
  {
    hide Feed;
    ParseEncodedField(OpaqueField(d), rest);
    FeedOpaque(o, EncodeOpaque(d) + rest);
  }

  lemma {:induction false} FeedItem(h: int32, text: seq<ErrorText>, i: StatusItem, rest: seq<byte>)
    requires WellTagged(i)
    ensures Feed(IntAt(Tag(h, text)), EncodeItem(i) + rest) ==
            Feed(IntAt(Tag(h, if Complains(i) then text + [Complaint(i)] else text)), rest)
  {
    hide Feed, EncodeInt, EncodeOpaque;
    match i
    case Number(t, v) =>
      assert EncodeItem(i) + rest == EncodeInt(t) + (EncodeInt(v) + rest);
      FeedInt(Tag(h, text), t, EncodeInt(v) + rest);
      FeedInt(Code(h, text, t), v, rest);
    case Str(t, s) =>
      assert EncodeItem(i) + rest == EncodeInt(t) + (EncodeOpaque(s) + rest);
      FeedInt(Tag(h, text), t, EncodeOpaque(s) + rest);
      FeedEncodedOpaque(Text(h, text), s, rest);
  }

  lemma {:induction false} ComplaintsNext(text: seq<ErrorText>, v: seq<StatusItem>)
    requires v != []
    ensures (if Complains(v[0]) then text + [Complaint(v[0])] else text) + Complaints(v[1..]) ==
            text + Complaints(v)
  {
    hide Complains, Complaint;
    var first := if Complains(v[0]) then [Complaint(v[0])] else [];
    assert Complaints(v) == first + Complaints(v[1..]);
    hide Complaints;
    assert (text + first) + Complaints(v[1..]) == text + (first + Complaints(v[1..]));
    assert text + first == if Complains(v[0]) then text + [Complaint(v[0])] else text;
  }

  lemma {:induction false} FeedVector(h: int32, text: seq<ErrorText>, v: seq<StatusItem>, rest: seq<byte>)
    requires AllTagged(v)
    ensures Feed(IntAt(Tag(h, text)), EncodeVector(v) + rest) ==
            (Got(EndOfVector(h, text + Complaints(v))), rest)
    decreases |v|
  {
    if v == [] {
      FeedInt(Tag(h, text), 0, rest);
      assert text + Complaints(v) == text;
    } else {
      hide Feed, EncodeItem, Complains, Complaint, Complaints;
      var tail := EncodeVector(v[1..]) + rest;
      assert EncodeVector(v) + rest == EncodeItem(v[0]) + tail;
      FeedItem(h, text, v[0], tail);
      FeedVector(h, if Complains(v[0]) then text + [Complaint(v[0])] else text, v[1..], rest);
      ComplaintsNext(text, v);
    }
  }

  /** One encoded response is consumed exactly, from its opcode to isc_arg_end. */
  lemma {:induction false} FeedResponse(r: Reply, rest: seq<byte>)
    requires r.Response? && RequestReply(r)
    ensures Feed(IntAt(ResponseOp), EncodeReply(r) + rest) == (Got(Meaning(r)), rest)
  {
    hide EncodeInt, DecodeInt, EncodeOpaque, EncodeVector;
    var tail4 := EncodeVector(r.vector) + rest;
    var tail3 := EncodeOpaque(r.data) + tail4;
    var tail2 := r.blobId + tail3;
    var tail1 := EncodeInt(r.handle) + tail2;
    assert EncodeReply(r) + rest == EncodeInt(OP_RESPONSE) + tail1;
    FeedInt(ResponseOp, OP_RESPONSE, tail1);
    FeedInt(Handle, r.handle, tail2);
    assert tail2[..8] == r.blobId && tail2[8..] == tail3;
    FeedEncodedOpaque(ResponseData(r.handle), r.data, tail4);
    FeedVector(r.handle, [], r.vector, rest);
    assert [] + Complaints(r.vector) == Complaints(r.vector);
  }

  lemma {:induction false} FeedAcceptTail(op: int32, r: Reply, rest: seq<byte>)
    requires r.Accept? && ConnectReply(r) && op == r.op
    ensures Feed(IntAt(PacketType(op)),
                 EncodeInt(r.ptype) + (EncodeOpaque(r.data) + (EncodeOpaque(r.plugin) +
                 (EncodeInt(r.authenticated) + (EncodeOpaque(r.keys) + rest))))) ==
            (Got(Meaning(r)), rest)
  {
    hide EncodeInt, EncodeOpaque, DecodeInt, Next;
    var t7 := EncodeOpaque(r.keys) + rest;
    var t6 := EncodeInt(r.authenticated) + t7;
    var t5 := EncodeOpaque(r.plugin) + t6;
    FeedInt(PacketType(r.op), r.ptype, EncodeOpaque(r.data) + t5);
    FeedEncodedOpaque(PluginData, r.data, t5);
    FeedEncodedOpaque(PluginName(r.data), r.plugin, t6);
    FeedInt(Authenticated(r.data, r.plugin), r.authenticated, t7);
    FeedEncodedOpaque(Keys(r.data, r.plugin), r.keys, rest);
  }

  lemma {:induction false} FeedAccept(r: Reply, rest: seq<byte>)
    requires r.Accept? && ConnectReply(r)
    ensures Feed(IntAt(ReplyOp), EncodeReply(r) + rest) == (Got(Meaning(r)), rest)
  {
    hide Feed, EncodeInt, EncodeOpaque;
    var t3 := EncodeInt(r.ptype) + (EncodeOpaque(r.data) + (EncodeOpaque(r.plugin) +
              (EncodeInt(r.authenticated) + (EncodeOpaque(r.keys) + rest))));
    var t2 := EncodeInt(r.architecture) + t3;
    var t1 := EncodeInt(r.version) + t2;
    assert EncodeReply(r) + rest == EncodeInt(r.op) + t1;
    FeedInt(ReplyOp, r.op, t1);
    FeedInt(Version(r.op), r.version, t2);
    FeedInt(Architecture(r.op), r.architecture, t3);
    FeedAcceptTail(r.op, r, rest);
  }

  lemma {:induction false} FeedRefused(r: Reply)
    requires r.Other? && ConnectReply(r)
    ensures var end := Feed(IntAt(ReplyOp), EncodeReply(r)).0;
            if Stalls(r) then !Final(end) else end == Got(Meaning(r))
  {
    FeedInt(ReplyOp, r.op, r.rest);
    if r.op != OP_REJECT {
      FeedForeign(r.op, r.rest);
    }
  }

  /** Three integers, and only then the refusal. */
  lemma {:induction false} FeedForeign(op: int32, s: seq<byte>)
    requires op != OP_COND_ACCEPT && op != OP_ACCEPT_DATA
    ensures var end := Feed(IntAt(Version(op)), s);
            if |s| < 12 then !Final(end.0) else end == (Got(Unexpected(op)), s[12..])
  {
    hide DecodeInt;
    if |s| >= 4 {
      var s1 := s[4..];
      assert Feed(IntAt(Version(op)), s) == Feed(IntAt(Architecture(op)), s1);
      if |s| >= 8 {
        var s2 := s1[4..];
        assert Feed(IntAt(Architecture(op)), s1) == Feed(IntAt(PacketType(op)), s2);
        if |s| >= 12 {
          assert Feed(IntAt(PacketType(op)), s2) == Feed(Got(Unexpected(op)), s2[4..]);
          assert s2[4..] == s[12..];
        }
      }
    }
  }

  /** op_reject by its number. */
  lemma {:induction false} FeedRejectField(rest: seq<byte>)
    ensures Feed(IntAt(ReplyOp), EncodeInt(4) + rest) == (Got(Unexpected(4)), rest)
  {
    FeedInt(ReplyOp, 4, rest);
  }

  /** An acceptance written field by field, with the protocol's opcodes: the client gets the fifth and sixth field. */
  lemma {:induction false} FeedAcceptFields(op: int32, v: int32, a: int32, t: int32, d: seq<byte>, p: seq<byte>,
                                            au: int32, k: seq<byte>, rest: seq<byte>)
    requires (op == 98 || op == 94) && FitsInt32(|d|) && FitsInt32(|p|) && FitsInt32(|k|)
    ensures Feed(IntAt(ReplyOp), EncodeInt(op) + (EncodeInt(v) + (EncodeInt(a) + (EncodeInt(t) + (EncodeOpaque(d) +
                 (EncodeOpaque(p) + (EncodeInt(au) + (EncodeOpaque(k) + rest)))))))) == (Got(Accepted(d, p)), rest)
  {
    hide Feed, EncodeInt, EncodeOpaque, AfterInt;
    var r := Accept(op, v, a, t, d, p, au, k);
    FeedAccept(r, rest);
    AcceptFields(EncodeInt(op), EncodeInt(v), EncodeInt(a), EncodeInt(t), EncodeOpaque(d), EncodeOpaque(p), EncodeInt(au),
                 EncodeOpaque(k), rest);
  }

  lemma {:induction false} AcceptFields(a: seq<byte>, b: seq<byte>, c: seq<byte>, d: seq<byte>, e: seq<byte>, f: seq<byte>,
                                        g: seq<byte>, h: seq<byte>, rest: seq<byte>)
    ensures (a + (b + (c + (d + (e + (f + (g + h))))))) + rest == a + (b + (c + (d + (e + (f + (g + (h + rest)))))))
  {}

  /**
   A failure written field by field: a gds code, a string of any kind, a number, a warning and the end. The
   client throws the code and the string; without them it returns the handle.
   */
  lemma {:induction false} FeedFailureFields(h: int32, b: seq<byte>, d: seq<byte>, code: int32, text: seq<byte>, n: int32,
                                             m: int32, rest: seq<byte>, t: int32)
    requires t != 0 && t != 1 && t != 4 && t != 19
    requires |b| == 8 && FitsInt32(|d|) && FitsInt32(|text|) && code != 0
    ensures var head := EncodeInt(9) + (EncodeInt(h) + (b + EncodeOpaque(d)));
            var plain := EncodeInt(4) + EncodeInt(n) + (EncodeInt(19) + EncodeInt(m) + EncodeInt(0));
            && Feed(IntAt(ResponseOp), head + ((EncodeInt(1) + EncodeInt(code) + (EncodeInt(t) + EncodeOpaque(text) + plain))
                    + rest)) == (Got(ServerError([Gds(code), Message(text)])), rest)
            && Feed(IntAt(ResponseOp), head + (plain + rest)) == (Got(Answer(h)), rest)
  {
    hide Feed, EncodeInt, EncodeOpaque, Complaints;
    var i1, i2, i3, i4 := Number(1, code), Str(t, text), Number(4, n), Number(19, m);
    VectorOfTwo(i3, i4);
    VectorThen(i2, [i3, i4]);
    VectorThen(i1, [i2, i3, i4]);
    assert [i2] + [i3, i4] == [i2, i3, i4] && [i1] + [i2, i3, i4] == [i1, i2, i3, i4];
    assert Complaints([i1, i2, i3, i4]) == [Gds(code)] + ([Message(text)] + []) == [Gds(code), Message(text)];
    assert EncodeVector([i1, i2, i3, i4]) == EncodeItem(i1) + (EncodeItem(i2) + EncodeVector([i3, i4]));
    var r1, r2 := Response(h, b, d, [i1, i2, i3, i4]), Response(h, b, d, [i3, i4]);
    FeedResponse(r1, rest);
    FeedResponse(r2, rest);
    HeadAndVector(EncodeInt(9), EncodeInt(h), b, EncodeOpaque(d), EncodeVector(r1.vector), rest);
    HeadAndVector(EncodeInt(9), EncodeInt(h), b, EncodeOpaque(d), EncodeVector(r2.vector), rest);
  }

  lemma {:induction false} HeadAndVector(a: seq<byte>, b: seq<byte>, c: seq<byte>, d: seq<byte>, v: seq<byte>, rest: seq<byte>)
    ensures (a + (b + (c + (d + v)))) + rest == (a + (b + (c + d))) + (v + rest)
  {}

  lemma {:induction false} VectorThen(i: StatusItem, v: seq<StatusItem>)
    requires WellTagged(i) && AllTagged(v)
    ensures AllTagged([i] + v) && EncodeVector([i] + v) == EncodeItem(i) + EncodeVector(v)
    ensures Complaints([i] + v) == (if Complains(i) then [Complaint(i)] else []) + Complaints(v)
  {
    hide EncodeItem, Complains, Complaint, WellTagged;
    assert ([i] + v)[1..] == v;
  }

  lemma {:induction false} VectorOfTwo(i: StatusItem, j: StatusItem)
    requires WellTagged(i) && WellTagged(j) && !Complains(i) && !Complains(j)
    ensures AllTagged([i, j]) && EncodeVector([i, j]) == EncodeItem(i) + (EncodeItem(j) + EncodeInt(0))
    ensures Complaints([i, j]) == []
  {
    hide EncodeItem, Complaint, WellTagged, Complains, EncodeInt;
    VectorThen(j, []);
    VectorThen(i, [j]);
    assert [i] + [j] == [i, j] && [j] + [] == [j];
  }

  lemma {:induction false} FeedOther(r: Reply)
    requires r.Other? && RequestReply(r)
    ensures Feed(IntAt(ResponseOp), EncodeReply(r)).0 == Got(Meaning(r))
  {
    FeedInt(ResponseOp, r.op, r.rest);
  }

  // --------------------------------------------------------- readResponse

  /** How reading a reply ends. */
  datatype Read =
    | Returned(handle: int32) | Threw(text: seq<ErrorText>)
    | Offered(data: seq<byte>, plugin: seq<byte>) | Refused(op: int32)
    | Waiting | Crashed

  /** A read agrees with the machine: same end, same bytes left; waiting only where the machine waits. */
  predicate Agrees(a: Read, end: (Place, seq<byte>), left: seq<byte>) {
    match a
    case Returned(h) => end == (Got(Answer(h)), left)
    case Threw(text) => end == (Got(ServerError(text)), left)
    case Offered(d, p) => end == (Got(Accepted(d, p)), left)
    case Refused(op) => end == (Got(Unexpected(op)), left)
    case Waiting => !Final(end.0)
    case Crashed => false
  }

  lemma {:induction false} FeedParsedInt(i: IntPlace, s: seq<byte>)
    ensures var parsed, end := ParseInt(s), Feed(IntAt(i), s);
            if parsed.Some? then end == Feed(AfterInt(i, parsed.value.0), parsed.value.1)
            else !Final(end.0)
  {}

  /** The reader stands where the machine does: feeding what is left leads to the same end. */
  ghost predicate Tracks(r: Reader, p: Place, end: (Place, seq<byte>))
    requires r.Valid()
    reads r, r.Footprint()
  {
    end.0 != Lost ==> r.Consistent() && end == Feed(p, r.Stream())
  }

  /** A read that did not complete: only where the machine waits too, unless the machine is lost. */
  ghost predicate Suspended<T>(v: Await<T>, end: (Place, seq<byte>)) {
    end.0 != Lost ==> v.Blocked? && !Final(end.0)
  }

  method TrackedInt(r: Reader, ghost i: IntPlace, ghost end: (Place, seq<byte>)) returns (v: Await<int32>)
    requires r.Valid() && Tracks(r, IntAt(i), end)
    modifies r.Footprint()
    ensures r.Valid() && r.dec == old(r.dec)
    ensures EndsWith(old(r.Stream()), r.Stream())
    ensures v.Ready? ==> |r.Stream()| < |old(r.Stream())|
    ensures if v.Ready? then Tracks(r, AfterInt(i, v.value), end) else Suspended(v, end)
  {
    FeedParsedInt(i, r.Stream());
    v := r.Int();
  }

  method TrackedOpaque(r: Reader, ghost o: OpaquePlace, ghost end: (Place, seq<byte>)) returns (v: Await<seq<byte>>)
    requires r.Valid() && Tracks(r, OpaqueAt(o, AtLength), end)
    modifies r.Footprint()
    ensures r.Valid() && r.dec == old(r.dec)
    ensures EndsWith(old(r.Stream()), r.Stream())
    ensures if v.Ready? then Tracks(r, AfterOpaque(o, v.value), end) else Suspended(v, end)
  {
    ghost var s := r.Stream();
    if NegativeLength(s) {
      FeedNegative(o, s);
    } else {
      FeedOpaque(o, s);
    }
    v := r.Opaque();
  }

  method TrackedBlobId(r: Reader, ghost h: int32, ghost end: (Place, seq<byte>)) returns (v: Await<seq<byte>>)
    requires r.Valid() && Tracks(r, BlobId(h), end)
    modifies r.Footprint()
    ensures r.Valid() && r.dec == old(r.dec)
    ensures EndsWith(old(r.Stream()), r.Stream())
    ensures if v.Ready? then Tracks(r, OpaqueAt(ResponseData(h), AtLength), end) else Suspended(v, end)
  {
    hide Feed, Reader.Stream, Reader.Footprint, Reader.Cipherprint;
    ghost var s := r.Stream();
    FeedBlobId(h, s);
    v := r.Take(8);
    assert v.Ready? && r.Consistent() && |v.value| == 8 ==> s[..8] == v.value && s[8..] == r.Stream();
  }

  lemma {:induction false} FeedBlobId(h: int32, s: seq<byte>)
    ensures var end := Feed(BlobId(h), s);
            if |s| >= 8 then end == Feed(OpaqueAt(ResponseData(h), AtLength), s[8..]) else !Final(end.0)
  {}

  /** One round of the status-vector loop; `more` says that the loop goes on. */
  method ReadItem(r: Reader, handle: int32, text: seq<ErrorText>, ghost end: (Place, seq<byte>))
    returns (more: bool, text': seq<ErrorText>, a: Read)
    requires r.Valid() && Tracks(r, IntAt(Tag(handle, text)), end)
    modifies r.Footprint()
    ensures r.Valid() && r.dec == old(r.dec)
    ensures EndsWith(old(r.Stream()), r.Stream())
    ensures more ==> |r.Stream()| < |old(r.Stream())| && Tracks(r, IntAt(Tag(handle, text')), end)
    ensures !more && end.0 != Lost ==> Agrees(a, end, r.Stream()) && (!a.Waiting? ==> r.Consistent())
  {
    hide Reader.Stream, Reader.Footprint, Reader.Cipherprint, EndsWith;
    more, text', a := false, text, Crashed;
    ghost var s := r.Stream();
    var t := TrackedInt(r, Tag(handle, text), end);
    ghost var s1 := r.Stream();
    if !t.Ready? {
      a := if t.Blocked? then Waiting else Crashed;
    } else if t.value == 0 {
      a := if text != [] then Threw(text) else Returned(handle);
    } else if t.value == 1 || t.value == 4 || t.value == 19 {
      var c := TrackedInt(r, Code(handle, text, t.value), end);
      EndsTransitive(s, s1, r.Stream());
      if !c.Ready? {
        a := if c.Blocked? then Waiting else Crashed;
      } else {
        more := true;
        if t.value == 1 && c.value != 0 {
          text' := text + [Gds(c.value)];
        }
      }
    } else {
      var m := TrackedOpaque(r, Text(handle, text), end);
      EndsTransitive(s, s1, r.Stream());
      EndsShorter(s1, r.Stream());
      if !m.Ready? {
        a := if m.Blocked? then Waiting else Crashed;
      } else {
        more, text' := true, text + [Message(m.value)];
      }
    }
  }

  /** Blob id and data of a response. */
  method ReadData(r: Reader, ghost h: int32, ghost end: (Place, seq<byte>)) returns (d: Await<seq<byte>>)
    requires r.Valid() && Tracks(r, BlobId(h), end)
    modifies r.Footprint()
    ensures r.Valid() && r.dec == old(r.dec)
    ensures EndsWith(old(r.Stream()), r.Stream())
    ensures if d.Ready? then Tracks(r, IntAt(Tag(h, [])), end) else Suspended(d, end)
  {
    hide Feed, Reader.Stream, Reader.Consistent, Reader.Footprint, Reader.Cipherprint, EndsWith, Suspended, Tracks;
    ghost var s := r.Stream();
    d := TrackedBlobId(r, h, end);
    if d.Ready? {
      ghost var s1 := r.Stream();
      d := TrackedOpaque(r, ResponseData(h), end);
      EndsTransitive(s, s1, r.Stream());
    }
  }

  /** The fixed part of a response: handle, blob id, data. */
  method ReadHead(r: Reader, ghost end: (Place, seq<byte>)) returns (h: Await<int32>)
    requires r.Valid() && Tracks(r, IntAt(Handle), end)
    modifies r.Footprint()
    ensures r.Valid() && r.dec == old(r.dec)
    ensures EndsWith(old(r.Stream()), r.Stream())
    ensures if h.Ready? then Tracks(r, IntAt(Tag(h.value, [])), end) else Suspended(h, end)
  {
    hide Feed, Reader.Stream, Reader.Footprint, Reader.Cipherprint, EndsWith;
    ghost var s := r.Stream();
    h := TrackedInt(r, Handle, end);
    if h.Ready? {
      ghost var s1 := r.Stream();
      var data := ReadData(r, h.value, end);
      EndsTransitive(s, s1, r.Stream());
      if !data.Ready? {
        h := if data.Blocked? then Blocked else RangeError;
      }
    }
  }

  /** The status-vector loop; every round takes at least four bytes, so it ends. */
  method ReadVector(r: Reader, handle: int32, ghost end: (Place, seq<byte>)) returns (a: Read)
    requires r.Valid() && Tracks(r, IntAt(Tag(handle, [])), end)
    modifies r.Footprint()
    ensures r.Valid() && r.dec == old(r.dec)
    ensures EndsWith(old(r.Stream()), r.Stream())
    ensures end.0 != Lost ==> Agrees(a, end, r.Stream()) && (!a.Waiting? ==> r.Consistent())
  {
    hide Feed, Tracks, Agrees, Reader.Stream, Reader.Consistent, Reader.Footprint, Reader.Cipherprint, EndsWith;
    ghost var s := r.Stream();
    var text, more := [], true;
    a := Waiting;
    EndsNow(s);
    while more
      invariant r.Valid() && r.dec == old(r.dec)
      invariant more ==> Tracks(r, IntAt(Tag(handle, text)), end)
      invariant !more && end.0 != Lost ==> Agrees(a, end, r.Stream()) && (!a.Waiting? ==> r.Consistent())
      invariant EndsWith(s, r.Stream())
      decreases more, |r.Stream()|
    {
      ghost var s1 := r.Stream();
      more, text, a := ReadItem(r, handle, text, end);
      EndsTransitive(s, s1, r.Stream());
    }
  }

  /** The response reader; whatever the lengths say it comes to an end, with what is left of the stream. */
  method ReadResponse(r: Reader) returns (a: Read)
    requires r.Valid() && r.Consistent()
    modifies r.Footprint()
    ensures r.Valid() && r.dec == old(r.dec)
    ensures EndsWith(old(r.Stream()), r.Stream())
    ensures var end := Feed(IntAt(Handle), old(r.Stream()));
            end.0 != Lost ==> Agrees(a, end, r.Stream()) && (!a.Waiting? ==> r.Consistent())
  {
    hide Feed, Reader.Stream, Reader.Consistent, Reader.Footprint, Reader.Cipherprint, EndsWith;
    ghost var s, end := r.Stream(), Feed(IntAt(Handle), r.Stream());
    var handle := ReadHead(r, end);
    if !handle.Ready? {
      return if handle.Blocked? then Waiting else Crashed;
    }
    ghost var s1 := r.Stream();
    a := ReadVector(r, handle.value, end);
    EndsTransitive(s, s1, r.Stream());
  }

  /** Every later request awaits its reply this way: the opcode, then a response, or an exception. */
  method AwaitResponse(r: Reader) returns (a: Read)
    requires r.Valid() && r.Consistent()
    modifies r.Footprint()
    ensures r.Valid() && r.dec == old(r.dec)
    ensures EndsWith(old(r.Stream()), r.Stream())
    ensures var end := Feed(IntAt(ResponseOp), old(r.Stream()));
            end.0 != Lost ==> Agrees(a, end, r.Stream()) && (!a.Waiting? ==> r.Consistent())
  {
    hide Feed, Reader.Stream, Reader.Consistent, Reader.Footprint, Reader.Cipherprint, EndsWith;
    ghost var s, end := r.Stream(), Feed(IntAt(ResponseOp), r.Stream());
    FeedParsedInt(ResponseOp, s);
    var op := r.Int();
    if !op.Ready? {
      return if op.Blocked? then Waiting else Crashed;
    }
    ghost var s1 := r.Stream();
    FeedOpcode(op.value, s1);
    if op.value != OP_RESPONSE {
      return Refused(op.value);
    }
    a := ReadResponse(r);
    EndsTransitive(s, s1, r.Stream());
  }

  lemma {:induction false} FeedOpcode(op: int32, s: seq<byte>)
    ensures Feed(AfterInt(ResponseOp, op), s) ==
            if op == OP_RESPONSE then Feed(IntAt(Handle), s) else (Got(Unexpected(op)), s)
  {}

  /**
   One response on the stream, with anything after it: the client gets its handle, or throws exactly its
   complaints, which there are exactly if some item of its vector complains; then just the rest is left.
   */
  method ReadOneResponse(r: Reader, ghost reply: Reply, ghost rest: seq<byte>) returns (a: Read)
    requires r.Valid() && r.Consistent()
    requires reply.Response? && RequestReply(reply) && r.Stream() == EncodeReply(reply) + rest
    modifies r.Footprint()
    ensures r.Valid() && r.Consistent() && r.dec == old(r.dec) && r.Stream() == rest
    ensures a == if exists k :: 0 <= k < |reply.vector| && Complains(reply.vector[k])
                 then Threw(Complaints(reply.vector)) else Returned(reply.handle)
  {
    hide Feed, Reader.Stream, Reader.Consistent, Reader.Footprint, Reader.Cipherprint, EndsWith, EncodeReply, RequestReply, Complains, Complaints;
    FeedResponse(reply, rest);
    ComplaintsAppear(reply.vector);
    a := AwaitResponse(r);
  }

  // ------------------------------------------------------- the acceptance

  /** Version, architecture and packet type, which are read before the opcode is looked at again. */
  method ReadVersions(r: Reader, ghost op: int32, ghost end: (Place, seq<byte>)) returns (v: Await<int32>)
    requires r.Valid() && Tracks(r, IntAt(Version(op)), end)
    modifies r.Footprint()
    ensures r.Valid() && r.dec == old(r.dec)
    ensures EndsWith(old(r.Stream()), r.Stream())
    ensures if v.Ready? then Tracks(r, AfterInt(PacketType(op), v.value), end) else Suspended(v, end)
  {
    hide Feed, Tracks, Suspended, Reader.Stream, Reader.Consistent, Reader.Footprint, Reader.Cipherprint, EndsWith;
    ghost var s := r.Stream();
    v := TrackedInt(r, Version(op), end);
    if v.Ready? {
      ghost var s1 := r.Stream();
      v := TrackedInt(r, Architecture(op), end);
      EndsTransitive(s, s1, r.Stream());
      if v.Ready? {
        ghost var s2 := r.Stream();
        v := TrackedInt(r, PacketType(op), end);
        EndsTransitive(s, s2, r.Stream());
      }
    }
  }

  /** Plugin data and name. */
  method ReadPlugin(r: Reader, ghost end: (Place, seq<byte>)) returns (data: Await<seq<byte>>, plugin: Await<seq<byte>>)
    requires r.Valid() && Tracks(r, OpaqueAt(PluginData, AtLength), end)
    modifies r.Footprint()
    ensures r.Valid() && r.dec == old(r.dec)
    ensures EndsWith(old(r.Stream()), r.Stream())
    ensures if plugin.Ready? then data.Ready? && Tracks(r, IntAt(Authenticated(data.value, plugin.value)), end)
            else Suspended(plugin, end)
  {
    hide Feed, Tracks, Suspended, Reader.Stream, Reader.Consistent, Reader.Footprint, Reader.Cipherprint, EndsWith;
    ghost var s := r.Stream();
    data := TrackedOpaque(r, PluginData, end);
    plugin := data;
    if data.Ready? {
      ghost var s1 := r.Stream();
      plugin := TrackedOpaque(r, PluginName(data.value), end);
      EndsTransitive(s, s1, r.Stream());
    }
  }

  /** The read ended where the machine does, with the counter right if it ended at all. */
  ghost predicate Ends(r: Reader, a: Read, end: (Place, seq<byte>))
    requires r.Valid()
    reads r, r.Footprint()
  {
    end.0 != Lost ==> Agrees(a, end, r.Stream()) && (!a.Waiting? ==> r.Consistent())
  }

  function Unread<T>(v: Await<T>): Read {
    if v.Blocked? then Waiting else Crashed
  }

  lemma {:induction false} EndsSuspended<T>(r: Reader, v: Await<T>, end: (Place, seq<byte>))
    requires r.Valid() && Suspended(v, end)
    ensures Ends(r, Unread(v), end)
  {}

  lemma {:induction false} EndsGot(r: Reader, a: Read, o: Outcome, end: (Place, seq<byte>))
    requires r.Valid() && Tracks(r, Got(o), end)
    requires (a.Offered? && o == Accepted(a.data, a.plugin)) || (a.Refused? && o == Unexpected(a.op))
    ensures Ends(r, a, end)
  {}

  /** What follows the three integers of an acceptance; the flag and the keys at its end are not used. */
  method ReadOffer(r: Reader, ghost end: (Place, seq<byte>)) returns (a: Read)
    requires r.Valid() && Tracks(r, OpaqueAt(PluginData, AtLength), end)
    modifies r.Footprint()
    ensures r.Valid() && r.dec == old(r.dec)
    ensures EndsWith(old(r.Stream()), r.Stream()) && Ends(r, a, end)
  {
    hide Feed, Tracks, Suspended, Agrees, Ends, Unread, Reader.Stream, Reader.Consistent, Reader.Footprint,
         Reader.Cipherprint, EndsWith;
    ghost var s := r.Stream();
    var data, plugin := ReadPlugin(r, end);
    if !plugin.Ready? {
      EndsSuspended(r, plugin, end);
      return Unread(plugin);
    }
    ghost var s1 := r.Stream();
    var ok;
    ok, a := ReadFlag(r, data.value, plugin.value, end);
    ghost var s2 := r.Stream();
    EndsTransitive(s, s1, s2);
    if ok {
      a := ReadKeys(r, data.value, plugin.value, end);
      EndsTransitive(s, s2, r.Stream());
    }
  }

  method ReadFlag(r: Reader, ghost d: seq<byte>, ghost p: seq<byte>, ghost end: (Place, seq<byte>))
    returns (ok: bool, a: Read)
    requires r.Valid() && Tracks(r, IntAt(Authenticated(d, p)), end)
    modifies r.Footprint()
    ensures r.Valid() && r.dec == old(r.dec)
    ensures EndsWith(old(r.Stream()), r.Stream())
    ensures if ok then Tracks(r, OpaqueAt(Keys(d, p), AtLength), end) else Ends(r, a, end)
  {
    hide Feed, Tracks, Suspended, Agrees, Ends, Unread, Reader.Stream, Reader.Consistent, Reader.Footprint,
         Reader.Cipherprint, EndsWith;
    var authenticated := TrackedInt(r, Authenticated(d, p), end);
    ok, a := authenticated.Ready?, Unread(authenticated);
    if !ok {
      EndsSuspended(r, authenticated, end);
    }
  }

  method ReadKeys(r: Reader, d: seq<byte>, p: seq<byte>, ghost end: (Place, seq<byte>)) returns (a: Read)
    requires r.Valid() && Tracks(r, OpaqueAt(Keys(d, p), AtLength), end)
    modifies r.Footprint()
    ensures r.Valid() && r.dec == old(r.dec)
    ensures EndsWith(old(r.Stream()), r.Stream()) && Ends(r, a, end)
  {
    hide Feed, Tracks, Suspended, Agrees, Ends, Unread, Reader.Stream, Reader.Consistent, Reader.Footprint,
         Reader.Cipherprint, EndsWith;
    var keys := TrackedOpaque(r, Keys(d, p), end);
    if !keys.Ready? {
      EndsSuspended(r, keys, end);
      return Unread(keys);
    }
    a := Offered(d, p);
    EndsGot(r, a, Accepted(d, p), end);
  }

  method ReadAccept(r: Reader, reply: int32, ghost end: (Place, seq<byte>)) returns (a: Read)
    requires r.Valid() && Tracks(r, IntAt(Version(reply)), end)
    modifies r.Footprint()
    ensures r.Valid() && r.dec == old(r.dec)
    ensures EndsWith(old(r.Stream()), r.Stream()) && Ends(r, a, end)
  {
    hide Feed, Tracks, Suspended, Agrees, Ends, Unread, Reader.Stream, Reader.Consistent, Reader.Footprint,
         Reader.Cipherprint, EndsWith;
    ghost var s := r.Stream();
    var ptype := ReadVersions(r, reply, end);
    if !ptype.Ready? {
      EndsSuspended(r, ptype, end);
      return Unread(ptype);
    }
    if reply != OP_COND_ACCEPT && reply != OP_ACCEPT_DATA {
      a := Refused(reply);
      EndsGot(r, a, Unexpected(reply), end);
      return;
    }
    ghost var s1 := r.Stream();
    a := ReadOffer(r, end);
    EndsTransitive(s, s1, r.Stream());
  }

  /** The reply to op_connect is awaited this way: an acceptance, or an exception once enough of it is there. */
  method AwaitAcceptance(r: Reader) returns (a: Read)
    requires r.Valid() && r.Consistent()
    modifies r.Footprint()
    ensures r.Valid() && r.dec == old(r.dec)
    ensures EndsWith(old(r.Stream()), r.Stream())
    ensures var end := Feed(IntAt(ReplyOp), old(r.Stream()));
            end.0 != Lost ==> Agrees(a, end, r.Stream()) && (!a.Waiting? ==> r.Consistent())
  {
    hide Feed, Suspended, Agrees, Unread, Reader.Stream, Reader.Consistent, Reader.Footprint, Reader.Cipherprint, EndsWith;
    ghost var s, end := r.Stream(), Feed(IntAt(ReplyOp), r.Stream());
    var reply := TrackedInt(r, ReplyOp, end);
    if !reply.Ready? {
      EndsSuspended(r, reply, end);
      return Unread(reply);
    }
    if reply.value == OP_REJECT {
      a := Refused(reply.value);
      EndsGot(r, a, Unexpected(reply.value), end);
      return;
    }
    ghost var s1 := r.Stream();
    a := ReadAccept(r, reply.value, end);
    EndsTransitive(s, s1, r.Stream());
  }

  /**
   Any reply to op_connect, and nothing after it: an acceptance is taken apart, a foreign packet is refused,
   and the client waits exactly if the packet stalls.
   */
  method ReadOneAcceptance(r: Reader, ghost reply: Reply) returns (a: Read)
    requires r.Valid() && r.Consistent() && ConnectReply(reply) && r.Stream() == EncodeReply(reply)
    modifies r.Footprint()
    ensures r.Valid() && r.dec == old(r.dec)
    ensures a == if reply.Accept? then Offered(reply.data, reply.plugin)
                 else if Stalls(reply) then Waiting else Refused(reply.op)
    ensures reply.Accept? ==> r.Stream() == [] && r.Consistent()
  {
    hide Feed, Reader.Stream, Reader.Consistent, Reader.Footprint, Reader.Cipherprint, EndsWith, EncodeReply, Stalls;
    if reply.Accept? {
      FeedAccept(reply, []);
      assert EncodeReply(reply) + [] == EncodeReply(reply);
    } else {
      FeedRefused(reply);
    }
    a := AwaitAcceptance(r);
  }
}
