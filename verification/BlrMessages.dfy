/** BLR message declarations: the code of a message program, and the two loops that read short and text2 fields. */
module BlrMessages {
  import opened Bytes

  const BLR_BEGIN: byte := 2
  const BLR_MESSAGE: byte := 4
  const BLR_VERSION5: byte := 5
  const BLR_SHORT: byte := 7
  const BLR_LONG: byte := 8
  const BLR_TEXT: byte := 14
  const BLR_TEXT2: byte := 15
  const BLR_VARYING: byte := 37
  const BLR_VARYING2: byte := 38
  const BLR_EOC: byte := 76
  const BLR_END: byte := 255

  datatype Field =
    | Short(scale: byte) | Long(scale: byte)
    | Text(len: nat) | Varying(len: nat)
    | Text2(charset: nat, len: nat) | Varying2(charset: nat, len: nat)

  datatype Message = Message(number: byte, fields: seq<Field>)

  predicate FieldFits(f: Field) {
    match f
    case Short(_) => true
    case Long(_) => true
    case Text(n) => n < 0x1_0000
    case Varying(n) => n < 0x1_0000
    case Text2(c, n) => c < 0x1_0000 && n < 0x1_0000
    case Varying2(c, n) => c < 0x1_0000 && n < 0x1_0000
  }

  predicate Fits(m: Message) {
    |m.fields| < 0x1_0000 && forall k :: 0 <= k < |m.fields| ==> FieldFits(m.fields[k])
  }

  predicate AllFit(ms: seq<Message>) {
    forall k :: 0 <= k < |ms| ==> Fits(ms[k])
  }

  // ------------------------------------------------------------- encoding

  function EncodeField(f: Field): (b: seq<byte>)
    requires FieldFits(f)
    ensures b != []
  {
    match f
    case Short(s) => [BLR_SHORT, s]
    case Long(s) => [BLR_LONG, s]
    case Text(n) => [BLR_TEXT] + EncodeU16(n)
    case Varying(n) => [BLR_VARYING] + EncodeU16(n)
    case Text2(c, n) => [BLR_TEXT2] + (EncodeU16(c) + EncodeU16(n))
    case Varying2(c, n) => [BLR_VARYING2] + (EncodeU16(c) + EncodeU16(n))
  }

  function EncodeFields(fs: seq<Field>): seq<byte>
    requires forall k :: 0 <= k < |fs| ==> FieldFits(fs[k])
  {
    if fs == [] then [] else EncodeField(fs[0]) + EncodeFields(fs[1..])
  }

  function EncodeMessage(m: Message): (b: seq<byte>)
    requires Fits(m)
    ensures b != [] && b[0] == BLR_MESSAGE
  {
    [BLR_MESSAGE, m.number] + EncodeU16(|m.fields|) + EncodeFields(m.fields)
  }

  function EncodeMessages(ms: seq<Message>): seq<byte>
    requires AllFit(ms)
  {
    if ms == [] then [] else EncodeMessage(ms[0]) + EncodeMessages(ms[1..])
  }

  /** The message BLR a wire client writes for a row: version, begin, messages, end, end of code. */
  function EncodeProgram(ms: seq<Message>): seq<byte>
    requires AllFit(ms)
  {
    [BLR_VERSION5, BLR_BEGIN] + EncodeMessages(ms) + [BLR_END, BLR_EOC]
  }

  // -------------------------------------------------------------- grammar

  function ParseField(b: seq<byte>, at: nat): (r: Option<(Field, nat)>)
    ensures r.Some? ==> at < r.value.1 <= |b|
  {
    if at >= |b| then None
    else
      var t := b[at];
      if t == BLR_SHORT || t == BLR_LONG then
        if at + 2 > |b| then None
        else Some((if t == BLR_SHORT then Short(b[at + 1]) else Long(b[at + 1]), at + 2))
      else if t == BLR_TEXT || t == BLR_VARYING then
        if at + 3 > |b| then None
        else
          var n := U16At(b, at + 1);
          Some((if t == BLR_TEXT then Text(n) else Varying(n), at + 3))
      else if t == BLR_TEXT2 || t == BLR_VARYING2 then
        if at + 5 > |b| then None
        else
          var c, n := U16At(b, at + 1), U16At(b, at + 3);
          Some((if t == BLR_TEXT2 then Text2(c, n) else Varying2(c, n), at + 5))
      else None
  }

  function ParseFields(b: seq<byte>, at: nat, count: nat): (r: Option<(seq<Field>, nat)>)
    requires at <= |b|
    ensures r.Some? ==> at <= r.value.1 <= |b| && |r.value.0| == count
    decreases count
  {
    if count == 0 then Some(([], at))
    else
      var f := ParseField(b, at);
      if f.None? then None
      else
        var fs := ParseFields(b, f.value.1, count - 1);
        if fs.None? then None else Some(([f.value.0] + fs.value.0, fs.value.1))
  }

  function ParseMessage(b: seq<byte>, at: nat): (r: Option<(Message, nat)>)
    ensures r.Some? ==> at < r.value.1 <= |b|
  {
    if at + 4 > |b| || b[at] != BLR_MESSAGE then None
    else
      var fs := ParseFields(b, at + 4, U16At(b, at + 2));
      if fs.None? then None else Some((Message(b[at + 1], fs.value.0), fs.value.1))
  }

  /** All messages from `at` on, up to the first byte that does not start one. */
  function ParseMessages(b: seq<byte>, at: nat): (r: Option<(seq<Message>, nat)>)
    requires at <= |b|
    ensures r.Some? ==> at <= r.value.1 <= |b|
    decreases |b| - at
  {
    if at == |b| || b[at] != BLR_MESSAGE then Some(([], at))
    else
      var m := ParseMessage(b, at);
      if m.None? then None
      else
        var ms := ParseMessages(b, m.value.1);
        if ms.None? then None else Some(([m.value.0] + ms.value.0, ms.value.1))
  }

  lemma {:induction false} U16InPlace(pre: seq<byte>, v: nat, post: seq<byte>)
    requires v < 0x1_0000
    ensures U16At(pre + (EncodeU16(v) + post), |pre|) == v
  {
    var b, u := pre + (EncodeU16(v) + post), EncodeU16(v);
    assert b[|pre|] == u[0] && b[|pre| + 1] == u[1];
  }

  lemma {:induction false} FieldIsParsed(f: Field, pre: seq<byte>, post: seq<byte>)
    requires FieldFits(f)
    ensures ParseField(pre + (EncodeField(f) + post), |pre|) == Some((f, |pre| + |EncodeField(f)|))
  {
    var b := pre + (EncodeField(f) + post);
    assert b[|pre|] == EncodeField(f)[0];
    match f
    case Short(s) => assert b[|pre| + 1] == s;
    case Long(s) => assert b[|pre| + 1] == s;
    case Text(n) => LengthInPlace(BLR_TEXT, n, pre, post);
    case Varying(n) => LengthInPlace(BLR_VARYING, n, pre, post);
    case Text2(c, n) => PairInPlace(BLR_TEXT2, c, n, pre, post);
    case Varying2(c, n) => PairInPlace(BLR_VARYING2, c, n, pre, post);
  }

  lemma {:induction false} LengthInPlace(t: byte, n: nat, pre: seq<byte>, post: seq<byte>)
    requires n < 0x1_0000
    ensures U16At(pre + (([t] + EncodeU16(n)) + post), |pre| + 1) == n
  {
    U16InPlace(pre + [t], n, post);
    assert pre + (([t] + EncodeU16(n)) + post) == (pre + [t]) + (EncodeU16(n) + post);
  }

  lemma {:induction false} PairInPlace(t: byte, c: nat, n: nat, pre: seq<byte>, post: seq<byte>)
    requires c < 0x1_0000 && n < 0x1_0000
    ensures var b := pre + (([t] + (EncodeU16(c) + EncodeU16(n))) + post);
            U16At(b, |pre| + 1) == c && U16At(b, |pre| + 3) == n
  {
    hide U16At, EncodeU16;
    var b, u, v := pre + (([t] + (EncodeU16(c) + EncodeU16(n))) + post), EncodeU16(c), EncodeU16(n);
    U16InPlace(pre + [t], c, v + post);
    U16InPlace(pre + [t] + u, n, post);
    assert b == (pre + [t]) + (u + (v + post));
    assert b == (pre + [t] + u) + (v + post);
  }

  lemma {:induction false} Reassociate(pre: seq<byte>, c: seq<byte>, tail: seq<byte>, post: seq<byte>)
    ensures pre + ((c + tail) + post) == pre + (c + (tail + post)) == (pre + c) + (tail + post)
  {}

  lemma {:induction false} FieldsAreParsed(fs: seq<Field>, pre: seq<byte>, post: seq<byte>)
    requires forall k :: 0 <= k < |fs| ==> FieldFits(fs[k])
    ensures ParseFields(pre + (EncodeFields(fs) + post), |pre|, |fs|) == Some((fs, |pre| + |EncodeFields(fs)|))
    decreases |fs|
  {
    hide EncodeField, ParseField, FieldFits;
    if fs == [] {
      assert EncodeFields(fs) == [];
    } else {
      var c, tail := EncodeField(fs[0]), EncodeFields(fs[1..]);
      FieldIsParsed(fs[0], pre, tail + post);
      FieldsAreParsed(fs[1..], pre + c, post);
      Reassociate(pre, c, tail, post);
      assert EncodeFields(fs) == c + tail && [fs[0]] + fs[1..] == fs;
    }
  }

  lemma {:induction false} MessageIsParsed(m: Message, pre: seq<byte>, post: seq<byte>)
    requires Fits(m)
    ensures ParseMessage(pre + (EncodeMessage(m) + post), |pre|) == Some((m, |pre| + |EncodeMessage(m)|))
  {
    hide EncodeU16, U16At, EncodeFields, ParseFields, FieldFits;
    var b, h := pre + (EncodeMessage(m) + post), [BLR_MESSAGE, m.number];
    var u, fs := EncodeU16(|m.fields|), EncodeFields(m.fields);
    U16InPlace(pre + h, |m.fields|, fs + post);
    assert b == (pre + h) + (u + (fs + post));
    FieldsAreParsed(m.fields, pre + h + u, post);
    assert b == (pre + h + u) + (fs + post);
    assert b[|pre|] == BLR_MESSAGE && b[|pre| + 1] == m.number;
  }

  lemma {:induction false} MessageThenRest(b: seq<byte>, at: nat, m: Message, n: nat, ms: seq<Message>, e: nat)
    requires at < |b| && b[at] == BLR_MESSAGE && ParseMessage(b, at) == Some((m, n))
    requires ParseMessages(b, n) == Some((ms, e))
    ensures ParseMessages(b, at) == Some(([m] + ms, e))
  {}

  /** Any list of messages is recovered, up to whatever follows it. */
  lemma {:induction false} MessagesAreParsed(ms: seq<Message>, pre: seq<byte>, post: seq<byte>)
    requires AllFit(ms) && (post == [] || post[0] != BLR_MESSAGE)
    ensures ParseMessages(pre + (EncodeMessages(ms) + post), |pre|) == Some((ms, |pre| + |EncodeMessages(ms)|))
    decreases |ms|
  {
    hide EncodeMessage, ParseMessage, ParseMessages, EncodeMessages, Fits;
    var b := pre + (EncodeMessages(ms) + post);
    NoMessages(pre, post);
    if ms != [] {
      var c, tail := EncodeMessage(ms[0]), EncodeMessages(ms[1..]);
      MessageIsParsed(ms[0], pre, tail + post);
      MessagesAreParsed(ms[1..], pre + c, post);
      Reassociate(pre, c, tail, post);
      FirstThenRest(ms);
      assert b[|pre|] == c[0];
      MessageThenRest(b, |pre|, ms[0], |pre| + |c|, ms[1..], |pre + c| + |tail|);
    }
  }

  lemma {:induction false} FirstThenRest(ms: seq<Message>)
    requires AllFit(ms) && ms != []
    ensures EncodeMessages(ms) == EncodeMessage(ms[0]) + EncodeMessages(ms[1..])
    ensures [ms[0]] + ms[1..] == ms
  {}

  lemma {:induction false} NoMessages(pre: seq<byte>, post: seq<byte>)
    requires post == [] || post[0] != BLR_MESSAGE
    ensures EncodeMessages([]) == [] && ParseMessages(pre + ([] + post), |pre|) == Some(([], |pre|))
  {
    assert [] + post == post;
  }

  /** The bytes of each field type, and below those of a program with one message, in the numbers of the language. */
  lemma {:induction false} KnownCodes(s: byte, c: nat, l: nat)
    requires c < 0x1_0000 && l < 0x1_0000
    ensures EncodeField(Short(s)) == [7, s] && EncodeField(Long(s)) == [8, s]
    ensures EncodeField(Text(l)) == [14, l % 256, l / 256] && EncodeField(Varying(l)) == [37, l % 256, l / 256]
    ensures EncodeField(Text2(c, l)) == [15, c % 256, c / 256, l % 256, l / 256]
    ensures EncodeField(Varying2(c, l)) == [38, c % 256, c / 256, l % 256, l / 256]
  {}

  lemma {:induction false} OneMessage(m: Message)
    requires Fits(m)
    ensures AllFit([m]) && EncodeMessages([m]) == EncodeMessage(m)
  {
    hide EncodeMessage, Fits;
    assert [m][1..] == [] && EncodeMessages([m]) == EncodeMessage(m) + EncodeMessages([]);
  }

  lemma {:induction false} KnownProgram(m: Message)
    requires Fits(m)
    ensures EncodeProgram([m]) == [5, 2, 4, m.number, |m.fields| % 256, |m.fields| / 256] + EncodeFields(m.fields) + [255, 76]
  {
    hide EncodeFields, FieldFits;
    OneMessage(m);
    var h: seq<byte> := [4, m.number, |m.fields| % 256, |m.fields| / 256];
    assert EncodeMessage(m) == h + EncodeFields(m.fields);
    hide EncodeMessages, EncodeMessage;
    assert [5, 2] + h == [5, 2, 4, m.number, |m.fields| % 256, |m.fields| / 256];
    assert [5, 2] + (h + EncodeFields(m.fields)) == ([5, 2] + h) + EncodeFields(m.fields);
  }

  // ------------------------------------------------------- printed output

  /** One printed field: decoded, or a type the decoder does not know. */
  datatype Shown = Known(f: Field) | Unknown(t: byte)

  /** One printed declaration. */
  datatype Decl = Decl(number: byte, count: nat, shown: seq<Shown>)

  function ShownOf(fs: seq<Field>): (s: seq<Shown>)
    ensures |s| == |fs|
  {
    if fs == [] then [] else [Known(fs[0])] + ShownOf(fs[1..])
  }

  function DeclsOf(ms: seq<Message>): seq<Decl> {
    if ms == [] then [] else [Decl(ms[0].number, |ms[0].fields|, ShownOf(ms[0].fields))] + DeclsOf(ms[1..])
  }

  /** The field types the C++ and Python loops know. */
  predicate Plain(fs: seq<Field>) {
    forall k :: 0 <= k < |fs| ==> fs[k].Short? || fs[k].Text2?
  }

  predicate AllPlain(ms: seq<Message>) {
    forall k :: 0 <= k < |ms| ==> Plain(ms[k].fields)
  }

  // ---------------------------------------------------- C++ and Python

  /** One field; false where a read passes the end, Unknown for a type the samples do not know. */
  method PlainField(b: seq<byte>, p: nat) returns (ok: bool, p': nat, shown: Shown)
    requires p <= |b|
    ensures ok ==> p <= p' <= |b|
    ensures var r := ParseField(b, p);
            r.Some? && (r.value.0.Short? || r.value.0.Text2?) ==>
              ok && p' == r.value.1 && shown == Known(r.value.0)
    ensures ok && shown.Known? ==> ParseField(b, p) == Some((shown.f, p'))
  {
    ok, p', shown := false, p, Unknown(0);
    if p < |b| {
      if b[p] == BLR_SHORT {
        if p + 2 <= |b| {
          ok, p', shown := true, p + 2, Known(Short(b[p + 1]));
        }
      } else if b[p] == BLR_TEXT2 {
        if p + 5 <= |b| {
          ok, p', shown := true, p + 5, Known(Text2(U16At(b, p + 1), U16At(b, p + 3)));
        }
      } else {
        ok, shown := true, Unknown(b[p]);
      }
    }
  }

  /** The field loop that both samples share; false where a read passes the end. */
  method PlainFields(b: seq<byte>, p: nat, count: nat) returns (ok: bool, p': nat, shown: seq<Shown>)
    requires p <= |b|
    ensures ok ==> p <= p' <= |b|
    ensures var r := ParseFields(b, p, count);
            r.Some? && Plain(r.value.0) ==> ok && p' == r.value.1 && shown == ShownOf(r.value.0)
  {
    hide ParseField, ParseFields, Plain, ShownOf;
    ok, p', shown := true, p, [];
    ghost var goal := ParseFields(b, p, count);
    ghost var wanted := goal.Some? && Plain(goal.value.0);
    var i := 0;
    while i < count
      invariant 0 <= i && ok && p <= p' <= |b|
      invariant wanted ==> i <= count
      invariant wanted ==> var rest := ParseFields(b, p', count - i);
                rest.Some? && Plain(rest.value.0) && rest.value.1 == goal.value.1
                && ShownOf(goal.value.0) == shown + ShownOf(rest.value.0)
      decreases count - i
    {
      if wanted { FirstField(b, p', count - i, shown); }
      var s;
      ok, p', s := PlainField(b, p');
      if !ok { return; }
      shown := shown + [s];
      if s.Unknown? {
        i := count;
      }
      i := i + 1;
    }
    if wanted { NoFields(b, p'); }
  }

  lemma {:induction false} NoFields(b: seq<byte>, p: nat)
    requires p <= |b|
    ensures ParseFields(b, p, 0) == Some(([], p)) && ShownOf([]) == []
  {}

  lemma {:induction false} FirstField(b: seq<byte>, p: nat, count: nat, shown: seq<Shown>)
    requires p <= |b| && count > 0 && ParseFields(b, p, count).Some? && Plain(ParseFields(b, p, count).value.0)
    ensures ParseField(b, p).Some?
    ensures var f, r := ParseField(b, p).value, ParseFields(b, p, count).value;
            var rest := ParseFields(b, f.1, count - 1);
            && (f.0.Short? || f.0.Text2?)
            && rest.Some? && Plain(rest.value.0) && rest.value.1 == r.1
            && shown + ShownOf(r.0) == (shown + [Known(f.0)]) + ShownOf(rest.value.0)
  {
    hide ParseField;
    var f, r := ParseField(b, p).value, ParseFields(b, p, count).value;
    var rest := ParseFields(b, f.1, count - 1).value;
    assert r.0 == [f.0] + rest.0 && r.0[0] == f.0 && r.0[1..] == rest.0;
    forall k | 0 <= k < |rest.0|
      ensures rest.0[k].Short? || rest.0[k].Text2?
    {
      assert rest.0[k] == r.0[k + 1];
    }
  }

  /**
   The declaration loop of the C++ and the Python sample. Unlike the C# one it has no end test: it prints
   every list of plain messages, and then reads past the end exactly when no byte follows the last one.
   */
  method PlainMessages(b: seq<byte>, p: nat) returns (ok: bool, p': nat, decls: seq<Decl>)
    requires p <= |b|
    ensures var r := ParseMessages(b, p);
            r.Some? && AllPlain(r.value.0) ==>
              (ok <==> r.value.1 < |b|) && p' == r.value.1 && decls == DeclsOf(r.value.0)
    ensures ok ==> p' < |b| && b[p'] != BLR_MESSAGE
  {
    ok, p', decls := true, p, [];
    ghost var goal := ParseMessages(b, p);
    ghost var wanted := goal.Some? && AllPlain(goal.value.0);
    while p' < |b| && b[p'] == BLR_MESSAGE
      invariant ok && p' <= |b|
      invariant wanted ==> var rest := ParseMessages(b, p');
                rest.Some? && AllPlain(rest.value.0) && rest.value.1 == goal.value.1
                && DeclsOf(goal.value.0) == decls + DeclsOf(rest.value.0)
      decreases |b| - p'
    {
      if wanted { FirstMessage(b, p', decls); }
      if p' + 4 > |b| {
        return false, p', decls;
      }
      var number, count := b[p' + 1], U16At(b, p' + 2);
      var shown;
      ok, p', shown := PlainFields(b, p' + 4, count);
      if !ok { return; }
      decls := decls + [Decl(number, count, shown)];
    }
    ok := p' < |b|;
  }

  /** Any list of plain messages with any bytes after it is read without a fault exactly if there is such a byte. */
  method ReadPlain(ms: seq<Message>, post: seq<byte>) returns (ok: bool)
    requires AllFit(ms) && AllPlain(ms) && (post == [] || post[0] != BLR_MESSAGE)
    ensures ok <==> post != []
  {
    hide AllPlain, Fits, ParseMessages, EncodeMessages, DeclsOf;
    var b := EncodeMessages(ms) + post;
    assert b == [] + (EncodeMessages(ms) + post);
    MessagesAreParsed(ms, [], post);
    var p', decls;
    ok, p', decls := PlainMessages(b, 0);
  }

  /** One message without fields and nothing after it: well formed, plain, and read past its end. */
  lemma {:induction false} StopsAfterMessage()
    ensures ParseMessages([BLR_MESSAGE, 0, 0, 0], 0) == Some(([Message(0, [])], 4))
    ensures AllPlain([Message(0, [])])
  {
    var b: seq<byte> := [BLR_MESSAGE, 0, 0, 0];
    NoFields(b, 4);
    assert ParseMessage(b, 0) == Some((Message(0, []), 4));
    assert ParseMessages(b, 4) == Some(([], 4));
    MessageThenRest(b, 0, Message(0, []), 4, [], 4);
    assert [Message(0, [])] + [] == [Message(0, [])];
  }

  lemma {:induction false} FirstMessage(b: seq<byte>, p: nat, decls: seq<Decl>)
    requires p < |b| && b[p] == BLR_MESSAGE && ParseMessages(b, p).Some? && AllPlain(ParseMessages(b, p).value.0)
    ensures p + 4 <= |b| && ParseFields(b, p + 4, U16At(b, p + 2)).Some?
    ensures var f, r := ParseFields(b, p + 4, U16At(b, p + 2)).value, ParseMessages(b, p).value;
            var rest := ParseMessages(b, f.1);
            && Plain(f.0)
            && rest.Some? && AllPlain(rest.value.0) && rest.value.1 == r.1
            && decls + DeclsOf(r.0) == (decls + [Decl(b[p + 1], U16At(b, p + 2), ShownOf(f.0))]) + DeclsOf(rest.value.0)
  {
    NextMessage(b, p, decls);
    var f, r := ParseFields(b, p + 4, U16At(b, p + 2)).value, ParseMessages(b, p).value;
    var rest := ParseMessages(b, f.1).value;
    hide ParseFields, ParseMessages, Plain;
    forall k | 0 <= k < |rest.0|
      ensures Plain(rest.0[k].fields)
    {
      assert rest.0[k] == r.0[k + 1];
    }
    assert Plain(r.0[0].fields);
  }

  lemma {:induction false} NextMessage(b: seq<byte>, p: nat, decls: seq<Decl>)
    requires p < |b| && b[p] == BLR_MESSAGE && ParseMessages(b, p).Some?
    ensures p + 4 <= |b| && ParseFields(b, p + 4, U16At(b, p + 2)).Some?
    ensures var f, r := ParseFields(b, p + 4, U16At(b, p + 2)).value, ParseMessages(b, p).value;
            var rest := ParseMessages(b, f.1);
            && rest.Some? && rest.value.1 == r.1
            && r.0 == [Message(b[p + 1], f.0)] + rest.value.0
            && decls + DeclsOf(r.0) == (decls + [Decl(b[p + 1], U16At(b, p + 2), ShownOf(f.0))]) + DeclsOf(rest.value.0)
  {
    hide ParseFields, U16At, ShownOf;
    var f, r := ParseFields(b, p + 4, U16At(b, p + 2)).value, ParseMessages(b, p).value;
    assert r.0[1..] == ParseMessages(b, f.1).value.0;
  }
}
