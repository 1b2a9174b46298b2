/**
 BLR expressions: the prefix code, and the four decoders of the samples. The decoders print one line
 per node; the lines are what they return here.
 */
module Blr {
  import opened Bytes
  import M = BlrMessages

  const BLR_LITERAL: byte := 21
  const BLR_FIELD: byte := 23
  const BLR_CONCATENATE: byte := 39

  // ------------------------------------------------------------- the code

  datatype Expr =
    | Concatenate(left: Expr, right: Expr)
    | FieldRef(context: byte, name: seq<byte>)
    | Literal(charset: nat, text: seq<byte>)

  /** Lengths and character sets fit their one- and two-byte places. */
  predicate Fits(e: Expr) {
    match e
    case Concatenate(l, r) => Fits(l) && Fits(r)
    case FieldRef(_, name) => |name| < 256
    case Literal(cs, text) => cs < 0x1_0000 && |text| < 0x1_0000
  }

  function Encode(e: Expr): (b: seq<byte>)
    requires Fits(e)
    ensures b != []
  {
    match e
    case Concatenate(l, r) => [BLR_CONCATENATE] + Encode(l) + Encode(r)
    case FieldRef(c, name) => [BLR_FIELD, c, |name|] + name
    case Literal(cs, text) => [BLR_LITERAL, M.BLR_TEXT2] + EncodeU16(cs) + EncodeU16(|text|) + text
  }

  /** A printed line: its indentation depth and what it shows. */
  datatype Line =
    | ConcatLine(depth: nat)
    | FieldLine(depth: nat, context: byte, name: seq<byte>)
    | LiteralLine(depth: nat, charset: nat, text: seq<byte>)
    | StopLine(depth: nat, op: byte)

  function Render(e: Expr, depth: nat): seq<Line>
    decreases e
  {
    match e
    case Concatenate(l, r) => [ConcatLine(depth)] + Render(l, depth + 1) + Render(r, depth + 1)
    case FieldRef(c, name) => [FieldLine(depth, c, name)]
    case Literal(cs, text) => [LiteralLine(depth, cs, text)]
  }

  predicate Unstopped(lines: seq<Line>) {
    forall k :: 0 <= k < |lines| ==> !lines[k].StopLine?
  }

  // ---------------------------------------------------------- the grammar

  /** The tree whose code stands at `b[at..]`, and the offset just past it. */
  function Parse(b: seq<byte>, at: nat): (r: Option<(Expr, nat)>)
    ensures r.Some? ==> at < r.value.1 <= |b| && Fits(r.value.0)
    decreases |b| - at
  {
    if at >= |b| then None
    else if b[at] == BLR_CONCATENATE then ParsePair(b, at)
    else if b[at] == BLR_FIELD then ParseField(b, at)
    else if b[at] == BLR_LITERAL then ParseLiteral(b, at)
    else None
  }

  function ParsePair(b: seq<byte>, at: nat): (r: Option<(Expr, nat)>)
    requires at < |b|
    ensures r.Some? ==> at < r.value.1 <= |b| && Fits(r.value.0)
    decreases |b| - at, 0
  {
    var l := Parse(b, at + 1);
    if l.None? then None
    else
      var r := Parse(b, l.value.1);
      if r.None? then None else Some((Concatenate(l.value.0, r.value.0), r.value.1))
  }

  function ParseField(b: seq<byte>, at: nat): (r: Option<(Expr, nat)>)
    ensures r.Some? ==> at < r.value.1 <= |b| && Fits(r.value.0)
  {
    if |b| < at + 3 || |b| < at + 3 + b[at + 2] as int then None
    else Some((FieldRef(b[at + 1], b[at + 3..at + 3 + b[at + 2] as int]), at + 3 + b[at + 2] as int))
  }

  function ParseLiteral(b: seq<byte>, at: nat): (r: Option<(Expr, nat)>)
    ensures r.Some? ==> at < r.value.1 <= |b| && Fits(r.value.0)
  {
    if |b| < at + 6 || b[at + 1] != M.BLR_TEXT2 || |b| < at + 6 + U16At(b, at + 4) then None
    else Some((Literal(U16At(b, at + 2), b[at + 6..at + 6 + U16At(b, at + 4)]), at + 6 + U16At(b, at + 4)))
  }

  lemma {:induction false} U16Code(b: seq<byte>, at: nat)
    requires at + 2 <= |b|
    ensures b[at..at + 2] == EncodeU16(U16At(b, at))
  {}

  /** Whatever is parsed is the code of the tree. */
  lemma {:induction false} ParseIsCode(b: seq<byte>, at: nat)
    requires Parse(b, at).Some?
    ensures b[at..Parse(b, at).value.1] == Encode(Parse(b, at).value.0)
    decreases |b| - at
  {
    if b[at] == BLR_CONCATENATE {
      PairIsCode(b, at);
    } else if b[at] == BLR_FIELD {
      FieldIsCode(b, at);
    } else {
      LiteralIsCode(b, at);
    }
  }

  lemma {:induction false} Cut(b: seq<byte>, at: nat, m: nat, n: nat)
    requires at < m <= n <= |b|
    ensures b[at..n] == [b[at]] + b[at + 1..m] + b[m..n]
  {}

  lemma {:induction false} PairIsCode(b: seq<byte>, at: nat)
    requires at < |b| && b[at] == BLR_CONCATENATE && ParsePair(b, at).Some?
    ensures b[at..ParsePair(b, at).value.1] == Encode(ParsePair(b, at).value.0)
    decreases |b| - at, 0
  {
    var (l, m) := Parse(b, at + 1).value;
    var (r, n) := Parse(b, m).value;
    ParseIsCode(b, at + 1);
    ParseIsCode(b, m);
    Cut(b, at, m, n);
  }

  lemma {:induction false} FieldIsCode(b: seq<byte>, at: nat)
    requires at < |b| && b[at] == BLR_FIELD && ParseField(b, at).Some?
    ensures b[at..ParseField(b, at).value.1] == Encode(ParseField(b, at).value.0)
  {
    var n := b[at + 2] as int;
    assert b[at..at + 3 + n] == [b[at], b[at + 1], b[at + 2]] + b[at + 3..at + 3 + n];
  }

  lemma {:induction false} LiteralIsCode(b: seq<byte>, at: nat)
    requires at < |b| && b[at] == BLR_LITERAL && ParseLiteral(b, at).Some?
    ensures b[at..ParseLiteral(b, at).value.1] == Encode(ParseLiteral(b, at).value.0)
  {
    var n := U16At(b, at + 4);
    U16Code(b, at + 2);
    U16Code(b, at + 4);
    hide EncodeU16, U16At;
    assert b[at..at + 6 + n] ==
           [b[at], b[at + 1]] + b[at + 2..at + 4] + b[at + 4..at + 6] + b[at + 6..at + 6 + n];
  }

  /** The code of a tree is parsed wherever it stands, and nothing beyond it is looked at. */
  lemma {:induction false} CodeIsParsed(e: Expr, pre: seq<byte>, post: seq<byte>)
    requires Fits(e)
    ensures Parse(pre + Encode(e) + post, |pre|) == Some((e, |pre| + |Encode(e)|))
    decreases e
  {
    match e
    case Concatenate(l, r) =>
      PairIsParsed(l, r, pre, post);
    case FieldRef(c, name) =>
      var b := pre + Encode(e) + post;
      assert b[|pre|] == BLR_FIELD && b[|pre| + 1] == c && b[|pre| + 2] == |name|;
      assert b[|pre| + 3..|pre| + 3 + |name|] == name;
    case Literal(cs, text) =>
      LiteralIsParsed(cs, text, pre, post);
  }

  lemma {:induction false} LiteralIsParsed(cs: nat, text: seq<byte>, pre: seq<byte>, post: seq<byte>)
    requires cs < 0x1_0000 && |text| < 0x1_0000
    ensures var e := Literal(cs, text);
            Parse(pre + Encode(e) + post, |pre|) == Some((e, |pre| + |Encode(e)|))
  {
    var e, at := Literal(cs, text), |pre|;
    var b := pre + Encode(e) + post;
    var u, v := EncodeU16(cs), EncodeU16(|text|);
    assert b[at] == BLR_LITERAL && b[at + 1] == M.BLR_TEXT2;
    assert b[at + 2] == u[0] && b[at + 3] == u[1] && b[at + 4] == v[0] && b[at + 5] == v[1];
    assert b[at + 6..at + 6 + |text|] == text;
  }

  lemma {:induction false} PairIsParsed(l: Expr, r: Expr, pre: seq<byte>, post: seq<byte>)
    requires Fits(l) && Fits(r)
    ensures var e := Concatenate(l, r);
            Parse(pre + Encode(e) + post, |pre|) == Some((e, |pre| + |Encode(e)|))
    decreases Concatenate(l, r), 0
  {
    hide Parse;
    var e, c := Concatenate(l, r), [BLR_CONCATENATE];
    var b, cl, cr := pre + Encode(e) + post, Encode(l), Encode(r);
    assert Encode(e) == c + cl + cr;
    CodeIsParsed(l, pre + c, cr + post);
    CodeIsParsed(r, pre + c + cl, post);
    Regrouped(pre, c, cl, cr, post);
    BothParts(b, |pre|, l, |pre| + 1 + |cl|, r, |pre| + 1 + |cl| + |cr|);
  }

  lemma {:induction false} Regrouped(pre: seq<byte>, c: seq<byte>, l: seq<byte>, r: seq<byte>, post: seq<byte>)
    requires |c| == 1
    ensures pre + (c + l + r) + post == (pre + c) + l + (r + post) == (pre + c + l) + r + post
    ensures (pre + (c + l + r) + post)[|pre|] == c[0]
  {}

  lemma {:induction false} BothParts(b: seq<byte>, at: nat, l: Expr, m: nat, r: Expr, n: nat)
    requires at < |b| && b[at] == BLR_CONCATENATE
    requires Parse(b, at + 1) == Some((l, m)) && Parse(b, m) == Some((r, n))
    ensures Parse(b, at) == Some((Concatenate(l, r), n))
  {}

  /** No code is a proper prefix of another: what follows cannot change what was read. */
  lemma {:induction false} PrefixFree(e: Expr, f: Expr, p: seq<byte>, q: seq<byte>)
    requires Fits(e) && Fits(f) && Encode(e) + p == Encode(f) + q
    ensures e == f && p == q
  {
    hide Encode, Parse;
    CodeIsParsed(e, [], p);
    CodeIsParsed(f, [], q);
    assert [] + Encode(e) + p == Encode(e) + p && [] + Encode(f) + q == Encode(f) + q;
    var n := |Encode(e)|;
    assert p == (Encode(e) + p)[n..] && q == (Encode(f) + q)[n..];
  }

  // ------------------------------------------------- JavaScript: offsets

  /** Where JavaScript's decoder continues; a length byte past the end makes the sum NaN. */
  datatype JsNext = At(offset: nat) | NotANumber

  datatype JsResult = JsReturns(lines: seq<Line>, next: JsNext) | JsThrows

  function JsExpr(b: seq<byte>, at: nat, depth: nat): (r: JsResult)
    ensures r.JsReturns? && r.next.At? ==> at < r.next.offset
    decreases |b| - at
  {
    if at >= |b| then JsThrows
    else if b[at] == BLR_CONCATENATE then
      var l := JsExpr(b, at + 1, depth + 1);
      if l.JsThrows? || l.next.NotANumber? then JsThrows
      else if l.next.offset >= |b| then JsThrows
      else
        var r := JsExpr(b, l.next.offset, depth + 1);
        if r.JsThrows? then JsThrows
        else JsReturns([ConcatLine(depth)] + l.lines + r.lines, r.next)
    else if b[at] == BLR_FIELD then
      if at + 2 >= |b| then JsReturns([FieldLine(depth, if at + 1 < |b| then b[at + 1] else 0, [])], NotANumber)
      else
        var n := b[at + 2] as int;
        JsReturns([FieldLine(depth, b[at + 1], Slice(b, at + 3, at + 3 + n))], At(at + 3 + n))
    else if b[at] == BLR_LITERAL then
      if at + 1 >= |b| || b[at + 1] != M.BLR_TEXT2 || at + 6 > |b| then JsThrows
      else
        var n := U16At(b, at + 4);
        JsReturns([LiteralLine(depth, U16At(b, at + 2), Slice(b, at + 6, at + 6 + n))], At(at + 6 + n))
    else JsThrows
  }

  /** It returns an offset inside the buffer exactly for the codes of trees, and then prints the tree. */
  lemma {:induction false} JsDecodes(b: seq<byte>, at: nat, depth: nat)
    ensures var p, r := Parse(b, at), JsExpr(b, at, depth);
            && (p.Some? ==> r == JsReturns(Render(p.value.0, depth), At(p.value.1)))
            && (r.JsReturns? && r.next.At? && r.next.offset <= |b| <==> p.Some?)
    decreases |b| - at
  {
    if at < |b| && b[at] == BLR_CONCATENATE {
      JsDecodes(b, at + 1, depth + 1);
      var l := JsExpr(b, at + 1, depth + 1);
      if l.JsReturns? && l.next.At? && l.next.offset < |b| {
        JsDecodes(b, l.next.offset, depth + 1);
      }
    }
  }

  // ----------------------------------------------------- Python: offsets

  datatype PyResult = PyReturns(lines: seq<Line>, next: nat) | PyIndexError

  function PyExpr(b: seq<byte>, i: nat, depth: nat): (r: PyResult)
    ensures r.PyReturns? ==> i < r.next
    decreases |b| - i
  {
    if i >= |b| then PyIndexError
    else if b[i] == BLR_CONCATENATE then
      var l := PyExpr(b, i + 1, depth + 1);
      if l.PyIndexError? || l.next >= |b| then PyIndexError
      else
        var r := PyExpr(b, l.next, depth + 1);
        if r.PyIndexError? then PyIndexError
        else PyReturns([ConcatLine(depth)] + l.lines + r.lines, r.next)
    else if b[i] == BLR_FIELD then
      if i + 2 >= |b| then PyIndexError
      else
        var n := b[i + 2] as int;
        PyReturns([FieldLine(depth, b[i + 1], Slice(b, i + 3, i + 3 + n))], i + 3 + n)
    else if b[i] == BLR_LITERAL && i + 1 >= |b| then PyIndexError
    else if b[i] == BLR_LITERAL && b[i + 1] == M.BLR_TEXT2 then
      if i + 6 > |b| then PyIndexError
      else
        var n := U16At(b, i + 4);
        PyReturns([LiteralLine(depth, U16At(b, i + 2), Slice(b, i + 6, i + 6 + n))], i + 6 + n)
    else PyReturns([StopLine(depth, b[i])], |b|)
  }

  /** Without a stop line and inside the buffer it has read exactly the code of a tree. */
  lemma {:induction false} PyDecodes(b: seq<byte>, i: nat, depth: nat)
    ensures var p, r := Parse(b, i), PyExpr(b, i, depth);
            && (p.Some? ==> r == PyReturns(Render(p.value.0, depth), p.value.1))
            && (r.PyReturns? && Unstopped(r.lines) && r.next <= |b| <==> p.Some?)
    decreases |b| - i
  {
    if Parse(b, i).Some? {
      RenderUnstopped(Parse(b, i).value.0, depth);
    }
    if i < |b| && b[i] == BLR_CONCATENATE {
      PyDecodes(b, i + 1, depth + 1);
      var l := PyExpr(b, i + 1, depth + 1);
      if l.PyReturns? && l.next < |b| {
        PyDecodes(b, l.next, depth + 1);
        var r := PyExpr(b, l.next, depth + 1);
        if r.PyReturns? && Unstopped([ConcatLine(depth)] + l.lines + r.lines) {
          UnstoppedParts([ConcatLine(depth)], l.lines, r.lines);
        }
      }
    } else if i < |b| && PyExpr(b, i, depth).PyReturns? {
      var lines := PyExpr(b, i, depth).lines;
      assert lines == [lines[0]];
    }
  }

  lemma {:induction false} UnstoppedParts(a: seq<Line>, b: seq<Line>, c: seq<Line>)
    ensures Unstopped(a + b + c) <==> Unstopped(a) && Unstopped(b) && Unstopped(c)
  {
    var s := a + b + c;
    if Unstopped(s) {
      assert forall k :: 0 <= k < |a| ==> a[k] == s[k];
      assert forall k :: 0 <= k < |b| ==> b[k] == s[|a| + k];
      assert forall k :: 0 <= k < |c| ==> c[k] == s[|a| + |b| + k];
    }
  }

  lemma {:induction false} Printed(out0: seq<Line>, c: Line, out2: seq<Line>, out3: seq<Line>)
    requires out0 + [c] <= out2 <= out3
    ensures out3[|out0|..] == [c] + out2[|out0| + 1..] + out3[|out2|..]
  {
    var s := out3[|out0|..];
    assert s[0] == (out0 + [c])[|out0|];
    assert s == [s[0]] + out3[|out0| + 1..|out2|] + out3[|out2|..];
    assert out3[..|out2|] == out2;
  }

  /** The printed lines determine the tree: no two trees print alike, whatever is printed next. */
  lemma {:induction false} RenderFaithful(e: Expr, f: Expr, depth: nat, p: seq<Line>, q: seq<Line>)
    requires Render(e, depth) + p == Render(f, depth) + q
    ensures e == f && p == q
    decreases e
  {
    var s, t := Render(e, depth) + p, Render(f, depth) + q;
    assert s[0] == Render(e, depth)[0] && t[0] == Render(f, depth)[0];
    if e.Concatenate? {
      var el, er := Render(e.left, depth + 1), Render(e.right, depth + 1);
      var fl, fr := Render(f.left, depth + 1), Render(f.right, depth + 1);
      assert s[1..] == el + (er + p) && t[1..] == fl + (fr + q);
      RenderFaithful(e.left, f.left, depth + 1, er + p, fr + q);
      RenderFaithful(e.right, f.right, depth + 1, p, q);
    } else {
      assert s[1..] == p && t[1..] == q;
    }
  }

  lemma {:induction false} RenderUnstopped(e: Expr, depth: nat)
    ensures Unstopped(Render(e, depth))
    decreases e
  {
    match e
    case Concatenate(l, r) =>
      RenderUnstopped(l, depth + 1);
      RenderUnstopped(r, depth + 1);
      UnstoppedParts([ConcatLine(depth)], Render(l, depth + 1), Render(r, depth + 1));
    case _ =>
  }

  // ------------------------------------------- C++: a cursor by reference

  /**
   `expr` moves the caller's cursor. `ok` turns false where the code would read past `end`,
   which C++ leaves undefined.
   */
  method CppExpr(b: seq<byte>, p: nat, depth: nat) returns (ok: bool, p': nat, lines: seq<Line>)
    ensures ok ==> p < p' <= |b|
    ensures Parse(b, p).Some? ==>
              ok && p' == Parse(b, p).value.1 && lines == Render(Parse(b, p).value.0, depth)
    ensures ok && Unstopped(lines) <==> Parse(b, p).Some?
    decreases |b| - p
  {
    if Parse(b, p).Some? {
      RenderUnstopped(Parse(b, p).value.0, depth);
    }
    ok, p', lines := false, p, [];
    if p >= |b| { return; }
    var op := b[p];
    if op == BLR_CONCATENATE {
      assert Parse(b, p) == ParsePair(b, p);
      var okL, m, l := CppExpr(b, p + 1, depth + 1);
      if !okL { return; }
      var okR, n, r := CppExpr(b, m, depth + 1);
      if !okR { return; }
      UnstoppedParts([ConcatLine(depth)], l, r);
      return true, n, [ConcatLine(depth)] + l + r;
    } else if op == BLR_FIELD {
      if p + 2 >= |b| || p + 3 + b[p + 2] as int > |b| { return; }
      var len := b[p + 2] as int;
      return true, p + 3 + len, [FieldLine(depth, b[p + 1], b[p + 3..p + 3 + len])];
    } else if op == BLR_LITERAL {
      if p + 1 >= |b| { return; }
      if b[p + 1] == M.BLR_TEXT2 {
        if p + 6 > |b| || p + 6 + U16At(b, p + 4) > |b| { return; }
        var len := U16At(b, p + 4);
        return true, p + 6 + len, [LiteralLine(depth, U16At(b, p + 2), b[p + 6..p + 6 + len])];
      }
    }
    ok, p', lines := true, |b|, [StopLine(depth, op)];
    assert lines[0].StopLine?;
  }

  // ------------------------------------------------- C#: a cursor field

  class Reader {
    const B: seq<byte>
    var P: nat
    /** What has been written to the console. */
    var Out: seq<Line>
    /** The message declarations written to the console. */
    var Decls: seq<M.Decl>

    constructor (b: seq<byte>)
      ensures B == b && P == 0 && Out == [] && Decls == []
    {
      B, P, Out, Decls := b, 0, [], [];
    }

    /** `B[P++]`; false where the index is out of range and the runtime throws, with the cursor already moved. */
    method U8() returns (ok: bool, v: byte)
      modifies this`P
      ensures P == old(P) + 1
      ensures ok == (old(P) < |B|)
      ensures ok ==> v == B[old(P)]
    {
      var i := P;
      P := P + 1;
      ok := i < |B|;
      v := if ok then B[i] else 0;
    }

    method U16() returns (ok: bool, v: nat)
      modifies this`P
      ensures ok == (old(P) + 1 < |B|)
      ensures ok ==> v == U16At(B, old(P)) && P == old(P) + 2
      ensures !ok ==> P == old(P)
    {
      ok, v := false, 0;
      if P + 1 < |B| {
        ok, v := true, U16At(B, P);
        P := P + 2;
      }
    }

    method Expr(depth: nat) returns (ok: bool)
      modifies this`P, this`Out
      ensures old(Out) <= Out
      ensures ok ==> old(P) < P <= |B|
      ensures Parse(B, old(P)).Some? ==>
                ok && P == Parse(B, old(P)).value.1 &&
                Out == old(Out) + Render(Parse(B, old(P)).value.0, depth)
      ensures ok && Unstopped(Out[|old(Out)|..]) <==> Parse(B, old(P)).Some?
      decreases |B| - P, 0
    {
      if Parse(B, P).Some? {
        RenderUnstopped(Parse(B, P).value.0, depth);
      }
      var p0, out0 := P, Out;
      var op;
      ok, op := U8();
      if !ok { return; }
      if op == BLR_CONCATENATE {
        ok := Pair(depth);
      } else if op == BLR_FIELD {
        ok := Field(depth);
      } else {
        if op == BLR_LITERAL && P >= |B| {
          return false;
        }
        if op == BLR_LITERAL && B[P] == M.BLR_TEXT2 {
          ok := TextLiteral(depth);
        } else {
          Out := Out + [StopLine(depth, op)];
          P := |B|;
          assert Out[|out0|..][0].StopLine?;
        }
      }
    }

    method Pair(depth: nat) returns (ok: bool)
      requires 0 < P <= |B| && B[P - 1] == BLR_CONCATENATE
      modifies this`P, this`Out
      ensures old(Out) <= Out
      ensures ok ==> old(P) < P <= |B|
      ensures ParsePair(B, old(P) - 1).Some? ==>
                ok && P == ParsePair(B, old(P) - 1).value.1 &&
                Out == old(Out) + Render(ParsePair(B, old(P) - 1).value.0, depth)
      ensures ok && Unstopped(Out[|old(Out)|..]) ==> ParsePair(B, old(P) - 1).Some?
      decreases |B| - P, 1
    {
      ghost var out0 := Out;
      Out := Out + [ConcatLine(depth)];
      ghost var out1 := Out;
      ok := Expr(depth + 1);
      if !ok { return; }
      ghost var out2 := Out;
      ok := Expr(depth + 1);
      if ok {
        ghost var l, r := out2[|out1|..], Out[|out2|..];
        Printed(out0, ConcatLine(depth), out2, Out);
        UnstoppedParts([ConcatLine(depth)], l, r);
      }
    }

    method Field(depth: nat) returns (ok: bool)
      requires 0 < P <= |B| && B[P - 1] == BLR_FIELD
      modifies this`P, this`Out
      ensures old(Out) <= Out
      ensures ok ==> old(P) < P <= |B|
      ensures ok <==> ParseField(B, old(P) - 1).Some?
      ensures ok ==> P == ParseField(B, old(P) - 1).value.1 &&
                     Out == old(Out) + Render(ParseField(B, old(P) - 1).value.0, depth)
    {
      var ctx, len;
      ok, ctx := U8();
      if !ok { return; }
      ok, len := U8();
      if !ok { return; }
      if P + len as int > |B| {
        return false;
      }
      Out := Out + [FieldLine(depth, ctx, B[P..P + len as int])];
      P := P + len as int;
    }

    method TextLiteral(depth: nat) returns (ok: bool)
      requires 0 < P < |B| && B[P - 1] == BLR_LITERAL && B[P] == M.BLR_TEXT2
      modifies this`P, this`Out
      ensures old(Out) <= Out
      ensures ok ==> old(P) < P <= |B|
      ensures ok <==> ParseLiteral(B, old(P) - 1).Some?
      ensures ok ==> P == ParseLiteral(B, old(P) - 1).value.1 &&
                     Out == old(Out) + Render(ParseLiteral(B, old(P) - 1).value.0, depth)
    {
      P := P + 1;
      var cs, len;
      ok, cs := U16();
      if !ok { return; }
      ok, len := U16();
      if !ok { return; }
      if P + len > |B| {
        return false;
      }
      Out := Out + [LiteralLine(depth, cs, B[P..P + len])];
      P := P + len;
    }

    /** One field of a message: its type byte, then what the type calls for. */
    method MessageField() returns (ok: bool, shown: M.Shown)
      requires P <= |B|
      modifies this`P
      ensures old(P) <= P && (ok ==> P <= |B|)
      ensures var r := M.ParseField(B, old(P));
              if r.Some? then ok && shown == M.Known(r.value.0) && P == r.value.1
              else ok ==> shown.Unknown?
    {
      shown := M.Unknown(0);
      var t;
      ok, t := U8();
      if !ok { return; }
      if t == M.BLR_SHORT || t == M.BLR_LONG {
        var scale;
        ok, scale := U8();
        shown := M.Known(if t == M.BLR_SHORT then M.Short(scale) else M.Long(scale));
      } else if t == M.BLR_TEXT2 || t == M.BLR_VARYING2 {
        var cs, len;
        ok, cs := U16();
        if !ok { return; }
        ok, len := U16();
        shown := M.Known(if t == M.BLR_TEXT2 then M.Text2(cs, len) else M.Varying2(cs, len));
      } else if t == M.BLR_TEXT || t == M.BLR_VARYING {
        var len;
        ok, len := U16();
        shown := M.Known(if t == M.BLR_TEXT then M.Text(len) else M.Varying(len));
      } else {
        shown := M.Unknown(t);
      }
    }

    method MessageFields(count: nat) returns (ok: bool, shown: seq<M.Shown>)
      requires P <= |B|
      modifies this`P
      ensures old(P) <= P && (ok ==> P <= |B|)
      ensures var r := M.ParseFields(B, old(P), count);
              r.Some? ==> ok && P == r.value.1 && shown == M.ShownOf(r.value.0)
    {
      ok, shown := true, [];
      ghost var goal := M.ParseFields(B, P, count);
      var i := 0;
      while i < count
        invariant old(P) <= P <= |B| && 0 <= i
        invariant goal.Some? ==> ok && i <= count
        invariant goal.Some? ==> var rest := M.ParseFields(B, P, count - i);
                  rest.Some? && rest.value.1 == goal.value.1
                  && M.ShownOf(goal.value.0) == shown + M.ShownOf(rest.value.0)
        decreases count - i
      {
        if goal.Some? { NextField(B, P, count - i, shown); }
        var s;
        ok, s := MessageField();
        if !ok { return; }
        shown := shown + [s];
        if s.Unknown? {
          i := count;
        }
        i := i + 1;
      }
    }

    /** The body of the declaration loop: marker, number, count, fields. */
    method OneMessage() returns (ok: bool, decl: M.Decl)
      requires P < |B| && B[P] == M.BLR_MESSAGE
      modifies this`P
      ensures old(P) < P && (ok ==> P <= |B|)
      ensures old(P) + 4 <= |B| ==>
                var r := M.ParseFields(B, old(P) + 4, U16At(B, old(P) + 2));
                r.Some? ==>
                  && ok && P == r.value.1
                  && decl == M.Decl(B[old(P) + 1], U16At(B, old(P) + 2), M.ShownOf(r.value.0))
    {
      hide M.ParseFields, M.ShownOf, U16At;
      decl := M.Decl(0, 0, []);
      P := P + 1;
      var msg, count, shown;
      ok, msg := U8();
      if !ok { return; }
      ok, count := U16();
      if !ok { return; }
      ok, shown := MessageFields(count);
      decl := M.Decl(msg, count, shown);
    }

    /** The declarations found after blr_begin; every well-formed list is recovered and passed exactly. */
    method Messages() returns (ok: bool)
      requires P <= |B|
      modifies this`P, this`Decls
      ensures old(P) <= P && (ok ==> P <= |B|)
      ensures var r := M.ParseMessages(B, old(P));
              r.Some? ==> ok && P == r.value.1 && Decls == old(Decls) + M.DeclsOf(r.value.0)
    {
      hide M.ParseFields, M.ParseMessages, M.DeclsOf, M.ShownOf;
      ok := true;
      ghost var goal, before := M.ParseMessages(B, P), Decls;
      while P < |B| && B[P] == M.BLR_MESSAGE
        invariant old(P) <= P <= |B|
        invariant goal.Some? ==> var rest := M.ParseMessages(B, P);
                  rest.Some? && rest.value.1 == goal.value.1
                  && before + M.DeclsOf(goal.value.0) == Decls + M.DeclsOf(rest.value.0)
        invariant ok
        decreases |B| - P
      {
        if goal.Some? { M.NextMessage(B, P, Decls); }
        var decl;
        ok, decl := OneMessage();
        if !ok { return; }
        Decls := Decls + [decl];
      }
      NoMoreMessages();
    }

    lemma {:induction false} NoMoreMessages()
      requires P <= |B| && (P == |B| || B[P] != M.BLR_MESSAGE)
      ensures M.ParseMessages(B, P) == Some(([], P)) && M.DeclsOf([]) == []
    {}

    /** Two bytes; whether they are blr_version5 and blr_begin. */
    method Head() returns (ok: bool, version: bool, begins: bool)
      modifies this`P
      ensures old(P) + 1 < |B| ==>
                ok && P == old(P) + 2 &&
                version == (B[old(P)] == M.BLR_VERSION5) && begins == (B[old(P) + 1] == M.BLR_BEGIN)
    {
      version, begins := false, false;
      var v, w;
      ok, v := U8();
      if !ok { return; }
      ok, w := U8();
      version, begins := v == M.BLR_VERSION5, w == M.BLR_BEGIN;
    }

    /** Two bytes; whether they are blr_end and blr_eoc. */
    method Tail() returns (ok: bool, ends: bool, eoc: bool)
      modifies this`P
      ensures old(P) + 1 < |B| ==>
                ok && P == old(P) + 2 &&
                ends == (B[old(P)] == M.BLR_END) && eoc == (B[old(P) + 1] == M.BLR_EOC)
    {
      ends, eoc := false, false;
      var v, w;
      ok, v := U8();
      if !ok { return; }
      ok, w := U8();
      ends, eoc := v == M.BLR_END, w == M.BLR_EOC;
    }

    /** The three calls of the sample on the BLR a client wrote: every byte is consumed and every mark recognised. */
    method ReadProgram(ghost ms: seq<M.Message>) returns (ok: bool, marked: bool)
      requires P == 0 && Decls == [] && M.AllFit(ms) && B == M.EncodeProgram(ms)
      modifies this`P, this`Decls
      ensures ok && marked && P == |B| && Decls == M.DeclsOf(ms)
    {
      hide M.EncodeMessages, M.ParseMessages, M.DeclsOf;
      ghost var pre, post := [M.BLR_VERSION5, M.BLR_BEGIN], [M.BLR_END, M.BLR_EOC];
      assert B == pre + (M.EncodeMessages(ms) + post);
      M.MessagesAreParsed(ms, pre, post);
      var v, b, e, c;
      ok, v, b := Head();
      ok := Messages();
      assert B[P] == post[0] && B[P + 1] == post[1];
      ok, e, c := Tail();
      marked := v && b && e && c;
    }
  }

  lemma {:induction false} NextField(b: seq<byte>, p: nat, count: nat, shown: seq<M.Shown>)
    requires p <= |b| && count > 0 && M.ParseFields(b, p, count).Some?
    ensures M.ParseField(b, p).Some?
    ensures var f, r := M.ParseField(b, p).value, M.ParseFields(b, p, count).value;
            var rest := M.ParseFields(b, f.1, count - 1);
            && rest.Some? && rest.value.1 == r.1
            && shown + M.ShownOf(r.0) == (shown + [M.Known(f.0)]) + M.ShownOf(rest.value.0)
  {
    hide M.ParseField;
    var f, r := M.ParseField(b, p).value, M.ParseFields(b, p, count).value;
    var rest := M.ParseFields(b, f.1, count - 1).value;
    assert r.0 == [f.0] + rest.0 && r.0[1..] == rest.0;
  }

  /** Sixteen bytes and what they print: a concatenation of a concatenation and a field without a name. */
  lemma {:induction false} KnownAnswer(ctx: byte, x: byte, cs: nat, y: byte, ctx2: byte, depth: nat)
    requires cs < 0x1_0000
    ensures JsExpr([39, 39, 23, ctx, 1, x, 21, 15, cs % 256, cs / 256, 1, 0, y, 23, ctx2, 0], 0, depth) ==
            JsReturns([ConcatLine(depth), ConcatLine(depth + 1), FieldLine(depth + 2, ctx, [x]),
                       LiteralLine(depth + 2, cs, [y]), FieldLine(depth + 1, ctx2, [])], At(16))
  {
    var e := Concatenate(Concatenate(FieldRef(ctx, [x]), Literal(cs, [y])), FieldRef(ctx2, []));
    KnownCode(ctx, x, cs, y, ctx2);
    KnownLines(ctx, x, cs, y, ctx2, depth);
    hide Encode, Render, JsExpr, Parse;
    DecodersAgree(e, [], depth);
    assert Encode(e) + [] == Encode(e);
  }

  lemma {:induction false} KnownCode(ctx: byte, x: byte, cs: nat, y: byte, ctx2: byte)
    requires cs < 0x1_0000
    ensures var e := Concatenate(Concatenate(FieldRef(ctx, [x]), Literal(cs, [y])), FieldRef(ctx2, []));
            Fits(e) && Encode(e) == [39, 39, 23, ctx, 1, x, 21, 15, cs % 256, cs / 256, 1, 0, y, 23, ctx2, 0]
  {
    var f, l, g := FieldRef(ctx, [x]), Literal(cs, [y]), FieldRef(ctx2, []);
    assert Fits(f) && Fits(l) && Fits(g) && Fits(Concatenate(f, l));
    assert Encode(f) == [23, ctx, 1, x];
    assert Encode(l) == [21, 15, cs % 256, cs / 256, 1, 0, y];
    assert Encode(g) == [23, ctx2, 0];
  }

  lemma {:induction false} KnownLines(ctx: byte, x: byte, cs: nat, y: byte, ctx2: byte, depth: nat)
    ensures var e := Concatenate(Concatenate(FieldRef(ctx, [x]), Literal(cs, [y])), FieldRef(ctx2, []));
            Render(e, depth) == [ConcatLine(depth), ConcatLine(depth + 1), FieldLine(depth + 2, ctx, [x]),
                                 LiteralLine(depth + 2, cs, [y]), FieldLine(depth + 1, ctx2, [])]
  {
    var f, l := FieldRef(ctx, [x]), Literal(cs, [y]);
    assert Render(Concatenate(f, l), depth + 1) ==
           [ConcatLine(depth + 1), FieldLine(depth + 2, ctx, [x]), LiteralLine(depth + 2, cs, [y])];
  }

  /** On the code of any tree, followed by anything, the grammar, JavaScript and Python give that tree and the offset past it. */
  lemma {:induction false} DecodersAgree(e: Expr, rest: seq<byte>, depth: nat)
    requires Fits(e)
    ensures var b, n := Encode(e) + rest, |Encode(e)|;
            && Parse(b, 0) == Some((e, n))
            && JsExpr(b, 0, depth) == JsReturns(Render(e, depth), At(n))
            && PyExpr(b, 0, depth) == PyReturns(Render(e, depth), n)
  {
    hide Encode, Parse, JsExpr, PyExpr;
    var b := Encode(e) + rest;
    CodeIsParsed(e, [], rest);
    assert [] + Encode(e) + rest == b;
    JsDecodes(b, 0, depth);
    PyDecodes(b, 0, depth);
  }
}
