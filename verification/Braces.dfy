/** `strip_braces`: remove brace-balanced action blocks from grammar text. */
module Braces {

  predicate Brace(c: char) {
    c == '{' || c == '}'
  }

  /** The nesting depth after `text`; a closing brace at depth 0 is ignored. */
  function Depth(text: string): nat {
    if text == "" then 0
    else
      var d, c := Depth(text[..|text| - 1]), text[|text| - 1];
      if c == '{' then d + 1 else if c == '}' && d > 0 then d - 1 else d
  }

  /** Position `i` survives: an ordinary character outside all braces. */
  predicate Kept(text: string, i: nat)
    requires i < |text|
  {
    Depth(text[..i]) == 0 && !Brace(text[i])
  }

  /** The surviving characters, in order. */
  function Stripped(text: string): string {
    if text == "" then ""
    else
      var n := |text| - 1;
      Stripped(text[..n]) + if Kept(text, n) then [text[n]] else []
  }

  method StripBraces(text: string) returns (out: string)
    ensures out == Stripped(text)
  {
    out := "";
    var depth := 0;
    for i := 0 to |text|
      invariant depth == Depth(text[..i])
      invariant out == Stripped(text[..i])
    {
      var ch, t := text[i], text[..i + 1];
      assert t[..i] == text[..i];
      if ch == '{' {
        depth := depth + 1;
      } else if ch == '}' {
        if depth != 0 {
          depth := depth - 1;
        }
      } else if depth == 0 {
        out := out + [ch];
      }
    }
    assert text[..|text|] == text;
  }

  /** `at` is strictly increasing and holds exactly the surviving positions; `out` is the text there. */
  ghost predicate Selects(text: string, at: seq<nat>, out: string) {
    && |at| == |out|
    && (forall j, k :: 0 <= j < k < |at| ==> at[j] < at[k])
    && (forall k :: 0 <= k < |at| ==> at[k] < |text| && Kept(text, at[k]) && out[k] == text[at[k]])
    && (forall i :: 0 <= i < |text| && Kept(text, i) ==> i in at)
  }

  lemma {:induction false} SelectsMore(text: string, at: seq<nat>, out: string)
    requires text != "" && Selects(text[..|text| - 1], at, out)
    ensures var n := |text| - 1;
            if Kept(text, n) then Selects(text, at + [n], out + [text[n]]) else Selects(text, at, out)
  {
    hide Depth;
    var n := |text| - 1;
    forall i | 0 <= i < n
      ensures Kept(text, i) == Kept(text[..n], i)
    {
      assert text[..i] == text[..n][..i];
    }
  }

  /** The output keeps exactly the ordinary characters outside all braces, in order. */
  lemma {:induction false} StrippedIsSelection(text: string) returns (at: seq<nat>)
    ensures Selects(text, at, Stripped(text))
    decreases |text|
  {
    at := [];
    if text != "" {
      var n := |text| - 1;
      at := StrippedIsSelection(text[..n]);
      SelectsMore(text, at, Stripped(text[..n]));
      if Kept(text, n) {
        at := at + [n];
      }
      assert Stripped(text[..n]) + [] == Stripped(text[..n]);
    }
    hide Selects, Kept, Depth;
  }

  // -------------------------------------------------------- by counting

  function Count(t: string, c: char): nat {
    if t == "" then 0 else Count(t[..|t| - 1], c) + if t[|t| - 1] == c then 1 else 0
  }

  /** Opening minus closing braces. */
  function Net(t: string): int {
    Count(t, '{') - Count(t, '}')
  }

  lemma {:induction false} NetLast(text: string, j: nat)
    requires j < |text|
    ensures var n := |text| - 1;
            Net(text[j..]) == Net(text[j..n]) + if text[n] == '{' then 1 else if text[n] == '}' then -1 else 0
  {
    var t := text[j..];
    assert t[..|t| - 1] == text[j..|text| - 1] && t[|t| - 1] == text[|text| - 1];
  }

  /** The depth is the greatest surplus of opening over closing braces that any ending of the text has. */
  lemma {:induction false} DepthIsSurplus(text: string) returns (j: nat)
    ensures j <= |text| && Net(text[j..]) == Depth(text)
    ensures forall k :: 0 <= k <= |text| ==> Net(text[k..]) <= Depth(text)
    decreases |text|
  {
    hide Net;
    NetOfNothing();
    assert text[|text|..] == "";
    if text == "" {
      j := 0;
    } else {
      var n := |text| - 1;
      var t := text[..n];
      j := DepthIsSurplus(t);
      forall k | 0 <= k <= |text|
        ensures Net(text[k..]) <= Depth(text)
      {
        if k <= n {
          assert t[k..] == text[k..n];
          NetLast(text, k);
        }
      }
      assert t[j..] == text[j..n];
      NetLast(text, j);
      if text[n] == '}' && Depth(t) == 0 {
        j := |text|;
      }
    }
  }

  lemma {:induction false} NetOfNothing()
    ensures Net("") == 0
  {}

  /** A position is outside all blocks exactly if no stretch that ends before it opens more than it closes. */
  lemma {:induction false} KeptByCounting(text: string, i: nat)
    requires i < |text|
    ensures Kept(text, i) <==>
            text[i] != '{' && text[i] != '}' && forall j :: 0 <= j <= i ==> Net(text[j..i]) <= 0
  {
    hide Net, Depth;
    var t := text[..i];
    var j := DepthIsSurplus(t);
    assert forall k :: 0 <= k <= i ==> t[k..] == text[k..i];
  }

  /** Every prefix closes at most what it opens, and all of it is closed in the end. */
  predicate Balanced(b: string) {
    Net(b) == 0 && forall k :: 0 <= k <= |b| ==> Net(b[..k]) >= 0
  }

  /** Inside a block nothing is kept, however deep the block nests. */
  lemma {:induction false} InsideBlock(a: string, b: string)
    requires forall k :: 0 <= k <= |b| ==> Net(b[..k]) >= 0
    ensures Depth(a + "{" + b) == Depth(a) + 1 + Net(b)
    ensures Stripped(a + "{" + b) == Stripped(a)
    decreases |b|
  {
    var s := a + "{" + b;
    if b == "" {
      assert s[..|s| - 1] == a;
    } else {
      var n := |b| - 1;
      var t := b[..n];
      assert forall k :: 0 <= k <= |t| ==> t[..k] == b[..k];
      InsideBlock(a, t);
      assert s[..|s| - 1] == a + "{" + t && s[|s| - 1] == b[n];
      assert b[..n] == t && b[..|b|] == b;
      NetLast(b, 0);
      assert b[0..] == b && b[0..n] == t;
      hide Net;
    }
  }

  /** A balanced block disappears, with whatever blocks are in it; what stands around it does not notice. */
  lemma {:induction false} BlockRemoved(a: string, b: string, c: string)
    requires Depth(a) == 0 && Balanced(b)
    ensures Stripped(a + "{" + b + "}" + c) == Stripped(a) + Stripped(c)
  {
    hide Net, Stripped, Depth;
    InsideBlock(a, b);
    CloseBlock(a + "{" + b);
    StripDistributes(a + "{" + b + "}", c);
  }

  lemma {:induction false} CloseBlock(s: string)
    requires Depth(s) == 1
    ensures Depth(s + "}") == 0 && Stripped(s + "}") == Stripped(s)
  {
    assert (s + "}")[..|s|] == s;
  }

  // ------------------------------------------------------ distribution

  lemma {:induction false} DepthOfConcat(a: string, b: string)
    requires Depth(a) == 0
    ensures Depth(a + b) == Depth(b)
    decreases |b|
  {
    if b == "" {
      assert a + b == a;
    } else {
      var n := |b| - 1;
      assert (a + b)[..|a + b| - 1] == a + b[..n];
      DepthOfConcat(a, b[..n]);
    }
  }

  /** After a prefix whose blocks are all closed, stripping starts afresh. */
  lemma {:induction false} StripDistributes(a: string, b: string)
    requires Depth(a) == 0
    ensures Stripped(a + b) == Stripped(a) + Stripped(b)
    decreases |b|
  {
    if b == "" {
      assert a + b == a;
    } else {
      var n, s := |b| - 1, a + b;
      assert s[..|s| - 1] == a + b[..n];
      StripDistributes(a, b[..n]);
      DepthOfConcat(a, b[..n]);
    }
  }

  /** And only then: inside an open block the next character is dropped. */
  lemma {:induction false} StripDistributesOnlyBalanced(a: string)
    requires Depth(a) != 0
    ensures Stripped(a + "x") != Stripped(a) + Stripped("x")
  {
    var s := a + "x";
    assert s[..|s| - 1] == a;
    assert "x"[..0] == "" && Stripped("x") == Stripped("") + "x";
  }

  lemma {:induction false} StrippedHasNoBrace(text: string)
    ensures forall k :: 0 <= k < |Stripped(text)| ==> !Brace(Stripped(text)[k])
    decreases |text|
  {
    if text != "" {
      StrippedHasNoBrace(text[..|text| - 1]);
    }
  }

  lemma {:induction false} BraceFree(text: string)
    requires forall k :: 0 <= k < |text| ==> !Brace(text[k])
    ensures Depth(text) == 0 && Stripped(text) == text
    decreases |text|
  {
    if text != "" {
      BraceFree(text[..|text| - 1]);
      assert text == text[..|text| - 1] + [text[|text| - 1]];
    }
  }

  lemma {:induction false} StripIdempotent(text: string)
    ensures Stripped(Stripped(text)) == Stripped(text)
  {
    StrippedHasNoBrace(text);
    BraceFree(Stripped(text));
  }
}
