/** The rule graph of the grammar tool: its construction, and the depth-limited search over it. */
module Grammar {

  type Name = string
  type Edge = (Name, Name)

  /** A Python dict: the keys in insertion order, and the value of each. */
  datatype Rules = Rules(keys: seq<Name>, refs: map<Name, seq<Name>>)

  predicate NoDuplicates<T(==)>(s: seq<T>) {
    forall i, j :: 0 <= i < j < |s| ==> s[i] != s[j]
  }

  // -------------------------------------------------------- construction

  /** One match of the rule pattern: a left-hand side and the names its right-hand side mentions. */
  datatype Match = Match(lhs: Name, refs: seq<Name>)

  /** Keep the first occurrence of each name. */
  function Dedup(s: seq<Name>): seq<Name> {
    if s == [] then []
    else
      var d, x := Dedup(s[..|s| - 1]), s[|s| - 1];
      if x in d then d else d + [x]
  }

  function Lefts(ms: seq<Match>): seq<Name> {
    if ms == [] then [] else Lefts(ms[..|ms| - 1]) + [ms[|ms| - 1].lhs]
  }

  /** All names mentioned by the rules of `lhs`, in order of appearance. */
  function Mentioned(ms: seq<Match>, lhs: Name): seq<Name> {
    if ms == [] then []
    else Mentioned(ms[..|ms| - 1], lhs) + if ms[|ms| - 1].lhs == lhs then ms[|ms| - 1].refs else []
  }

  /** `[r for r in s if r in defined and r != lhs]`. */
  function Keep(s: seq<Name>, defined: set<Name>, lhs: Name): seq<Name> {
    if s == [] then []
    else Keep(s[..|s| - 1], defined, lhs) +
         if s[|s| - 1] in defined && s[|s| - 1] != lhs then [s[|s| - 1]] else []
  }

  function Elements<T(==)>(s: seq<T>): set<T> {
    set x | x in s
  }

  /** The first loop: names grouped by left-hand side, duplicates dropped. */
  ghost predicate Collected(ms: seq<Match>, r: Rules) {
    && r.keys == Dedup(Lefts(ms))
    && r.refs.Keys == Elements(r.keys)
    && forall l :: l in r.refs ==> r.refs[l] == Dedup(Mentioned(ms, l))
  }

  lemma {:induction false} DedupNext(s: seq<Name>, x: Name)
    ensures Dedup(s + [x]) == if x in Dedup(s) then Dedup(s) else Dedup(s) + [x]
  {
    assert (s + [x])[..|s|] == s;
  }

  lemma {:induction false} DedupProperties(s: seq<Name>)
    ensures NoDuplicates(Dedup(s))
    ensures Elements(Dedup(s)) == Elements(s)
    decreases |s|
  {
    if s != [] {
      var front, x := s[..|s| - 1], s[|s| - 1];
      DedupProperties(front);
      assert s == front + [x];
      assert Elements(s) == Elements(front) + {x};
      assert Elements(Dedup(front) + [x]) == Elements(Dedup(front)) + {x};
    }
  }

  /** Where a name occurs first. */
  function FirstIndex(s: seq<Name>, x: Name): (k: nat)
    requires x in s
    ensures k < |s| && s[k] == x && forall j :: 0 <= j < k ==> s[j] != x
  {
    if s[0] == x then 0 else 1 + FirstIndex(s[1..], x)
  }

  /** Names stay in the order of their first occurrence. */
  ghost predicate InOrder(d: seq<Name>, s: seq<Name>) {
    && (forall i :: 0 <= i < |d| ==> d[i] in s)
    && forall i, j :: 0 <= i < j < |d| ==> FirstIndex(s, d[i]) < FirstIndex(s, d[j])
  }

  lemma {:induction false} FirstIndexStays(s: seq<Name>, y: Name, x: Name)
    requires x in s
    ensures FirstIndex(s + [y], x) == FirstIndex(s, x)
  {
    var k, m := FirstIndex(s, x), FirstIndex(s + [y], x);
    assert (s + [y])[k] == x;
    assert forall j :: 0 <= j < k ==> (s + [y])[j] == s[j];
  }

  lemma {:induction false} DedupInOrder(s: seq<Name>)
    ensures InOrder(Dedup(s), s)
    decreases |s|
  {
    if s != [] {
      var front, y := s[..|s| - 1], s[|s| - 1];
      DedupInOrder(front);
      DedupProperties(front);
      assert s == front + [y];
      var d := Dedup(front);
      forall i | 0 <= i < |d|
        ensures d[i] in s && FirstIndex(s, d[i]) == FirstIndex(front, d[i])
      {
        FirstIndexStays(front, y, d[i]);
      }
      if y !in d {
        assert y !in Elements(d) && y !in front;
        assert s[FirstIndex(s, y)] == y;
      }
    }
  }

  lemma {:induction false} KeepProperties(s: seq<Name>, defined: set<Name>, lhs: Name)
    ensures forall x :: x in Keep(s, defined, lhs) <==> x in s && x in defined && x != lhs
    ensures NoDuplicates(s) ==> NoDuplicates(Keep(s, defined, lhs))
    decreases |s|
  {
    if s != [] {
      var front, x := s[..|s| - 1], s[|s| - 1];
      KeepProperties(front, defined, lhs);
      assert s == front + [x];
    }
  }

  /** Filtering does not reorder. */
  lemma {:induction false} KeepInOrder(s: seq<Name>, t: seq<Name>, defined: set<Name>, lhs: Name)
    requires InOrder(s, t)
    ensures InOrder(Keep(s, defined, lhs), t)
    decreases |s|
  {
    hide FirstIndex;
    if s != [] {
      var front, x := s[..|s| - 1], s[|s| - 1];
      assert InOrder(front, t);
      KeepInOrder(front, t, defined, lhs);
      KeepProperties(front, defined, lhs);
      var k := Keep(front, defined, lhs);
      assert s[|s| - 1] in t;
      forall i | 0 <= i < |k|
        ensures k[i] in t && FirstIndex(t, k[i]) < FirstIndex(t, x)
      {
        assert k[i] in k && k[i] in front;
        var j :| 0 <= j < |front| && front[j] == k[i];
        assert s[j] == k[i];
      }
    }
  }

  lemma {:induction false} MentionedNext(ms: seq<Match>, m: Match, l: Name)
    ensures Mentioned(ms + [m], l) == Mentioned(ms, l) + if m.lhs == l then m.refs else []
    ensures Lefts(ms + [m]) == Lefts(ms) + [m.lhs]
  {
    assert (ms + [m])[..|ms|] == ms;
  }

  lemma {:induction false} MentionedOnlyIfLeft(ms: seq<Match>, l: Name)
    requires l !in Lefts(ms)
    ensures Mentioned(ms, l) == []
    decreases |ms|
  {
    if ms != [] {
      MentionedOnlyIfLeft(ms[..|ms| - 1], l);
    }
  }

  lemma {:induction false} SoFar(ms: seq<Match>, r: Rules, l: Name)
    requires Collected(ms, r)
    ensures l in r.refs <==> l in r.keys
    ensures (if l in r.refs then r.refs[l] else []) == Dedup(Mentioned(ms, l))
  {
    DedupProperties(Lefts(ms));
    assert l in r.keys <==> l in Elements(r.keys);
    assert l in Lefts(ms) <==> l in Elements(Lefts(ms));
    if l !in r.refs {
      MentionedOnlyIfLeft(ms, l);
    }
  }

  lemma {:induction false} MatchAdded(ms: seq<Match>, r: Rules, m: Match, r': Rules)
    requires Collected(ms, r)
    requires r'.keys == if m.lhs in r.refs then r.keys else r.keys + [m.lhs]
    requires r'.refs == r.refs[m.lhs := Dedup(Mentioned(ms, m.lhs) + m.refs)]
    ensures Collected(ms + [m], r')
  {
    hide Dedup, Mentioned, Lefts;
    SoFar(ms, r, m.lhs);
    MentionedNext(ms, m, m.lhs);
    DedupNext(Lefts(ms), m.lhs);
    assert Elements(r.keys + [m.lhs]) == Elements(r.keys) + {m.lhs};
    forall l | l in r'.refs
      ensures r'.refs[l] == Dedup(Mentioned(ms + [m], l))
    {
      MentionedNext(ms, m, l);
      if l != m.lhs {
        assert Mentioned(ms, l) + [] == Mentioned(ms, l);
      }
    }
  }

  /** `setdefault` on the dict, then append the unseen names of one match. */
  method AddMatch(ghost ms: seq<Match>, r: Rules, m: Match) returns (r': Rules)
    requires Collected(ms, r)
    ensures Collected(ms + [m], r')
  {
    hide Dedup, Mentioned, Collected;
    SoFar(ms, r, m.lhs);
    var keys, list := r.keys, [];
    if m.lhs in r.refs {
      list := r.refs[m.lhs];
    } else {
      keys := keys + [m.lhs];
    }
    ghost var base := Mentioned(ms, m.lhs);
    assert base + m.refs[..0] == base;
    for i := 0 to |m.refs|
      invariant list == Dedup(base + m.refs[..i])
    {
      DedupNext(base + m.refs[..i], m.refs[i]);
      assert base + m.refs[..i + 1] == (base + m.refs[..i]) + [m.refs[i]];
      if m.refs[i] !in list {
        list := list + [m.refs[i]];
      }
    }
    assert m.refs[..|m.refs|] == m.refs;
    r' := Rules(keys, r.refs[m.lhs := list]);
    MatchAdded(ms, r, m, r');
  }

  /** The finished rule map: grouped, deduplicated, restricted to defined names other than the rule itself. */
  ghost predicate Built(ms: seq<Match>, r: Rules) {
    && r.keys == Dedup(Lefts(ms))
    && r.refs.Keys == Elements(Lefts(ms))
    && forall l :: l in r.refs ==> r.refs[l] == Keep(Dedup(Mentioned(ms, l)), r.refs.Keys, l)
  }

  /** The second loop: every list filtered, in place of the unfiltered one. */
  method FilterRules(r: Rules) returns (r': Rules)
    requires r.refs.Keys == Elements(r.keys)
    ensures r'.keys == r.keys && r'.refs.Keys == r.refs.Keys
    ensures forall l :: l in r.refs ==> r'.refs[l] == Keep(r.refs[l], r.refs.Keys, l)
  {
    hide Keep;
    var defined := r.refs.Keys;
    r' := r;
    for k := 0 to |r.keys|
      invariant r'.keys == r.keys && r'.refs.Keys == r.refs.Keys
      invariant forall l :: l in r.refs ==>
                  r'.refs[l] == if l in r.keys[..k] then Keep(r.refs[l], defined, l) else r.refs[l]
    {
      var l := r.keys[k];
      assert l in Elements(r.keys);
      assert r.keys[..k + 1] == r.keys[..k] + [l];
      r' := Rules(r'.keys, r'.refs[l := Keep(r.refs[l], defined, l)]);
    }
    assert r.keys[..|r.keys|] == r.keys;
    assert forall l :: l in r.refs ==> l in Elements(r.keys);
  }

  method BuildRules(ms: seq<Match>) returns (r: Rules)
    ensures Built(ms, r)
  {
    hide Dedup, Mentioned, Keep;
    r := Rules([], map[]);
    NothingCollected();
    for i := 0 to |ms|
      invariant Collected(ms[..i], r)
    {
      r := AddMatch(ms[..i], r, ms[i]);
      assert ms[..i] + [ms[i]] == ms[..i + 1];
    }
    assert ms[..|ms|] == ms;
    DedupProperties(Lefts(ms));
    r := FilterRules(r);
  }

  lemma {:induction false} NothingCollected()
    ensures Collected([], Rules([], map[]))
  {}

  /** A map whose rules mention only other rules of the map, each once. */
  ghost predicate WellFormed(r: Rules) {
    && NoDuplicates(r.keys) && r.refs.Keys == Elements(r.keys)
    && forall l :: l in r.refs ==>
         NoDuplicates(r.refs[l]) && forall x :: x in r.refs[l] ==> x in r.refs && x != l
  }

  /**
   The rule graph is closed, free of duplicates and self-loops; it has an edge exactly where a defined name is
   mentioned by a rule other than its own, and names stay in order of first mention.
   */
  lemma {:induction false} RuleGraph(ms: seq<Match>, r: Rules)
    requires Built(ms, r)
    ensures WellFormed(r)
    ensures forall l, x :: l in r.refs ==> (x in r.refs[l] <==> x in Mentioned(ms, l) && x in Lefts(ms) && x != l)
    ensures InOrder(r.keys, Lefts(ms))
    ensures forall l :: l in r.refs ==> InOrder(r.refs[l], Mentioned(ms, l))
  {
    hide Dedup, Mentioned, Keep, InOrder, FirstIndex;
    DedupProperties(Lefts(ms));
    DedupInOrder(Lefts(ms));
    forall l | l in r.refs
      ensures NoDuplicates(r.refs[l])
      ensures forall x :: x in r.refs[l] <==> x in Mentioned(ms, l) && x in Lefts(ms) && x != l
      ensures InOrder(r.refs[l], Mentioned(ms, l))
    {
      var s := Mentioned(ms, l);
      DedupProperties(s);
      DedupInOrder(s);
      KeepProperties(Dedup(s), r.refs.Keys, l);
      KeepInOrder(Dedup(s), s, r.refs.Keys, l);
      assert forall x :: x in Elements(s) <==> x in s;
      assert forall x :: x in Elements(Dedup(s)) <==> x in Dedup(s);
    }
  }
  lemma {:induction false} MentionedExactly(ms: seq<Match>, l: Name, x: Name)
    ensures x in Mentioned(ms, l) <==> exists k :: 0 <= k < |ms| && ms[k].lhs == l && x in ms[k].refs
    decreases |ms|
  {
    if ms != [] {
      var n := |ms| - 1;
      MentionedExactly(ms[..n], l, x);
      assert forall k :: 0 <= k < n ==> ms[..n][k] == ms[k];
      assert x in Mentioned(ms, l) <==> x in Mentioned(ms[..n], l) || (ms[n].lhs == l && x in ms[n].refs);
    }
  }

  lemma {:induction false} LeftsAre(ms: seq<Match>)
    ensures |Lefts(ms)| == |ms| && forall k :: 0 <= k < |ms| ==> Lefts(ms)[k] == ms[k].lhs
    decreases |ms|
  {
    if ms != [] {
      LeftsAre(ms[..|ms| - 1]);
    }
  }

  /** The graph, by the matches alone: which names are rules, and which of them another one refers to. */
  lemma {:induction false} GraphOfMatches(ms: seq<Match>, r: Rules)
    requires Built(ms, r)
    ensures forall l :: l in r.refs <==> exists k :: 0 <= k < |ms| && ms[k].lhs == l
    ensures forall l, x :: l in r.refs ==>
              (x in r.refs[l] <==> x != l && x in r.refs &&
                                   exists k :: 0 <= k < |ms| && ms[k].lhs == l && x in ms[k].refs)
  {
    hide Dedup, Mentioned, Keep, InOrder, Lefts;
    RuleGraph(ms, r);
    LeftsAre(ms);
    forall l
      ensures l in r.refs <==> exists k :: 0 <= k < |ms| && ms[k].lhs == l
    {
      assert l in r.refs <==> l in Lefts(ms);
    }
    forall l, x | l in r.refs
      ensures x in r.refs[l] <==> x != l && x in r.refs &&
                                  exists k :: 0 <= k < |ms| && ms[k].lhs == l && x in ms[k].refs
    {
      MentionedExactly(ms, l, x);
      assert x in r.refs <==> x in Lefts(ms);
    }
  }
}
