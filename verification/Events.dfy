/**
 The event listener: one-shot interests, a moving baseline and an asynchronous callback, against an engine
 in which posts count when their transaction commits. Steps of all participants interleave freely.
 */
module Events {
  import opened Bytes

  const WORD: nat := 0x1_0000_0000

  // ------------------------------------------------------------- listener

  /**
   The listener's fields. The two buffers hold 32-bit counts; here they hold the engine counter they were
   copied from, and `Counts` works on its low 32 bits. `counted` is set between the call of
   isc_event_counts and the reset of `fired`; `copied` between memcpy and the increment in the callback.
   */
  datatype State = State(armed: bool, fired: nat, baseline: nat, result: nat,
                         counted: Option<nat>, copied: bool)

  /** isc_event_counts: unsigned 32-bit difference of the delivered and the baseline count. */
  function Counts(baseline: nat, result: nat): (total: nat)
    ensures total < WORD
  {
    (result % WORD - baseline % WORD) % WORD
  }

  lemma {:induction false} CountsLoseWholeWords(baseline: nat, result: nat)
    ensures Counts(baseline, result) == result - baseline - WORD * ((result as int - baseline) / WORD)
  {}

  function Requeued(l: State): State {
    l.(armed := true)
  }

  function Cancelled(l: State): State {
    l.(armed := false)
  }

  /** First half of the callback: copy the delivery if it fits the buffer. */
  function Copied(l: State, data: nat, fits: bool): State {
    l.(result := if fits then data else l.result, copied := true)
  }

  function Fired(l: State): State {
    l.(fired := l.fired + 1, copied := false)
  }

  /** isc_event_counts also copies the result over the baseline. */
  function Counted(l: State): State {
    l.(counted := Some(Counts(l.baseline, l.result)), baseline := l.result)
  }

  function Reset(l: State): State {
    l.(fired := 0, counted := None)
  }

  // --------------------------------------------------------------- system

  /**
   `open` holds the pending posts of each open transaction, `counter` is the engine's count, `flying` the
   counts on their way over the auxiliary connection. The last six are histories.
   */
  datatype World = World(l: State, open: seq<nat>, counter: nat, flying: seq<nat>,
                         returned: seq<nat>, posted: nat, discarded: nat, wraps: int,
                         armings: nat, deliveries: nat)

  datatype Action =
    | Begin | Post(tx: nat) | Commit(tx: nat) | Rollback(tx: nat)
    | Deliver                 // the engine answers the interest, which is then spent
    | CallbackCopies(fits: bool) | CallbackFires
    | Requeue | Cancel
    | WaitTimesOut | WaitCounts | WaitResets

  /** A fresh listener with its first interest queued; `c` posts were committed before. */
  function Initial(c: nat): World {
    World(State(true, 0, 0, 0, None, false), [], c, [], [], 0, 0, 0, 1, 0)
  }

  /** `wait`, `requeue` and `shutdown` are called by one thread, so they do not overlap. */
  predicate Enabled(w: World, a: Action) {
    match a
    case Begin => true
    case Post(t) => t < |w.open|
    case Commit(t) => t < |w.open|
    case Rollback(t) => t < |w.open|
    case Deliver => w.l.armed
    case CallbackCopies(_) => w.flying != [] && !w.l.copied
    case CallbackFires => w.l.copied
    case Requeue => w.l.counted.None?
    case Cancel => w.l.counted.None?
    case WaitTimesOut => w.l.fired == 0 && w.l.counted.None?
    case WaitCounts => w.l.fired != 0 && w.l.counted.None?
    case WaitResets => w.l.counted.Some?
  }

  function Without(s: seq<nat>, k: nat): seq<nat>
    requires k < |s|
  {
    s[..k] + s[k + 1..]
  }

  function Apply(w: World, a: Action): World
    requires Enabled(w, a)
  {
    match a
    case Begin => w.(open := w.open + [0])
    case Post(t) => w.(open := w.open[t := w.open[t] + 1], posted := w.posted + 1)
    case Commit(t) => w.(open := Without(w.open, t), counter := w.counter + w.open[t])
    case Rollback(t) => w.(open := Without(w.open, t), discarded := w.discarded + w.open[t])
    case Deliver => w.(flying := w.flying + [w.counter], l := Cancelled(w.l), deliveries := w.deliveries + 1)
    case CallbackCopies(fits) => w.(l := Copied(w.l, w.flying[0], fits), flying := w.flying[1..])
    case CallbackFires => w.(l := Fired(w.l))
    case Requeue => w.(l := Requeued(w.l), armings := w.armings + 1)
    case Cancel => w.(l := Cancelled(w.l))
    case WaitTimesOut => w.(returned := w.returned + [0])
    case WaitCounts => w.(l := Counted(w.l), wraps := w.wraps + (w.l.result as int - w.l.baseline) / WORD)
    case WaitResets => w.(l := Reset(w.l), returned := w.returned + [w.l.counted.value])
  }

  function Exec(w: World, acts: seq<Action>): Option<World>
    decreases |acts|
  {
    if acts == [] then Some(w)
    else if !Enabled(w, acts[0]) then None
    else Exec(Apply(w, acts[0]), acts[1..])
  }

  // ---------------------------------------------------------- conservation

  function Sum(s: seq<nat>): nat {
    if s == [] then 0 else Sum(s[..|s| - 1]) + s[|s| - 1]
  }

  lemma {:induction false} SumConcat(s: seq<nat>, t: seq<nat>)
    ensures Sum(s + t) == Sum(s) + Sum(t)
    decreases |t|
  {
    if t == [] {
      assert s + t == s;
    } else {
      SumConcat(s, t[..|t| - 1]);
      assert (s + t)[..|s + t| - 1] == s + t[..|t| - 1];
    }
  }

  lemma {:induction false} SumOne(x: nat)
    ensures Sum([x]) == x
  {
    assert [x][..0] == [];
  }

  lemma {:induction false} SumReplaced(s: seq<nat>, k: nat, v: nat)
    requires k < |s|
    ensures Sum(s[k := v]) == Sum(Without(s, k)) + v
  {
    hide Sum;
    SumConcat(s[..k], s[k + 1..]);
    SumOne(v);
    SumConcat([v], s[k + 1..]);
    SumConcat(s[..k], [v] + s[k + 1..]);
    assert s[k := v] == s[..k] + ([v] + s[k + 1..]);
  }

  lemma {:induction false} SumNext(s: seq<nat>, k: nat)
    requires k < |s|
    ensures Sum(s[..k + 1]) == Sum(s[..k]) + s[k] && Sum(s[..0]) == 0
  {
    assert s[..k + 1][..k] == s[..k];
  }

  /** Counts travel in order: baseline, result, what is in flight, the engine's counter. */
  ghost predicate Ordered(l: State, flying: seq<nat>, counter: nat) {
    && l.baseline <= l.result <= counter
    && (forall i :: 0 <= i < |flying| ==> l.result <= flying[i] <= counter)
    && (forall i, j :: 0 <= i < j < |flying| ==> flying[i] <= flying[j])
  }

  function Bit(b: bool): nat {
    if b then 1 else 0
  }

  /** Every post is open, discarded or counted by the engine. */
  ghost predicate PostsKept(w: World, c: nat) {
    w.counter + Sum(w.open) + w.discarded == c + w.posted
  }

  /** What `wait` returned so far, plus what it is about to return, is the baseline up to whole words. */
  ghost predicate CountsKept(w: World) {
    && w.wraps >= 0
    && Sum(w.returned) + (if w.l.counted.Some? then w.l.counted.value else 0) + WORD * w.wraps == w.l.baseline
  }

  /** Each interest is answered at most once, and each answer fires at most once. */
  ghost predicate OneShot(w: World) {
    && w.deliveries + Bit(w.l.armed) <= w.armings
    && |w.flying| + Bit(w.l.copied) + w.l.fired <= w.deliveries
  }

  ghost predicate Inv(w: World, c: nat) {
    && Ordered(w.l, w.flying, w.counter)
    && PostsKept(w, c)
    && CountsKept(w)
    && OneShot(w)
  }

  lemma {:induction false} StepKeepsPosts(w: World, a: Action, c: nat)
    requires PostsKept(w, c) && Enabled(w, a)
    ensures PostsKept(Apply(w, a), c)
  {
    hide Sum, Without;
    if a.Post? || a.Commit? || a.Rollback? {
      SumReplaced(w.open, a.tx, w.open[a.tx]);
      SumReplaced(w.open, a.tx, w.open[a.tx] + 1);
      assert w.open[a.tx := w.open[a.tx]] == w.open;
    } else if a.Begin? {
      SumConcat(w.open, [0]);
      SumOne(0);
    }
  }

  lemma {:induction false} StepKeepsCounts(w: World, a: Action)
    requires CountsKept(w) && w.l.baseline <= w.l.result && Enabled(w, a)
    ensures CountsKept(Apply(w, a))
  {
    hide Sum, Without, Counts;
    if a.WaitCounts? {
      CountsLoseWholeWords(w.l.baseline, w.l.result);
    } else if a.WaitResets? || a.WaitTimesOut? {
      var x := if a.WaitResets? then w.l.counted.value else 0;
      SumConcat(w.returned, [x]);
      SumOne(x);
    }
  }

  lemma {:induction false} StepKeepsOrder(w: World, a: Action)
    requires Ordered(w.l, w.flying, w.counter) && Enabled(w, a)
    ensures var w' := Apply(w, a); Ordered(w'.l, w'.flying, w'.counter)
  {
    hide Sum, Without, Counts;
  }

  lemma {:induction false} StepKeepsInv(w: World, a: Action, c: nat)
    requires Inv(w, c) && Enabled(w, a)
    ensures Inv(Apply(w, a), c)
  {
    StepKeepsPosts(w, a, c);
    StepKeepsCounts(w, a);
    StepKeepsOrder(w, a);
    hide PostsKept, CountsKept, Ordered, Sum, Without, Counts;
  }

  lemma {:induction false} RunKeepsInv(w: World, acts: seq<Action>, c: nat)
    requires Inv(w, c)
    ensures Exec(w, acts).Some? ==> Inv(Exec(w, acts).value, c)
    decreases |acts|
  {
    hide Inv, Apply, Enabled;
    if acts != [] && Enabled(w, acts[0]) {
      StepKeepsInv(w, acts[0], c);
      RunKeepsInv(Apply(w, acts[0]), acts[1..], c);
    }
  }

  /** Some interleaving of posters, engine, callback thread and listener thread leads to `w`. */
  ghost predicate Reachable(c: nat, w: World) {
    exists acts :: Exec(Initial(c), acts) == Some(w)
  }

  /**
   Conservation, over every interleaving: what `wait` has returned is the baseline up to whole 32-bit words,
   and never exceeds the posts of committed transactions; open and rolled-back posts are not in it.
   */
  lemma {:induction false} EventsConserved(c: nat, w: World)
    requires Reachable(c, w)
    ensures Inv(w, c)
    ensures w.l.counted.None? ==> Sum(w.returned) + WORD * w.wraps == w.l.baseline
    ensures Sum(w.returned) <= w.l.baseline <= w.counter == c + w.posted - w.discarded - Sum(w.open)
  {
    var acts :| Exec(Initial(c), acts) == Some(w);
    RunKeepsInv(Initial(c), acts, c);
  }

  // ------------------------------------------------------------- ledger

  /** The open transactions after these actions, oldest first, each by the number of Begins before its own. */
  function Live(acts: seq<Action>): seq<nat> {
    if acts == [] then []
    else
      var a, l := acts[|acts| - 1], Live(acts[..|acts| - 1]);
      if a.Begin? then l + [Begins(acts[..|acts| - 1])]
      else if (a.Commit? || a.Rollback?) && a.tx < |l| then l[..a.tx] + l[a.tx + 1..]
      else l
  }

  function Begins(acts: seq<Action>): nat {
    if acts == [] then 0 else Begins(acts[..|acts| - 1]) + if acts[|acts| - 1].Begin? then 1 else 0
  }

  /** How many events transaction `id` posts. */
  function PostsOf(acts: seq<Action>, id: nat): nat {
    if acts == [] then 0
    else
      var p, a := acts[..|acts| - 1], acts[|acts| - 1];
      PostsOf(p, id) + if a.Post? && a.tx < |Live(p)| && Live(p)[a.tx] == id then 1 else 0
  }

  /** The posts of those transactions that the actions commit; a rolled-back or open one adds nothing. */
  function CommittedPosts(acts: seq<Action>): nat {
    if acts == [] then 0
    else
      var p, a := acts[..|acts| - 1], acts[|acts| - 1];
      CommittedPosts(p) + if a.Commit? && a.tx < |Live(p)| then PostsOf(p, Live(p)[a.tx]) else 0
  }

  /** The open transactions of `w` are those of the list, each with its posts. */
  ghost predicate Tallies(w: World, acts: seq<Action>) {
    && |w.open| == |Live(acts)|
    && (forall k :: 0 <= k < |w.open| ==> w.open[k] == PostsOf(acts, Live(acts)[k]))
  }

  /** Numbers are given once: the open ones differ, and none is as great as the next. */
  lemma {:induction false} LiveDiffer(acts: seq<Action>)
    ensures forall k :: 0 <= k < |Live(acts)| ==> Live(acts)[k] < Begins(acts)
    ensures forall j, k :: 0 <= j < k < |Live(acts)| ==> Live(acts)[j] != Live(acts)[k]
    decreases |acts|
  {
    if acts != [] {
      LiveDiffer(acts[..|acts| - 1]);
    }
  }

  /** A transaction that has not begun has no posts. */
  lemma {:induction false} NoPostsYet(acts: seq<Action>, id: nat)
    requires id >= Begins(acts)
    ensures PostsOf(acts, id) == 0
    decreases |acts|
  {
    if acts != [] {
      var p := acts[..|acts| - 1];
      NoPostsYet(p, id);
      LiveDiffer(p);
    }
  }

  lemma {:induction false} StepTallies(w: World, acts: seq<Action>, a: Action)
    requires Tallies(w, acts) && Enabled(w, a)
    ensures Tallies(Apply(w, a), acts + [a])
    ensures Apply(w, a).counter + CommittedPosts(acts) == w.counter + CommittedPosts(acts + [a])
  {
    hide Counts, Sum;
    var more := acts + [a];
    assert more[..|more| - 1] == acts && more[|more| - 1] == a;
    LiveDiffer(acts);
    NoPostsYet(acts, Begins(acts));
  }

  lemma {:induction false} RunTallies(c: nat, acts: seq<Action>)
    requires Exec(Initial(c), acts).Some?
    ensures var w := Exec(Initial(c), acts).value; Tallies(w, acts) && w.counter == c + CommittedPosts(acts)
    decreases |acts|
  {
    if acts != [] {
      var p, a := acts[..|acts| - 1], acts[|acts| - 1];
      assert acts == p + [a];
      hide Tallies, CommittedPosts, Apply, Enabled;
      ExecLast(Initial(c), p, a);
      RunTallies(c, p);
      StepTallies(Exec(Initial(c), p).value, p, a);
    }
  }

  lemma {:induction false} ExecLast(w: World, acts: seq<Action>, a: Action)
    requires Exec(w, acts + [a]).Some?
    ensures Exec(w, acts).Some? && Enabled(Exec(w, acts).value, a)
    ensures Exec(w, acts + [a]).value == Apply(Exec(w, acts).value, a)
    decreases |acts|
  {
    hide Apply, Enabled;
    var more := acts + [a];
    if acts == [] {
      assert more == [a] && [a][1..] == [];
    } else {
      assert more[1..] == acts[1..] + [a];
      ExecLast(Apply(w, acts[0]), acts[1..], a);
    }
  }

  /**
   Only committed posts count: after every run the engine's count is that of the posts of the transactions
   which the run commits, and all waits together have returned no more than that.
   */
  lemma {:induction false} OnlyCommittedCount(c: nat, acts: seq<Action>)
    requires Exec(Initial(c), acts).Some?
    ensures var w := Exec(Initial(c), acts).value;
            w.counter == c + CommittedPosts(acts) && Sum(w.returned) <= c + CommittedPosts(acts)
  {
    hide Exec, Inv, Sum, Tallies, CommittedPosts;
    RunTallies(c, acts);
    EventsConserved(c, Exec(Initial(c), acts).value);
  }

  /** Without a commit nothing is counted, whatever is posted and rolled back. */
  lemma {:induction false} NoCommitNoCount(w: World, acts: seq<Action>)
    requires Exec(w, acts).Some? && forall k :: 0 <= k < |acts| ==> !acts[k].Commit?
    ensures Exec(w, acts).value.counter == w.counter
    decreases |acts|
  {
    if acts != [] {
      assert forall k :: 0 <= k < |acts[1..]| ==> acts[1..][k] == acts[k + 1];
      NoCommitNoCount(Apply(w, acts[0]), acts[1..]);
    }
  }

  /** The returned counts add up exactly, wait by wait, as long as the engine has counted fewer than 2^32 posts. */
  lemma {:induction false} ExactBelowWrap(c: nat, w: World)
    requires Reachable(c, w) && w.counter < WORD
    ensures w.wraps == 0
    ensures w.l.counted.None? ==> Sum(w.returned) == w.l.baseline
  {
    EventsConserved(c, w);
  }

  /** One wait returns the exact difference if and only if it spans fewer than 2^32 posts. */
  lemma {:induction false} WaitExactly(baseline: nat, result: nat)
    requires baseline <= result
    ensures Counts(baseline, result) == result - baseline <==> result - baseline < WORD
  {
    CountsLoseWholeWords(baseline, result);
  }

  // --------------------------------------------------------- lost wakeups

  /** A delivery sits in the result buffer, unseen, and its own wake-up is gone. */
  predicate Overlooked(w: World) {
    w.l.fired == 0 && !w.l.copied && w.l.counted.None? && w.l.result != w.l.baseline
  }

  /** An overlooked delivery, and no other on its way or possible: until an interest is queued nothing announces it. */
  predicate Unannounced(w: World) {
    Overlooked(w) && w.flying == [] && !w.l.armed
  }

  /** Deliveries on their way or fired, and not yet waited for. */
  function Unattended(w: World): nat {
    |w.flying| + Bit(w.l.copied) + w.l.fired
  }

  /** No interest is queued while a delivery for an earlier one is unattended. */
  predicate Disciplined(w: World, acts: seq<Action>)
    decreases |acts|
  {
    acts != [] && Enabled(w, acts[0]) ==>
      (acts[0].Requeue? ==> Unattended(w) == 0) && Disciplined(Apply(w, acts[0]), acts[1..])
  }

  /** At most one answer is possible, on its way or waited for, and what was waited for is in the baseline. */
  predicate Settled(w: World) {
    && Bit(w.l.armed) + Unattended(w) <= 1
    && (w.l.counted.Some? ==> w.l.fired == 1 && w.l.baseline == w.l.result)
    && (w.l.fired == 0 && !w.l.copied ==> w.l.baseline == w.l.result)
  }

  lemma {:induction false} StepKeepsSettled(w: World, a: Action)
    requires Settled(w) && Enabled(w, a) && (a.Requeue? ==> Unattended(w) == 0)
    ensures Settled(Apply(w, a))
  {
    hide Without, Counts;
  }

  lemma {:induction false} DisciplinedRunSettles(w: World, acts: seq<Action>)
    requires Settled(w) && Disciplined(w, acts)
    ensures Exec(w, acts).Some? ==> Settled(Exec(w, acts).value)
    decreases |acts|
  {
    hide Settled, Apply, Enabled;
    if acts != [] && Enabled(w, acts[0]) {
      StepKeepsSettled(w, acts[0]);
      DisciplinedRunSettles(Apply(w, acts[0]), acts[1..]);
    }
  }

  /** With that discipline no delivery is ever overlooked, whatever the interleaving. */
  lemma {:induction false} NothingOverlooked(c: nat, acts: seq<Action>)
    requires Disciplined(Initial(c), acts) && Exec(Initial(c), acts).Some?
    ensures !Overlooked(Exec(Initial(c), acts).value)
  {
    DisciplinedRunSettles(Initial(c), acts);
  }

  // ------------------------------------------- and only with that discipline

  /** A continuation that queues no further interest. */
  predicate Continues(w: World, acts: seq<Action>) {
    (forall k :: 0 <= k < |acts| ==> !acts[k].Requeue?) && Exec(w, acts).Some?
  }

  /** One that ends with a delivery that nothing will announce. */
  predicate Leads(w: World, acts: seq<Action>) {
    Continues(w, acts) && Unannounced(Exec(w, acts).value)
  }

  lemma {:induction false} LeadsFrom(w: World, a: Action, rest: seq<Action>)
    requires Enabled(w, a) && !a.Requeue? && Leads(Apply(w, a), rest)
    ensures Leads(w, [a] + rest)
  {
    hide Apply, Enabled, Unannounced;
    assert ([a] + rest)[1..] == rest;
  }

  /** The last delivery in flight is news, and there is another one before it to be waited for. */
  predicate NewsBehind(w: World) {
    && w.l.counted.None? && w.flying != [] && !w.l.armed
    && |w.flying| - 1 + Bit(w.l.copied) + w.l.fired >= 1
    && var last := w.flying[|w.flying| - 1];
       last != w.l.result && forall k :: 0 <= k < |w.flying| - 1 ==> w.flying[k] != last
  }

  /** The callback thread runs up to the last delivery, which then falls between counting and reset. */
  lemma {:induction false} OverlookLast(w: World) returns (acts: seq<Action>)
    requires NewsBehind(w)
    ensures Leads(w, acts)
    decreases |w.flying|, Bit(w.l.copied)
  {
    hide Leads, Counts;
    if w.l.copied {
      var rest := OverlookLast(Apply(w, CallbackFires));
      LeadsFrom(w, CallbackFires, rest);
      acts := [CallbackFires] + rest;
    } else if |w.flying| > 1 {
      var w' := Apply(w, CallbackCopies(true));
      assert w'.flying[|w'.flying| - 1] == w.flying[|w.flying| - 1];
      var rest := OverlookLast(w');
      LeadsFrom(w, CallbackCopies(true), rest);
      acts := [CallbackCopies(true)] + rest;
    } else {
      acts := OverlookNow(w);
    }
  }

  lemma {:induction false} OverlookNow(w: World) returns (acts: seq<Action>)
    requires NewsBehind(w) && !w.l.copied && |w.flying| == 1
    ensures Leads(w, acts)
  {
    hide Leads, Counts;
    var w1 := Apply(w, WaitCounts);
    var w2 := Apply(w1, CallbackCopies(true));
    var w3 := Apply(w2, CallbackFires);
    var w4 := Apply(w3, WaitResets);
    assert Unannounced(w4);
    LeadsAtOnce(w4);
    LeadsFrom(w3, WaitResets, []);
    LeadsFrom(w2, CallbackFires, [WaitResets] + []);
    LeadsFrom(w1, CallbackCopies(true), [CallbackFires] + ([WaitResets] + []));
    acts := [WaitCounts] + ([CallbackCopies(true)] + ([CallbackFires] + ([WaitResets] + [])));
    LeadsFrom(w, WaitCounts, [CallbackCopies(true)] + ([CallbackFires] + ([WaitResets] + [])));
  }

  lemma {:induction false} LeadsAtOnce(w: World)
    requires Unannounced(w)
    ensures Leads(w, [])
  {}

  /** Queueing an interest behind an unattended delivery: one more committed post, and it can be overlooked. */
  lemma {:induction false} RequeueCanOverlook(w: World) returns (acts: seq<Action>)
    requires Ordered(w.l, w.flying, w.counter) && Enabled(w, Requeue) && Unattended(w) > 0
    ensures Leads(Apply(w, Requeue), acts)
  {
    hide Leads;
    var w0, n := Apply(w, Requeue), |w.open|;
    var w1 := Apply(w0, Begin);
    var w2 := Apply(w1, Post(n));
    var w3 := Apply(w2, Commit(n));
    var w4 := Apply(w3, Deliver);
    assert w3.counter == w.counter + 1 && w4.flying == w.flying + [w.counter + 1];
    var rest := OverlookLast(w4);
    hide Apply;
    LeadsFrom(w3, Deliver, rest);
    LeadsFrom(w2, Commit(n), [Deliver] + rest);
    LeadsFrom(w1, Post(n), [Commit(n)] + ([Deliver] + rest));
    LeadsFrom(w0, Begin, [Post(n)] + ([Commit(n)] + ([Deliver] + rest)));
    acts := [Begin] + ([Post(n)] + ([Commit(n)] + ([Deliver] + rest)));
  }

  /** Whatever posters, engine, callback and waits do from here on, at no point is a delivery overlooked. */
  ghost predicate Harmless(w: World) {
    forall acts :: Continues(w, acts) ==> !Overlooked(Exec(w, acts).value)
  }

  lemma {:induction false} QuietIsDisciplined(w: World, acts: seq<Action>)
    requires forall k :: 0 <= k < |acts| ==> !acts[k].Requeue?
    ensures Disciplined(w, acts)
    decreases |acts|
  {
    hide Apply, Enabled;
    if acts != [] && Enabled(w, acts[0]) {
      assert forall k :: 0 <= k < |acts[1..]| ==> acts[1..][k] == acts[k + 1];
      QuietIsDisciplined(Apply(w, acts[0]), acts[1..]);
    }
  }

  /**
   Queueing the interest again is harmless if and only if no delivery is unattended at that moment; and where it is
   not, some continuation ends with a delivery that nothing will announce.
   */
  lemma {:induction false} RequeueHarmlessExactly(w: World)
    requires Ordered(w.l, w.flying, w.counter) && Settled(w) && Enabled(w, Requeue)
    ensures Harmless(Apply(w, Requeue)) <==> Unattended(w) == 0
    ensures Harmless(Apply(w, Requeue)) <==> !exists acts :: Leads(Apply(w, Requeue), acts)
  {
    hide Unattended;
    var w' := Apply(w, Requeue);
    if Unattended(w) == 0 {
      StepKeepsSettled(w, Requeue);
      forall acts | Continues(w', acts)
        ensures !Overlooked(Exec(w', acts).value)
      {
        QuietIsDisciplined(w', acts);
        DisciplinedRunSettles(w', acts);
      }
    } else {
      var acts := RequeueCanOverlook(w);
      assert Leads(w', acts);
    }
  }

  /** Every interest queued in the run was queued harmlessly. */
  ghost predicate QueuesHarmlessly(w: World, acts: seq<Action>)
    decreases |acts|
  {
    acts != [] && Enabled(w, acts[0]) ==>
      && (acts[0].Requeue? ==> Harmless(Apply(w, acts[0])))
      && QueuesHarmlessly(Apply(w, acts[0]), acts[1..])
  }

  lemma {:induction false} DisciplineFrom(w: World, acts: seq<Action>)
    requires Ordered(w.l, w.flying, w.counter) && Settled(w)
    ensures Disciplined(w, acts) <==> QueuesHarmlessly(w, acts)
    decreases |acts|
  {
    hide Settled, Apply, Harmless, Ordered;
    if acts != [] && Enabled(w, acts[0]) {
      var a := acts[0];
      StepKeepsOrder(w, a);
      if a.Requeue? {
        RequeueHarmlessExactly(w);
      }
      if a.Requeue? ==> Unattended(w) == 0 {
        StepKeepsSettled(w, a);
        DisciplineFrom(Apply(w, a), acts[1..]);
      }
    }
  }

  /** The discipline is exact: over every run, it holds if and only if no requeue can lead to an overlooked delivery. */
  lemma {:induction false} DisciplineExactly(c: nat, acts: seq<Action>)
    ensures Disciplined(Initial(c), acts) <==> QueuesHarmlessly(Initial(c), acts)
  {
    DisciplineFrom(Initial(c), acts);
  }

  // ------------------------------------------- what the listener thread sees

  /** Since the last interest was queued, a wait has counted; only then is the next one queued. */
  predicate Heard(acts: seq<Action>, heard: bool)
    decreases |acts|
  {
    acts != [] ==>
      && (acts[0].Requeue? ==> heard)
      && Heard(acts[1..], !acts[0].Requeue? && (heard || acts[0].WaitCounts?))
  }

  predicate Consumed(w: World) {
    !w.l.armed && w.flying == [] && !w.l.copied && (w.l.fired == 0 || w.l.counted.Some?)
  }

  lemma {:induction false} StepKeepsConsumed(w: World, a: Action)
    requires Settled(w) && Enabled(w, a) && !a.Requeue? && (Consumed(w) || a.WaitCounts?)
    ensures Consumed(Apply(w, a))
  {
    hide Without, Counts;
  }

  lemma {:induction false} HeardIsDisciplined(w: World, acts: seq<Action>, heard: bool)
    requires Settled(w) && (heard ==> Consumed(w)) && Heard(acts, heard)
    ensures Disciplined(w, acts)
    decreases |acts|
  {
    hide Settled, Apply;
    if acts != [] && Enabled(w, acts[0]) {
      var a := acts[0];
      StepKeepsSettled(w, a);
      if !a.Requeue? && (heard || a.WaitCounts?) {
        StepKeepsConsumed(w, a);
      }
      HeardIsDisciplined(Apply(w, a), acts[1..], !a.Requeue? && (heard || a.WaitCounts?));
    }
  }

  /** A caller that queues again only after a wait that counted overlooks nothing. */
  lemma {:induction false} CountBeforeRequeue(c: nat, acts: seq<Action>)
    requires Heard(acts, false) && Exec(Initial(c), acts).Some?
    ensures Disciplined(Initial(c), acts) && !Overlooked(Exec(Initial(c), acts).value)
  {
    HeardIsDisciplined(Initial(c), acts, false);
    NothingOverlooked(c, acts);
  }

  /**
   A wait that timed out does not tell: while the interest is armed, a delivery that the listener thread
   cannot see makes the same call harmful.
   */
  lemma {:induction false} TimeoutDoesNotTell(w: World)
    requires Ordered(w.l, w.flying, w.counter) && Settled(w) && w.l.armed && Enabled(w, Requeue)
    ensures var w' := Apply(w, Deliver);
            && w'.l == w.l.(armed := false) && Enabled(w', Requeue)
            && !Harmless(Apply(w', Requeue))
  {
    hide Harmless;
    var w' := Apply(w, Deliver);
    StepKeepsOrder(w, Deliver);
    StepKeepsSettled(w, Deliver);
    RequeueHarmlessExactly(w');
  }

  /**
   The sample queues again even when its first wait timed out: a run of exactly its calls, in which the first
   delivery is late, ends with an overlooked one.
   */
  lemma {:induction false} CanBeOverlooked() returns (acts: seq<Action>)
    ensures |acts| > 3 && acts[..3] == [Deliver, WaitTimesOut, Requeue]
    ensures forall k :: 3 <= k < |acts| ==> !acts[k].Requeue?
    ensures Exec(Initial(0), acts).Some? && Unannounced(Exec(Initial(0), acts).value)
  {
    var w0 := Initial(0);
    var w1 := Apply(w0, Deliver);
    var w2 := Apply(w1, WaitTimesOut);
    var rest := RequeueCanOverlook(w2);
    acts := [Deliver] + ([WaitTimesOut] + ([Requeue] + rest));
    ExecStep(w2, Requeue, rest);
    ExecStep(w1, WaitTimesOut, [Requeue] + rest);
    ExecStep(w0, Deliver, [WaitTimesOut] + ([Requeue] + rest));
    assert rest != [];
    assert forall k :: 3 <= k < |acts| ==> acts[k] == rest[k - 3];
  }

  lemma {:induction false} ExecStep(w: World, a: Action, rest: seq<Action>)
    requires Enabled(w, a)
    ensures Exec(w, [a] + rest) == Exec(Apply(w, a), rest)
  {
    assert ([a] + rest)[1..] == rest;
  }

  // -------------------------------------------------------- late, not lost

  predicate Idle(w: World) {
    w.l.counted.None? && !w.l.copied && w.flying == []
  }

  /** The wait under way ends and the callback thread takes what is in flight. */
  lemma {:induction false} Drained(w: World) returns (acts: seq<Action>)
    ensures Exec(w, acts).Some?
    ensures Idle(Exec(w, acts).value) && Exec(w, acts).value.counter == w.counter
    decreases Bit(w.l.counted.Some?), |w.flying|, Bit(w.l.copied)
  {
    hide Counts, Exec;
    if Idle(w) {
      acts := [];
      ExecNothing(w);
    } else {
      var a := if w.l.counted.Some? then WaitResets else if w.l.copied then CallbackFires else CallbackCopies(true);
      var rest := Drained(Apply(w, a));
      ExecStep(w, a, rest);
      acts := [a] + rest;
    }
  }

  lemma {:induction false} ExecNothing(w: World)
    ensures Exec(w, []) == Some(w)
  {}

  lemma {:induction false} ExecThen(w: World, first: seq<Action>, more: seq<Action>)
    requires Exec(w, first).Some?
    ensures Exec(w, first + more) == Exec(Exec(w, first).value, more)
    decreases |first|
  {
    hide Apply, Enabled;
    if first == [] {
      assert first + more == more;
    } else {
      ExecThen(Apply(w, first[0]), first[1..], more);
      assert (first + more)[1..] == first[1..] + more;
    }
  }

  /** Queued again, answered and waited for: the baseline is the engine's count. */
  lemma {:induction false} CaughtUp(w: World) returns (acts: seq<Action>)
    requires Idle(w)
    ensures Exec(w, acts).Some?
    ensures var e := Exec(w, acts).value; e.l.counted.None? && e.l.baseline == e.counter == w.counter
  {
    hide Counts, Exec;
    var w1 := Apply(w, Requeue);
    var w2 := Apply(w1, Deliver);
    var w3 := Apply(w2, CallbackCopies(true));
    var w4 := Apply(w3, CallbackFires);
    var w5 := Apply(w4, WaitCounts);
    var w6 := Apply(w5, WaitResets);
    var t6 := [WaitResets] + [];
    var t5 := [WaitCounts] + t6;
    var t4 := [CallbackFires] + t5;
    var t3 := [CallbackCopies(true)] + t4;
    var t2 := [Deliver] + t3;
    acts := [Requeue] + t2;
    ExecNothing(w6);
    ExecStep(w5, WaitResets, []);
    ExecStep(w4, WaitCounts, t6);
    ExecStep(w3, CallbackFires, t5);
    ExecStep(w2, CallbackCopies(true), t4);
    ExecStep(w1, Deliver, t3);
    ExecStep(w, Requeue, t2);
  }

  /**
   No count is lost for good: whatever has happened, overlooked deliveries included, some continuation makes the
   counts returned by all waits together those of every committed post, up to whole 32-bit words.
   */
  lemma {:induction false} NothingLostForGood(c: nat, w: World) returns (acts: seq<Action>)
    requires Reachable(c, w)
    ensures Exec(w, acts).Some?
    ensures var e := Exec(w, acts).value;
            e.counter == w.counter && e.l.counted.None? && Sum(e.returned) + WORD * e.wraps == e.l.baseline == w.counter
  {
    hide Exec, Sum, Apply, Enabled;
    EventsConserved(c, w);
    var first := Drained(w);
    var more := CaughtUp(Exec(w, first).value);
    acts := first + more;
    ExecThen(w, first, more);
    RunKeepsInv(w, acts, c);
  }

  // ---------------------------------------------------------- the objects

  /** How many sleeps `wait` makes: none if something has fired, else up to the first one with a delivery. */
  function Polls(sleeps: seq<seq<nat>>, fired: bool, limit: nat): (n: nat)
    requires limit <= |sleeps|
    ensures n <= limit
    ensures forall k :: 0 <= k < n - 1 ==> sleeps[k] == []
    ensures !fired && (n == 0 || sleeps[n - 1] == []) ==> n == limit
    decreases limit
  {
    if fired || limit == 0 then 0
    else if sleeps[0] != [] then 1
    else 1 + Polls(sleeps[1..], false, limit - 1)
  }

  class Listener {
    var events: bool
    var fired: nat
    var eveBuffer: nat
    var eveResult: nat
    const eveLen: nat

    ghost function View(): State
      reads this
    {
      State(events, fired, eveBuffer, eveResult, None, false)
    }

    constructor (len: nat)
      ensures View() == Initial(0).l && eveLen == len
    {
      events, fired, eveBuffer, eveResult, eveLen := true, 0, 0, 0, len;
    }

    method Requeue()
      modifies this
      ensures View() == Requeued(old(View()))
      ensures events && fired == old(fired) && eveBuffer == old(eveBuffer) && eveResult == old(eveResult)
    {
      if events {
        events := false;
      }
      events := true;
    }

    method Shutdown()
      modifies this
      ensures View() == Cancelled(old(View()))
      ensures !events && fired == old(fired) && eveBuffer == old(eveBuffer) && eveResult == old(eveResult)
    {
      if events {
        events := false;
      }
    }

    /** Runs on the client's event thread, here without interruption. */
    method EventCallback(length: nat, data: nat)
      modifies this
      ensures View() == Fired(Copied(old(View()), data, length <= eveLen))
      ensures events == old(events) && fired == old(fired) + 1 && eveBuffer == old(eveBuffer)
      ensures eveResult == if length <= eveLen then data else old(eveResult)
    {
      if length <= eveLen {
        eveResult := data;
      }
      fired := fired + 1;
    }

    /**
     `sleeps[k]` lists the deliveries that arrive during the k-th 50 ms sleep. Without one in time the count
     is 0 and nothing changes; otherwise the last one is counted against the baseline and replaces it.
     */
    method Wait(timeoutMs: nat, sleeps: seq<seq<nat>>) returns (total: nat)
      requires |sleeps| * 50 >= timeoutMs
      modifies this
      ensures var n := Polls(sleeps, old(fired) != 0, (timeoutMs + 49) / 50);
              var got := if n == 0 then [] else sleeps[n - 1];
              var last := if got == [] then old(eveResult) else got[|got| - 1];
              if old(fired) == 0 && got == [] then total == 0 && View() == old(View())
              else
                && total == Counts(old(eveBuffer), last)
                && View() == old(View()).(fired := 0, baseline := last, result := last)
    {
      ghost var n := Polls(sleeps, fired != 0, (timeoutMs + 49) / 50);
      ghost var before := View();
      var waited, k := 0, 0;
      while fired == 0 && waited < timeoutMs
        invariant waited == 50 * k && k <= (timeoutMs + 49) / 50
        invariant k <= n && (k < n ==> View() == before && fired == 0)
        invariant before.fired != 0 ==> n == 0 && View() == before
        invariant before.fired == 0 ==>
                    if k == 0 || sleeps[k - 1] == [] then View() == before
                    else k == n && fired > 0
                         && View() == before.(fired := fired, result := sleeps[k - 1][|sleeps[k - 1]| - 1])
        decreases timeoutMs - waited
      {
        PollsOn(sleeps, (timeoutMs + 49) / 50, k);
        Sleep(sleeps[k]);
        waited := waited + 50;
        k := k + 1;
      }
      if fired == 0 {
        return 0;
      }
      total := Counts(eveBuffer, eveResult);
      eveBuffer := eveResult;
      fired := 0;
    }

    /** The deliveries of one sleep. */
    method Sleep(arrivals: seq<nat>)
      modifies this
      ensures fired == old(fired) + |arrivals|
      ensures View() == old(View()).(fired := fired,
                          result := if arrivals == [] then old(eveResult) else arrivals[|arrivals| - 1])
    {
      for i := 0 to |arrivals|
        invariant fired == old(fired) + i
        invariant View() == old(View()).(fired := fired, result := if i == 0 then old(eveResult) else arrivals[i - 1])
      {
        EventCallback(eveLen, arrivals[i]);
      }
    }
  }

  /** Polling goes on over empty sleeps and ends with the first delivery. */
  lemma {:induction false} PollsOn(sleeps: seq<seq<nat>>, limit: nat, k: nat)
    requires limit <= |sleeps| && k < limit
    requires forall j :: 0 <= j < k ==> sleeps[j] == []
    ensures var n := Polls(sleeps, false, limit);
            n > k && (sleeps[k] != [] ==> n == k + 1)
    decreases limit
  {
    if k > 0 {
      assert forall j :: 0 <= j < k - 1 ==> sleeps[1..][j] == sleeps[j + 1];
      PollsOn(sleeps[1..], limit - 1, k - 1);
    }
  }

  // --------------------------------------------------------- Delivered

  /** What a 32-bit count that starts at `c` holds after these additions. */
  function Held(c: nat, s: seq<nat>): nat {
    (c + Sum(s)) % WORD
  }

  lemma {:induction false} HeldNext(c: nat, s: seq<nat>, k: nat)
    requires k < |s|
    ensures Held(c, s[..k + 1]) == (if k == 0 then c + s[k] else Held(c, s[..k]) + s[k]) % WORD
  {
    hide Sum;
    SumNext(s, k);
  }

  /** The accumulator of the fb-cpp sample; the mutex makes each method one step. */
  class Delivered {
    /** An unsigned 32-bit count. */
    var count: nat

    constructor ()
      ensures count == 0
    {
      count := 0;
    }

    method Add(n: nat)
      modifies this
      ensures count == (old(count) + n) % WORD == Accept(Tally(old(count), 0, 0, 0), Added(n)).count
    {
      count := (count + n) % WORD;
    }

    /**
     `arrivals` are the amounts added before the timeout. The wait ends with the first one that makes the
     count non-zero, or with the timeout; `used` of them have then been added.
     */
    method Take(arrivals: seq<nat>) returns (got: nat, used: nat)
      modifies this
      ensures count == 0 && used <= |arrivals|
      ensures used == 0 ==> got == old(count)
      ensures used > 0 ==> got == Held(old(count), arrivals[..used])
      ensures forall k :: 0 < k < used ==> Held(old(count), arrivals[..k]) == 0
      ensures old(count) != 0 ==> used == 0
      ensures got == 0 ==> used == |arrivals|
      ensures var e := AcceptAll(Tally(old(count), 0, 0, 0), Additions(arrivals[..used]) + [Taken]);
              count == e.count && got == e.taken && e.added == Sum(arrivals[..used])
    {
      hide Held, Sum, AcceptAll, Additions;
      used := 0;
      while count == 0 && used < |arrivals|
        invariant used <= |arrivals| && (used == 0 ==> count == old(count)) && (used > 0 ==> old(count) == 0)
        invariant used > 0 ==> count == Held(old(count), arrivals[..used])
        invariant forall k :: 0 < k < used ==> Held(old(count), arrivals[..k]) == 0
      {
        HeldNext(old(count), arrivals, used);
        Add(arrivals[used]);
        used := used + 1;
      }
      got := count;
      count := 0;
      TakeIsTallied(old(count), arrivals[..used]);
    }
  }

  datatype Call = Added(n: nat) | Taken

  /** The count, and the history of what went in, what came out and how often the count wrapped. */
  datatype Tally = Tally(count: nat, added: nat, taken: nat, wraps: nat)

  function Accept(t: Tally, c: Call): Tally {
    match c
    case Added(n) => Tally((t.count + n) % WORD, t.added + n, t.taken, t.wraps + (t.count + n) / WORD)
    case Taken => Tally(0, t.added, t.taken + t.count, t.wraps)
  }

  function AcceptAll(t: Tally, calls: seq<Call>): Tally
    decreases |calls|
  {
    if calls == [] then t else AcceptAll(Accept(t, calls[0]), calls[1..])
  }

  function Additions(s: seq<nat>): seq<Call> {
    if s == [] then [] else Additions(s[..|s| - 1]) + [Added(s[|s| - 1])]
  }

  lemma {:induction false} AcceptLast(t: Tally, calls: seq<Call>, c: Call)
    ensures AcceptAll(t, calls + [c]) == Accept(AcceptAll(t, calls), c)
    decreases |calls|
  {
    hide Accept;
    if calls == [] {
      assert calls + [c] == [c] && [c][1..] == [];
    } else {
      AcceptLast(Accept(t, calls[0]), calls[1..], c);
      assert (calls + [c])[1..] == calls[1..] + [c];
    }
  }

  /** Additions alone: the tally's count is what the object holds, and nothing is taken. */
  lemma {:induction false} AdditionsTallied(c: nat, s: seq<nat>)
    ensures var e := AcceptAll(Tally(c, 0, 0, 0), Additions(s));
            e.count == (if s == [] then c else Held(c, s)) && e.taken == 0 && e.added == Sum(s)
    decreases |s|
  {
    hide Held, Sum, AcceptAll, Accept, Additions;
    if s == [] {
      NoAdditions(c);
    } else {
      var t, k := Tally(c, 0, 0, 0), |s| - 1;
      AdditionsTallied(c, s[..k]);
      LastAddition(t, s);
      HeldNext(c, s, k);
      SumNext(s, k);
      assert s[..k + 1] == s;
    }
  }

  lemma {:induction false} NoAdditions(c: nat)
    ensures AcceptAll(Tally(c, 0, 0, 0), Additions([])) == Tally(c, 0, 0, 0) && Sum([]) == 0
  {}

  lemma {:induction false} LastAddition(t: Tally, s: seq<nat>)
    requires s != []
    ensures var k := |s| - 1;
            var d, e := AcceptAll(t, Additions(s[..k])), AcceptAll(t, Additions(s));
            e.count == (d.count + s[k]) % WORD && e.taken == d.taken && e.added == d.added + s[k]
  {
    hide AcceptAll;
    AcceptLast(t, Additions(s[..|s| - 1]), Added(s[|s| - 1]));
  }

  lemma {:induction false} TakeIsTallied(c: nat, s: seq<nat>)
    ensures var e := AcceptAll(Tally(c, 0, 0, 0), Additions(s) + [Taken]);
            e.count == 0 && e.taken == (if s == [] then c else Held(c, s)) && e.added == Sum(s)
  {
    hide Held, Sum, AcceptAll, Additions;
    AdditionsTallied(c, s);
    AcceptLast(Tally(c, 0, 0, 0), Additions(s), Taken);
  }

  /** Nothing is lost or counted twice over any sequence of calls, but for whole words when the count overflows. */
  lemma {:induction false} DeliveredConserves(t: Tally, calls: seq<Call>)
    requires t.count < WORD && t.taken + t.count + WORD * t.wraps == t.added
    ensures var e := AcceptAll(t, calls);
            && e.count < WORD && e.taken + e.count + WORD * e.wraps == e.added
            && (e.taken + e.count == e.added <==> e.wraps == 0)
    decreases |calls|
  {
    if calls != [] {
      DeliveredConserves(Accept(t, calls[0]), calls[1..]);
    }
  }

  /** Below 2^32 in all, what was taken and what is pending is exactly what was added. */
  lemma {:induction false} DeliveredExactly(calls: seq<Call>)
    ensures var e := AcceptAll(Tally(0, 0, 0, 0), calls);
            e.added < WORD ==> e.taken + e.count == e.added
  {
    DeliveredConserves(Tally(0, 0, 0, 0), calls);
  }
}
