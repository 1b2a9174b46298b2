/**
 The whole run of the wire client as a step system: the client, a server that answers each
 request with one reply, and two byte channels that deliver in arbitrary pieces.
 */
module Wire {
  import opened Bytes
  import opened Arc4Cipher
  import opened Xdr
  import opened Replies
  import opened Links

  /** What the client sends to prove itself (as text), and the session key it derived. */
  datatype Proof = Proof(m: seq<byte>, key: seq<byte>)

  /**
   The fixed inputs of a run. `prove` is the client's computation on the plugin data and name of
   the acceptance; None when it throws. `serverKey` is the key the server derived on its side.
   */
  datatype Session = Session(connect: seq<Field>, db: seq<byte>, dpb: seq<byte>,
                             prove: (seq<byte>, seq<byte>) -> Option<Proof>, serverKey: seq<byte>)

  datatype Status = Running | Finished | Failed

  /** `taken` holds the bytes of the current reply that the client has consumed. */
  datatype Client = Client(status: Status, stage: nat, place: Place, buffer: seq<byte>, taken: seq<byte>,
                           requests: seq<seq<Field>>, key: seq<byte>)

  /** `inbox` holds received plaintext that does not make a whole request yet. */
  datatype Server = Server(inbox: seq<byte>, replies: seq<Reply>)

  /** `up` carries requests, `down` replies. */
  datatype World = World(client: Client, server: Server, up: Link, down: Link)

  // -------------------------------------------------------------- packets

  function ContAuth(proof: seq<byte>, plugin: seq<byte>): seq<Field> {
    [IntField(92), OpaqueField(proof), OpaqueField(plugin), OpaqueField(Ascii("Srp256,Srp")), OpaqueField([])]
  }

  function Crypt(): seq<Field> {
    [IntField(96), OpaqueField(Ascii("Arc4")), OpaqueField(Ascii("Symmetric"))]
  }

  function Attach(s: Session): seq<Field> {
    [IntField(19), IntField(0), OpaqueField(s.db), OpaqueField(s.dpb)]
  }

  function Detach(handle: int32): seq<Field> {
    [IntField(21), IntField(handle)]
  }

  /** The shape of request number `n`, which is all the server needs to delimit it. */
  function Schema(s: Session, n: nat): seq<Kind> {
    if n == 0 then Kinds(s.connect)
    else if n == 1 then [AnInt, AnOpaque, AnOpaque, AnOpaque, AnOpaque]
    else if n == 2 then [AnInt, AnOpaque, AnOpaque]
    else if n == 3 then [AnInt, AnInt, AnOpaque, AnOpaque]
    else [AnInt, AnInt]
  }

  /** Where the client starts to read the reply to request number `n`. */
  function Start(n: nat): Place {
    IntAt(if n == 0 then ReplyOp else ResponseOp)
  }

  /** What any peer may answer to request number `n`: one reply that can be read. */
  predicate WellFormed(n: nat, r: Reply) {
    if n == 0 then ConnectReply(r) else RequestReply(r)
  }

  /** If the client derives a key from an acceptance at all, it is the server's key. */
  predicate KeyAgrees(s: Session, n: nat, r: Reply) {
    n == 0 && r.Accept? && s.prove(r.data, r.plugin).Some? ==>
      s.prove(r.data, r.plugin).value.key == s.serverKey
  }

  /** What a peer with the right verifier may answer to request number `n`. */
  predicate Proper(s: Session, n: nat, r: Reply) {
    WellFormed(n, r) && KeyAgrees(s, n, r)
  }

  // ---------------------------------------------------------------- steps

  datatype Action =
    | UpArrives(k: nat)      // the server's socket receives the next k bytes
    | ServerReplies(r: Reply)
    | DownArrives(k: nat)    // a data event with the next k bytes
    | ClientTakes            // the pending take() has enough bytes and returns
    | ClientAdvances         // the reply is read; the run goes on to its next statement

  function Initial(s: Session): World
    requires AllFit(s.connect)
  {
    World(Client(Running, 0, Start(0), [], [], [s.connect], []), Server([], []),
          Send(Idle, Encode(s.connect)), Idle)
  }

  /** The steps against any peer at all that answers each request with one well-formed reply. */
  predicate Possible(s: Session, w: World, a: Action) {
    match a
    case UpArrives(k) => 0 < k <= |w.up.wire|
    case ServerReplies(r) =>
      && |w.server.replies| <= 4
      && Parse(Schema(s, |w.server.replies|), w.server.inbox).Some?
      && WellFormed(|w.server.replies|, r)
    case DownArrives(k) => 0 < k <= |w.down.wire|
    case ClientTakes =>
      w.client.status.Running? && !Final(w.client.place) && |w.client.buffer| >= Need(w.client.place)
    case ClientAdvances => w.client.status.Running? && w.client.place.Got?
  }

  /** The steps against a peer whose acceptance gives the client the peer's own key. */
  predicate Enabled(s: Session, w: World, a: Action) {
    Possible(s, w, a) && (a.ServerReplies? ==> KeyAgrees(s, |w.server.replies|, a.r))
  }

  /** Send the next request, or fail if the writer rejects a length. */
  function Request(w: World, up: Link, req: seq<Field>): World
    requires Sound(up)
  {
    var c := w.client;
    if !AllFit(req) then w.(client := c.(status := Failed))
    else w.(client := c.(stage := c.stage + 1, place := Start(c.stage + 1), taken := [],
                         requests := c.requests + [req]),
            up := Send(up, Encode(req)))
  }

  function Proceed(s: Session, w: World): World
    requires Sound(w.up) && w.client.place.Got?
  {
    var c := w.client;
    var o := c.place.outcome;
    var failed := w.(client := c.(status := Failed));
    if c.stage == 0 then
      if !o.Accepted? then failed
      else match s.prove(o.data, o.plugin)
        case None => failed
        case Some(p) => Request(w.(client := c.(key := p.key)), w.up, ContAuth(p.m, o.plugin))
    else if c.stage >= 4 then
      w.(client := c.(status := if o.ServerError? then Failed else Finished))
    else if !o.Answer? then failed
    else if c.stage == 1 then
      Request(w.(down := ArmReceiver(w.down, c.key)), w.up, Crypt())
    else if c.stage == 2 then
      Request(w, ArmSender(w.up, c.key), Attach(s))
    else
      Request(w, w.up, Detach(o.handle))
  }

  /** The server consumes one request and answers it; after op_crypt it arms both its ciphers first. */
  function Answered(s: Session, w: World, r: Reply): World
    requires Sound(w.up) && Sound(w.down) && Possible(s, w, ServerReplies(r))
  {
    var n := |w.server.replies|;
    var rest := Parse(Schema(s, n), w.server.inbox).value.1;
    var down := if n == 2 then ArmSender(w.down, s.serverKey) else w.down;
    w.(server := Server(rest, w.server.replies + [r]),
       up := if n == 2 then ArmReceiver(w.up, s.serverKey) else w.up,
       down := Send(down, EncodeReply(r)))
  }

  function Apply(s: Session, w: World, a: Action): (w': World)
    requires Sound(w.up) && Sound(w.down) && Possible(s, w, a)
    ensures Sound(w'.up) && Sound(w'.down)
  {
    hide Sound, Send, Deliver, ArmSender, ArmReceiver, Arrival, Next, Encode, EncodeReply, AllFit, Parse;
    var c := w.client;
    match a
    case UpArrives(k) =>
      w.(up := Deliver(w.up, k),
         server := w.server.(inbox := w.server.inbox + Arrival(w.up, k)))
    case ServerReplies(r) => Answered(s, w, r)
    case DownArrives(k) =>
      w.(down := Deliver(w.down, k),
         client := c.(buffer := c.buffer + Arrival(w.down, k)))
    case ClientTakes =>
      var n := Need(c.place);
      w.(client := c.(place := Next(c.place, c.buffer[..n]), buffer := c.buffer[n..],
                      taken := c.taken + c.buffer[..n]))
    case ClientAdvances => Proceed(s, w)
  }

  /** The state a sequence of actions leads to; None if one of them is not enabled. */
  function Exec(s: Session, w: World, acts: seq<Action>): Option<World>
    requires Sound(w.up) && Sound(w.down)
    decreases |acts|
  {
    if acts == [] then Some(w)
    else if !Enabled(s, w, acts[0]) then None
    else Exec(s, Apply(s, w, acts[0]), acts[1..])
  }

  // ------------------------------------------------------------ invariant

  function RequestBytes(rs: seq<seq<Field>>): seq<byte>
    requires forall k :: 0 <= k < |rs| ==> AllFit(rs[k])
  {
    if rs == [] then [] else RequestBytes(rs[..|rs| - 1]) + Encode(rs[|rs| - 1])
  }

  function ReplyBytes(rs: seq<Reply>): seq<byte>
    requires forall k :: 0 <= k < |rs| ==> ConnectReply(rs[k]) || RequestReply(rs[k])
  {
    if rs == [] then [] else ReplyBytes(rs[..|rs| - 1]) + EncodeReply(rs[|rs| - 1])
  }

  /** Requests and replies alternate, each of the right shape. */
  ghost predicate Turns(s: Session, stage: nat, requests: seq<seq<Field>>, replies: seq<Replies.Reply>) {
    && stage <= 4 && |requests| == stage + 1
    && stage <= |replies| <= stage + 1
    && (forall k :: 0 <= k <= stage ==> AllFit(requests[k]) && Kinds(requests[k]) == Schema(s, k))
    && (forall k :: 0 <= k < |replies| ==> Proper(s, k, replies[k]))
  }

  /** Which cipher is armed when, and from which byte on: after op_crypt up, after reply two down. */
  ghost predicate Switched(s: Session, c: Client, replies: seq<Replies.Reply>, up: Link, down: Link)
    requires Turns(s, c.stage, c.requests, replies)
  {
    && up.sent == RequestBytes(c.requests) && down.sent == ReplyBytes(replies)
    && (up.dec.Some? <==> |replies| >= 3)
    && (up.enc.Some? <==> c.stage >= 3)
    && (down.dec.Some? <==> c.stage >= 2)
    && (down.enc.Some? <==> |replies| >= 3)
    && (up.dec.Some? ==> up.decFrom == |RequestBytes(c.requests[..3])|)
    && (down.dec.Some? ==> down.decFrom == |ReplyBytes(replies[..2])|)
    && (c.stage >= 1 ==> c.key == s.serverKey)
  }

  /** The request the server has not answered yet; empty when it is the client's turn. */
  ghost function OpenRequest(s: Session, c: Client, replies: seq<Replies.Reply>): seq<byte>
    requires Turns(s, c.stage, c.requests, replies)
  {
    if |replies| == c.stage then Encode(c.requests[c.stage]) else []
  }

  /** The reply the client is reading; empty when the server has not sent it yet. */
  ghost function OpenReply(s: Session, c: Client, replies: seq<Replies.Reply>): seq<byte>
    requires Turns(s, c.stage, c.requests, replies)
  {
    if |replies| == c.stage then [] else EncodeReply(replies[c.stage])
  }

  /** A running client has taken a prefix of the open reply, and the rest is on its way. */
  ghost predicate Reads(c: Client, flying: seq<byte>, reply: seq<byte>) {
    c.status.Running? ==>
      && c.taken + (c.buffer + flying) == reply
      && Feed(Start(c.stage), c.taken) == Feed(c.place, [])
  }

  ghost predicate Inv(s: Session, w: World) {
    && Aligned(w.up, s.serverKey) && Aligned(w.down, s.serverKey)
    && Turns(s, w.client.stage, w.client.requests, w.server.replies)
    && Switched(s, w.client, w.server.replies, w.up, w.down)
    && w.server.inbox + InFlight(w.up) == OpenRequest(s, w.client, w.server.replies)
    && Reads(w.client, InFlight(w.down), OpenReply(s, w.client, w.server.replies))
  }

  // --------------------------------------------------- one reply, exactly

  /**
   However far the client has read into a proper reply, it is never lost; once it has an outcome,
   that is the meaning of the reply, and unless the opcode was foreign every byte has been taken.
   The rest of the reply leads to an outcome exactly if it is not a reply to op_connect that stalls.
   */
  lemma {:induction false} ReadingIsExact(s: Session, n: nat, r: Replies.Reply, taken: seq<byte>, left: seq<byte>, p: Place)
    requires Proper(s, n, r) && taken + left == EncodeReply(r)
    requires Feed(Start(n), taken) == Feed(p, [])
    ensures !p.Lost?
    ensures p.Got? ==> p.outcome == Meaning(r) && (!r.Other? ==> left == [])
    ensures if n == 0 && Stalls(r) then !p.Got? && !Final(Feed(p, left).0) else Feed(p, left).0 == Got(Meaning(r))
  {
    assert EncodeReply(r) + [] == EncodeReply(r) && [] + left == left;
    FeedSplits(Start(n), taken, left);
    FeedSplits(p, [], left);
    match r
    case Accept(_, _, _, _, _, _, _, _) => FeedAccept(r, []);
    case Response(_, _, _, _) => FeedResponse(r, []);
    case Other(_, _) => if n == 0 { FeedRefused(r); } else { FeedOther(r); }
  }

  /** A client that has an outcome has read the whole reply, and nothing else is around. */
  lemma {:induction false} OutcomeIsMeaning(s: Session, w: World)
    requires Inv(s, w) && w.client.status.Running? && w.client.place.Got?
    ensures |w.server.replies| == w.client.stage + 1
    ensures w.client.place.outcome == Meaning(w.server.replies[w.client.stage])
    ensures !w.client.place.outcome.Unexpected? ==> w.client.buffer == [] && InFlight(w.down) == []
  {
    hide Aligned, Switched, Feed, EncodeReply, Encode, Schema, Kinds, AllFit, WellFormed, KeyAgrees;
    AlignedSound(w.down, s.serverKey);
    var c := w.client;
    if |w.server.replies| == c.stage + 1 {
      ReadingIsExact(s, c.stage, w.server.replies[c.stage], c.taken, c.buffer + InFlight(w.down), c.place);
    } else {
      assert c.taken == [];
      StartIsNotLost(c.stage, c.place);
    }
  }

  // --------------------------------------------------------- preservation

  lemma {:induction false} UpArrivesKeepsInv(s: Session, w: World, k: nat)
    requires Inv(s, w) && Enabled(s, w, UpArrives(k))
    ensures Inv(s, Apply(s, w, UpArrives(k)))
  {
    hide Aligned, Turns, Reads, Transformed, RequestBytes, ReplyBytes, OpenRequest;
    AlignedSound(w.up, s.serverKey);
    AlignedSound(w.down, s.serverKey);
    DeliverKeepsAligned(w.up, k, s.serverKey);
    var inbox, fly := w.server.inbox, InFlight(w.up);
    assert inbox + fly == (inbox + fly[..k]) + fly[k..];
  }

  lemma {:induction false} DownArrivesKeepsInv(s: Session, w: World, k: nat)
    requires Inv(s, w) && Enabled(s, w, DownArrives(k))
    ensures Inv(s, Apply(s, w, DownArrives(k)))
  {
    hide Aligned, Turns, Feed, Transformed, RequestBytes, ReplyBytes;
    AlignedSound(w.up, s.serverKey);
    AlignedSound(w.down, s.serverKey);
    DeliverKeepsAligned(w.down, k, s.serverKey);
    var b, fly := w.client.buffer, InFlight(w.down);
    assert b + fly == (b + fly[..k]) + fly[k..];
  }

  lemma {:induction false} TakingKeepsReads(c: Client, flying: seq<byte>, reply: seq<byte>)
    requires Reads(c, flying, reply) && c.status.Running?
    requires !Final(c.place) && |c.buffer| >= Need(c.place)
    ensures var n := Need(c.place);
            Reads(c.(place := Next(c.place, c.buffer[..n]), buffer := c.buffer[n..],
                     taken := c.taken + c.buffer[..n]), flying, reply)
  {
    hide Feed, Next, Need;
    var n := Need(c.place);
    var b, rest := c.buffer[..n], c.buffer[n..];
    FeedTake(Start(c.stage), c.taken, c.place, b);
    assert c.buffer == b + rest;
    assert c.taken + ((b + rest) + flying) == (c.taken + b) + (rest + flying);
  }

  lemma {:induction false} ClientTakesKeepsInv(s: Session, w: World)
    requires Inv(s, w) && Enabled(s, w, ClientTakes)
    ensures Inv(s, Apply(s, w, ClientTakes))
  {
    hide Aligned, Turns, Reads, Next, Need, RequestBytes, ReplyBytes;
    AlignedSound(w.up, s.serverKey);
    AlignedSound(w.down, s.serverKey);
    TakingKeepsReads(w.client, InFlight(w.down), OpenReply(s, w.client, w.server.replies));
  }

  /** The server can answer only the request it has not answered yet, once all of it has arrived. */
  lemma {:induction false} AnswersWholeRequest(s: Session, w: World)
    requires Inv(s, w) && |w.server.replies| <= 4
    requires Parse(Schema(s, |w.server.replies|), w.server.inbox).Some?
    ensures |w.server.replies| == w.client.stage && InFlight(w.up) == []
    ensures w.server.inbox == Encode(w.client.requests[w.client.stage])
    ensures Parse(Schema(s, |w.server.replies|), w.server.inbox).value.1 == []
  {
    hide Aligned, Feed, Reads, RequestBytes, ReplyBytes, Encode;
    AlignedSound(w.up, s.serverKey);
    var c := w.client;
    if |w.server.replies| == c.stage {
      hide Parse;
      var req := c.requests[c.stage];
      if InFlight(w.up) != [] {
        ProperPrefixIncomplete(req, w.server.inbox, InFlight(w.up));
      }
      assert w.server.inbox == Encode(req) == Encode(req) + [];
      ParseEncoded(req, []);
    }
  }

  /** The server can delimit a request exactly when it is its turn and no byte of the request is still under way. */
  lemma {:induction false} DelimitsExactly(s: Session, w: World)
    requires Inv(s, w) && |w.server.replies| <= 4
    ensures w.up.recvd <= w.up.sent
    ensures Parse(Schema(s, |w.server.replies|), w.server.inbox).Some?
            <==> |w.server.replies| == w.client.stage && InFlight(w.up) == []
  {
    hide Aligned, Feed, Reads, RequestBytes, ReplyBytes, Encode, Parse;
    AlignedSound(w.up, s.serverKey);
    if |w.server.replies| == w.client.stage && InFlight(w.up) == [] {
      var req := w.client.requests[w.client.stage];
      assert w.server.inbox == Encode(req) == Encode(req) + [];
      ParseEncoded(req, []);
    } else if Parse(Schema(s, |w.server.replies|), w.server.inbox).Some? {
      AnswersWholeRequest(s, w);
    }
  }

  lemma {:induction false} AnswerKeepsTurns(s: Session, stage: nat, requests: seq<seq<Field>>,
                                            replies: seq<Replies.Reply>, r: Replies.Reply)
    requires Turns(s, stage, requests, replies) && |replies| == stage && Proper(s, stage, r)
    ensures Turns(s, stage, requests, replies + [r])
    ensures ReplyBytes(replies + [r]) == ReplyBytes(replies) + EncodeReply(r)
  {
    hide Proper, Schema, EncodeReply;
    var rs := replies + [r];
    assert rs[..|rs| - 1] == replies;
  }

  lemma {:induction false} ServerRepliesKeepsInv(s: Session, w: World, r: Replies.Reply)
    requires Inv(s, w) && Enabled(s, w, ServerReplies(r))
    ensures Inv(s, Apply(s, w, ServerReplies(r)))
  {
    hide Transformed, After, Scheduled, Feed, RequestBytes, ReplyBytes, Encode, Parse, Schema, EncodeReply,
         ConnectReply, RequestReply, Aligned, AllFit, Kinds;
    AlignedSound(w.up, s.serverKey);
    AlignedSound(w.down, s.serverKey);
    AnswersWholeRequest(s, w);
    var n, replies := |w.server.replies|, w.server.replies;
    AnswerKeepsTurns(s, n, w.client.requests, replies, r);
    var down := w.down;
    if n == 2 {
      ArmReceiverKeepsAligned(w.up, s.serverKey);
      ArmSenderKeepsAligned(w.down, s.serverKey);
      down := ArmSender(w.down, s.serverKey);
      assert w.client.requests[..3] == w.client.requests;
    }
    SendKeepsAligned(down, EncodeReply(r), s.serverKey);
    assert n >= 2 ==> (replies + [r])[..2] == replies[..2];
  }

  lemma {:induction false} RequestKeepsTurns(s: Session, stage: nat, requests: seq<seq<Field>>,
                                             replies: seq<Replies.Reply>, req: seq<Field>)
    requires Turns(s, stage, requests, replies) && |replies| == stage + 1 && stage <= 3
    requires AllFit(req) && Kinds(req) == Schema(s, stage + 1)
    ensures Turns(s, stage + 1, requests + [req], replies)
    ensures RequestBytes(requests + [req]) == RequestBytes(requests) + Encode(req)
    ensures stage >= 2 ==> (requests + [req])[..3] == requests[..3]
  {
    hide Proper, Schema, AllFit, Kinds, Encode;
    var rs := requests + [req];
    assert rs[..|rs| - 1] == requests;
  }

  /** The world in which the client is about to send request `stage + 1`: all quiet, ciphers in step. */
  ghost predicate Quiet(s: Session, w: World, up: Link) {
    && Aligned(up, s.serverKey) && Aligned(w.down, s.serverKey)
    && up.enc.Some? == up.dec.Some?
    && Turns(s, w.client.stage, w.client.requests, w.server.replies)
    && |w.server.replies| == w.client.stage + 1 && w.client.stage <= 3
    && InFlight(up) == [] && InFlight(w.down) == []
    && w.server.inbox == [] && w.client.buffer == []
    && up.sent == RequestBytes(w.client.requests) && w.down.sent == ReplyBytes(w.server.replies)
    && (up.dec.Some? <==> w.client.stage >= 2)
    && (w.down.dec.Some? <==> w.client.stage >= 1)
    && (w.down.enc.Some? <==> w.client.stage >= 2)
    && (up.dec.Some? ==> up.decFrom == |RequestBytes(w.client.requests[..3])|)
    && (w.down.dec.Some? ==> w.down.decFrom == |ReplyBytes(w.server.replies[..2])|)
    && w.client.key == s.serverKey
  }

  lemma {:induction false} TurnsCounts(s: Session, stage: nat, requests: seq<seq<Field>>, replies: seq<Replies.Reply>)
    requires Turns(s, stage, requests, replies)
    ensures |requests| == stage + 1
  {}

  lemma {:induction false} RequestSwitches(s: Session, w: World, up: Link, req: seq<Field>)
    requires Quiet(s, w, up) && AllFit(req)
    requires Kinds(req) == Schema(s, w.client.stage + 1)
    ensures var w' := Request(w, up, req);
            && Turns(s, w'.client.stage, w'.client.requests, w'.server.replies)
            && Switched(s, w'.client, w'.server.replies, w'.up, w'.down)
  {
    hide Aligned, Turns, RequestBytes, ReplyBytes, Encode, AllFit, Schema, Kinds, Transformed, After, InFlight;
    AlignedSound(up, s.serverKey);
    RequestKeepsTurns(s, w.client.stage, w.client.requests, w.server.replies, req);
  }

  lemma {:induction false} RequestKeepsInv(s: Session, w: World, up: Link, req: seq<Field>)
    requires Quiet(s, w, up) && AllFit(req)
    requires Kinds(req) == Schema(s, w.client.stage + 1)
    ensures Inv(s, Request(w, up, req))
  {
    hide Aligned, Turns, Switched, Feed, RequestBytes, ReplyBytes, AllFit, Encode, Schema, Kinds,
         EncodeReply, Transformed, After;
    TurnsCounts(s, w.client.stage, w.client.requests, w.server.replies);
    RequestSwitches(s, w, up, req);
    AlignedSound(up, s.serverKey);
    AlignedSound(w.down, s.serverKey);
    SendKeepsAligned(up, Encode(req), s.serverKey);
  }

  /** A client that stops keeps every fact about the rest of the world. */
  lemma {:induction false} StoppingKeepsInv(s: Session, w: World, status: Status, key: seq<byte>)
    requires Inv(s, w) && !status.Running? && (w.client.stage >= 1 ==> key == w.client.key)
    ensures Inv(s, w.(client := w.client.(status := status, key := key)))
  {
    hide Aligned, Turns, Feed, RequestBytes, ReplyBytes, Encode, EncodeReply;
    AlignedSound(w.up, s.serverKey);
    AlignedSound(w.down, s.serverKey);
  }

  /** The facts that hold whenever the client goes on to its next request. */
  lemma {:induction false} TurnIsQuiet(s: Session, w: World)
    requires Inv(s, w) && w.client.status.Running? && w.client.place.Got?
    requires !w.client.place.outcome.Unexpected?
    ensures |w.server.replies| == w.client.stage + 1
    ensures w.client.buffer == [] && InFlight(w.down) == []
    ensures w.server.inbox == [] && InFlight(w.up) == []
  {
    hide Aligned, Turns, Feed, Reads, RequestBytes, ReplyBytes, Encode, EncodeReply, Meaning;
    AlignedSound(w.up, s.serverKey);
    AlignedSound(w.down, s.serverKey);
    OutcomeIsMeaning(s, w);
  }

  lemma {:induction false} AcceptedKeyAgrees(s: Session, w: World)
    requires Inv(s, w) && w.client.status.Running? && w.client.place.Got? && w.client.stage == 0
    requires w.client.place.outcome.Accepted?
    ensures var o := w.client.place.outcome;
            s.prove(o.data, o.plugin).Some? ==> s.prove(o.data, o.plugin).value.key == s.serverKey
  {
    hide Aligned, Feed, Reads, RequestBytes, ReplyBytes, Encode, EncodeReply, Schema, Kinds, AllFit;
    OutcomeIsMeaning(s, w);
    assert Proper(s, 0, w.server.replies[0]);
  }

  lemma {:induction false} ConnectQuiet(s: Session, w: World, key: seq<byte>)
    requires Inv(s, w) && w.client.status.Running? && w.client.place.Got? && w.client.stage == 0
    requires w.client.place.outcome.Accepted? && key == s.serverKey
    ensures Quiet(s, w.(client := w.client.(key := key)), w.up)
  {
    TurnIsQuiet(s, w);
    hide Aligned, Turns, Reads, RequestBytes, ReplyBytes;
  }

  /** When `enableDecryption` is called the inbound buffer is empty and nothing is on its way. */
  lemma {:induction false} AuthQuiet(s: Session, w: World)
    requires Inv(s, w) && w.client.status.Running? && w.client.place.Got? && w.client.stage == 1
    requires w.client.place.outcome.Answer?
    ensures Quiet(s, w.(down := ArmReceiver(w.down, w.client.key)), w.up)
  {
    hide Aligned, Turns, Reads, RequestBytes, ReplyBytes, Scheduled, Encode, EncodeReply;
    TurnIsQuiet(s, w);
    AlignedSound(w.up, s.serverKey);
    AlignedSound(w.down, s.serverKey);
    ArmReceiverKeepsAligned(w.down, s.serverKey);
    assert w.server.replies[..2] == w.server.replies;
  }

  lemma {:induction false} CryptQuiet(s: Session, w: World)
    requires Inv(s, w) && w.client.status.Running? && w.client.place.Got? && w.client.stage == 2
    requires w.client.place.outcome.Answer?
    ensures Quiet(s, w, ArmSender(w.up, w.client.key))
  {
    TurnIsQuiet(s, w);
    ArmSenderKeepsAligned(w.up, s.serverKey);
    hide Aligned, Turns, Reads, RequestBytes, ReplyBytes, Scheduled;
  }

  lemma {:induction false} AttachQuiet(s: Session, w: World)
    requires Inv(s, w) && w.client.status.Running? && w.client.place.Got? && w.client.stage == 3
    requires w.client.place.outcome.Answer?
    ensures Quiet(s, w, w.up)
  {
    TurnIsQuiet(s, w);
    hide Aligned, Turns, Reads, RequestBytes, ReplyBytes;
  }

  lemma {:induction false} RequestShapes(s: Session, m: seq<byte>, plugin: seq<byte>, h: int32)
    ensures Kinds(ContAuth(m, plugin)) == Schema(s, 1)
    ensures Kinds(Crypt()) == Schema(s, 2) && AllFit(Crypt())
    ensures Kinds(Attach(s)) == Schema(s, 3)
    ensures Kinds(Detach(h)) == Schema(s, 4) && AllFit(Detach(h))
  {}

  lemma {:induction false} ProceedKeepsInv(s: Session, w: World)
    requires Inv(s, w) && Enabled(s, w, ClientAdvances)
    ensures Inv(s, Apply(s, w, ClientAdvances))
  {
    hide Inv, Quiet, Kinds, Schema, AllFit, ContAuth, Crypt, Attach, Detach, ArmSender, ArmReceiver, Feed, Encode;
    InvSound(s, w);
    var c, o := w.client, w.client.place.outcome;
    StoppingKeepsInv(s, w, Failed, c.key);
    StoppingKeepsInv(s, w, Finished, c.key);
    if c.stage == 0 && o.Accepted? && s.prove(o.data, o.plugin).Some? {
      var p := s.prove(o.data, o.plugin).value;
      var req := ContAuth(p.m, o.plugin);
      RequestShapes(s, p.m, o.plugin, 0);
      StoppingKeepsInv(s, w, Failed, p.key);
      AcceptedKeyAgrees(s, w);
      ConnectQuiet(s, w, p.key);
      if AllFit(req) {
        RequestKeepsInv(s, w.(client := c.(key := p.key)), w.up, req);
      }
    } else if 1 <= c.stage <= 3 && o.Answer? {
      RequestShapes(s, [], [], o.handle);
      if c.stage == 1 {
        AuthQuiet(s, w);
        RequestKeepsInv(s, w.(down := ArmReceiver(w.down, c.key)), w.up, Crypt());
      } else if c.stage == 2 {
        CryptQuiet(s, w);
        if AllFit(Attach(s)) {
          RequestKeepsInv(s, w, ArmSender(w.up, c.key), Attach(s));
        }
      } else {
        AttachQuiet(s, w);
        RequestKeepsInv(s, w, w.up, Detach(o.handle));
      }
    }
  }

  lemma {:induction false} InvSound(s: Session, w: World)
    requires Inv(s, w)
    ensures Sound(w.up) && Sound(w.down) && w.client.stage <= 4 && |w.server.replies| <= 5
    ensures w.up.recvd <= w.up.sent && w.down.recvd <= w.down.sent
  {}

  lemma {:induction false} InitialInv(s: Session)
    requires AllFit(s.connect)
    ensures Inv(s, Initial(s))
  {
    hide Transformed, After, Scheduled, Encode, AllFit, Kinds;
    IdleAligned(s.serverKey);
    SendKeepsAligned(Idle, Encode(s.connect), s.serverKey);
    assert RequestBytes([s.connect]) == RequestBytes([]) + Encode(s.connect);
  }

  /** Every step of every participant keeps the invariant. */
  lemma {:induction false} StepKeepsInv(s: Session, w: World, a: Action)
    requires Inv(s, w) && Enabled(s, w, a)
    ensures Sound(w.up) && Sound(w.down) && Inv(s, Apply(s, w, a))
  {
    hide Inv, Apply, Possible;
    InvSound(s, w);
    match a
    case UpArrives(k) => UpArrivesKeepsInv(s, w, k);
    case ServerReplies(r) => ServerRepliesKeepsInv(s, w, r);
    case DownArrives(k) => DownArrivesKeepsInv(s, w, k);
    case ClientTakes => ClientTakesKeepsInv(s, w);
    case ClientAdvances => ProceedKeepsInv(s, w);
  }

  lemma {:induction false} RunKeepsInv(s: Session, w: World, acts: seq<Action>)
    requires Inv(s, w)
    ensures Sound(w.up) && Sound(w.down)
    ensures Exec(s, w, acts).Some? ==> Inv(s, Exec(s, w, acts).value)
    decreases |acts|
  {
    hide Inv, Apply, Possible;
    InvSound(s, w);
    if acts != [] && Enabled(s, w, acts[0]) {
      StepKeepsInv(s, w, acts[0]);
      RunKeepsInv(s, Apply(s, w, acts[0]), acts[1..]);
    }
  }

  // ------------------------------------------------------------- theorems

  /** Some sequence of steps of client, server and network leads to `w`. */
  ghost predicate Reachable(s: Session, w: World) {
    AllFit(s.connect) && exists acts :: Exec(s, Initial(s), acts) == Some(w)
  }

  lemma {:induction false} ReachableInv(s: Session, w: World)
    requires Reachable(s, w)
    ensures Inv(s, w)
  {
    var acts :| Exec(s, Initial(s), acts) == Some(w);
    InitialInv(s);
    RunKeepsInv(s, Initial(s), acts);
  }

  /** In every state of every run, under every packetisation, both ends agree on both streams. */
  lemma {:induction false} StreamsStayAligned(s: Session, w: World)
    requires Reachable(s, w)
    ensures w.up.recvd <= w.up.sent && w.down.recvd <= w.down.sent
    ensures Aligned(w.up, s.serverKey) && Aligned(w.down, s.serverKey)
    ensures !(w.client.status.Running? && w.client.place.Lost?)
  {
    ReachableInv(s, w);
    hide Aligned, Turns, Reachable, Switched;
    InvSound(s, w);
    if w.client.status.Running? {
      NeverLost(s, w);
    }
  }

  lemma {:induction false} NeverLost(s: Session, w: World)
    requires Inv(s, w) && w.client.status.Running?
    ensures !w.client.place.Lost?
  {
    hide Aligned, RequestBytes, ReplyBytes, Encode, Schema, Kinds, AllFit, Feed, EncodeReply;
    AlignedSound(w.down, s.serverKey);
    var c := w.client;
    if |w.server.replies| == c.stage + 1 {
      ReadingIsExact(s, c.stage, w.server.replies[c.stage], c.taken, c.buffer + InFlight(w.down), c.place);
    } else {
      assert c.taken == [];
      StartIsNotLost(c.stage, c.place);
    }
  }

  lemma {:induction false} StartIsNotLost(n: nat, p: Place)
    requires Feed(Start(n), []) == Feed(p, [])
    ensures !p.Lost? && !p.Got?
  {}

  /** Upwards the first enciphered byte is the one after op_crypt; downwards the one after reply two. */
  lemma {:induction false} SwitchIsExact(s: Session, w: World)
    requires Reachable(s, w)
    ensures var c, replies := w.client, w.server.replies;
            && Turns(s, c.stage, c.requests, replies)
            && w.up.sent == RequestBytes(c.requests) && w.down.sent == ReplyBytes(replies)
            && (w.up.enc.Some? <==> c.stage >= 3) && (w.down.enc.Some? <==> |replies| >= 3)
            && (c.stage >= 3 ==> w.up.encFrom == w.up.decFrom == |RequestBytes(c.requests[..3])|)
            && (|replies| >= 3 ==> w.down.encFrom == w.down.decFrom == |ReplyBytes(replies[..2])|)
  {
    ReachableInv(s, w);
    hide Reachable, Transformed, After, Scheduled, Reads, Proper, Schema;
  }

  // -------------------------------------------- any peer, before the switch

  /** The state a sequence of actions leads to against a peer that may have any key. */
  function ExecAny(s: Session, w: World, acts: seq<Action>): Option<World>
    requires Sound(w.up) && Sound(w.down)
    decreases |acts|
  {
    if acts == [] then Some(w)
    else if !Possible(s, w, acts[0]) then None
    else ExecAny(s, Apply(s, w, acts[0]), acts[1..])
  }

  /** Some sequence of steps leads to `w`, whatever key the peer has. */
  ghost predicate ReachableAny(s: Session, w: World) {
    AllFit(s.connect) && exists acts :: ExecAny(s, Initial(s), acts) == Some(w)
  }

  /** The session with the peer whose key is the one the client derives from these replies. */
  function Rekeyed(s: Session, replies: seq<Replies.Reply>): Session {
    if replies != [] && replies[0].Accept? && s.prove(replies[0].data, replies[0].plugin).Some?
    then s.(serverKey := s.prove(replies[0].data, replies[0].plugin).value.key)
    else s
  }

  /** Up to the second reply the run is one with a peer that has the client's key; the third answers op_crypt. */
  ghost predicate InvAny(s: Session, w: World) {
    && Sound(w.up) && Sound(w.down)
    && if |w.server.replies| <= 2 then Inv(Rekeyed(s, w.server.replies), w) else w.client.stage >= 2
  }

  /** Before the first reply nothing depends on the peer's key. */
  lemma {:induction false} NoKeyYet(s: Session, w: World, key: seq<byte>)
    requires Inv(s, w) && w.server.replies == []
    ensures Inv(s.(serverKey := key), w)
  {
    hide Transformed, After, Scheduled, Encode, EncodeReply, Feed, AllFit, Kinds, RequestBytes, ReplyBytes;
  }

  /** No step but the answer to op_crypt looks at the peer's key. */
  lemma {:induction false} StepIgnoresKey(s: Session, w: World, a: Action, key: seq<byte>)
    requires Sound(w.up) && Sound(w.down) && Possible(s, w, a)
    requires a.ServerReplies? ==> |w.server.replies| != 2
    ensures Possible(s.(serverKey := key), w, a)
    ensures Apply(s.(serverKey := key), w, a) == Apply(s, w, a)
  {
    hide Sound, Send, Deliver, ArmSender, ArmReceiver, Arrival, Next, Need, Encode, EncodeReply, AllFit, Parse,
         WellFormed, Kinds;
    assert Attach(s.(serverKey := key)) == Attach(s);
  }

  lemma {:induction false} StageGrows(s: Session, w: World, a: Action)
    requires Sound(w.up) && Sound(w.down) && Possible(s, w, a)
    ensures Apply(s, w, a).client.stage >= w.client.stage
    ensures Apply(s, w, a).server.replies == w.server.replies + if a.ServerReplies? then [a.r] else []
  {
    hide Sound, Send, Deliver, ArmSender, ArmReceiver, Arrival, Next, Need, Encode, EncodeReply, AllFit, Parse,
         WellFormed, Schema;
  }

  /** A step before the switch is a step with the peer whose key the client derives, now or by this very step. */
  lemma {:induction false} StepRekeyed(s: Session, w: World, a: Action)
    requires InvAny(s, w) && Possible(s, w, a)
    requires |w.server.replies| <= 2 && (a.ServerReplies? ==> |w.server.replies| != 2)
    ensures var t := Rekeyed(s, w.server.replies + if a.ServerReplies? then [a.r] else []);
            Inv(t, w) && Enabled(t, w, a) && Apply(t, w, a) == Apply(s, w, a)
  {
    hide Inv, Possible, Apply, Sound;
    var replies := w.server.replies + if a.ServerReplies? then [a.r] else [];
    var t := Rekeyed(s, replies);
    assert t == s.(serverKey := t.serverKey);
    StepIgnoresKey(s, w, a, t.serverKey);
    if w.server.replies == [] {
      NoKeyYet(s, w, t.serverKey);
    }
  }

  lemma {:induction false} StepKeepsInvAny(s: Session, w: World, a: Action)
    requires InvAny(s, w) && Possible(s, w, a)
    ensures InvAny(s, Apply(s, w, a))
  {
    hide Inv, Possible, Apply, Rekeyed, Sound;
    StageGrows(s, w, a);
    if |w.server.replies| == 2 && a.ServerReplies? {
      AnswersAny(s, w, a.r);
    } else if |w.server.replies| <= 2 {
      StepRekeyed(s, w, a);
      StepKeepsInv(Rekeyed(s, Apply(s, w, a).server.replies), w, a);
    }
  }

  /** Up to op_crypt any peer answers exactly the open request. */
  lemma {:induction false} AnswersAny(s: Session, w: World, r: Replies.Reply)
    requires InvAny(s, w) && Possible(s, w, ServerReplies(r)) && |w.server.replies| <= 2
    ensures var n := |w.server.replies|;
            && w.client.stage == n && |w.client.requests| == n + 1 && AllFit(w.client.requests[n])
            && w.server.inbox == Encode(w.client.requests[n])
            && w.up.wire == [] && w.up.recvd == w.up.sent
            && Apply(s, w, ServerReplies(r)).server.inbox == []
  {
    hide Reads, Transformed, After, Scheduled, WellFormed, RequestBytes, ReplyBytes, Encode,
         AllFit, Parse, EncodeReply, Kinds;
    var t := Rekeyed(s, w.server.replies);
    assert Schema(t, |w.server.replies|) == Schema(s, |w.server.replies|);
    AnswersWholeRequest(t, w);
  }

  lemma {:induction false} RunKeepsInvAny(s: Session, w: World, acts: seq<Action>)
    requires InvAny(s, w)
    ensures ExecAny(s, w, acts).Some? ==> InvAny(s, ExecAny(s, w, acts).value)
    decreases |acts|
  {
    hide Inv, Apply, Possible, Rekeyed;
    if acts != [] && Possible(s, w, acts[0]) {
      StepKeepsInvAny(s, w, acts[0]);
      RunKeepsInvAny(s, Apply(s, w, acts[0]), acts[1..]);
    }
  }

  lemma {:induction false} ReachableAnyInv(s: Session, w: World)
    requires ReachableAny(s, w)
    ensures InvAny(s, w)
  {
    hide Inv;
    var acts :| ExecAny(s, Initial(s), acts) == Some(w);
    InitialInv(s);
    RunKeepsInvAny(s, Initial(s), acts);
  }

  /** The stated precondition of `enableDecryption` holds whenever the client calls it, whoever the peer is. */
  lemma {:induction false} DecryptionStartsClean(s: Session, w: World)
    requires ReachableAny(s, w) && Possible(s, w, ClientAdvances)
    requires w.client.stage == 1 && w.client.place.outcome.Answer?
    ensures w.client.buffer == [] && w.down.wire == [] && w.down.recvd == w.down.sent
    ensures w.down.enc.None? && w.down.dec.None?
    ensures Sound(w.up) && Sound(w.down)
    ensures Apply(s, w, ClientAdvances).down.dec == Some(Scheduled(w.client.key))
  {
    hide ReachableAny, Transformed, After, Scheduled, Reads, WellFormed, Schema, Turns, RequestBytes, ReplyBytes,
         Encode, AllFit, Crypt;
    ReachableAnyInv(s, w);
    TurnIsQuiet(Rekeyed(s, w.server.replies), w);
    RequestShapes(s, [], [], 0);
  }

  /** The peer, too, arms its ciphers on a packet boundary: op_crypt is whole and nothing follows it. */
  lemma {:induction false} ServerSwitchesClean(s: Session, w: World, r: Replies.Reply)
    requires ReachableAny(s, w) && Possible(s, w, ServerReplies(r)) && |w.server.replies| == 2
    ensures |w.client.requests| == 3 && AllFit(w.client.requests[2])
    ensures w.server.inbox == Encode(w.client.requests[2])
    ensures w.up.wire == [] && w.up.recvd == w.up.sent
    ensures Sound(w.up) && Sound(w.down) && Apply(s, w, ServerReplies(r)).server.inbox == []
  {
    hide Inv, ReachableAny, Possible, Apply, Rekeyed;
    ReachableAnyInv(s, w);
    AnswersAny(s, w, r);
  }

  lemma {:induction false} RunIsPossible(s: Session, w: World, acts: seq<Action>)
    requires Sound(w.up) && Sound(w.down) && Exec(s, w, acts).Some?
    ensures ExecAny(s, w, acts) == Exec(s, w, acts)
    decreases |acts|
  {
    hide Sound, Apply, Possible;
    if acts != [] {
      RunIsPossible(s, Apply(s, w, acts[0]), acts[1..]);
    }
  }

  /** The peer with the right key is one of all peers, so what is proved of any peer holds of it. */
  lemma {:induction false} ReachableIsPossible(s: Session, w: World)
    requires Reachable(s, w)
    ensures ReachableAny(s, w)
  {
    var acts :| Exec(s, Initial(s), acts) == Some(w);
    hide Exec, ExecAny;
    RunIsPossible(s, Initial(s), acts);
  }

  /** With the right key both ends switch on a packet boundary, and to the same cipher. */
  lemma {:induction false} SwitchIsClean(s: Session, w: World, a: Action)
    requires Reachable(s, w) && Enabled(s, w, a)
    ensures Sound(w.up) && Sound(w.down)
    ensures a.ClientAdvances? && w.client.stage == 1 && w.client.place.outcome.Answer? ==>
              && w.client.buffer == [] && w.down.wire == [] && w.down.recvd == w.down.sent
              && Apply(s, w, a).down.dec == Some(Scheduled(s.serverKey))
    ensures a.ServerReplies? && |w.server.replies| == 2 ==>
              && w.up.wire == [] && w.up.recvd == w.up.sent && Apply(s, w, a).server.inbox == []
              && Apply(s, w, a).up.dec == Some(Scheduled(s.serverKey))
  {
    hide Reachable, ReachableAny, Inv, Scheduled, Schema, WellFormed, Parse, Encode, EncodeReply;
    ReachableIsPossible(s, w);
    ReachableInv(s, w);
    InvSound(s, w);
    if a.ClientAdvances? && w.client.stage == 1 && w.client.place.outcome.Answer? {
      DecryptionStartsClean(s, w);
      KeyAtStage(s, w);
    } else if a.ServerReplies? && |w.server.replies| == 2 {
      ServerSwitchesClean(s, w, a.r);
    }
  }

  lemma {:induction false} KeyAtStage(s: Session, w: World)
    requires Inv(s, w) && w.client.stage >= 1
    ensures w.client.key == s.serverKey
  {
    hide Aligned, Turns, Reads, RequestBytes, ReplyBytes;
  }

  /** The client waits for the rest of a reply to op_connect that has arrived in full and has no rest. */
  predicate Starved(w: World) {
    && w.client.status.Running? && w.client.stage == 0
    && |w.server.replies| == 1 && Stalls(w.server.replies[0])
    && w.up.wire == [] && w.down.wire == []
    && !Final(w.client.place) && |w.client.buffer| < Need(w.client.place)
  }

  /** As long as the client runs and is not starved, something can happen. */
  lemma {:induction false} NoDeadlock(s: Session, w: World) returns (a: Action)
    requires Inv(s, w) && w.client.status.Running? && !Starved(w)
    ensures Enabled(s, w, a)
  {
    hide Inv, Starved;
    a := StepWith(s, w, Other(OP_REJECT, []));
  }

  /** A starved client is stuck: no step of anyone is possible. */
  lemma {:induction false} StarvedIsStuck(s: Session, w: World, a: Action)
    requires Inv(s, w) && Starved(w)
    ensures !Possible(s, w, a)
  {
    hide Inv, Parse, Schema, WellFormed, Stalls, Need;
    if a.ServerReplies? && Possible(s, w, a) {
      AnswersWholeRequest(s, w);
    }
  }

  /** So the stuck states of a running client are exactly the starved ones. */
  lemma {:induction false} StuckExactly(s: Session, w: World)
    requires Inv(s, w) && w.client.status.Running?
    ensures (exists a :: Enabled(s, w, a)) <==> !Starved(w)
  {
    hide Inv, Starved, Possible;
    if Starved(w) {
      forall a: Action
        ensures !Enabled(s, w, a)
      {
        StarvedIsStuck(s, w, a);
      }
    } else {
      var a := NoDeadlock(s, w);
    }
  }

  /** The same where the server has made up its mind what to answer next. */
  lemma {:induction false} StepWith(s: Session, w: World, r: Replies.Reply) returns (a: Action)
    requires Inv(s, w) && w.client.status.Running? && !Starved(w) && Proper(s, |w.server.replies|, r)
    ensures Enabled(s, w, a) && (a.ServerReplies? ==> a.r == r)
  {
    hide Aligned, RequestBytes, ReplyBytes, Switched, Feed, EncodeReply, Encode, Kinds, AllFit, Parse, Need;
    WireLength(w.up, s.serverKey);
    WireLength(w.down, s.serverKey);
    var c, n := w.client, |w.server.replies|;
    if w.up.wire != [] {
      a := UpArrives(1);
    } else if w.down.wire != [] {
      a := DownArrives(1);
    } else if n == c.stage {
      a := ServerReplies(r);
      assert w.server.inbox == Encode(c.requests[n]) == Encode(c.requests[n]) + [];
      ParseEncoded(c.requests[n], []);
    } else {
      assert c.taken + c.buffer == EncodeReply(w.server.replies[c.stage]) && c.buffer + [] == c.buffer;
      ReadingIsExact(s, c.stage, w.server.replies[c.stage], c.taken, c.buffer, c.place);
      if c.place.Got? {
        a := ClientAdvances;
      } else {
        a := ClientTakes;
        if c.stage != 0 || !Stalls(w.server.replies[c.stage]) {
          FeedMoves(c.place, c.buffer);
        }
      }
    }
  }

  lemma {:induction false} WireLength(l: Link, key: seq<byte>)
    requires Aligned(l, key)
    ensures l.recvd <= l.sent && |l.wire| == |InFlight(l)|
  {}

  lemma {:induction false} FeedMoves(p: Place, s: seq<byte>)
    requires Feed(p, s).0.Got? && !Final(p)
    ensures |s| >= Need(p)
  {}

  /** What is left to do gets smaller, compared from the most to the least significant quantity. */
  predicate Progress(w: World, w': World) {
    var c, c' := w.client, w'.client;
    || c'.stage > c.stage
    || (c'.stage == c.stage && c.status.Running? && !c'.status.Running?)
    || (c'.stage == c.stage && c'.status == c.status &&
        (|| |w'.server.replies| > |w.server.replies|
         || (w'.server.replies == w.server.replies &&
             (|| |w'.up.wire| < |w.up.wire|
              || (w'.up == w.up &&
                  (|| |w'.down.wire| < |w.down.wire|
                   || (w'.down == w.down &&
                       (|| |c'.buffer| < |c.buffer|
                        || (|c'.buffer| == |c.buffer| && Slack(c'.place) < Slack(c.place))))))))))
  }

  lemma {:induction false} StepProgresses(s: Session, w: World, a: Action)
    requires Sound(w.up) && Sound(w.down) && w.client.stage <= 4
    requires w.client.status.Running? && Possible(s, w, a)
    ensures Progress(w, Apply(s, w, a))
  {
    hide Transformed, After, Scheduled, Parse, Schema, WellFormed, AllFit, Encode, EncodeReply, DecodeInt;
  }

  /** The run that a scheduler chooses step by step. */
  predicate Follows(s: Session, w: World, acts: seq<Action>, pick: World -> Action)
    requires Sound(w.up) && Sound(w.down)
    decreases |acts|
  {
    acts != [] ==>
      acts[0] == pick(w) && Enabled(s, w, acts[0]) && Follows(s, Apply(s, w, acts[0]), acts[1..], pick)
  }

  /**
   Every run comes to an end: whoever chooses the steps, and however, the client finishes, fails or starves
   after finitely many of them.
   */
  lemma {:induction false} EveryRunEnds(s: Session, w: World, pick: World -> Action) returns (acts: seq<Action>)
    requires Inv(s, w)
    requires forall v :: Inv(s, v) && v.client.status.Running? && !Starved(v) ==> Enabled(s, v, pick(v))
    ensures Sound(w.up) && Sound(w.down) && Exec(s, w, acts).Some?
    ensures var e := Exec(s, w, acts).value; !e.client.status.Running? || Starved(e)
    ensures Follows(s, w, acts, pick)
    decreases 4 - w.client.stage, if w.client.status.Running? then 1 else 0, 5 - |w.server.replies|,
              |w.up.wire|, |w.down.wire|, |w.client.buffer|, Slack(w.client.place)
  {
    hide Apply, Inv, Possible, Sound, Starved;
    InvSound(s, w);
    acts := [];
    if w.client.status.Running? && !Starved(w) {
      var a := pick(w);
      StepKeepsInv(s, w, a);
      StepProgresses(s, w, a);
      var w' := Apply(s, w, a);
      InvSound(s, w');
      var rest := EveryRunEnds(s, w', pick);
      acts := [a] + rest;
      assert acts[1..] == rest;
    }
  }

  // -------------------------------------------------------- stalled replies

  /** Until a first reply that can be read to its end, the client runs and is at its first reply. */
  predicate Awaits(w: World) {
    w.server.replies == [] || Stalls(w.server.replies[0]) ==> w.client.status.Running? && w.client.stage == 0
  }

  lemma {:induction false} NoOutcomeYet(s: Session, w: World)
    requires Inv(s, w) && w.client.status.Running? && w.client.stage == 0
    requires w.server.replies == [] || Stalls(w.server.replies[0])
    ensures !w.client.place.Got?
  {
    hide Aligned, Switched, RequestBytes, ReplyBytes, Feed, EncodeReply, Encode, Schema, Kinds, AllFit, WellFormed,
         KeyAgrees, Stalls;
    if w.client.place.Got? {
      OutcomeIsMeaning(s, w);
      AlignedSound(w.down, s.serverKey);
      var c := w.client;
      ReadingIsExact(s, 0, w.server.replies[0], c.taken, c.buffer + InFlight(w.down), c.place);
    }
  }

  lemma {:induction false} StepKeepsAwaiting(s: Session, w: World, a: Action)
    requires Inv(s, w) && Enabled(s, w, a) && Awaits(w)
    ensures Sound(w.up) && Sound(w.down) && Awaits(Apply(s, w, a))
  {
    hide Inv, Parse, Schema, WellFormed, KeyAgrees, EncodeReply, Next, Need, Send, Deliver, Encode, AllFit, Stalls,
         ArmSender, ArmReceiver;
    InvSound(s, w);
    if a.ClientAdvances? && (w.server.replies == [] || Stalls(w.server.replies[0])) {
      NoOutcomeYet(s, w);
    }
  }

  lemma {:induction false} RunKeepsAwaiting(s: Session, w: World, acts: seq<Action>)
    requires Inv(s, w) && Awaits(w)
    ensures Sound(w.up) && Sound(w.down)
    ensures var end := Exec(s, w, acts); end.Some? ==> Awaits(end.value)
    decreases |acts|
  {
    hide Inv, Apply, Possible, Awaits;
    InvSound(s, w);
    if acts != [] && Enabled(s, w, acts[0]) {
      StepKeepsInv(s, w, acts[0]);
      StepKeepsAwaiting(s, w, acts[0]);
      RunKeepsAwaiting(s, Apply(s, w, acts[0]), acts[1..]);
    }
  }

  /** Whoever chooses the steps: the run hangs if and only if the reply to op_connect stalls. */
  lemma {:induction false} HangsExactly(s: Session, pick: World -> Action) returns (acts: seq<Action>)
    requires AllFit(s.connect)
    requires forall v :: Inv(s, v) && v.client.status.Running? && !Starved(v) ==> Enabled(s, v, pick(v))
    ensures Follows(s, Initial(s), acts, pick) && Exec(s, Initial(s), acts).Some?
    ensures var e := Exec(s, Initial(s), acts).value;
            && e.server.replies != []
            && (e.client.status.Running? <==> Stalls(e.server.replies[0]))
            && (e.client.status.Running? ==> Starved(e))
  {
    InitialInv(s);
    hide Inv, Exec, Follows, Possible, AllFit, Stalls, Need;
    acts := EveryRunEnds(s, Initial(s), pick);
    RunKeepsAwaiting(s, Initial(s), acts);
  }

  /** Every reply that stalls does so: a run in which it is given ends with the client waiting for ever. */
  lemma {:induction false} StallHangs(s: Session, r: Replies.Reply) returns (acts: seq<Action>)
    requires AllFit(s.connect) && ConnectReply(r) && Stalls(r)
    ensures Exec(s, Initial(s), acts).Some?
    ensures var e := Exec(s, Initial(s), acts).value; Starved(e) && e.server.replies == [r]
  {
    InitialInv(s);
    hide Inv, Exec, Starved, AllFit;
    acts := StallFrom(s, Initial(s), r);
  }

  lemma {:induction false} StallFrom(s: Session, w: World, r: Replies.Reply) returns (acts: seq<Action>)
    requires Inv(s, w) && Awaits(w) && Proper(s, 0, r) && Stalls(r)
    requires w.server.replies == [] || w.server.replies == [r]
    ensures Sound(w.up) && Sound(w.down) && Exec(s, w, acts).Some?
    ensures var e := Exec(s, w, acts).value; Starved(e) && e.server.replies == [r]
    decreases 4 - w.client.stage, if w.client.status.Running? then 1 else 0, 5 - |w.server.replies|,
              |w.up.wire|, |w.down.wire|, |w.client.buffer|, Slack(w.client.place)
  {
    hide Apply, Inv, Possible, Sound, WellFormed, KeyAgrees, Stalls, Starved;
    InvSound(s, w);
    acts := [];
    if Starved(w) {
      StarvedReply(w);
    } else {
      var a := StallStep(s, w, r);
      StepKeepsInv(s, w, a);
      StepKeepsAwaiting(s, w, a);
      StepProgresses(s, w, a);
      RepliesGrow(s, w, a);
      var w' := Apply(s, w, a);
      InvSound(s, w');
      var rest := StallFrom(s, w', r);
      acts := [a] + rest;
      assert acts[1..] == rest;
    }
  }

  lemma {:induction false} StarvedReply(w: World)
    requires Starved(w)
    ensures |w.server.replies| == 1
  {}

  lemma {:induction false} StallStep(s: Session, w: World, r: Replies.Reply) returns (a: Action)
    requires Inv(s, w) && Awaits(w) && Proper(s, 0, r) && Stalls(r) && !Starved(w)
    requires w.server.replies == [] || w.server.replies == [r]
    ensures Enabled(s, w, a) && (a.ServerReplies? ==> w.server.replies == [] && a.r == r)
  {
    hide Inv, Starved, WellFormed, KeyAgrees, Stalls, Parse, Schema, Need;
    if w.server.replies == [] {
      a := StepWith(s, w, r);
    } else {
      RejectIsProper(s, 1);
      a := StepWith(s, w, Other(OP_REJECT, []));
      if a.ServerReplies? {
        AnswersWholeRequest(s, w);
      }
    }
  }

  lemma {:induction false} RejectIsProper(s: Session, n: nat)
    ensures Proper(s, n, Other(OP_REJECT, []))
  {}

  /** The least of them: a bare opcode that is none of the three. */
  lemma {:induction false} BareReplyHangs(s: Session) returns (acts: seq<Action>)
    requires AllFit(s.connect)
    ensures Exec(s, Initial(s), acts).Some?
    ensures var e := Exec(s, Initial(s), acts).value; Starved(e) && e.server.replies == [Other(71, [])]
  {
    hide Exec, Starved, AllFit;
    acts := StallHangs(s, Other(71, []));
  }

  // ----------------------------------------------------- any peer, any run

  predicate FollowsAny(s: Session, w: World, acts: seq<Action>, pick: World -> Action)
    requires Sound(w.up) && Sound(w.down)
    decreases |acts|
  {
    acts != [] ==>
      acts[0] == pick(w) && Possible(s, w, acts[0]) && FollowsAny(s, Apply(s, w, acts[0]), acts[1..], pick)
  }

  lemma {:induction false} StepKeepsBounds(s: Session, w: World, a: Action)
    requires Sound(w.up) && Sound(w.down) && Possible(s, w, a)
    requires w.client.stage <= 4 && |w.server.replies| <= 5
    ensures var w' := Apply(s, w, a); w'.client.stage <= 4 && |w'.server.replies| <= 5
  {
    hide Sound, Send, Deliver, ArmSender, ArmReceiver, Arrival, Next, Need, Encode, EncodeReply, AllFit, Parse,
         WellFormed, Schema;
  }

  /** Whatever key the peer has, no run goes on for ever: the client stops, or the step chosen is not possible. */
  lemma {:induction false} EveryRunStops(s: Session, w: World, pick: World -> Action) returns (acts: seq<Action>)
    requires Sound(w.up) && Sound(w.down) && w.client.stage <= 4 && |w.server.replies| <= 5
    ensures ExecAny(s, w, acts).Some? && FollowsAny(s, w, acts, pick)
    ensures var e := ExecAny(s, w, acts).value; !e.client.status.Running? || !Possible(s, e, pick(e))
    decreases 4 - w.client.stage, if w.client.status.Running? then 1 else 0, 5 - |w.server.replies|,
              |w.up.wire|, |w.down.wire|, |w.client.buffer|, Slack(w.client.place)
  {
    hide Apply, Possible, Sound;
    acts := [];
    if w.client.status.Running? && Possible(s, w, pick(w)) {
      var a := pick(w);
      StepKeepsBounds(s, w, a);
      StepProgresses(s, w, a);
      var w' := Apply(s, w, a);
      var rest := EveryRunStops(s, w', pick);
      acts := [a] + rest;
      assert acts[1..] == rest;
    }
  }

  // ----------------------------------------------------------- transcript

  /** The request that follows outcome `o` of reply `n - 1`; the client goes on only on success. */
  ghost predicate Calls(s: Session, n: nat, o: Outcome, req: seq<Field>) {
    if n == 1 then
      o.Accepted? && s.prove(o.data, o.plugin).Some? &&
      req == ContAuth(s.prove(o.data, o.plugin).value.m, o.plugin)
    else
      o.Answer? &&
      req == if n == 2 then Crypt() else if n == 3 then Attach(s) else Detach(o.handle)
  }

  ghost predicate Transcript(s: Session, requests: seq<seq<Field>>, replies: seq<Replies.Reply>) {
    && requests != [] && requests[0] == s.connect && |requests| <= |replies| + 1
    && forall k :: 1 <= k < |requests| ==> Calls(s, k, Meaning(replies[k - 1]), requests[k])
  }

  lemma {:induction false} ProceedKeepsTranscript(s: Session, w: World)
    requires Inv(s, w) && Enabled(s, w, ClientAdvances)
    requires Transcript(s, w.client.requests, w.server.replies)
    ensures Sound(w.up) && Sound(w.down)
    ensures var w' := Apply(s, w, ClientAdvances); Transcript(s, w'.client.requests, w'.server.replies)
  {
    hide Inv, Meaning, ContAuth, Crypt, Attach, Detach, AllFit, Encode, Send, ArmSender, ArmReceiver;
    InvSound(s, w);
    OutcomeIsMeaning(s, w);
    InvCounts(s, w);
  }

  lemma {:induction false} InvCounts(s: Session, w: World)
    requires Inv(s, w)
    ensures |w.client.requests| == w.client.stage + 1
  {}

  lemma {:induction false} StepKeepsTranscript(s: Session, w: World, a: Action)
    requires Inv(s, w) && Enabled(s, w, a)
    requires Transcript(s, w.client.requests, w.server.replies)
    ensures Sound(w.up) && Sound(w.down)
    ensures var w' := Apply(s, w, a); Transcript(s, w'.client.requests, w'.server.replies)
  {
    hide Inv, Calls, Meaning, Parse, Schema, Proper, EncodeReply, Next, Need, Proceed;
    InvSound(s, w);
    if a.ClientAdvances? {
      ProceedKeepsTranscript(s, w);
    }
  }

  lemma {:induction false} RunKeepsTranscript(s: Session, w: World, acts: seq<Action>)
    requires Inv(s, w) && Transcript(s, w.client.requests, w.server.replies)
    ensures Sound(w.up) && Sound(w.down)
    ensures var end := Exec(s, w, acts);
            end.Some? ==> Transcript(s, end.value.client.requests, end.value.server.replies)
    decreases |acts|
  {
    hide Inv, Apply, Possible, Transcript;
    InvSound(s, w);
    if acts != [] && Enabled(s, w, acts[0]) {
      StepKeepsInv(s, w, acts[0]);
      StepKeepsTranscript(s, w, acts[0]);
      RunKeepsTranscript(s, Apply(s, w, acts[0]), acts[1..]);
    }
  }

  /**
   Every request is the one the previous reply calls for, so none follows a refusal or an error,
   the handle given back is the handle received, and what the server decodes is what was meant.
   */
  lemma {:induction false} RequestsFollowReplies(s: Session, w: World)
    requires Reachable(s, w)
    ensures Transcript(s, w.client.requests, w.server.replies)
    ensures w.client.status.Finished? ==> |w.server.replies| == 5 && !Meaning(w.server.replies[4]).ServerError?
  {
    var acts :| Exec(s, Initial(s), acts) == Some(w);
    InitialInv(s);
    hide Inv, Exec, Meaning;
    RunKeepsTranscript(s, Initial(s), acts);
    RunEnds(s, Initial(s), acts);
  }

  const PLUGINS: seq<byte> := Ascii("Srp256,Srp")
  const ARC4: seq<byte> := Ascii("Arc4")
  const SYMMETRIC: seq<byte> := Ascii("Symmetric")

  /** The five requests, field by field: opcodes and texts of the protocol, inputs of the run, and what replies held. */
  lemma {:induction false} RequestsAre(s: Session, w: World)
    requires Reachable(s, w)
    ensures var q, r := w.client.requests, w.server.replies;
            && |q| >= 1 && |r| + 1 >= |q| && q[0] == s.connect
            && (|q| > 1 ==> r[0].Accept? && s.prove(r[0].data, r[0].plugin).Some? &&
                            q[1] == [IntField(92), OpaqueField(s.prove(r[0].data, r[0].plugin).value.m),
                                     OpaqueField(r[0].plugin), OpaqueField(PLUGINS), OpaqueField([])])
            && (|q| > 2 ==> q[2] == [IntField(96), OpaqueField(ARC4), OpaqueField(SYMMETRIC)])
            && (|q| > 3 ==> q[3] == [IntField(19), IntField(0), OpaqueField(s.db), OpaqueField(s.dpb)])
            && (|q| > 4 ==> r[3].Response? && q[4] == [IntField(21), IntField(r[3].handle)])
  {
    hide Reachable, Complaints, Ascii;
    RequestsFollowReplies(s, w);
    var q := w.client.requests;
    assert |q| > 1 ==> Calls(s, 1, Meaning(w.server.replies[0]), q[1]);
    assert |q| > 2 ==> Calls(s, 2, Meaning(w.server.replies[1]), q[2]);
    assert |q| > 3 ==> Calls(s, 3, Meaning(w.server.replies[2]), q[3]);
    assert |q| > 4 ==> Calls(s, 4, Meaning(w.server.replies[3]), q[4]);
  }

  // ------------------------------------------------------ what a peer reads

  /** What follows each opcode, for a peer that knows the protocol and nothing of this client. */
  function Shape(op: int32): seq<Kind> {
    if op == 92 then [AnOpaque, AnOpaque, AnOpaque, AnOpaque]
    else if op == 96 then [AnOpaque, AnOpaque]
    else if op == 19 then [AnInt, AnOpaque, AnOpaque]
    else if op == 21 then [AnInt]
    else []
  }

  /** Opcode and fields of a packet, if the bytes are just that. */
  function Decoded(b: seq<byte>): Option<(int32, seq<Field>)> {
    match ParseInt(b)
    case None => None
    case Some((op, rest)) =>
      match Parse(Shape(op), rest)
      case None => None
      case Some((fs, left)) => if left == [] then Some((op, fs)) else None
  }

  lemma {:induction false} DecodedPacket(op: int32, fs: seq<Field>)
    requires AllFit(fs) && Kinds(fs) == Shape(op)
    ensures AllFit([IntField(op)] + fs) && Decoded(Encode([IntField(op)] + fs)) == Some((op, fs))
  {
    hide Shape, Parse, Kinds, EncodeInt, DecodeInt, Fits;
    var packet, rest := [IntField(op)] + fs, Encode(fs);
    assert Fits(IntField(op)) by { IntFits(op); }
    assert packet[0] == IntField(op) && packet[1..] == fs;
    assert Encode(packet) == EncodeInt(op) + rest;
    var b := EncodeInt(op) + rest;
    assert b[..4] == EncodeInt(op) && b[4..] == rest;
    DecodeEncodeInt(op);
    ParseEncoded(fs, []);
    assert rest + [] == rest;
  }

  lemma {:induction false} IntFits(op: int32)
    ensures Fits(IntField(op))
  {}

  /**
   Whatever the peer has received when it can answer a later request, it decodes to this: the proof text, the name
   of the plugin and the list of plugins; the cipher and its kind of key; path and parameter block; the handle.
   */
  lemma {:induction false} ServerReads(s: Session, w: World)
    requires Reachable(s, w) && 1 <= |w.server.replies| <= 4
    requires Parse(Schema(s, |w.server.replies|), w.server.inbox).Some?
    ensures var n, r, d := |w.server.replies|, w.server.replies, Decoded(w.server.inbox);
            && (n == 1 ==> r[0].Accept? && s.prove(r[0].data, r[0].plugin).Some? &&
                           d == Some((92, [OpaqueField(s.prove(r[0].data, r[0].plugin).value.m), OpaqueField(r[0].plugin),
                                           OpaqueField(PLUGINS), OpaqueField([])])))
            && (n == 2 ==> d == Some((96, [OpaqueField(ARC4), OpaqueField(SYMMETRIC)])))
            && (n == 3 ==> d == Some((19, [IntField(0), OpaqueField(s.db), OpaqueField(s.dpb)])))
            && (n == 4 ==> r[3].Response? && d == Some((21, [IntField(r[3].handle)])))
  {
    hide Reachable, Decoded, Encode, Ascii, Parse, Schema, Inv;
    RequestsAre(s, w);
    ReachableInv(s, w);
    AnswersWholeRequest(s, w);
    InvCounts(s, w);
    InvFits(s, w);
    var q, n := w.client.requests, |w.server.replies|;
    var op := if n == 1 then 92 else if n == 2 then 96 else if n == 3 then 19 else 21;
    assert q[n] == [IntField(op)] + q[n][1..];
    TailFits(q[n]);
    TailShapes(op, q[n][1..]);
    DecodedPacket(op, q[n][1..]);
  }

  lemma {:induction false} InvFits(s: Session, w: World)
    requires Inv(s, w)
    ensures forall k :: 0 <= k < |w.client.requests| ==> AllFit(w.client.requests[k])
  {
    hide Aligned, Switched, Reads;
  }

  lemma {:induction false} TailFits(fs: seq<Field>)
    requires AllFit(fs) && fs != []
    ensures AllFit(fs[1..])
  {}

  lemma {:induction false} TailShapes(op: int32, fs: seq<Field>)
    requires || (op == 92 && |fs| == 4 && forall k :: 0 <= k < 4 ==> fs[k].OpaqueField?)
             || (op == 96 && |fs| == 2 && fs[0].OpaqueField? && fs[1].OpaqueField?)
             || (op == 19 && |fs| == 3 && fs[0].IntField? && fs[1].OpaqueField? && fs[2].OpaqueField?)
             || (op == 21 && |fs| == 1 && fs[0].IntField?)
    ensures Kinds(fs) == Shape(op)
  {}

  /** Where a finished client stands. */
  ghost predicate Ended(w: World) {
    w.client.status.Finished? ==>
      w.client.stage == 4 && |w.server.replies| == 5 && !Meaning(w.server.replies[4]).ServerError?
  }

  lemma {:induction false} RunEnds(s: Session, w: World, acts: seq<Action>)
    requires Inv(s, w) && Ended(w)
    ensures Sound(w.up) && Sound(w.down)
    ensures var end := Exec(s, w, acts); end.Some? ==> Ended(end.value)
    decreases |acts|
  {
    hide Inv, Apply, Possible, Ended;
    InvSound(s, w);
    if acts != [] && Enabled(s, w, acts[0]) {
      StepKeepsInv(s, w, acts[0]);
      StepKeepsEnded(s, w, acts[0]);
      RunEnds(s, Apply(s, w, acts[0]), acts[1..]);
    }
  }

  lemma {:induction false} StepKeepsEnded(s: Session, w: World, a: Action)
    requires Inv(s, w) && Enabled(s, w, a) && Ended(w)
    ensures Sound(w.up) && Sound(w.down) && Ended(Apply(s, w, a))
  {
    hide Inv, Meaning, Parse, Schema, Proper, EncodeReply, Next, Need, Send, Encode, AllFit;
    InvSound(s, w);
    if a.ClientAdvances? {
      OutcomeIsMeaning(s, w);
    }
  }

  // -------------------------------------------------------------- success

  /** A reply with which the client goes on, or finishes. */
  ghost predicate Welcome(s: Session, n: nat, r: Replies.Reply) {
    var o := Meaning(r);
    if n > 0 then o.Answer?
    else
      && o.Accepted? && s.prove(o.data, o.plugin).Some?
      && AllFit(ContAuth(s.prove(o.data, o.plugin).value.m, o.plugin))
  }

  ghost predicate AllWelcome(s: Session, replies: seq<Replies.Reply>) {
    forall k :: 0 <= k < |replies| ==> Welcome(s, k, replies[k])
  }

  /** Only an unwelcome reply makes the client fail. */
  ghost predicate Unspoilt(s: Session, w: World) {
    AllWelcome(s, w.server.replies) ==> !w.client.status.Failed?
  }

  lemma {:induction false} ProceedUnspoilt(s: Session, w: World)
    requires Inv(s, w) && Enabled(s, w, ClientAdvances) && AllFit(Attach(s)) && Unspoilt(s, w)
    ensures Sound(w.up) && Sound(w.down) && Unspoilt(s, Apply(s, w, ClientAdvances))
  {
    hide Inv, Meaning, ContAuth, Crypt, Attach, Detach, AllFit, Encode, Send, ArmSender, ArmReceiver;
    InvSound(s, w);
    OutcomeIsMeaning(s, w);
    RequestShapes(s, [], [], if w.client.place.outcome.Answer? then w.client.place.outcome.handle else 0);
  }

  lemma {:induction false} StepKeepsUnspoilt(s: Session, w: World, a: Action)
    requires Inv(s, w) && Enabled(s, w, a) && AllFit(Attach(s)) && Unspoilt(s, w)
    ensures Sound(w.up) && Sound(w.down) && Unspoilt(s, Apply(s, w, a))
  {
    hide Inv, Welcome, Meaning, Parse, Schema, Proper, EncodeReply, Next, Need, Proceed, Send, Deliver, Attach;
    InvSound(s, w);
    if a.ClientAdvances? {
      ProceedUnspoilt(s, w);
    } else if a.ServerReplies? {
      var w' := Apply(s, w, a);
      forall k | AllWelcome(s, w'.server.replies) && 0 <= k < |w.server.replies|
        ensures Welcome(s, k, w.server.replies[k])
      {
        assert w'.server.replies[k] == w.server.replies[k];
      }
    }
  }

  /** Along a run whose scheduler lets the server give only welcome replies, all replies are welcome. */
  lemma {:induction false} WelcomeRun(s: Session, w: World, acts: seq<Action>, pick: World -> Action)
    requires Inv(s, w) && AllFit(Attach(s)) && Unspoilt(s, w) && AllWelcome(s, w.server.replies)
    requires forall v :: pick(v).ServerReplies? ==> Welcome(s, |v.server.replies|, pick(v).r)
    requires Sound(w.up) && Sound(w.down) && Follows(s, w, acts, pick) && Exec(s, w, acts).Some?
    ensures var e := Exec(s, w, acts).value; !e.client.status.Failed? && AllWelcome(s, e.server.replies)
    decreases |acts|
  {
    hide Inv, Welcome, AllWelcome, Possible, Attach, AllFit, Apply, Sound, KeyAgrees;
    if acts == [] {
      assert AllWelcome(s, w.server.replies) && Unspoilt(s, w);
    } else {
      WelcomeStep(s, w, acts[0]);
      WelcomeRun(s, Apply(s, w, acts[0]), acts[1..], pick);
    }
  }

  lemma {:induction false} WelcomeStep(s: Session, w: World, a: Action)
    requires Inv(s, w) && AllFit(Attach(s)) && Unspoilt(s, w) && AllWelcome(s, w.server.replies) && Enabled(s, w, a)
    requires a.ServerReplies? ==> Welcome(s, |w.server.replies|, a.r)
    ensures Sound(w.up) && Sound(w.down)
    ensures var w' := Apply(s, w, a); Inv(s, w') && Unspoilt(s, w') && AllWelcome(s, w'.server.replies)
  {
    hide Inv, Welcome, Possible, Attach, AllFit, Apply, Sound, KeyAgrees, Unspoilt;
    StepKeepsInv(s, w, a);
    StepKeepsUnspoilt(s, w, a);
    RepliesGrow(s, w, a);
  }

  lemma {:induction false} RepliesGrow(s: Session, w: World, a: Action)
    requires Sound(w.up) && Sound(w.down) && Enabled(s, w, a)
    ensures Apply(s, w, a).server.replies == w.server.replies + if a.ServerReplies? then [a.r] else []
  {
    hide Parse, Schema, Proper, EncodeReply, Next, Need, Send, Deliver, AllFit;
  }

  /** Both directions are enciphered, at both ends, each cipher at its place in the stream of this key. */
  ghost predicate Enciphered(w: World, key: seq<byte>) {
    && w.up.enc.Some? && w.up.dec.Some? && Aligned(w.up, key)
    && w.down.enc.Some? && w.down.dec.Some? && Aligned(w.down, key)
  }

  /** A client that finishes has both directions enciphered under the key that both ends derived. */
  lemma {:induction false} FinishedIsEnciphered(s: Session, w: World)
    requires Inv(s, w) && Ended(w) && w.client.status.Finished?
    ensures w.client.key == s.serverKey && Enciphered(w, s.serverKey)
  {
    hide Aligned, Turns, Reads, RequestBytes, ReplyBytes, Meaning;
  }

  /** The run that `pick` chooses ends after `acts`: finished, enciphered, and with one key at both ends. */
  ghost predicate Completes(s: Session, pick: World -> Action, acts: seq<Action>)
    requires AllFit(s.connect)
  {
    && Follows(s, Initial(s), acts, pick)
    && var end := Exec(s, Initial(s), acts);
       && end.Some? && end.value.client.status.Finished?
       && end.value.client.key == s.serverKey && Enciphered(end.value, s.serverKey)
  }

  /**
   Against a server that welcomes the client every run finishes: the handshake, the attachment, the detachment;
   and it finishes with everything enciphered.
   */
  lemma {:induction false} WelcomeRunsFinish(s: Session, pick: World -> Action) returns (acts: seq<Action>)
    requires AllFit(s.connect) && AllFit(Attach(s))
    requires forall v :: Inv(s, v) && v.client.status.Running? && !Starved(v) ==> Enabled(s, v, pick(v))
    requires forall v :: pick(v).ServerReplies? ==> Welcome(s, |v.server.replies|, pick(v).r)
    ensures Completes(s, pick, acts)
  {
    InitialInv(s);
    hide Inv, Welcome, Enabled, Exec, Attach, AllFit, Enciphered, Follows;
    acts := EveryRunEnds(s, Initial(s), pick);
    WelcomeRun(s, Initial(s), acts, pick);
    RunKeepsInv(s, Initial(s), acts);
    RunEnds(s, Initial(s), acts);
    WelcomeNeverStarves(s, Exec(s, Initial(s), acts).value);
    FinishedIsEnciphered(s, Exec(s, Initial(s), acts).value);
  }

  lemma {:induction false} WelcomeNeverStarves(s: Session, w: World)
    requires AllWelcome(s, w.server.replies)
    ensures !Starved(w)
  {
    hide AllFit, Need;
    assert w.server.replies != [] ==> Welcome(s, 0, w.server.replies[0]);
  }
}
