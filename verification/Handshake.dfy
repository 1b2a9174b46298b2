/** The SRP computation put into the run: an honest server's acceptance gives both ends one key. */
module Handshake {
  import opened Bytes
  import opened Modular
  import opened Hex
  import opened Srp
  import opened Xdr
  import Replies
  import Wire
  import Tlv

  // ------------------------------------------------------------- requests

  /** The protocol versions on offer, with the high bit of the wire form. */
  const OFFERED: seq<int32> := [13 + 0x8000, 16 + 0x8000, 17 + 0x8000, 18 + 0x8000, 19 + 0x8000, 20 + 0x8000]

  /** Version, architecture, least and greatest packet type, weight of each offer from number `i` on. */
  function Offers(i: nat): seq<Field>
    requires i <= |OFFERED|
    decreases |OFFERED| - i
  {
    if i == |OFFERED| then []
    else [IntField(OFFERED[i]), IntField(1), IntField(3), IntField(3), IntField(i + 2)] + Offers(i + 1)
  }

  function KeyText(A: nat): seq<byte> {
    HexText(BigToHex(A))
  }

  function UserBlock(user: seq<byte>, A: nat): seq<byte> {
    Tlv.Block(user, Ascii("Srp256"), Ascii("Srp256,Srp"), KeyText(A))
  }

  /** op_connect. */
  function Connect(db: seq<byte>, user: seq<byte>, A: nat): seq<Field> {
    [IntField(1), IntField(19), IntField(3), IntField(1), OpaqueField(db),
     IntField(|OFFERED|), OpaqueField(UserBlock(user, A))] + Offers(0)
  }

  /** The database parameter block of op_attach: version, character set, user name. */
  function Dpb(user: seq<byte>): seq<byte> {
    [1] + (Tlv.EncodeItem(48, Ascii("NONE")) + Tlv.EncodeItem(28, user))
  }

  const SRP256: seq<byte> := Ascii("Srp256")

  /** op_connect field by field: opcodes, versions, path, the block with the key as text, and six offers. */
  lemma {:induction false} ConnectIs(db: seq<byte>, user: seq<byte>, A: nat, k: nat)
    requires k < 6
    ensures var fs := Connect(db, user, A);
            && |fs| == 37
            && fs[..7] == [IntField(1), IntField(19), IntField(3), IntField(1), OpaqueField(db), IntField(6),
                           OpaqueField(Tlv.Block(user, SRP256, Wire.PLUGINS, HexText(BigToHex(A))))]
            && fs[7 + 5 * k..12 + 5 * k] == [IntField(0x8000 + [13, 16, 17, 18, 19, 20][k]), IntField(1), IntField(3),
                                             IntField(3), IntField(k + 2)]
  {
    hide Tlv.Block, HexText, BigToHex, Ascii, Offers;
    var fs := Connect(db, user, A);
    OfferAt(0, k);
    assert fs[7..] == Offers(0);
    assert fs[7 + 5 * k..12 + 5 * k] == fs[7..][5 * k..5 * k + 5];
  }

  lemma {:induction false} OfferAt(i: nat, k: nat)
    requires i <= k < 6
    ensures |Offers(i)| == 5 * (6 - i)
    ensures Offers(i)[5 * (k - i)..5 * (k - i) + 5] ==
            [IntField(0x8000 + [13, 16, 17, 18, 19, 20][k]), IntField(1), IntField(3), IntField(3), IntField(k + 2)]
    decreases k - i
  {
    OffersLength(i);
    OffersLength(i + 1);
    var first := FirstOffer(i);
    hide Offers;
    if i < k {
      OfferAt(i + 1, k);
      Behind(first, Offers(i + 1), 5 * (k - i));
    } else {
      Front(first, Offers(i + 1));
    }
  }

  lemma {:induction false} FirstOffer(i: nat) returns (first: seq<Field>)
    requires i < 6
    ensures first == [IntField(0x8000 + [13, 16, 17, 18, 19, 20][i]), IntField(1), IntField(3), IntField(3), IntField(i + 2)]
    ensures Offers(i) == first + Offers(i + 1)
  {
    first := [IntField(OFFERED[i]), IntField(1), IntField(3), IntField(3), IntField(i + 2)];
  }

  lemma {:induction false} Behind(first: seq<Field>, rest: seq<Field>, at: nat)
    requires |first| == 5 <= at && at <= |rest|
    ensures (first + rest)[at..at + 5] == rest[at - 5..at]
  {}

  lemma {:induction false} Front(first: seq<Field>, rest: seq<Field>)
    requires |first| == 5
    ensures (first + rest)[0..5] == first
  {}

  lemma {:induction false} OffersLength(i: nat)
    requires i <= 6
    ensures |Offers(i)| == 5 * (6 - i)
    decreases 6 - i
  {
    if i < 6 {
      OffersLength(i + 1);
    }
  }

  /** The bytes of the parameter block. */
  lemma {:induction false} DpbBytes(user: seq<byte>)
    ensures Dpb(user) == [1, 48, 4, 78, 79, 78, 69, 28, |user| % 256] + user
  {
    assert Ascii("NONE") == [78, 79, 78, 69];
  }

  /** Both items of the block are read back exactly if the user name fits its length byte. */
  lemma {:induction false} DpbRoundTrip(user: seq<byte>)
    ensures Tlv.ParseItems(Dpb(user)[1..]) == Some([Tlv.Item(48, Ascii("NONE"))] + [Tlv.Item(28, user)])
            <==> |user| <= 255
  {
    hide Tlv.EncodeItem, Tlv.ParseItems, Ascii;
    var u := Tlv.EncodeItem(28, user);
    assert u + [] == u && [Tlv.Item(28, user)] + [] == [Tlv.Item(28, user)];
    Tlv.NothingParses();
    Tlv.ItemFollowedExactly(28, user, [], []);
    Tlv.ItemFollowedExactly(48, Ascii("NONE"), u, [Tlv.Item(28, user)]);
    assert Dpb(user)[1..] == Tlv.EncodeItem(48, Ascii("NONE")) + u;
  }

  lemma {:induction false} KeyTextLength(A: nat)
    requires A < N
    ensures |KeyText(A)| <= 256
  {
    hide Pow, ToHex;
    NFits();
    ByteCount(A, 128);
  }

  /**
   A server that parses op_connect's user block gets the fields in order exactly if the user name fits its length
   byte. The parts of the key are numbered without a gap, and give the client's public key.
   */
  lemma {:induction false} ServerLearnsKey(user: seq<byte>, A: nat)
    requires A < N
    ensures Tlv.ParseItems(UserBlock(user, A)) ==
            Some([Tlv.Item(Tlv.TAG_LOGIN, user)] + ([Tlv.Item(Tlv.TAG_PLUGIN_NAME, Ascii("Srp256"))] +
                 ([Tlv.Item(Tlv.TAG_PLUGIN_LIST, Ascii("Srp256,Srp"))] + (Tlv.Parts(KeyText(A), 0) + Tlv.TrailerItems()))))
            <==> |user| <= 255
    ensures var parts := Tlv.Parts(KeyText(A), 0);
            && (forall k :: 0 <= k < |parts| ==> parts[k].data != [] && parts[k].data[0] == k)
            && ParseHexText(Tlv.Reassembled(parts)) == Some(A)
  {
    hide Tlv.ParseItems, Tlv.Block, Tlv.Parts, Tlv.TrailerItems, Ascii, HexText, BigToHex, ParseHexText, Tlv.Reassembled;
    KeyTextLength(A);
    Tlv.BlockRoundTrip(user, Ascii("Srp256"), Ascii("Srp256,Srp"), KeyText(A));
    Tlv.PartsReassemble(KeyText(A), 0);
    Tlv.SequenceExactly(KeyText(A));
    HexTextRoundTrip(A);
  }

  lemma {:induction false} PartsLength(s: seq<byte>, i: nat)
    ensures |Tlv.EncodeParts(s, i)| <= 4 * |s|
    decreases |s|
  {
    if s != [] {
      PartsLength(Tlv.Tail(s), i + 1);
    }
  }

  /** op_connect can be written exactly if the path and the user block fit their length words. */
  lemma {:induction false} ConnectFits(db: seq<byte>, user: seq<byte>, A: nat)
    requires A < N
    ensures AllFit(Connect(db, user, A)) <==> FitsInt32(|db|) && FitsInt32(|UserBlock(user, A)|)
    ensures |UserBlock(user, A)| <= |user| + 1100
  {
    hide HexText, BigToHex, Tlv.EncodeParts, Offers, Ascii;
    KeyTextLength(A);
    PartsLength(KeyText(A), 0);
    OffersFit(0);
    var fs := Connect(db, user, A);
    assert fs[4] == OpaqueField(db) && fs[6] == OpaqueField(UserBlock(user, A));
    hide Tlv.Block, UserBlock;
    assert fs[7..] == Offers(0);
    assert forall k :: 7 <= k < |fs| ==> fs[k] == Offers(0)[k - 7];
  }

  lemma {:induction false} OffersFit(i: nat)
    requires i <= |OFFERED|
    ensures AllFit(Offers(i))
    decreases |OFFERED| - i
  {
    if i < |OFFERED| {
      OffersFit(i + 1);
    }
  }

  // ------------------------------------------------------------- key setup

  /** What the client knows before it connects. */
  datatype Secrets = Secrets(db: seq<byte>, user: seq<byte>, pass: seq<byte>, a: nat)

  /** The server's side: the salt it stores and the private key it chose; the verifier belongs to the client's password. */
  datatype Account = Account(salt: seq<byte>, b: nat)

  ghost function ValuesFor(h: Hashes, c: Secrets, salt: seq<byte>, B: nat): (r: Values)
    ensures IsClientValues(h, c.user, c.pass, salt, ClientPublic(N, 2, c.a), B, c.a, r)
  {
    var u, x := Scramble(h, ClientPublic(N, 2, c.a), B), UserHash(h, c.user, salt, c.pass);
    var S := ClientSecret(N, 2, Multiplier(h), x, u, c.a, B);
    var K := h.sha1(BigToBuf(S));
    var n1 := Pow(BufToBig(h.sha1(BigToBuf(N))), BufToBig(h.sha1(BigToBuf(2)))) % N;
    Values(u, x, S, K, ProofOf(h, n1, c.user, salt, ClientPublic(N, 2, c.a), B, K))
  }

  /** Steps 2 and 3 of the run: take the plugin data apart, derive key and proof; None where it throws. */
  ghost function Prove(h: Hashes, c: Secrets, data: seq<byte>): Option<Wire.Proof> {
    match ParsePluginData(data)
    case None => None
    case Some((salt, B)) =>
      var r := ValuesFor(h, c, salt, B);
      Some(Wire.Proof(HexText(Nibbles(r.M)), r.K))
  }

  ghost function StoredVerifier(h: Hashes, c: Secrets, s: Account): nat {
    Verifier(N, 2, UserHash(h, c.user, s.salt, c.pass))
  }

  ghost function PublicOf(h: Hashes, c: Secrets, s: Account): nat {
    ServerPublic(N, 2, Multiplier(h), StoredVerifier(h, c, s), s.b)
  }

  ghost function KeyOf(h: Hashes, c: Secrets, s: Account): seq<byte> {
    var A := ClientPublic(N, 2, c.a);
    ServerKey(h, A, StoredVerifier(h, c, s), Scramble(h, A, PublicOf(h, c, s)), s.b)
  }

  /** A run between this client and a server that holds this account. */
  ghost predicate Between(h: Hashes, c: Secrets, s: Account, run: Wire.Session) {
    && (forall d, p :: run.prove(d, p) == Prove(h, c, d))
    && run.serverKey == KeyOf(h, c, s)
    && run.connect == Connect(c.db, c.user, ClientPublic(N, 2, c.a))
    && run.db == c.db && run.dpb == Dpb(c.user)
  }

  /** The acceptance of an honest server: its salt, and its public key in any hex spelling. */
  predicate Honest(r: Replies.Reply, salt: seq<byte>, B: nat, text: seq<byte>) {
    && r.Accept? && Replies.ConnectReply(r)
    && |salt| < 0x1_0000 && |text| < 0x1_0000 && ParseHexText(text) == Some(B)
    && r.data == EncodePluginData(salt, text)
  }

  /**
   The assumption of the run is met: for every private key up to N - 2^320, the acceptance of an
   honest server is a proper reply, so everything proved of the run holds with it.
   */
  lemma {:induction false} HonestServerIsProper(h: Hashes, c: Secrets, s: Account, run: Wire.Session,
                                                r: Replies.Reply, text: seq<byte>)
    requires Sized(h) && c.a + Pow(256, 40) <= N
    requires Between(h, c, s, run)
    requires Honest(r, s.salt, PublicOf(h, c, s), text)
    ensures Wire.Proper(run, 0, r)
    ensures run.prove(r.data, r.plugin).Some?
    ensures run.prove(r.data, r.plugin).value.key == run.serverKey
  {
    hide Pow, Replies.ConnectReply, ParseHexText, EncodePluginData, ParsePluginData, ClientPublic, ServerPublic,
         Verifier, Scramble, UserHash, Multiplier, ServerKey, IsClientValues, HexText, Nibbles, ProofOf,
         Connect, Dpb;
    var A, B := ClientPublic(N, 2, c.a), PublicOf(h, c, s);
    PluginDataRoundTrip(s.salt, text, B);
    SmallKeysAgree(h, c.user, c.pass, s.salt, A, B, c.a);
    var v := ValuesFor(h, c, s.salt, B);
    hide ValuesFor;
    assert run.prove(r.data, r.plugin) == Prove(h, c, r.data);
    KeysAgree(h, c.user, c.pass, s.salt, c.a, s.b, v);
    assert v.u == Scramble(h, A, B) by { ScrambleOf(h, c, s.salt, B, v); }
  }

  /** The proof is sent as 64 hexadecimal digits. */
  lemma {:induction false} ProofLength(h: Hashes, c: Secrets, s: Account, run: Wire.Session, d: seq<byte>, p: seq<byte>)
    requires Sized(h) && Between(h, c, s, run) && run.prove(d, p).Some?
    ensures |run.prove(d, p).value.m| == 64
  {
    hide Pow, ParsePluginData, ClientPublic, ClientSecret, ServerPublic, Scramble, UserHash, Multiplier, KeyOf,
         Connect, Dpb, BigToBuf, BufToBig;
    assert run.prove(d, p) == Prove(h, c, d);
  }

  lemma {:induction false} HonestIsWelcome(h: Hashes, c: Secrets, s: Account, run: Wire.Session,
                                           r: Replies.Reply, text: seq<byte>)
    requires Sized(h) && c.a + Pow(256, 40) <= N
    requires Between(h, c, s, run)
    requires Honest(r, s.salt, PublicOf(h, c, s), text)
    ensures Wire.Welcome(run, 0, r)
  {
    hide Pow, Between, Ascii, PublicOf, ParseHexText, EncodePluginData;
    HonestServerIsProper(h, c, s, run, r, text);
    ProofLength(h, c, s, run, r.data, r.plugin);
  }

  /** A server that holds the account: an honest acceptance first, then successes. */
  ghost predicate Grants(h: Hashes, c: Secrets, s: Account, n: nat, r: Replies.Reply) {
    if n == 0 then exists text :: Honest(r, s.salt, PublicOf(h, c, s), text) else Replies.Meaning(r).Answer?
  }

  /** The environment of the theorem below is not empty: in every state such a server has a next step. */
  lemma {:induction false} GrantingStep(h: Hashes, c: Secrets, s: Account, run: Wire.Session, w: Wire.World)
    returns (a: Wire.Action)
    requires Sized(h) && c.a + Pow(256, 40) <= N
    requires Between(h, c, s, run) && |s.salt| < 0x1_0000
    requires Wire.Inv(run, w) && w.client.status.Running? && !Wire.Starved(w)
    ensures Wire.Enabled(run, w, a)
    ensures a.ServerReplies? ==> Grants(h, c, s, |w.server.replies|, a.r)
  {
    hide Pow, Between, Wire.Inv, Wire.Enabled, Wire.Proper, Wire.Starved, Honest, PublicOf;
    var r := HonestAccept(h, c, s);
    if |w.server.replies| == 0 {
      HonestServerIsProper(h, c, s, run, r, KeyText(PublicOf(h, c, s)));
    } else {
      r := Replies.Response(0, Zeros(8), [], []);
      SuccessIsProper(run, |w.server.replies|);
    }
    a := Wire.StepWith(run, w, r);
  }

  lemma {:induction false} SuccessIsProper(run: Wire.Session, n: nat)
    requires n > 0
    ensures var r := Replies.Response(0, Zeros(8), [], []);
            Wire.Proper(run, n, r) && Replies.Meaning(r) == Replies.Answer(0)
  {}

  /** An honest acceptance exists: B as the hex text that the samples write. */
  lemma {:induction false} HonestAccept(h: Hashes, c: Secrets, s: Account) returns (r: Replies.Reply)
    requires |s.salt| < 0x1_0000
    ensures Honest(r, s.salt, PublicOf(h, c, s), KeyText(PublicOf(h, c, s)))
  {
    hide Pow, ParseHexText, HexText, BigToHex, Verifier, Multiplier, UserHash;
    var B := PublicOf(h, c, s);
    KeyTextLength(B);
    HexTextRoundTrip(B);
    var data := EncodePluginData(s.salt, KeyText(B));
    r := Replies.Accept(Replies.OP_COND_ACCEPT, 13, 1, 3, data, Ascii("Srp256"), 0, []);
  }

  /** What the client writes of its own fits the length words. */
  lemma {:induction false} OwnFieldsFit(h: Hashes, c: Secrets, s: Account, run: Wire.Session)
    requires Between(h, c, s, run) && FitsInt32(|c.db|) && |c.user| <= 0x7FFF_0000
    ensures AllFit(run.connect) && AllFit(Wire.Attach(run))
  {
    hide Pow, Connect, UserBlock, KeyOf, Ascii;
    ConnectFits(c.db, c.user, ClientPublic(N, 2, c.a));
  }

  /**
   The whole of it: with a private key up to N - 2^320, and a server that holds the account of this very
   password, every run in which the server accepts and then grants what it is asked finishes, however the
   bytes are cut and the steps interleaved; by then both directions are enciphered, and both ends of both
   of them hold the one key that each side derived from its own secrets.
   */
  lemma {:induction false} HonestRunsFinish(h: Hashes, c: Secrets, s: Account, run: Wire.Session,
                                            pick: Wire.World -> Wire.Action) returns (acts: seq<Wire.Action>)
    requires Sized(h) && c.a + Pow(256, 40) <= N
    requires Between(h, c, s, run) && FitsInt32(|c.db|) && |c.user| <= 0x7FFF_0000
    requires forall v :: Wire.Inv(run, v) && v.client.status.Running? && !Wire.Starved(v) ==>
               Wire.Enabled(run, v, pick(v))
    requires forall v :: pick(v).ServerReplies? ==> Grants(h, c, s, |v.server.replies|, pick(v).r)
    ensures AllFit(run.connect) && Wire.Completes(run, pick, acts) && run.serverKey == KeyOf(h, c, s)
  {
    hide Pow, Between, Honest, Wire.Inv, Wire.Enabled, Wire.Welcome, Wire.Starved, Wire.Completes;
    OwnFieldsFit(h, c, s, run);
    forall v | pick(v).ServerReplies?
      ensures Wire.Welcome(run, |v.server.replies|, pick(v).r)
    {
      GrantIsWelcome(h, c, s, run, |v.server.replies|, pick(v).r);
    }
    acts := Wire.WelcomeRunsFinish(run, pick);
    KeyIs(h, c, s, run);
  }

  lemma {:induction false} KeyIs(h: Hashes, c: Secrets, s: Account, run: Wire.Session)
    requires Between(h, c, s, run)
    ensures run.serverKey == KeyOf(h, c, s)
  {}

  lemma {:induction false} GrantIsWelcome(h: Hashes, c: Secrets, s: Account, run: Wire.Session, n: nat, r: Replies.Reply)
    requires Sized(h) && c.a + Pow(256, 40) <= N
    requires Between(h, c, s, run) && Grants(h, c, s, n, r)
    ensures Wire.Welcome(run, n, r)
  {
    hide Pow, Between, Honest;
    if n == 0 {
      var text :| Honest(r, s.salt, PublicOf(h, c, s), text);
      HonestIsWelcome(h, c, s, run, r, text);
    }
  }

  lemma {:induction false} ScrambleOf(h: Hashes, c: Secrets, salt: seq<byte>, B: nat, r: Values)
    requires IsClientValues(h, c.user, c.pass, salt, ClientPublic(N, 2, c.a), B, c.a, r)
    ensures r.u == Scramble(h, ClientPublic(N, 2, c.a), B)
  {}
}
