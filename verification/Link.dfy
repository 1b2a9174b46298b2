/**
 One direction of the connection: a FIFO byte channel whose two ends start enciphering
 and deciphering at points of their own choosing.
 */
module Links {
  import opened Bytes
  import opened Arc4Cipher

  /**
   `sent` and `recvd` are the plaintext histories of the two ends, `wire` the bytes in flight.
   `encFrom` and `decFrom` are the stream positions at which the ciphers were armed.
   */
  datatype Link = Link(sent: seq<byte>, wire: seq<byte>, recvd: seq<byte>,
                       enc: Option<Cipher>, dec: Option<Cipher>, encFrom: nat, decFrom: nat)

  const Idle: Link := Link([], [], [], None, None, 0, 0)

  predicate Sound(l: Link) {
    && (l.enc.Some? ==> |l.enc.value.s| == 256)
    && (l.dec.Some? ==> |l.dec.value.s| == 256)
  }

  /** Write plaintext, through the cipher if it is armed. */
  function Send(l: Link, p: seq<byte>): (m: Link)
    requires Sound(l)
    ensures Sound(m)
  {
    if l.enc.None? then l.(sent := l.sent + p, wire := l.wire + p)
    else l.(sent := l.sent + p,
            wire := l.wire + Transformed(l.enc.value, p),
            enc := Some(After(l.enc.value, |p|)))
  }

  /** The plaintext that a data event with the next `k` bytes yields. */
  function Arrival(l: Link, k: nat): seq<byte>
    requires Sound(l) && k <= |l.wire|
  {
    if l.dec.None? then l.wire[..k] else Transformed(l.dec.value, l.wire[..k])
  }

  function Deliver(l: Link, k: nat): (m: Link)
    requires Sound(l) && k <= |l.wire|
    ensures Sound(m)
  {
    l.(wire := l.wire[k..],
       recvd := l.recvd + Arrival(l, k),
       dec := if l.dec.None? then None else Some(After(l.dec.value, k)))
  }

  function ArmSender(l: Link, key: seq<byte>): (m: Link)
    ensures Sound(l) ==> Sound(m)
  {
    l.(enc := Some(Scheduled(key)), encFrom := |l.sent|)
  }

  function ArmReceiver(l: Link, key: seq<byte>): (m: Link)
    ensures Sound(l) ==> Sound(m)
  {
    l.(dec := Some(Scheduled(key)), decFrom := |l.recvd|)
  }

  // ------------------------------------------------------------ alignment

  /** Plaintext sent and not yet received. */
  function InFlight(l: Link): seq<byte>
    requires |l.recvd| <= |l.sent|
  {
    l.sent[|l.recvd|..]
  }

  /**
   Both ends agree on every byte: what was received is a prefix of what was sent, the ciphers
   were armed at the same position, and each stands at the keystream position of its own end.
   The receiver is always armed first, and then nothing is in flight until the sender is.
   */
  ghost predicate Aligned(l: Link, key: seq<byte>) {
    && Sound(l)
    && l.recvd <= l.sent
    && (l.enc.Some? ==> l.dec.Some? && l.encFrom == l.decFrom
                        && l.encFrom <= |l.sent|
                        && l.enc.value == After(Scheduled(key), |l.sent| - l.encFrom))
    && (l.dec.Some? ==> l.decFrom <= |l.recvd|
                        && l.dec.value == After(Scheduled(key), |l.recvd| - l.decFrom))
    && (l.dec.Some? && l.enc.None? ==> InFlight(l) == [] && l.decFrom == |l.recvd|)
    && l.wire == if l.enc.None? then InFlight(l) else Transformed(l.dec.value, InFlight(l))
  }

  lemma {:induction false} AlignedSound(l: Link, key: seq<byte>)
    requires Aligned(l, key)
    ensures Sound(l) && l.recvd <= l.sent
  {}

  lemma {:induction false} IdleAligned(key: seq<byte>)
    ensures Aligned(Idle, key)
  {}

  lemma {:induction false} SendKeepsAligned(l: Link, p: seq<byte>, key: seq<byte>)
    requires Aligned(l, key) && l.enc.Some? == l.dec.Some?
    ensures Aligned(Send(l, p), key)
    ensures InFlight(Send(l, p)) == InFlight(l) + p
  {
    hide Transformed, After, Scheduled;
    var m := Send(l, p);
    assert InFlight(m) == InFlight(l) + p;
    if l.enc.Some? {
      var c, flying := l.dec.value, InFlight(l);
      AfterAdds(Scheduled(key), |l.recvd| - l.decFrom, |flying|);
      assert l.enc.value == After(c, |flying|);
      TransformSplits(c, flying, p);
      AfterAdds(Scheduled(key), |l.sent| - l.encFrom, |p|);
    }
  }

  /** Cutting ciphertext at `k` cuts the plaintext at `k`. */
  lemma {:induction false} CutCiphertext(c: Cipher, flying: seq<byte>, k: nat)
    requires |c.s| == 256 && k <= |flying|
    ensures Transformed(c, Transformed(c, flying)[..k]) == flying[..k]
    ensures Transformed(c, flying)[k..] == Transformed(After(c, k), flying[k..])
  {
    hide Transformed, After;
    assert flying == flying[..k] + flying[k..];
    TransformSplits(c, flying[..k], flying[k..]);
    assert Transformed(c, flying)[..k] == Transformed(c, flying[..k]);
    TransformTwice(c, flying[..k]);
  }

  lemma {:induction false} PrefixGrows(recvd: seq<byte>, sent: seq<byte>, k: nat)
    requires recvd <= sent && k <= |sent| - |recvd|
    ensures recvd + sent[|recvd|..][..k] <= sent
    ensures sent[|recvd| + k..] == sent[|recvd|..][k..]
  {
    assert sent == recvd + sent[|recvd|..];
  }

  lemma {:induction false} DeliverPlain(l: Link, k: nat, key: seq<byte>)
    requires Aligned(l, key) && k <= |l.wire| && l.enc.None?
    ensures Arrival(l, k) == InFlight(l)[..k]
    ensures Aligned(Deliver(l, k), key)
  {
    PrefixGrows(l.recvd, l.sent, k);
    if l.dec.Some? {
      assert Deliver(l, k) == l;
    }
  }

  lemma {:induction false} DeliverCipher(l: Link, k: nat, key: seq<byte>)
    requires Aligned(l, key) && k <= |l.wire| && l.enc.Some?
    ensures Arrival(l, k) == InFlight(l)[..k]
    ensures Aligned(Deliver(l, k), key)
  {
    hide Transformed, Scheduled, After;
    PrefixGrows(l.recvd, l.sent, k);
    CutCiphertext(l.dec.value, InFlight(l), k);
    AfterAdds(Scheduled(key), |l.recvd| - l.decFrom, k);
  }

  /** The received plaintext is the next plaintext in flight, whatever the cut. */
  lemma {:induction false} DeliverKeepsAligned(l: Link, k: nat, key: seq<byte>)
    requires Aligned(l, key) && k <= |l.wire|
    ensures k <= |InFlight(l)| && Arrival(l, k) == InFlight(l)[..k]
    ensures Aligned(Deliver(l, k), key)
    ensures InFlight(Deliver(l, k)) == InFlight(l)[k..]
  {
    hide Transformed, Scheduled, After;
    if l.enc.None? {
      DeliverPlain(l, k, key);
    } else {
      DeliverCipher(l, k, key);
    }
    PrefixGrows(l.recvd, l.sent, k);
  }

  lemma {:induction false} ArmReceiverKeepsAligned(l: Link, key: seq<byte>)
    requires Aligned(l, key) && l.dec.None? && InFlight(l) == []
    ensures Aligned(ArmReceiver(l, key), key)
  {}

  lemma {:induction false} ArmSenderKeepsAligned(l: Link, key: seq<byte>)
    requires Aligned(l, key) && l.dec.Some? && l.enc.None?
    ensures Aligned(ArmSender(l, key), key)
  {}
}
