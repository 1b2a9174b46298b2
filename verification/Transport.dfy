/** `Writer` to `Reader`, end to end: any fields, any packetisation, in clear or enciphered. */
module Transport {
  import opened Bytes
  import opened Arc4Cipher
  import opened Xdr

  /** The calls `w.int(..)` and `w.bytes(..)` for a list of fields. */
  method WriteFields(w: Writer, fs: seq<Field>)
    requires AllFit(fs)
    modifies w
    ensures w.Contents() == old(w.Contents()) + Encode(fs)
  {
    hide EncodeField, EncodeInt, EncodeOpaque, Encode, Writer.Contents;
    ghost var before := w.Contents();
    NothingWritten();
    assert fs[..0] == [] && before + [] == before;
    for i := 0 to |fs|
      invariant w.Contents() == before + Encode(fs[..i])
    {
      var ok;
      assert Fits(fs[i]);
      OneField(fs[i]);
      if fs[i].IntField? {
        ok := w.Int(fs[i].v);
      } else {
        ok := w.Opaque(fs[i].data);
      }
      EncodeSnoc(fs, i);
      assert before + Encode(fs[..i]) + EncodeField(fs[i]) == before + (Encode(fs[..i]) + EncodeField(fs[i]));
    }
    assert fs[..|fs|] == fs;
  }

  lemma {:induction false} NothingWritten()
    ensures Encode([]) == []
  {}

  lemma {:induction false} OneField(f: Field)
    requires Fits(f)
    ensures EncodeField(f) == if f.IntField? then EncodeInt(f.v) else EncodeOpaque(f.data)
  {}

  lemma {:induction false} EncodeConcat(fs: seq<Field>, gs: seq<Field>)
    requires AllFit(fs) && AllFit(gs)
    ensures AllFit(fs + gs) && Encode(fs + gs) == Encode(fs) + Encode(gs)
    decreases |fs|
  {
    hide EncodeField, Fits;
    if fs == [] {
      assert fs + gs == gs;
    } else {
      EncodeConcat(fs[1..], gs);
      assert (fs + gs)[1..] == fs[1..] + gs;
      assert Encode(fs + gs) == EncodeField(fs[0]) + Encode(fs[1..] + gs);
    }
  }

  lemma {:induction false} EncodeSnoc(fs: seq<Field>, i: nat)
    requires AllFit(fs) && i < |fs|
    ensures Encode(fs[..i + 1]) == Encode(fs[..i]) + EncodeField(fs[i])
  {
    hide EncodeField, Fits;
    EncodeConcat(fs[..i], [fs[i]]);
    assert fs[..i + 1] == fs[..i] + [fs[i]];
    assert Encode([fs[i]]) == EncodeField(fs[i]) + Encode([]);
  }

  lemma {:induction false} ParseHead(ks: seq<Kind>, s: seq<byte>, done: seq<Field>)
    requires ks != [] && Parse(ks, s).Some?
    ensures ParseField(ks[0], s).Some?
    ensures var f, all := ParseField(ks[0], s).value, Parse(ks, s).value;
            var rest := Parse(ks[1..], f.1);
            rest.Some? && rest.value.1 == all.1 && done + all.0 == (done + [f.0]) + rest.value.0
  {
    hide ParseField;
  }

  lemma {:induction false} NotNegative(s: seq<byte>)
    requires ParseOpaque(s).Some?
    ensures !NegativeLength(s)
  {}

  /** The awaited reads for a list of kinds. */
  method ReadFields(r: Reader, ks: seq<Kind>) returns (got: Await<seq<Field>>)
    requires r.Valid() && r.Consistent()
    modifies r.Footprint()
    ensures r.Valid() && r.dec == old(r.dec)
    ensures var p := Parse(ks, old(r.Stream()));
            p.Some? ==> got == Ready(p.value.0) && r.Stream() == p.value.1 && r.Consistent()
  {
    hide Parse, ParseInt, ParseOpaque, Reader.Stream, Reader.Footprint, Reader.Cipherprint;
    ghost var goal := Parse(ks, r.Stream());
    var done, i := [], 0;
    while i < |ks|
      invariant 0 <= i <= |ks| && r.Valid() && r.dec == old(r.dec)
      invariant goal.Some? ==> r.Consistent()
      invariant goal.Some? ==>
                  var rest := Parse(ks[i..], r.Stream());
                  rest.Some? && rest.value.1 == goal.value.1 && done + rest.value.0 == goal.value.0
    {
      assert ks[i..][0] == ks[i] && ks[i..][1..] == ks[i + 1..];
      if goal.Some? { ParseHead(ks[i..], r.Stream(), done); }
      if ks[i].AnInt? {
        var v := r.Int();
        if !v.Ready? { return if v.Blocked? then Blocked else RangeError; }
        done := done + [IntField(v.value)];
      } else {
        if goal.Some? { NotNegative(r.Stream()); }
        var d := r.Opaque();
        if !d.Ready? { return if d.Blocked? then Blocked else RangeError; }
        done := done + [OpaqueField(d.value)];
      }
      i := i + 1;
    }
    assert ks[i..] == [] && done + [] == done;
    NothingLeft(r.Stream());
    return Ready(done);
  }

  lemma {:induction false} NothingLeft(s: seq<byte>)
    ensures Parse([], s) == Some(([], s))
  {}

  /** A reader at the far end of a stream that is enciphered from its first byte. */
  method Deciphering(sent: seq<byte>, key: seq<byte>, cut: seq<byte> -> seq<seq<byte>>) returns (r: Reader)
    requires forall b :: Flatten(cut(b)) == b
    ensures r.Valid() && r.Consistent() && fresh(r.Footprint())
    ensures r.Stream() == sent
  {
    hide Flatten, Scheduled, After, Transformed, Reader.Stream;
    var enc := new Arc4(key);
    ghost var c := enc.State();
    var wire := enc.Transform(sent);
    var dec := new Arc4(key);
    r := new Reader(cut(wire));
    Deciphers(c, sent);
    r.EnableDecryption(dec);
  }

  lemma {:induction false} Deciphers(c: Cipher, sent: seq<byte>)
    requires |c.s| == 256
    ensures Flatten([]) + Transformed(c, Transformed(c, sent)) == sent
  {
    hide Transformed;
    TransformTwice(c, sent);
    assert Flatten([]) == [];
  }

  /**
   Whatever fields are written, whatever follows them, enciphered or not, and however the network cuts the
   bytes into data events, the reader returns the fields, leaves exactly the rest, and its counter is right.
   */
  method Transmit(fs: seq<Field>, rest: seq<byte>, key: Option<seq<byte>>, cut: seq<byte> -> seq<seq<byte>>)
    returns (got: Await<seq<Field>>, r: Reader)
    requires AllFit(fs) && forall b :: Flatten(cut(b)) == b
    ensures got == Ready(fs)
    ensures r.Valid() && r.Consistent() && r.Stream() == rest
  {
    hide Encode, Parse, Flatten, Kinds, Reader.Stream, Writer.Contents;
    var w := new Writer();
    WriteFields(w, fs);
    var sent := w.Buf();
    assert sent == [] + Encode(fs) == Encode(fs);
    ParseEncoded(fs, rest);
    if key.None? {
      r := new Reader(cut(sent + rest));
    } else {
      r := Deciphering(sent + rest, key.value, cut);
    }
    got := ReadFields(r, Kinds(fs));
  }
}
