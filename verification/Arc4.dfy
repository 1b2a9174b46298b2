/**
 The Arc4 stream cipher of the wire client: the in-place class, and the pure keystream it follows.
 */
module Arc4Cipher {
  import opened Bytes
  import Modular

  datatype Cipher = Cipher(s: seq<byte>, i: byte, j: byte)

  /** The table is a permutation of 0..255: no value twice, no value missing. */
  predicate Permutation(s: seq<byte>) {
    && |s| == 256
    && (forall a, b :: 0 <= a < b < 256 ==> s[a] != s[b])
    && (forall v :: 0 <= v < 256 ==> v in s)
  }

  function Swap(s: seq<byte>, a: byte, b: byte): seq<byte>
    requires |s| == 256
  {
    s[a := s[b]][b := s[a]]
  }

  lemma {:induction false} SwapPermutes(s: seq<byte>, a: byte, b: byte)
    requires Permutation(s)
    ensures Permutation(Swap(s, a, b))
  {
    var t := Swap(s, a, b);
    forall v | 0 <= v < 256
      ensures v in t
    {
      assert v in s;
      var k :| 0 <= k < 256 && s[k] == v;
      assert t[if k == a then b else if k == b then a else k] == v;
    }
  }

  // ------------------------------------------------------------ keystream

  /** One turn of the generator: the table and the indices after the next byte. */
  function Advance(c: Cipher): (r: Cipher)
    requires |c.s| == 256
    ensures |r.s| == 256
  {
    var i := (c.i + 1) % 256;
    var j := (c.j + c.s[i]) % 256;
    Cipher(Swap(c.s, i, j), i, j)
  }

  /** One turn, said with the table before it: both indices, the exchange, and the place of the keystream byte. */
  lemma {:induction false} OneTurn(c: Cipher, i: byte, j: byte)
    requires |c.s| == 256 && i == (c.i as int + 1) % 256 && j == (c.j as int + c.s[i]) % 256
    ensures var t := c.s[i := c.s[j]][j := c.s[i]];
            Advance(c) == Cipher(t, i, j) && KeyByte(Advance(c)) == t[(c.s[i] as int + c.s[j]) % 256]
  {}

  /** The state after `n` bytes, whatever the bytes were. */
  function After(c: Cipher, n: nat): (r: Cipher)
    requires |c.s| == 256
    ensures |r.s| == 256
    decreases n
  {
    if n == 0 then c else After(Advance(c), n - 1)
  }

  /** The keystream byte of a state that has just advanced. */
  function KeyByte(c: Cipher): byte
    requires |c.s| == 256
  {
    c.s[(c.s[c.i] as int + c.s[c.j]) % 256]
  }

  /** Keystream byte number `n`, counted from state `c`. */
  function Keystream(c: Cipher, n: nat): byte
    requires |c.s| == 256
  {
    KeyByte(After(c, n + 1))
  }

  /** What `transform` returns for buffer `x` in state `c`. */
  function Transformed(c: Cipher, x: seq<byte>): (y: seq<byte>)
    requires |c.s| == 256
    ensures |y| == |x|
    ensures forall k :: 0 <= k < |x| ==> y[k] == Xor(x[k], Keystream(c, k))
  {
    seq(|x|, k requires 0 <= k < |x| => Xor(x[k], Keystream(c, k)))
  }

  lemma {:induction false} AfterAdds(c: Cipher, m: nat, n: nat)
    requires |c.s| == 256
    ensures After(After(c, m), n) == After(c, m + n)
    decreases m
  {
    if m != 0 {
      AfterAdds(Advance(c), m - 1, n);
    }
  }

  lemma {:induction false} AfterNext(c: Cipher, n: nat)
    requires |c.s| == 256
    ensures After(c, n + 1) == Advance(After(c, n))
  {
    AfterAdds(c, n, 1);
    assert After(After(c, n), 1) == After(Advance(After(c, n)), 0);
  }

  lemma {:induction false} AfterPermutes(c: Cipher, n: nat)
    requires Permutation(c.s)
    ensures Permutation(After(c, n).s)
    decreases n
  {
    if n != 0 {
      var i := (c.i + 1) % 256;
      SwapPermutes(c.s, i, (c.j + c.s[i]) % 256);
      AfterPermutes(Advance(c), n - 1);
    }
  }

  lemma {:induction false} KeystreamShifts(c: Cipher, m: nat, k: nat)
    requires |c.s| == 256
    ensures Keystream(After(c, m), k) == Keystream(c, m + k)
  {
    AfterAdds(c, m, k + 1);
  }

  /** Stream law: cutting the input anywhere, and carrying the state over, changes nothing. */
  lemma {:induction false} TransformSplits(c: Cipher, x: seq<byte>, y: seq<byte>)
    requires |c.s| == 256
    ensures Transformed(c, x + y) == Transformed(c, x) + Transformed(After(c, |x|), y)
  {
    var c1 := After(c, |x|);
    var parts := Transformed(c, x) + Transformed(c1, y);
    forall k | 0 <= k < |x + y|
      ensures Transformed(c, x + y)[k] == parts[k]
    {
      if k >= |x| {
        KeystreamShifts(c, |x|, k - |x|);
      }
    }
  }

  lemma {:induction false} TransformTwice(c: Cipher, x: seq<byte>)
    requires |c.s| == 256
    ensures Transformed(c, Transformed(c, x)) == x
  {
    forall k | 0 <= k < |x|
      ensures Transformed(c, Transformed(c, x))[k] == x[k]
    {
      XorTwice(x[k], Keystream(c, k));
    }
  }

  // ------------------------------------------------------------- chunking

  /** One `transform` call per chunk, the state carried from each call to the next. */
  function TransformedChunks(c: Cipher, xs: seq<seq<byte>>): seq<seq<byte>>
    requires |c.s| == 256
    decreases |xs|
  {
    if xs == [] then []
    else [Transformed(c, xs[0])] + TransformedChunks(After(c, |xs[0]|), xs[1..])
  }

  lemma {:induction false} ChunkingIrrelevant(c: Cipher, xs: seq<seq<byte>>)
    requires |c.s| == 256
    ensures Flatten(TransformedChunks(c, xs)) == Transformed(c, Flatten(xs))
    decreases |xs|
  {
    if xs != [] {
      ChunkingIrrelevant(After(c, |xs[0]|), xs[1..]);
      TransformSplits(c, xs[0], Flatten(xs[1..]));
    }
  }

  /**
   Two ciphers with one key invert each other, however the sender cut the plaintext
   and however the network cut the ciphertext.
   */
  lemma {:induction false} CiphersInvert(key: seq<byte>, sent: seq<seq<byte>>, arrived: seq<seq<byte>>)
    requires Flatten(arrived) == Flatten(TransformedChunks(Scheduled(key), sent))
    ensures Flatten(TransformedChunks(Scheduled(key), arrived)) == Flatten(sent)
  {
    var c := Scheduled(key);
    ChunkingIrrelevant(c, sent);
    ChunkingIrrelevant(c, arrived);
    TransformTwice(c, Flatten(sent));
  }

  // -------------------------------------------------------- key scheduling

  function Identity(): (s: seq<byte>)
    ensures Permutation(s)
  {
    var s := seq(256, k requires 0 <= k < 256 => k);
    assert forall v :: 0 <= v < 256 ==> v in s by {
      forall v | 0 <= v < 256
        ensures v in s
      {
        assert s[v] == v;
      }
    }
    s
  }

  /**
   The next swap partner. With an empty key the source indexes at NaN, and `& 0xff`
   turns the resulting NaN into 0.
   */
  function Partner(key: seq<byte>, s: seq<byte>, k1: nat, k2: byte): byte
    requires |s| == 256 && k1 < 256
  {
    if key == [] then 0 else (k2 + key[k1 % |key|] + s[k1]) % 256
  }

  /** Table and partner index after the first `n` swaps of the key schedule. */
  function Schedule(key: seq<byte>, n: nat): (r: (seq<byte>, byte))
    requires n <= 256
    ensures Permutation(r.0)
  {
    if n == 0 then (Identity(), 0)
    else
      var (s, k2) := Schedule(key, n - 1);
      var p := Partner(key, s, n - 1, k2);
      SwapPermutes(s, n - 1, p);
      (Swap(s, n - 1, p), p)
  }

  lemma {:induction false} StartOfSchedule(key: seq<byte>, s: seq<byte>)
    requires |s| == 256 && forall k :: 0 <= k < 256 ==> s[k] == k
    ensures (s, 0) == Schedule(key, 0)
  {
    assert s == Identity();
  }

  lemma {:induction false} NextInSchedule(key: seq<byte>, n: nat)
    requires n < 256
    ensures |Schedule(key, n).0| == 256
    ensures var (s, k2) := Schedule(key, n);
            var p := Partner(key, s, n, k2);
            Schedule(key, n + 1) == (Swap(s, n, p), p)
  {}

  /** The state of a cipher fresh from its constructor. */
  function Scheduled(key: seq<byte>): (c: Cipher)
    ensures Permutation(c.s)
  {
    Cipher(Schedule(key, 256).0, 0, 0)
  }

  /** Every state a cipher can reach from its key keeps a permutation in its table. */
  lemma {:induction false} TableStaysPermutation(key: seq<byte>, inputs: seq<seq<byte>>)
    ensures Permutation(After(Scheduled(key), |Flatten(inputs)|).s)
  {
    AfterPermutes(Scheduled(key), |Flatten(inputs)|);
  }

  // --------------------------------------------------------- known answers

  /** The table a schedule starts from, and what one round does to table and partner. */
  lemma {:induction false} ScheduleRounds(key: seq<byte>, n: nat)
    requires n < 256
    ensures forall v :: 0 <= v < 256 ==> Schedule(key, 0).0[v] == v
    ensures Schedule(key, 0).1 == 0 && |Schedule(key, n).0| == 256
    ensures var (s, k) := Schedule(key, n);
            var p := if key == [] then 0 else (k as int + key[n % |key|] + s[n]) % 256;
            Schedule(key, n + 1) == (s[n := s[p]][p := s[n]], p)
  {
    NextInSchedule(key, n);
  }

  lemma {:induction false} HalfWay(k: nat, l: nat)
    requires l > 0
    ensures k % l == if k % (2 * l) < l then k % (2 * l) else k % (2 * l) - l
  {
    var q, r := k / (2 * l), k % (2 * l);
    assert k == 2 * l * q + r;
    if r < l {
      assert k == l * (2 * q) + r;
      Modular.QuotientUnique(k, 2 * q, r, l);
    } else {
      assert k == l * (2 * q + 1) + (r - l);
      Modular.QuotientUnique(k, 2 * q + 1, r - l, l);
    }
  }

  /** The key is used round and round: written twice it schedules as written once. */
  lemma {:induction false} KeyTwice(key: seq<byte>, n: nat)
    requires n <= 256
    ensures Schedule(key + key, n) == Schedule(key, n)
  {
    hide Permutation, Identity, Swap, Partner;
    if n > 0 {
      KeyTwice(key, n - 1);
      NextInSchedule(key, n - 1);
      var (s, k) := Schedule(key, n - 1);
      SamePartner(key, s, n - 1, k);
    }
  }

  lemma {:induction false} SamePartner(key: seq<byte>, s: seq<byte>, n: nat, k: byte)
    requires |s| == 256 && n < 256
    ensures Partner(key + key, s, n, k) == Partner(key, s, n, k)
  {
    if key != [] {
      HalfWay(n, |key|);
      assert (key + key)[n % |key + key|] == key[n % |key|];
    }
  }

  /** 0, 0, 255, 254, ..., 2: each round then swaps an entry with itself. */
  function StillKey(): (key: seq<byte>)
    ensures |key| == 256
  {
    seq(256, k requires 0 <= k < 256 => if k == 0 then 0 else (257 - k) % 256)
  }

  lemma {:induction false} StillRound(k: nat)
    requires k < 256
    ensures Partner(StillKey(), Identity(), k, if k == 0 then 0 else k - 1) == k
    ensures Swap(Identity(), k, k) == Identity()
  {
    hide Permutation;
    assert Identity()[k] == k && k % 256 == k;
  }

  lemma {:induction false} StillSchedule(n: nat)
    requires n <= 256
    ensures Schedule(StillKey(), n) == (Identity(), if n == 0 then 0 else n - 1)
  {
    hide Permutation, Identity, StillKey, Partner, Swap;
    if n > 0 {
      StillSchedule(n - 1);
      StillRound(n - 1);
    }
  }

  lemma {:induction false} FirstTurns()
    ensures var s := Identity();
            var s2 := s[2 := 3][3 := 2];
            && Advance(Cipher(s, 0, 0)) == Cipher(s, 1, 1)
            && Advance(Cipher(s, 1, 1)) == Cipher(s2, 2, 3)
            && Advance(Cipher(s2, 2, 3)) == Cipher(s2[3 := 5][5 := 2], 3, 5)
  {
    hide Permutation;
    var s := Identity();
    assert Swap(s, 1, 1) == s;
  }

  lemma {:induction false} FirstBytes()
    ensures var s := Identity();
            var s2 := s[2 := 3][3 := 2];
            && KeyByte(Cipher(s, 1, 1)) == 2 && KeyByte(Cipher(s2, 2, 3)) == 5
            && KeyByte(Cipher(s2[3 := 5][5 := 2], 3, 5)) == 7
  {
    hide Permutation;
  }

  /** From the identity table the keystream starts 2, 5, 7. */
  lemma {:induction false} IdentityKeystream()
    ensures var c := Cipher(Identity(), 0, 0); Keystream(c, 0) == 2 && Keystream(c, 1) == 5 && Keystream(c, 2) == 7
  {
    hide Permutation, Identity, Advance, KeyByte;
    var c := Cipher(Identity(), 0, 0);
    FirstTurns();
    FirstBytes();
    AfterNext(c, 0);
    AfterNext(c, 1);
    AfterNext(c, 2);
  }

  /** A cipher with the key above turns three zero bytes into 2, 5, 7. */
  lemma {:induction false} KnownAnswer()
    ensures Transformed(Scheduled(StillKey()), [0, 0, 0]) == [2, 5, 7]
  {
    hide Schedule, Keystream, Permutation, Identity, StillKey;
    StillSchedule(256);
    IdentityKeystream();
    XorZero(2);
    XorZero(5);
    XorZero(7);
  }

  /** A state of no escape: a one just ahead of the first index, with the second index on it, is passed along. */
  lemma {:induction false} OneIsPassedAlong(c: Cipher)
    requires |c.s| == 256 && c.j == (c.i + 1) % 256 && c.s[c.j] == 1
    ensures var d := Advance(c); d.i == c.j && d.j == (d.i + 1) % 256 && d.s[d.j] == 1 && d.s[d.i] == c.s[d.j]
  {}

  // ----------------------------------------------------------- the object

  class Arc4 {
    const s: array<byte>
    var i: byte
    var j: byte

    ghost predicate Valid() {
      s.Length == 256
    }

    ghost function State(): Cipher
      reads this, s
    {
      Cipher(s[..], i, j)
    }

    constructor (key: seq<byte>)
      ensures Valid() && fresh(this) && fresh(s)
      ensures State() == Scheduled(key)
    {
      hide Schedule, Permutation, Identity;
      i, j := 0, 0;
      s := new byte[256](k requires 0 <= k < 256 => k);
      new;
      StartOfSchedule(key, s[..]);
      var k2: byte := 0;
      for k1 := 0 to 256
        invariant s.Length == 256 && i == 0 && j == 0 && fresh(s)
        invariant (s[..], k2) == Schedule(key, k1)
      {
        ghost var before := s[..];
        k2 := if |key| == 0 then 0 else (k2 + key[k1 % |key|] + s[k1]) % 256;
        s[k1], s[k2] := s[k2], s[k1];
        assert s[..] == Swap(before, k1, k2);
        NextInSchedule(key, k1);
      }
    }

    /** The generator part of the loop body: advance both indices, swap, pick the keystream byte. */
    method NextKeyByte() returns (k: byte)
      requires Valid()
      modifies this, s
      ensures Valid()
      ensures State() == Advance(old(State()))
      ensures k == KeyByte(State())
      ensures i == (old(i) as int + 1) % 256 && j == (old(j) as int + old(s[..])[i]) % 256
      ensures s[..] == old(s[..])[i := old(s[..])[j]][j := old(s[..])[i]]
      ensures k == s[(old(s[..])[i] as int + old(s[..])[j]) % 256]
    {
      hide Advance, KeyByte, Swap;
      i := (i + 1) % 256;
      j := (j + s[i]) % 256;
      s[i], s[j] := s[j], s[i];
      assert s[..] == old(s[..])[i := old(s[..])[j]][j := old(s[..])[i]];
      k := s[(s[i] as int + s[j]) % 256];
      OneTurn(old(State()), i, j);
    }

    method Transform(buf: seq<byte>) returns (out: seq<byte>)
      requires Valid()
      modifies this, s
      ensures Valid()
      ensures State() == After(old(State()), |buf|)
      ensures out == Transformed(old(State()), buf)
    {
      ghost var c := State();
      out := [];
      for n := 0 to |buf|
        invariant Valid()
        invariant State() == After(c, n)
        invariant |out| == n && forall k :: 0 <= k < n ==> out[k] == Xor(buf[k], Keystream(c, k))
      {
        AfterNext(c, n);
        var k := NextKeyByte();
        out := out + [Xor(buf[n], k)];
      }
    }
  }
}
