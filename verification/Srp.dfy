/**
 The SRP computation of the wire client, and its agreement with the server side of
 section 2.6 of RFC 5054.
 */
module Srp {
  import opened Bytes
  import opened Modular
  import opened Hex
  import Fermat

  // -------------------------------------------------------- the algebra

  /** The client's secret, with the exponent reduced modulo `n` as the code does. */
  function ClientSecret(n: nat, g: nat, k: nat, x: nat, u: nat, a: nat, B: int): nat
    requires n > 0
  {
    Pow((B - k * (Pow(g, x) % n)) % n, (a + u * x) % n) % n
  }

  /** The server's secret from the client's public key and the stored verifier. */
  function ServerSecret(n: nat, A: int, v: int, u: nat, b: nat): nat
    requires n > 0
  {
    Pow(A * Pow(v, u), b) % n
  }

  function Verifier(n: nat, g: nat, x: nat): nat
    requires n > 0
  {
    Pow(g, x) % n
  }

  function ServerPublic(n: nat, g: nat, k: nat, v: nat, b: nat): nat
    requires n > 0
  {
    (k * v + Pow(g, b)) % n
  }

  function ClientPublic(n: nat, g: nat, a: nat): nat
    requires n > 0
  {
    Pow(g, a) % n
  }

  /** Both sides of one exchange. */
  ghost predicate Agree(n: nat, g: nat, k: nat, x: nat, u: nat, a: nat, b: nat)
    requires n > 0
  {
    var v := Verifier(n, g, x);
    ClientSecret(n, g, k, x, u, a, ServerPublic(n, g, k, v, b)) ==
    ServerSecret(n, ClientPublic(n, g, a), v, u, b)
  }

  /** The server's secret is a power of the generator. */
  lemma {:induction false} ServerSecretIsPower(n: nat, g: nat, x: nat, u: nat, a: nat, b: nat)
    requires n > 0
    ensures ServerSecret(n, ClientPublic(n, g, a), Verifier(n, g, x), u, b) == Pow(g, (a + u * x) * b) % n
  {
    var A, v := Pow(g, a) % n, Pow(g, x) % n;
    calc {
      (A * Pow(v, u)) % n;
      { RemainderProduct(A, Pow(v, u), n); PowRemainder(Pow(g, x), u, n);
        RemainderProduct(A, Pow(Pow(g, x), u), n); }
      (A * Pow(Pow(g, x), u)) % n;
      { PowPower(g, x, u); }
      (A * Pow(g, x * u)) % n;
      { RemainderBoth(Pow(g, a), Pow(g, x * u), n); RemainderProduct(A, Pow(g, x * u), n); }
      (Pow(g, a) * Pow(g, x * u)) % n;
      { PowSum(g, a, x * u); }
      Pow(g, a + x * u) % n;
    }
    PowRemainder(A * Pow(v, u), b, n);
    PowRemainder(Pow(g, a + x * u), b, n);
    PowPower(g, a + x * u, b);
    assert x * u == u * x;
  }

  /** What is left of B when the client takes off k*v is the server's ephemeral power. */
  lemma {:induction false} ClientBase(n: nat, g: nat, k: nat, v: nat, b: nat)
    requires n > 0
    ensures (ServerPublic(n, g, k, v, b) - k * v) % n == Pow(g, b) % n
  {
    hide Pow;
    var w, p := k * v, Pow(g, b);
    RemainderDifference(w + p, w, n);
    assert w + p - w == p;
  }

  lemma {:induction false} ClientSecretIsPower(n: nat, g: nat, k: nat, x: nat, u: nat, a: nat, b: nat)
    requires n > 0
    ensures ClientSecret(n, g, k, x, u, a, ServerPublic(n, g, k, Verifier(n, g, x), b)) ==
            Pow(g, b * ((a + u * x) % n)) % n
  {
    ClientBase(n, g, k, Verifier(n, g, x), b);
    var e := (a + u * x) % n;
    PowRemainder(Pow(g, b), e, n);
    PowPower(g, b, e);
  }

  /** Key agreement as long as the exponent is not cut by the reduction. */
  lemma {:induction false} Agreement(n: nat, g: nat, k: nat, x: nat, u: nat, a: nat, b: nat)
    requires n > 0 && a + u * x < n
    ensures Agree(n, g, k, x, u, a, b)
  {
    ServerSecretIsPower(n, g, x, u, a, b);
    ClientSecretIsPower(n, g, k, x, u, a, b);
    QuotientUnique(a + u * x, 0, a + u * x, n);
    assert (a + u * x) * b == b * (a + u * x);
  }

  /** A power of two has an inverse modulo an odd number. */
  lemma {:induction false} PowerOfTwoInvertible(n: nat, e: nat) returns (i: int)
    requires n > 1 && n % 2 == 1
    ensures (i * Pow(2, e)) % n == 1
  {
    var h := (n + 1) / 2;
    i := Pow(h, e);
    PowProduct(h, 2, e);
    assert h * 2 == 1 + n * 1;
    RemainderShift(1, 1, n);
    PowRemainder(h * 2, e, n);
    PowRemainder(1, e, n);
    OnePow(e);
    QuotientUnique(1, 0, 1, n);
  }

  /** A factor that can be cancelled: P*Q and P agree exactly when Q is one. */
  lemma {:induction false} Cancel(p: int, q: int, i: int, n: nat)
    requires n > 1 && (i * p) % n == 1
    ensures (p * q) % n == p % n <==> q % n == 1
  {
    if (p * q) % n == p % n {
      assert (i * p) * q == i * (p * q);
      RemainderBoth(i * p, q, n);
      RemainderProduct(i, p * q, n);
      RemainderProduct(i, p, n);
      RemainderIdem(q, n);
      assert (1 * (q % n)) % n == q % n;
    }
    if q % n == 1 {
      RemainderProduct(p, q, n);
      assert p * (q % n) == p;
    }
  }

  /**
   Exactly when the two sides agree: if the exponent a + u*x stays below the modulus, or if the part
   that the reduction drops happens to be an exponent with which the server's power gives one.
   */
  lemma {:induction false} AgreementExactly(n: nat, k: nat, x: nat, u: nat, a: nat, b: nat)
    requires n > 1 && n % 2 == 1
    ensures Agree(n, 2, k, x, u, a, b) <==>
            a + u * x < n || Pow(2, b * (n * ((a + u * x) / n))) % n == 1
  {
    hide Pow, ClientSecret, ServerSecret, ServerPublic, ClientPublic, Verifier;
    var e := a + u * x;
    if e < n {
      Agreement(n, 2, k, x, u, a, b);
    } else {
      var f, d := e % n, n * (e / n);
      ServerSecretIsPower(n, 2, x, u, a, b);
      ClientSecretIsPower(n, 2, k, x, u, a, b);
      assert e == f + d;
      SplitExponent(b, e, f, d);
      PowSum(2, b * f, b * d);
      var i := PowerOfTwoInvertible(n, b * f);
      Cancel(Pow(2, b * f), Pow(2, b * d), i, n);
    }
  }

  /**
   Modulo a prime the dropped part reduces further: the sides agree exactly when the exponent stays below the
   modulus, or the server's ephemeral power, raised to the number of times it exceeds it, is one.
   */
  lemma {:induction false} AgreementExactlyPrime(n: nat, k: nat, x: nat, u: nat, a: nat, b: nat)
    requires Fermat.Prime(n) && n % 2 == 1
    ensures Agree(n, 2, k, x, u, a, b) <==>
            a + u * x < n || Pow(2, b * ((a + u * x) / n)) % n == 1
  {
    hide Pow, Agree;
    var q := (a + u * x) / n;
    AgreementExactly(n, k, x, u, a, b);
    PowPower(2, b * q, n);
    PowNonNegative(2, b * q);
    Fermat.LittleTheorem(n, Pow(2, b * q));
    assert b * (n * q) == (b * q) * n;
  }

  lemma {:induction false} SplitExponent(b: nat, e: nat, f: nat, d: nat)
    requires e == f + d
    ensures e * b == b * f + b * d
  {}

  // ------------------------------------------------- the client's values

  /** The fixed 1024-bit group of the Firebird source, with generator 2. */
  const N: nat :=
    0xE67D2E994B2F900C3F41F08F5BB2627ED0D49EE1FE767A52EFCD565CD6E768812C3E1E9CE8F0A8BEA6CB13CD29DDEBF7A96D4A93B55D488DF099A15C89DCB0640738EB2CBDD9A8F7BAB561AB1B0DC1C6CDABF303264A08D1BCA932D1F1EE428B619D970F342ABA9A65793B8B2F041AE5364350C16F735F56ECBCA87BD57B29E7

  /** The digests, uninterpreted. */
  datatype Hashes = Hashes(sha1: seq<byte> -> seq<byte>, sha256: seq<byte> -> seq<byte>)

  ghost predicate Sized(h: Hashes) {
    forall m :: |h.sha1(m)| == 20 && |h.sha256(m)| == 32
  }

  function Multiplier(h: Hashes): nat {
    BufToBig(h.sha1(BigToBuf(N) + (Zeros(127) + BigToBuf(2))))
  }

  function UserHash(h: Hashes, user: seq<byte>, salt: seq<byte>, pass: seq<byte>): nat {
    BufToBig(h.sha1(salt + h.sha1(user + [58] + pass)))
  }

  function Scramble(h: Hashes, A: nat, B: nat): nat {
    BufToBig(h.sha1(BigToBuf(A) + BigToBuf(B)))
  }

  datatype Values = Values(u: nat, x: nat, S: nat, K: seq<byte>, M: seq<byte>)

  /** The proof hash, with n1 computed by exponentiation as Firebird does. */
  function ProofOf(h: Hashes, n1: nat, user: seq<byte>, salt: seq<byte>, A: nat, B: nat, K: seq<byte>): seq<byte> {
    h.sha256(BigToBuf(n1) + BigToBuf(BufToBig(h.sha1(user))) + salt + BigToBuf(A) + BigToBuf(B) + K)
  }

  /** What `clientProofSrp256` returns, said with mathematical powers. */
  ghost predicate IsClientValues(h: Hashes, user: seq<byte>, pass: seq<byte>, salt: seq<byte>,
                                 A: nat, B: nat, a: nat, r: Values) {
    && r.u == Scramble(h, A, B)
    && r.x == UserHash(h, user, salt, pass)
    && r.S == ClientSecret(N, 2, Multiplier(h), r.x, r.u, a, B)
    && r.K == h.sha1(BigToBuf(r.S))
    && r.M == ProofOf(h, Pow(BufToBig(h.sha1(BigToBuf(N))), BufToBig(h.sha1(BigToBuf(2)))) % N, user, salt, A, B, r.K)
  }

  method ClientProof(h: Hashes, user: seq<byte>, pass: seq<byte>, salt: seq<byte>, A: nat, B: nat, a: nat)
    returns (r: Values)
    ensures IsClientValues(h, user, pass, salt, A, B, a, r)
  {
    hide Pow, BigToBuf, BufToBig;
    var u := BufToBig(h.sha1(BigToBuf(A) + BigToBuf(B)));
    var x := UserHash(h, user, salt, pass);
    var k := Multiplier(h);
    var gx := ModPow(2, x, N);
    var S := ModPow(Mod(B - k * gx, N), Mod(a + u * x, N), N);
    var K := h.sha1(BigToBuf(S));
    var n1 := ModPow(BufToBig(h.sha1(BigToBuf(N))), BufToBig(h.sha1(BigToBuf(2))), N);
    r := Values(u, x, S, K, ProofOf(h, n1, user, salt, A, B, K));
  }

  /** The session key of a server that stores the verifier of this user and chose `b`. */
  function ServerKey(h: Hashes, A: nat, v: nat, u: nat, b: nat): seq<byte> {
    h.sha1(BigToBuf(ServerSecret(N, A, v, u, b)))
  }

  /** Both sides derive the same session key. */
  lemma {:induction false} KeysAgree(h: Hashes, user: seq<byte>, pass: seq<byte>, salt: seq<byte>, a: nat, b: nat, r: Values)
    requires var v := Verifier(N, 2, UserHash(h, user, salt, pass));
             var A, B := ClientPublic(N, 2, a), ServerPublic(N, 2, Multiplier(h), v, b);
             && IsClientValues(h, user, pass, salt, A, B, a, r)
             && a + Scramble(h, A, B) * UserHash(h, user, salt, pass) < N
    ensures var v := Verifier(N, 2, UserHash(h, user, salt, pass));
            r.K == ServerKey(h, ClientPublic(N, 2, a), v, r.u, b)
  {
    hide Pow, BigToBuf, BufToBig, ClientSecret, ServerSecret, Verifier, ServerPublic, ClientPublic;
    Agreement(N, 2, Multiplier(h), r.x, r.u, a, b);
  }

  // ------------------------------------------------- a server's own check

  /** The number a digest of these parts, one after the other, stands for. */
  function Digest(hash: seq<byte> -> seq<byte>, parts: seq<seq<byte>>): nat {
    BufToBig(hash(Flatten(parts)))
  }

  lemma {:induction false} FlattenTwo(x: seq<byte>, y: seq<byte>)
    ensures Flatten([x, y]) == x + y
  {
    FlattenCons(x, [y]);
    FlattenOne(y);
    assert [x] + [y] == [x, y];
  }

  lemma {:induction false} FlattenThree(x: seq<byte>, y: seq<byte>, z: seq<byte>)
    ensures Flatten([x, y, z]) == x + y + z
  {
    hide Flatten;
    FlattenCons(x, [y, z]);
    FlattenTwo(y, z);
    assert [x] + [y, z] == [x, y, z];
  }

  lemma {:induction false} FlattenSix(a: seq<byte>, b: seq<byte>, c: seq<byte>, x: seq<byte>, y: seq<byte>, z: seq<byte>)
    ensures Flatten([a, b, c, x, y, z]) == a + b + c + x + y + z
  {
    hide Flatten;
    FlattenConcat([a, b, c], [x, y, z]);
    FlattenThree(a, b, c);
    FlattenThree(x, y, z);
    assert [a, b, c] + [x, y, z] == [a, b, c, x, y, z];
    assert (a + b + c) + (x + y + z) == a + b + c + x + y + z;
  }

  /** x of section 3 of RFC 2945: the hash of the salt and of the hash of user name, colon and password. */
  lemma {:induction false} UserHashParts(h: Hashes, user: seq<byte>, salt: seq<byte>, pass: seq<byte>)
    ensures UserHash(h, user, salt, pass) == Digest(h.sha1, [salt, h.sha1(Flatten([user, Ascii(":"), pass]))])
  {
    hide Flatten, BufToBig, Ascii;
    FlattenThree(user, Ascii(":"), pass);
    assert Ascii(":") == [58] by { Colon(); }
    FlattenTwo(salt, h.sha1(user + [58] + pass));
  }

  lemma {:induction false} Colon()
    ensures Ascii(":") == [58]
  {}

  /** The client's u, with both public keys in minimal bytes. */
  lemma {:induction false} ScrambleParts(h: Hashes, A: nat, B: nat)
    ensures Scramble(h, A, B) == Digest(h.sha1, [BigToBuf(A), BigToBuf(B)])
  {
    hide Flatten, BufToBig, BigToBuf;
    FlattenTwo(BigToBuf(A), BigToBuf(B));
  }

  /** For full-width keys it is u of section 2.6 of RFC 5054. */
  lemma {:induction false} ScramblePadded(h: Hashes, A: nat, B: nat)
    requires Pow(256, 127) <= A < N && Pow(256, 127) <= B < N
    ensures |BigToBuf(A)| <= 128 && |BigToBuf(B)| <= 128
    ensures Scramble(h, A, B) == Digest(h.sha1, [Pad(A, 128), Pad(B, 128)])
  {
    hide Flatten, BufToBig, BigToBuf, Pow, Pad;
    PaddedPreimage(A, B);
    FlattenTwo(Pad(A, 128), Pad(B, 128));
  }

  lemma {:induction false} NIsWide()
    ensures |BigToBuf(N)| == 128 && BigToBuf(2) == [2]
  {
    hide Pow, BigToBuf;
    NFits();
    LeadingByte();
    ByteCount(N, 128);
    TwoIsTwo();
  }

  lemma {:induction false} LeadingByte()
    ensures Pow(256, 127) <= N
  {
    hide Pow;
    SmallPowers();
    PowSum(256, 8, 7);
    PowSum(256, 8, 8);
    PowSum(256, 16, 15);
    PowSum(256, 16, 16);
    PowSum(256, 32, 31);
    PowSum(256, 32, 32);
    PowSum(256, 64, 63);
  }

  lemma {:induction false} TwoIsTwo()
    ensures BigToBuf(2) == [2]
  {
    var h := BigToHex(2);
    assert ToHex(2) == [2] && h == [0, 2];
    assert h[..0] == [] && Pairs(h[..0]) == [];
  }

  /** k of section 2.6 of RFC 5054: the hash of N and the padded generator. */
  lemma {:induction false} MultiplierParts(h: Hashes)
    ensures |BigToBuf(N)| <= 128 && |BigToBuf(2)| <= 128
    ensures Multiplier(h) == Digest(h.sha1, [Pad(N, 128), Pad(2, 128)])
  {
    hide Flatten, BufToBig, BigToBuf;
    NIsWide();
    FlattenTwo(Pad(N, 128), Pad(2, 128));
    assert Pad(N, 128) == BigToBuf(N);
  }

  /** What the proof is a hash of, part by part, in the order of the protocol. */
  lemma {:induction false} ProofParts(h: Hashes, n1: nat, user: seq<byte>, salt: seq<byte>, A: nat, B: nat, K: seq<byte>)
    ensures ProofOf(h, n1, user, salt, A, B, K) ==
            h.sha256(Flatten([BigToBuf(n1), BigToBuf(Digest(h.sha1, [user])), salt, BigToBuf(A), BigToBuf(B), K]))
  {
    hide Flatten, BufToBig, BigToBuf;
    FlattenOne(user);
    FlattenSix(BigToBuf(n1), BigToBuf(BufToBig(h.sha1(user))), salt, BigToBuf(A), BigToBuf(B), K);
  }

  /**
   A server that knows the verifier, chose `b` and hashes the protocol's parts itself, with the secret
   (A * v^u)^b of section 2.6 of RFC 5054, arrives at the client's key and accepts the client's proof.
   */
  lemma {:induction false} ServerAccepts(h: Hashes, user: seq<byte>, pass: seq<byte>, salt: seq<byte>, a: nat, b: nat,
                                         x: nat, v: nat, k: nat, A: nat, B: nat, u: nat, r: Values)
    requires |BigToBuf(N)| <= 128 && |BigToBuf(2)| <= 128
    requires x == Digest(h.sha1, [salt, h.sha1(Flatten([user, Ascii(":"), pass]))]) && v == Pow(2, x) % N
    requires k == Digest(h.sha1, [Pad(N, 128), Pad(2, 128)])
    requires A == Pow(2, a) % N && B == (k * v + Pow(2, b)) % N
    requires u == Digest(h.sha1, [BigToBuf(A), BigToBuf(B)]) && a + u * x < N
    requires IsClientValues(h, user, pass, salt, A, B, a, r)
    ensures r.S == Pow(A * Pow(v, u), b) % N && r.K == h.sha1(BigToBuf(r.S))
    ensures var n1 := Pow(Digest(h.sha1, [BigToBuf(N)]), Digest(h.sha1, [BigToBuf(2)])) % N;
            r.M == h.sha256(Flatten([BigToBuf(n1), BigToBuf(Digest(h.sha1, [user])), salt,
                                     BigToBuf(A), BigToBuf(B), r.K]))
  {
    hide Flatten, BufToBig, BigToBuf, Pow, Pad, Ascii, UserHash, Multiplier, Scramble, ProofOf, ClientSecret, Digest;
    UserHashParts(h, user, salt, pass);
    MultiplierParts(h);
    ScrambleParts(h, A, B);
    Agreement(N, 2, k, x, u, a, b);
    DigestOne(h.sha1, BigToBuf(N));
    DigestOne(h.sha1, BigToBuf(2));
    var n1 := Pow(Digest(h.sha1, [BigToBuf(N)]), Digest(h.sha1, [BigToBuf(2)])) % N;
    ProofParts(h, n1, user, salt, A, B, r.K);
  }

  lemma {:induction false} DigestOne(hash: seq<byte> -> seq<byte>, x: seq<byte>)
    ensures Digest(hash, [x]) == BufToBig(hash(x))
  {
    hide Flatten, BufToBig;
    FlattenOne(x);
  }

  lemma {:induction false} DigestProduct(h: Hashes, user: seq<byte>, pass: seq<byte>, salt: seq<byte>, A: nat, B: nat)
    requires Sized(h)
    ensures Scramble(h, A, B) * UserHash(h, user, salt, pass) < Pow(256, 40)
  {
    hide Pow, BigToBuf, BufToBig;
    var u, x := Scramble(h, A, B), UserHash(h, user, salt, pass);
    ByteBounds(h.sha1(BigToBuf(A) + BigToBuf(B)));
    ByteBounds(h.sha1(salt + h.sha1(user + [58] + pass)));
    PowSum(256, 20, 20);
    ProductBelow(u, x, Pow(256, 20));
  }

  /** 160-bit digests keep the exponent below N for every private key up to N - 2^320. */
  lemma {:induction false} SmallKeysAgree(h: Hashes, user: seq<byte>, pass: seq<byte>, salt: seq<byte>, A: nat, B: nat, a: nat)
    requires Sized(h) && a + Pow(256, 40) <= N
    ensures a + Scramble(h, A, B) * UserHash(h, user, salt, pass) < N
  {
    DigestProduct(h, user, pass, salt, A, B);
  }

  lemma {:induction false} NFits()
    ensures N < Pow(256, 128)
  {
    hide Pow;
    SmallPowers();
    PowSum(256, 8, 8);
    PowSum(256, 16, 16);
    PowSum(256, 32, 32);
    PowSum(256, 64, 64);
  }

  lemma {:induction false} SmallPowers()
    ensures Pow(256, 8) == 0x1_0000_0000_0000_0000 && Pow(256, 7) == 0x100_0000_0000_0000
  {
    assert Pow(256, 1) == 256 * Pow(256, 0) == 256;
    hide Pow;
    PowSum(256, 1, 1);
    PowSum(256, 1, 2);
    PowSum(256, 2, 2);
    PowSum(256, 4, 3);
    PowSum(256, 4, 4);
  }

  lemma {:induction false} NHoldsDigests()
    ensures Pow(256, 40) <= N
  {
    hide Pow;
    SmallPowers();
    PowSum(256, 8, 8);
    PowSum(256, 16, 16);
    PowSum(256, 32, 8);
  }

  /**
   The exact condition at the code's own N, in the client's terms: with a private key below N and u*x below N
   the secrets agree if and only if the exponent is not cut, or the base the client raises is one.
   */
  lemma {:induction false} AgreementAtN(k: nat, x: nat, u: nat, a: nat, b: nat)
    requires Fermat.Prime(N) && a < N && u * x < N
    ensures var v := Verifier(N, 2, x);
            Agree(N, 2, k, x, u, a, b) <==>
              a + u * x < N || (ServerPublic(N, 2, k, v, b) - k * v) % N == 1
  {
    hide Pow, Agree, Verifier, ServerPublic;
    var e := a + u * x;
    AgreementExactlyPrime(N, k, x, u, a, b);
    ClientBase(N, 2, k, Verifier(N, 2, x), b);
    if e >= N {
      QuotientUnique(e, 1, e - N, N);
      assert b * 1 == b;
    }
  }

  /** The digests of the protocol keep u*x below N, so the condition applies to every exchange of the client. */
  lemma {:induction false} ExchangeAtN(h: Hashes, user: seq<byte>, pass: seq<byte>, salt: seq<byte>, A: nat, B: nat,
                                       a: nat, b: nat)
    requires Sized(h) && Fermat.Prime(N) && a < N
    ensures var x, u, k := UserHash(h, user, salt, pass), Scramble(h, A, B), Multiplier(h);
            var v := Verifier(N, 2, x);
            Agree(N, 2, k, x, u, a, b) <==>
              a + u * x < N || (ServerPublic(N, 2, k, v, b) - k * v) % N == 1
  {
    hide Pow, BigToBuf, BufToBig, Agree, Verifier, ServerPublic;
    var x, u := UserHash(h, user, salt, pass), Scramble(h, A, B);
    DigestProduct(h, user, pass, salt, A, B);
    NHoldsDigests();
    AgreementAtN(Multiplier(h), x, u, a, b);
  }

  /** The greatest private key fails against every server that chose b = 1, whatever the digests, unless one is zero. */
  lemma {:induction false} ReductionBreaksAgreement(k: nat, x: nat, u: nat)
    requires Fermat.Prime(N) && 1 <= u * x < N
    ensures !Agree(N, 2, k, x, u, N - 1, 1)
  {
    hide Agree;
    var e := N - 1 + u * x;
    AgreementExactlyPrime(N, k, x, u, N - 1, 1);
    QuotientUnique(e, 1, e - N, N);
    assert Pow(2, 1) == 2 * Pow(2, 0) == 2;
    QuotientUnique(2, 0, 2, N);
  }

  /** For public keys below N the client's u is that of RFC 5054 exactly when both keys take all 128 bytes. */
  lemma {:induction false} PaddedPreimage(A: nat, B: nat)
    requires A < N && B < N
    ensures |BigToBuf(A)| <= 128 && |BigToBuf(B)| <= 128
    ensures BigToBuf(A) + BigToBuf(B) == Pad(A, 128) + Pad(B, 128) <==>
            A >= Pow(256, 127) && B >= Pow(256, 127)
  {
    hide Pow, BigToBuf;
    NFits();
    ByteCount(A, 128);
    ByteCount(B, 128);
    UnpaddedIsPadded(A, B, 128);
  }

  lemma {:induction false} ProductBelow(u: nat, x: nat, p: nat)
    requires u < p && x < p
    ensures u * x < p * p
  {}

  // --------------------------------------------------------- plugin data

  /** The plugin data of the acceptance: 2-byte little-endian lengths, salt, then B as hex text. */
  function EncodePluginData(salt: seq<byte>, text: seq<byte>): seq<byte>
    requires |salt| < 0x1_0000 && |text| < 0x1_0000
  {
    EncodeU16(|salt|) + salt + EncodeU16(|text|) + text
  }

  /** How the client takes it apart; `readUInt16LE` throws past the end, `subarray` clips. */
  function ParsePluginData(d: seq<byte>): Option<(seq<byte>, nat)> {
    if |d| < 2 then None
    else
      var saltLen := U16At(d, 0);
      if |d| < 4 + saltLen then None
      else
        var salt, keyLen := d[2..2 + saltLen], U16At(d, 2 + saltLen);
        var B := ParseHexText(Slice(d, 4 + saltLen, 4 + saltLen + keyLen));
        if B.None? then None else Some((salt, B.value))
  }

  /** The bytes of the plugin data: both lengths least significant byte first, the salt before the key. */
  lemma {:induction false} PluginDataBytes(salt: seq<byte>, text: seq<byte>, B: nat)
    requires |salt| < 0x1_0000 && |text| < 0x1_0000 && ParseHexText(text) == Some(B)
    ensures ParsePluginData([|salt| % 256, |salt| / 256] + salt + [|text| % 256, |text| / 256] + text) == Some((salt, B))
  {
    hide ParseHexText, ParsePluginData;
    PluginDataRoundTrip(salt, text, B);
    assert EncodePluginData(salt, text) == [|salt| % 256, |salt| / 256] + salt + [|text| % 256, |text| / 256] + text;
  }

  lemma {:induction false} PluginDataRoundTrip(salt: seq<byte>, text: seq<byte>, B: nat)
    requires |salt| < 0x1_0000 && |text| < 0x1_0000 && ParseHexText(text) == Some(B)
    ensures ParsePluginData(EncodePluginData(salt, text)) == Some((salt, B))
  {
    hide ParseHexText;
    var d := EncodePluginData(salt, text);
    var n, m := EncodeU16(|salt|), EncodeU16(|text|);
    assert d[0] == n[0] && d[1] == n[1];
    assert d[2 + |salt|] == m[0] && d[3 + |salt|] == m[1];
    assert d[2..2 + |salt|] == salt && d[4 + |salt|..|d|] == text;
  }
}
