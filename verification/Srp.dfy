/** SRP-6a as the engine computes it (section 2.6 of RFC 5054, with the engine's own hashing): the
    client and the server reach a secret by two different formulas.

    Numbers are naturals here; the bignum modules prove that the limb code computes exactly these
    functions of the values. The two hashes are parameters, known only by their output lengths. */
module Srp {
  import opened Words
  import opened Power
  import opened Congruence
  import opened ByteStrings
  import Hex = HexText
  import NumberTheory

  // the fixed 1024-bit group
  function Modulus(): (n: nat)
    ensures n > 1
  {
    0xE67D2E994B2F900C3F41F08F5BB2627ED0D49EE1FE767A52EFCD565CD6E768812C3E1E9CE8F0A8BEA6CB13CD29DDEBF7A96D4A93B55D488DF099A15C89DCB0640738EB2CBDD9A8F7BAB561AB1B0DC1C6CDABF303264A08D1BCA932D1F1EE428B619D970F342ABA9A65793B8B2F041AE5364350C16F735F56ECBCA87BD57B29E7
  }

  const G: nat := 2

  const KEY_SIZE := 128

  datatype Algo = Srp | Srp256

  datatype Hashes = Hashes(sha1: Bytes -> Bytes, sha256: Bytes -> Bytes) {
    ghost predicate Valid() {
      (forall d :: |sha1(d)| == 20) && (forall d :: |sha256(d)| == 32)
    }

    /** Only the proof is hashed with the plugin's own hash; everything else is SHA-1. */
    function Proof(algo: Algo, data: Bytes): Bytes {
      match algo
      case Srp => sha1(data)
      case Srp256 => sha256(data)
    }
  }

  datatype Option<T> = None | Some(value: T)

  /** base^exp mod N. */
  function Exp(base: nat, exp: nat): nat {
    Pow(base, exp) % Modulus()
  }

  function FromHex(text: string): nat {
    BytesVal(Hex.ToBytes(text))
  }

  /** `hex_text(&x.to_bytes_be())`: how every number travels. */
  function ToHex(x: nat): string {
    Hex.Text(NatBytes(x))
  }

  /** x = SHA1(salt | SHA1(user ':' password)). */
  function UserHash(h: Hashes, user: Bytes, password: Bytes, salt: Bytes): nat {
    BytesVal(h.sha1(salt + h.sha1(user + [0x3a] + password)))
  }

  /** u = SHA1(A | B) over minimal bytes. */
  function Scramble(h: Hashes, a: nat, b: nat): nat {
    BytesVal(h.sha1(NatBytes(a) + NatBytes(b)))
  }

  /** k = SHA1(N | PAD(g)). */
  function KParam(h: Hashes): nat {
    BytesVal(h.sha1(NatBytes(Modulus()) + seq(KEY_SIZE - 1, i => 0 as u8) + [2]))
  }

  function SessionHash(h: Hashes, secret: nat): Bytes {
    h.sha1(NatBytes(secret))
  }

  function MakeProof(h: Hashes, algo: Algo, user: Bytes, salt: Bytes, a: nat, b: nat, key: Bytes): Bytes {
    var n1 := Exp(BytesVal(h.sha1(NatBytes(Modulus()))), BytesVal(h.sha1(NatBytes(G))));
    var n2 := BytesVal(h.sha1(user));
    h.Proof(algo, NatBytes(n1) + NatBytes(n2) + salt + NatBytes(a) + NatBytes(b) + key)
  }

  // ------------------------------------------------------------------ the client

  datatype Client = Client(aHex: string, aPriv: nat, aPub: nat)

  datatype ClientProof = ClientProof(mHex: string, sessionKey: Bytes, secret: nat)

  function ClientStart(aBytes: Bytes): Client {
    var aPriv := BytesVal(aBytes) % Modulus();
    var aPub := Exp(G, aPriv);
    Client(ToHex(aPub), aPriv, aPub)
  }

  /** S = (B - k * g^x) ^ (a + u * x), the exponent reduced modulo N. */
  function ClientSecret(h: Hashes, c: Client, x: nat, bigB: nat): nat {
    var u := Scramble(h, c.aPub, bigB);
    var kgx := KParam(h) * Exp(G, x) % Modulus();
    Exp((bigB - kgx) % Modulus(), (c.aPriv + u * x % Modulus()) % Modulus())
  }

  function ProofWith(h: Hashes, c: Client, algo: Algo, user: Bytes, password: Bytes, salt: Bytes, bHex: string): ClientProof {
    var bigB := FromHex(bHex);
    var secret := ClientSecret(h, c, UserHash(h, user, password, salt), bigB);
    var key := SessionHash(h, secret);
    ClientProof(Hex.Text(MakeProof(h, algo, user, salt, c.aPub, bigB, key)), key, secret)
  }

  // ------------------------------------------------------------------ the server

  datatype Verifier = Verifier(salt: Bytes, v: nat, user: Bytes)

  function NewVerifier(h: Hashes, user: Bytes, password: Bytes, salt: Bytes): Verifier {
    Verifier(salt, Exp(G, UserHash(h, user, password, salt)), user)
  }

  function FromStored(user: Bytes, salt: Bytes, stored: Bytes): Verifier {
    Verifier(salt, BytesVal(stored), user)
  }

  function VerifierBytes(s: Verifier): Bytes {
    NatBytes(s.v)
  }

  /** B = k * v + g^b, with b itself reduced first. */
  function ServerPublic(h: Hashes, s: Verifier, bBytes: Bytes): (nat, string) {
    var bPriv := BytesVal(bBytes) % Modulus();
    (bPriv, ToHex((KParam(h) * s.v % Modulus() + Exp(G, bPriv)) % Modulus()))
  }

  /** S = (A * v^u) ^ b. */
  function ServerSecret(h: Hashes, s: Verifier, bigA: nat, bPriv: nat, bigB: nat): nat {
    Exp(bigA * Exp(s.v, Scramble(h, bigA, bigB)) % Modulus(), bPriv)
  }

  function ServerKey(h: Hashes, s: Verifier, aHex: string, bPriv: nat, bHex: string): Bytes {
    SessionHash(h, ServerSecret(h, s, FromHex(aHex), bPriv, FromHex(bHex)))
  }

  function VerifyWith(h: Hashes, s: Verifier, algo: Algo, aHex: string, bPriv: nat, bHex: string, mHex: string): Option<Bytes> {
    var key := ServerKey(h, s, aHex, bPriv, bHex);
    var expected := MakeProof(h, algo, s.user, s.salt, FromHex(aHex), FromHex(bHex), key);
    if Hex.ProofMatches(expected, mHex) then Some(key) else None
  }

  // ------------------------------------------------------------------ numbers on the wire

  lemma HexRoundTrip(x: nat)
    ensures FromHex(ToHex(x)) == x
  {
    Hex.TextRoundTrip(NatBytes(x));
    NatBytesRoundTrip(x);
  }

  /** A verifier reloaded from its stored bytes is the verifier. */
  lemma StoredVerifierRoundTrip(s: Verifier)
    ensures FromStored(s.user, s.salt, VerifierBytes(s)) == s
  {
    NatBytesRoundTrip(s.v);
  }

  // ------------------------------------------------------------------ agreement

  lemma ModulusFacts()
    ensures Modulus() % 2 == 1 && Modulus() > 1
    ensures Pow(256, 20) * Pow(256, 20) <= Modulus()
  {
    PowAdd(256, 5, 5);
    PowAdd(256, 10, 10);
    PowAdd(256, 20, 20);
  }

  /** A 160-bit scramble times a 160-bit user hash needs no reduction. */
  lemma ScrambledHashFits(u: nat, x: nat)
    requires u < Pow(256, 20) && x < Pow(256, 20)
    ensures 0 <= u * x < Modulus() && u * x % Modulus() == u * x
  {
    hide Pow, Modulus;
    ModulusFacts();
    MulLeft(u, Pow(256, 20), x);
    MulLeft(x, Pow(256, 20), Pow(256, 20));
    MulLeft(0, u, x);
    if x > 0 {
      MulStrict(u, Pow(256, 20), x);
    }
    DivModUnique(u * x, Modulus(), 0, u * x);
  }

  /** What is left of B once the client takes k * g^x away is g^b. */
  lemma BlindingCancels(k: nat, v: nat, gb: nat)
    requires gb < Modulus()
    ensures ((k * v % Modulus() + gb) % Modulus() - k * v % Modulus()) % Modulus() == gb
  {
    hide Pow, Modulus;
    var kv := k * v % Modulus();
    CongMod(kv + gb, Modulus());
    CongSub((kv + gb) % Modulus(), kv + gb, kv, kv, Modulus());
    CongInRange(gb, (kv + gb) % Modulus() - kv, Modulus());
  }

  /** Taking a residue before raising to a power changes nothing. */
  lemma ExpOfResidue(base: nat, e: nat)
    ensures Exp(base % Modulus(), e) == Exp(base, e)
  {
    hide Pow, Modulus;
    CongMod(base, Modulus());
    CongPow(base % Modulus(), base, e, Modulus());
  }

  lemma ExpOfExp(base: nat, e: nat, f: nat)
    ensures e * f >= 0 && Exp(Exp(base, e), f) == Exp(base, e * f)
  {
    hide Pow, Modulus;
    ExpOfResidue(Pow(base, e), f);
    PowOfPow(base, e, f);
  }

  /** The server's formula is g to the power (a + u * x) * b. */
  lemma ServerFormula(a: nat, x: nat, u: nat, b: nat)
    ensures u * x >= 0 && (a + u * x) * b >= 0
    ensures Exp(Exp(G, a) * Exp(Exp(G, x), u) % Modulus(), b) == Exp(G, (a + u * x) * b)
  {
    hide Pow, Modulus;
    ExpOfExp(G, x, u);
    MulLeft(0, u, x);
    assert x * u == u * x;
    CongMod(Pow(G, a), Modulus());
    CongMod(Pow(G, u * x), Modulus());
    CongMul(Exp(G, a), Pow(G, a), Exp(G, u * x), Pow(G, u * x), Modulus());
    PowAdd(G, a, u * x);
    ExpOfResidue(Exp(G, a) * Exp(G, u * x), b);
    CongPow(Exp(G, a) * Exp(G, u * x), Pow(G, a + u * x), b, Modulus());
    PowOfPow(G, a + u * x, b);
  }

  /** Every power of g has an inverse modulo the odd N. */
  lemma PowerInvertible(e: nat) returns (inverse: nat)
    ensures Cong(Pow(G, e) * inverse, 1, Modulus())
  {
    hide Pow, Modulus;
    ModulusFacts();
    var half := (Modulus() + 1) / 2;
    inverse := Pow(half, e);
    PowOfProduct(2, half, e);
    CongByMultiple(Modulus() + 1, 1, 1, Modulus());
    CongPow(Modulus() + 1, 1, e, Modulus());
    PowOne(e);
  }

  /** g^(b N) mod N: what reducing an exponent modulo N, once, divides the secret by. */
  function GToTheBN(b: nat): nat {
    MulLeft(0, Modulus(), b);
    Exp(G, b * Modulus())
  }

  /** Dropping N from the exponent of g^b: harmless exactly when g^(b N) is one. */
  lemma ReducedExponent(b: nat, e: nat)
    requires e >= Modulus()
    ensures b * (e - Modulus()) >= 0 && e * b >= 0
    ensures Exp(G, b * (e - Modulus())) == Exp(G, e * b) <==> GToTheBN(b) == 1
  {
    hide Pow, Modulus;
    MulLeft(0, e - Modulus(), b);
    MulLeft(0, Modulus(), b);
    MulDistributes(b, e - Modulus(), Modulus());
    var low, full, n := b * (e - Modulus()), e * b, b * Modulus();
    assert full == n + low;
    PowAdd(G, n, low);
    ModulusFacts();
    DivModUnique(1, Modulus(), 0, 1);
    if Exp(G, n) == 1 {
      CongScale(Pow(G, n), 1, Pow(G, low), Modulus());
    }
    if Exp(G, low) == Exp(G, full) {
      var inverse := PowerInvertible(low);
      assert 1 * Pow(G, low) == Pow(G, low);
      CongCancel(Pow(G, n), 1, Pow(G, low), inverse, Modulus());
    }
  }

  /** The client's secret, in terms of the three private numbers. */
  lemma ClientFormula(a: nat, x: nat, u: nat, b: nat, k: nat)
    requires a < Modulus() && 0 <= u * x < Modulus() && u * x % Modulus() == u * x
    ensures k * Exp(G, x) >= 0 && b * ((a + u * x) % Modulus()) >= 0
    ensures var bigB := (k * Exp(G, x) % Modulus() + Exp(G, b)) % Modulus();
            Exp((bigB - k * Exp(G, x) % Modulus()) % Modulus(), (a + u * x % Modulus()) % Modulus()) == Exp(G, b * ((a + u * x) % Modulus()))
  {
    hide Pow, Modulus;
    MulLeft(0, k, Exp(G, x));
    DivBasics(Pow(G, b), Modulus());
    BlindingCancels(k, Exp(G, x), Exp(G, b));
    ExpOfExp(G, b, (a + u * x) % Modulus());
  }

  /** The secrets of an exchange are equal if and only if the exponent a + u * x stayed below N or
      g^(b N) is one modulo N. */
  lemma SecretsAgreeExactly(a: nat, x: nat, u: nat, b: nat, k: nat)
    requires a < Modulus() && u < Pow(256, 20) && x < Pow(256, 20)
    ensures k * Exp(G, x) >= 0 && u * x >= 0
    ensures var bigB := (k * Exp(G, x) % Modulus() + Exp(G, b)) % Modulus();
            var client := Exp((bigB - k * Exp(G, x) % Modulus()) % Modulus(), (a + u * x % Modulus()) % Modulus());
            var server := Exp(Exp(G, a) * Exp(Exp(G, x), u) % Modulus(), b);
            client == server <==> a + u * x < Modulus() || GToTheBN(b) == 1
  {
    hide Pow, Exp, Modulus;
    ScrambledHashFits(u, x);
    ClientFormula(a, x, u, b, k);
    ServerFormula(a, x, u, b);
    MulLeft(0, Modulus(), b);
    var e := a + u * x;
    if e < Modulus() {
      DivModUnique(e, Modulus(), 0, e);
      assert b * e == e * b;
    } else {
      DivModUnique(e, Modulus(), 1, e - Modulus());
      ReducedExponent(b, e);
    }
  }

  lemma HashBound(h: Hashes, data: Bytes)
    requires h.Valid()
    ensures BytesVal(h.sha1(data)) < Pow(256, 20)
  {
    BytesValBound(h.sha1(data));
  }

  /** A whole exchange over the wire, every number travelling as minimal hex text. */
  datatype Exchange = Exchange(client: Client, server: Verifier, bPriv: nat, bHex: string, x: nat, u: nat)

  function Run(h: Hashes, user: Bytes, password: Bytes, salt: Bytes, aBytes: Bytes, bBytes: Bytes): Exchange {
    var client := ClientStart(aBytes);
    var server := NewVerifier(h, user, password, salt);
    var (bPriv, bHex) := ServerPublic(h, server, bBytes);
    Exchange(client, server, bPriv, bHex, UserHash(h, user, password, salt), Scramble(h, client.aPub, FromHex(bHex)))
  }

  predicate ExponentFits(e: Exchange) {
    e.client.aPriv + e.u * e.x < Modulus()
  }

  /** The two sides of an exchange derive the same secret exactly when the exponent fits or g^(b N)
      is one. The first disjunct fails only for a private key within 2^320 of N. */
  lemma AgreementExactly(h: Hashes, user: Bytes, password: Bytes, salt: Bytes, aBytes: Bytes, bBytes: Bytes)
    requires h.Valid()
    ensures var e := Run(h, user, password, salt, aBytes, bBytes);
            var bigB := FromHex(e.bHex);
            ClientSecret(h, e.client, e.x, bigB) == ServerSecret(h, e.server, FromHex(e.client.aHex), e.bPriv, bigB)
            <==> ExponentFits(e) || GToTheBN(e.bPriv) == 1
  {
    hide Pow, Exp, Modulus, Scramble, UserHash, KParam, FromHex, ToHex;
    var e := Run(h, user, password, salt, aBytes, bBytes);
    var k := KParam(h);
    var bigB := (k * e.server.v % Modulus() + Exp(G, e.bPriv)) % Modulus();
    HexRoundTrip(e.client.aPub);
    HexRoundTrip(bigB);
    DivBasics(BytesVal(aBytes), Modulus());
    HashedBounds(h, user, password, salt, e.client.aPub, bigB);
    SecretsAgreeExactly(e.client.aPriv, e.x, e.u, e.bPriv, k);
  }

  lemma HashedBounds(h: Hashes, user: Bytes, password: Bytes, salt: Bytes, a: nat, b: nat)
    requires h.Valid()
    ensures UserHash(h, user, password, salt) < Pow(256, 20) && Scramble(h, a, b) < Pow(256, 20)
  {
    hide Pow, Modulus;
    HashBound(h, salt + h.sha1(user + [0x3a] + password));
    HashBound(h, NatBytes(a) + NatBytes(b));
  }

  /** With equal secrets the server accepts the client's proof and both hold the same key, for either
      plugin, also when the verifier was reloaded from its stored bytes. */
  lemma ProofAccepted(h: Hashes, algo: Algo, user: Bytes, password: Bytes, salt: Bytes, aBytes: Bytes, bBytes: Bytes)
    requires h.Valid()
    requires var e := Run(h, user, password, salt, aBytes, bBytes); ExponentFits(e) || GToTheBN(e.bPriv) == 1
    ensures var e := Run(h, user, password, salt, aBytes, bBytes);
            var p := ProofWith(h, e.client, algo, user, password, salt, e.bHex);
            var stored := FromStored(user, salt, VerifierBytes(e.server));
            && VerifyWith(h, e.server, algo, e.client.aHex, e.bPriv, e.bHex, p.mHex) == Some(p.sessionKey)
            && VerifyWith(h, stored, algo, e.client.aHex, e.bPriv, e.bHex, p.mHex) == Some(p.sessionKey)
  {
    hide Pow, Modulus;
    AgreementExactly(h, user, password, salt, aBytes, bBytes);
    var e := Run(h, user, password, salt, aBytes, bBytes);
    var p := ProofWith(h, e.client, algo, user, password, salt, e.bHex);
    StoredVerifierRoundTrip(e.server);
    HexRoundTrip(e.client.aPub);
    var m := MakeProof(h, algo, user, salt, e.client.aPub, FromHex(e.bHex), p.sessionKey);
    Hex.TextRoundTrip(m);
    Hex.MatchesByValue(m, p.mHex);
  }

  /** What the server accepts is exactly a text denoting the number of its own expected proof. */
  lemma AcceptsExactly(h: Hashes, s: Verifier, algo: Algo, aHex: string, bPriv: nat, bHex: string, mHex: string)
    ensures var key := ServerKey(h, s, aHex, bPriv, bHex);
            var expected := MakeProof(h, algo, s.user, s.salt, FromHex(aHex), FromHex(bHex), key);
            VerifyWith(h, s, algo, aHex, bPriv, bHex, mHex) == (if FromHex(mHex) == BytesVal(expected) then Some(key) else None)
  {
    var key := ServerKey(h, s, aHex, bPriv, bHex);
    Hex.MatchesByValue(MakeProof(h, algo, s.user, s.salt, FromHex(aHex), FromHex(bHex), key), mHex);
  }

  // ------------------------------------------------------------------ every number of an exchange

  /** The number a digest is read as. */
  function DigestNumber(h: Hashes, data: Bytes): nat {
    BytesVal(h.sha1(data))
  }

  /** What both sides compute and send, in terms of the digests and of powers modulo N alone. The pad in
      the last clause is what makes the base 128 bytes long in front of the multiplier's digest. */
  lemma ExchangeNumbers(h: Hashes, user: Bytes, password: Bytes, salt: Bytes, aBytes: Bytes, bBytes: Bytes)
    ensures var e, n := Run(h, user, password, salt, aBytes, bBytes), Modulus();
            var (a, b, x) := (BytesVal(aBytes) % n, BytesVal(bBytes) % n, DigestNumber(h, salt + h.sha1(user + [0x3a] + password)));
            var k := KParam(h);
            var bigA, v := Pow(2, a) % n, Pow(2, x) % n;
            var bigB := (k * v % n + Pow(2, b) % n) % n;
            && e.client.aPriv == a && FromHex(e.client.aHex) == bigA && e.bPriv == b && e.server == Verifier(salt, v, user)
            && FromHex(e.bHex) == bigB && e.x == x && e.u == DigestNumber(h, NatBytes(bigA) + NatBytes(bigB))
            && ClientSecret(h, e.client, x, bigB)
               == Pow((bigB - k * v % n) % n, (a + e.u * x % n) % n) % n
            && ServerSecret(h, e.server, bigA, b, bigB) == Pow(bigA * (Pow(v, e.u) % n) % n, b) % n
  {
    hide Pow, Modulus, NatBytes, BytesVal, KParam, ToHex, FromHex;
    var e := Run(h, user, password, salt, aBytes, bBytes);
    HexRoundTrip(e.client.aPub);
    HexRoundTrip((KParam(h) * e.server.v % Modulus() + Exp(G, e.bPriv)) % Modulus());
  }

  /** The multiplier is the digest of N and of the base padded to as many bytes. */
  lemma MultiplierInput(h: Hashes, data: Bytes)
    requires |data| == 256 && BytesVal(data) == Modulus() * Pow(256, 128) + 2 && data[..128] == NatBytes(Modulus())
    ensures KParam(h) == DigestNumber(h, data)
  {
    hide Pow, Modulus, NatBytes;
    var pad := seq(KEY_SIZE - 1, i => 0 as u8) + [2];
    var back := data[128..];
    assert data == data[..128] + back;
    BytesValConcat(data[..128], back);
    NatBytesRoundTrip(Modulus());
    PaddedTwo();
    SameLengthSameBytes(back, pad);
    assert NatBytes(Modulus()) + seq(KEY_SIZE - 1, i => 0 as u8) + [2] == data;
  }

  lemma PaddedTwo()
    ensures |seq(KEY_SIZE - 1, i => 0 as u8) + [2]| == 128 && BytesVal(seq(KEY_SIZE - 1, i => 0 as u8) + [2]) == 2
  {
    ZeroBytes(KEY_SIZE - 1);
    var pad := seq(KEY_SIZE - 1, i => 0 as u8) + [2];
    assert pad[..|pad| - 1] == seq(KEY_SIZE - 1, i => 0 as u8);
  }

  lemma {:induction false} ZeroBytes(n: nat)
    ensures BytesVal(seq(n, i => 0 as u8)) == 0
  {
    if n > 0 {
      ZeroBytes(n - 1);
      assert seq(n, i => 0 as u8)[..n - 1] == seq(n - 1, i => 0 as u8);
    }
  }

  // ------------------------------------------------------------------ what the digests depend on

  /** Two different byte strings with one digest. */
  predicate Collides(hash: Bytes -> Bytes, a: Bytes, b: Bytes) {
    a != b && hash(a) == hash(b)
  }

  lemma SameDigest(h: Hashes, a: Bytes, b: Bytes)
    requires h.Valid() && DigestNumber(h, a) == DigestNumber(h, b)
    ensures h.sha1(a) == h.sha1(b)
  {
    SameLengthSameBytes(h.sha1(a), h.sha1(b));
  }

  /** Another password gives another user hash, unless one of two pairs of byte strings collides: the
      user names with the passwords behind them, or the salts with the digests of those. */
  lemma PasswordMatters(h: Hashes, user: Bytes, salt: Bytes, p: Bytes, q: Bytes)
    requires h.Valid() && p != q
    ensures var inner, other := user + [0x3a] + p, user + [0x3a] + q;
            UserHash(h, user, p, salt) == UserHash(h, user, q, salt)
            <==> Collides(h.sha1, inner, other) || Collides(h.sha1, salt + h.sha1(inner), salt + h.sha1(other))
  {
    hide BytesVal;
    var inner, other := user + [0x3a] + p, user + [0x3a] + q;
    assert inner[|user| + 1..] == p && other[|user| + 1..] == q;
    var x, y := salt + h.sha1(inner), salt + h.sha1(other);
    assert x[|salt|..] == h.sha1(inner) && y[|salt|..] == h.sha1(other);
    if UserHash(h, user, p, salt) == UserHash(h, user, q, salt) {
      SameDigest(h, x, y);
    }
  }

  /** Another salt does, too. */
  lemma SaltMatters(h: Hashes, user: Bytes, p: Bytes, salt: Bytes, other: Bytes)
    requires h.Valid() && salt != other
    ensures var inner := h.sha1(user + [0x3a] + p);
            UserHash(h, user, p, salt) == UserHash(h, user, p, other) <==> Collides(h.sha1, salt + inner, other + inner)
  {
    hide BytesVal;
    var inner := h.sha1(user + [0x3a] + p);
    var x, y := salt + inner, other + inner;
    assert x[..|x| - |inner|] == salt && y[..|y| - |inner|] == other;
    if UserHash(h, user, p, salt) == UserHash(h, user, p, other) {
      SameDigest(h, x, y);
    }
  }

  /** The scramble depends on both public numbers, in order: equal scrambles are a collision, or the
      minimal bytes of the two numbers run together to one string; and numbers as long as each other do
      that only if they are the same. */
  lemma ScrambleDependsOn(h: Hashes, a: nat, b: nat, c: nat, d: nat)
    requires h.Valid()
    ensures Scramble(h, a, b) == Scramble(h, c, d)
            <==> NatBytes(a) + NatBytes(b) == NatBytes(c) + NatBytes(d) || Collides(h.sha1, NatBytes(a) + NatBytes(b), NatBytes(c) + NatBytes(d))
    ensures |NatBytes(a)| == |NatBytes(c)| ==> (NatBytes(a) + NatBytes(b) == NatBytes(c) + NatBytes(d) <==> a == c && b == d)
  {
    hide BytesVal, NatBytes;
    if Scramble(h, a, b) == Scramble(h, c, d) {
      SameDigest(h, NatBytes(a) + NatBytes(b), NatBytes(c) + NatBytes(d));
    }
    if |NatBytes(a)| == |NatBytes(c)| && NatBytes(a) + NatBytes(b) == NatBytes(c) + NatBytes(d) {
      SameParts(NatBytes(a), NatBytes(b), NatBytes(c), NatBytes(d));
      NatBytesRoundTrip(a);
      NatBytesRoundTrip(b);
      NatBytesRoundTrip(c);
      NatBytesRoundTrip(d);
    }
  }

  lemma SameParts(a: Bytes, b: Bytes, c: Bytes, d: Bytes)
    requires |a| == |c| && a + b == c + d
    ensures a == c && b == d
  {
    assert (a + b)[..|a|] == a && (c + d)[..|c|] == c && (a + b)[|a|..] == b && (c + d)[|c|..] == d;
  }

  function PluginHash(h: Hashes, algo: Algo): Bytes -> Bytes {
    if algo.Srp? then h.sha1 else h.sha256
  }

  /** N's digest to the power of g's, modulo N. */
  function GroupPart(h: Hashes): Bytes {
    NatBytes(Pow(DigestNumber(h, NatBytes(Modulus())), DigestNumber(h, NatBytes(2))) % Modulus())
  }

  /** The bytes a proof is the digest of. */
  function ProofInput(h: Hashes, user: Bytes, salt: Bytes, a: nat, b: nat, key: Bytes): Bytes {
    GroupPart(h) + (NatBytes(DigestNumber(h, user)) + (salt + (NatBytes(a) + (NatBytes(b) + key))))
  }

  /** A proof tells the user, the salt, both public numbers and the key apart, as far as their lengths
      do: equal proofs are equal inputs or a collision of the plugin's hash, and equal inputs of equal
      lengths are equal in every part, up to a collision of two user names. */
  lemma ProofDependsOn(h: Hashes, algo: Algo, user: Bytes, salt: Bytes, a: nat, b: nat, key: Bytes,
                       user': Bytes, salt': Bytes, a': nat, b': nat, key': Bytes)
    requires h.Valid()
    ensures var hash := PluginHash(h, algo);
            var one, two := ProofInput(h, user, salt, a, b, key), ProofInput(h, user', salt', a', b', key');
            && MakeProof(h, algo, user, salt, a, b, key) == hash(one)
            && (MakeProof(h, algo, user, salt, a, b, key) == MakeProof(h, algo, user', salt', a', b', key')
                <==> one == two || Collides(hash, one, two))
            && (one == two && |salt| == |salt'| && |key| == |key'| && |NatBytes(a)| == |NatBytes(a')| && |NatBytes(b)| == |NatBytes(b')|
                ==> salt == salt' && a == a' && b == b' && key == key' && (user == user' || Collides(h.sha1, user, user')))
  {
    hide Pow, Modulus, NatBytes, BytesVal, MakeProof, ProofInput, DigestNumber;
    ProofInputIs(h, algo, user, salt, a, b, key);
    ProofInputIs(h, algo, user', salt', a', b', key');
    if ProofInput(h, user, salt, a, b, key) == ProofInput(h, user', salt', a', b', key')
       && |salt| == |salt'| && |key| == |key'| && |NatBytes(a)| == |NatBytes(a')| && |NatBytes(b)| == |NatBytes(b')| {
      ProofParts(h, user, salt, a, b, key, user', salt', a', b', key');
    }
  }

  lemma ProofInputIs(h: Hashes, algo: Algo, user: Bytes, salt: Bytes, a: nat, b: nat, key: Bytes)
    ensures MakeProof(h, algo, user, salt, a, b, key)
            == PluginHash(h, algo)(ProofInput(h, user, salt, a, b, key))
  {
    hide Pow, Modulus, NatBytes, BytesVal;
    var group := Pow(DigestNumber(h, NatBytes(Modulus())), DigestNumber(h, NatBytes(2))) % Modulus();
    var n1, n2 := NatBytes(group), NatBytes(DigestNumber(h, user));
    var flat := n1 + n2 + salt + NatBytes(a) + NatBytes(b) + key;
    assert flat == n1 + (n2 + (salt + (NatBytes(a) + (NatBytes(b) + key))));
    assert MakeProof(h, algo, user, salt, a, b, key) == h.Proof(algo, flat);
    assert h.Proof(algo, flat) == PluginHash(h, algo)(flat);
  }

  lemma SixParts(g: Bytes, n: Bytes, s: Bytes, a: Bytes, b: Bytes, k: Bytes, n': Bytes, s': Bytes, a': Bytes, b': Bytes, k': Bytes)
    requires g + (n + (s + (a + (b + k)))) == g + (n' + (s' + (a' + (b' + k'))))
    requires |s| == |s'| && |a| == |a'| && |b| == |b'| && |k| == |k'|
    ensures n == n' && s == s' && a == a' && b == b' && k == k'
  {
    SameParts(g, n + (s + (a + (b + k))), g, n' + (s' + (a' + (b' + k'))));
    assert |n + (s + (a + (b + k)))| == |n| + |s| + |a| + |b| + |k| && |n' + (s' + (a' + (b' + k')))| == |n'| + |s'| + |a'| + |b'| + |k'|;
    SameParts(n, s + (a + (b + k)), n', s' + (a' + (b' + k')));
    SameParts(s, a + (b + k), s', a' + (b' + k'));
    SameParts(a, b + k, a', b' + k');
    SameParts(b, k, b', k');
  }

  lemma SameNumber(x: nat, y: nat)
    requires NatBytes(x) == NatBytes(y)
    ensures x == y
  {
    NatBytesRoundTrip(x);
    NatBytesRoundTrip(y);
  }

  lemma ProofParts(h: Hashes, user: Bytes, salt: Bytes, a: nat, b: nat, key: Bytes,
                   user': Bytes, salt': Bytes, a': nat, b': nat, key': Bytes)
    requires h.Valid() && ProofInput(h, user, salt, a, b, key) == ProofInput(h, user', salt', a', b', key')
    requires |salt| == |salt'| && |key| == |key'| && |NatBytes(a)| == |NatBytes(a')| && |NatBytes(b)| == |NatBytes(b')|
    ensures salt == salt' && a == a' && b == b' && key == key' && (user == user' || Collides(h.sha1, user, user'))
  {
    hide Pow, Modulus, NatBytes, BytesVal, DigestNumber, Collides, GroupPart;
    SixParts(GroupPart(h), NatBytes(DigestNumber(h, user)), salt, NatBytes(a), NatBytes(b), key,
             NatBytes(DigestNumber(h, user')), salt', NatBytes(a'), NatBytes(b'), key');
    SameNumber(a, a');
    SameNumber(b, b');
    SameNumber(DigestNumber(h, user), DigestNumber(h, user'));
    if user != user' {
      SameDigest(h, user, user');
      ACollision(h.sha1, user, user');
    }
  }

  lemma ACollision(hash: Bytes -> Bytes, a: Bytes, b: Bytes)
    requires a != b && hash(a) == hash(b)
    ensures Collides(hash, a, b)
  {
  }

  /** A login with another password than the verifier was made from is refused, unless the hashes
      collide on byte strings that can be written down, or the two secrets coincide although the user
      hashes in them differ. */
  lemma WrongPasswordRefused(h: Hashes, algo: Algo, user: Bytes, salt: Bytes, right: Bytes, wrong: Bytes, aBytes: Bytes, bBytes: Bytes)
    requires h.Valid() && right != wrong
    ensures var e := Run(h, user, right, salt, aBytes, bBytes);
            var p := ProofWith(h, e.client, algo, user, wrong, salt, e.bHex);
            var secret := ServerSecret(h, e.server, FromHex(e.client.aHex), e.bPriv, FromHex(e.bHex));
            var inner, other := user + [0x3a] + right, user + [0x3a] + wrong;
            var hash := PluginHash(h, algo);
            var key := h.sha1(NatBytes(secret));
            VerifyWith(h, e.server, algo, e.client.aHex, e.bPriv, e.bHex, p.mHex).Some? ==>
              || Collides(h.sha1, inner, other) || Collides(h.sha1, salt + h.sha1(inner), salt + h.sha1(other))
              || Collides(h.sha1, NatBytes(p.secret), NatBytes(secret))
              || Collides(hash, ProofInput(h, user, salt, e.client.aPub, FromHex(e.bHex), p.sessionKey),
                                ProofInput(h, user, salt, e.client.aPub, FromHex(e.bHex), key))
              || (p.secret == secret && UserHash(h, user, right, salt) != UserHash(h, user, wrong, salt))
  {
    hide Pow, Modulus, NatBytes, BytesVal, FromHex, ToHex, ClientSecret, ServerSecret, UserHash, Scramble, KParam, MakeProof, ProofInput;
    var e := Run(h, user, right, salt, aBytes, bBytes);
    var p := ProofWith(h, e.client, algo, user, wrong, salt, e.bHex);
    var bigB := FromHex(e.bHex);
    var key := ServerKey(h, e.server, e.client.aHex, e.bPriv, e.bHex);
    HexRoundTrip(e.client.aPub);
    AcceptsExactly(h, e.server, algo, e.client.aHex, e.bPriv, e.bHex, p.mHex);
    var mine, theirs := MakeProof(h, algo, user, salt, e.client.aPub, bigB, p.sessionKey), MakeProof(h, algo, user, salt, e.client.aPub, bigB, key);
    if VerifyWith(h, e.server, algo, e.client.aHex, e.bPriv, e.bHex, p.mHex).Some? {
      SentProof(mine);
      ProofLength(h, algo, user, salt, e.client.aPub, bigB, p.sessionKey, key);
      SameLengthSameBytes(mine, theirs);
      ProofDependsOn(h, algo, user, salt, e.client.aPub, bigB, p.sessionKey, user, salt, e.client.aPub, bigB, key);
      PasswordMatters(h, user, salt, right, wrong);
      NatBytesRoundTrip(p.secret);
      NatBytesRoundTrip(ServerSecret(h, e.server, e.client.aPub, e.bPriv, bigB));
    }
  }

  lemma SentProof(m: Bytes)
    ensures FromHex(Hex.Text(m)) == BytesVal(m)
  {
    Hex.TextRoundTrip(m);
  }

  lemma ProofLength(h: Hashes, algo: Algo, user: Bytes, salt: Bytes, a: nat, b: nat, key: Bytes, key': Bytes)
    requires h.Valid()
    ensures |MakeProof(h, algo, user, salt, a, b, key)| == |MakeProof(h, algo, user, salt, a, b, key')|
  {
  }

  // ------------------------------------------------------------------ where agreement fails

  /** With the client's private key N - 1 and the server's 1 the two sides agree only if the scramble or
      the user's hash is zero, whatever the hash functions: else the exponent reaches N, and the
      client's reduction of it is not the server's. */
  lemma LargestKeyDisagrees(h: Hashes, user: Bytes, password: Bytes, salt: Bytes)
    requires h.Valid()
    ensures var e := Run(h, user, password, salt, NatBytes(Modulus() - 1), [1]);
            ClientSecret(h, e.client, e.x, FromHex(e.bHex)) == ServerSecret(h, e.server, FromHex(e.client.aHex), e.bPriv, FromHex(e.bHex))
            <==> e.u == 0 || e.x == 0
  {
    hide Pow, Exp, Modulus, GToTheBN, NatBytes, BytesVal, KParam, FromHex, ToHex, Scramble, UserHash;
    NatBytesRoundTrip(Modulus() - 1);
    OneByte();
    DivModUnique(Modulus() - 1, Modulus(), 0, Modulus() - 1);
    DivModUnique(1, Modulus(), 0, 1);
    var e := Run(h, user, password, salt, NatBytes(Modulus() - 1), [1]);
    assert e.bPriv == 1 && e.client.aPriv == Modulus() - 1;
    ProductIsZero(e.u, e.x);
    GToTheNIsNotOne();
    AgreementExactly(h, user, password, salt, NatBytes(Modulus() - 1), [1]);
  }

  lemma ProductIsZero(u: nat, x: nat)
    ensures u * x >= 0 && (u * x == 0 <==> u == 0 || x == 0)
  {
  }

  lemma GToTheNIsNotOne()
    ensures GToTheBN(1) != 1
  {
    hide Pow, Modulus;
    NumberTheory.NeverOneModuloItself(Modulus());
  }
}
