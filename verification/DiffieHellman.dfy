/** The Diffie-Hellman exchange over mathematical integers, with its 128-octet wire format. */
module DiffieHellman {
  import opened Bytes
  import opened Wrappers

  const KEY_LENGTH: nat := 128

  // ---- powers ----

  function Pow(b: nat, e: nat): nat {
    if e == 0 then 1 else b * Pow(b, e - 1)
  }

  function ModPow(b: nat, e: nat, p: nat): (r: nat)
    requires 0 < p
    ensures r < p
  {
    Pow(b, e) % p
  }

  lemma {:induction false} PowAdd(b: nat, m: nat, n: nat)
    ensures Pow(b, m + n) == Pow(b, m) * Pow(b, n)
  {
    if m > 0 {
      PowAdd(b, m - 1, n);
      assert Pow(b, m + n) == b * Pow(b, m - 1 + n);
      Associative(b, Pow(b, m - 1), Pow(b, n));
    }
  }

  lemma Associative(a: int, b: int, c: int)
    ensures a * (b * c) == a * b * c
  {
  }

  lemma {:induction false} PowPow(b: nat, m: nat, n: nat)
    ensures Pow(Pow(b, m), n) == Pow(b, m * n)
  {
    if n > 0 {
      PowPow(b, m, n - 1);
      PowAdd(b, m, m * (n - 1));
      assert m * n == m + m * (n - 1);
    } else {
      assert m * n == 0;
    }
  }

  lemma ModTimes(a: nat, b: nat, p: nat)
    requires 0 < p
    ensures a * (b % p) % p == a * b % p
  {
    var q, r := Divide(b, p);
    var s, t := Divide(a * r, p);
    Regroup(a, p, q, r, s, t);
    RemainderUnique(a * b, p, a * q + s, t);
  }

  lemma Divide(n: nat, p: nat) returns (q: nat, r: nat)
    requires 0 < p
    ensures n == p * q + r && r == n % p < p
  {
    q, r := n / p, n % p;
  }

  lemma Regroup(a: int, p: int, q: int, r: int, s: int, t: int)
    requires a * r == p * s + t
    ensures a * (p * q + r) == p * (a * q + s) + t
  {
    calc {
      a * (p * q + r);
      { Distributive(a, p * q, r); }
      a * (p * q) + a * r;
      { Associative(a, p, q); Associative(p, a, q); }
      p * (a * q) + p * s + t;
      { Distributive(p, a * q, s); }
      p * (a * q + s) + t;
    }
  }

  lemma Distributive(a: int, b: int, c: int)
    ensures a * (b + c) == a * b + a * c
  {
  }

  lemma {:induction false} ModPowMod(a: nat, n: nat, p: nat)
    requires 0 < p
    ensures Pow(a % p, n) % p == Pow(a, n) % p
  {
    if n > 0 {
      var x, y := Pow(a % p, n - 1), Pow(a, n - 1);
      ModPowMod(a, n - 1, p);
      calc {
        Pow(a % p, n) % p;
        (a % p) * x % p;
        { ModTimes(a % p, x, p); ModTimes(a % p, y, p); }
        (a % p) * y % p;
        { assert (a % p) * y == y * (a % p); ModTimes(y, a, p); }
        y * a % p;
        { assert y * a == a * y; }
        Pow(a, n) % p;
      }
    }
  }

  /** Both ends compute the same secret: (g^x)^y and (g^y)^x agree modulo p. */
  lemma SecretsAgree(g: nat, x: nat, y: nat, p: nat)
    requires 0 < p
    ensures ModPow(ModPow(g, x, p), y, p) == ModPow(ModPow(g, y, p), x, p)
  {
    ModPowMod(Pow(g, x), y, p);
    ModPowMod(Pow(g, y), x, p);
    PowPow(g, x, y);
    PowPow(g, y, x);
    assert x * y == y * x;
  }

  /** Half of an even multiple of an odd number is a multiple too, */
  lemma HalfMultiple(y: nat, p: nat)
    requires p % 2 == 1 && 2 * y % p == 0
    ensures y % p == 0
  {
    var k := 2 * y / p;
    OddFactor(p, k, y);
    RemainderUnique(y, p, k / 2, 0);
  }

  /** so no power of 2 is a multiple of an odd modulus. */
  lemma {:induction false} PowerOfTwoNonZero(e: nat, p: nat)
    requires 1 < p && p % 2 == 1
    ensures ModPow(G, e, p) != 0
  {
    if e > 0 {
      PowerOfTwoNonZero(e - 1, p);
      if 2 * Pow(2, e - 1) % p == 0 {
        HalfMultiple(Pow(2, e - 1), p);
      }
    }
  }

  lemma OddFactor(p: nat, k: nat, y: nat)
    requires p % 2 == 1 && 2 * y == p * k
    ensures y == p * (k / 2)
  {
    var h := p / 2;
    assert p * k == 2 * (h * k) + k by {
      assert p == 2 * h + 1;
      assert (2 * h + 1) * k == 2 * h * k + k;
      Associative(2, h, k);
    }
    assert k % 2 == 0;
    var j := k / 2;
    assert k == 2 * j;
    assert p * k == 2 * (p * j) by {
      Associative(p, 2, j);
      Associative(2, p, j);
    }
  }

  // ---- the wire format: most significant octet first ----

  /** The octets of `n` without leading zeros. */
  function Octets(n: nat): seq<byte> {
    if n == 0 then [] else Octets(n / 0x100) + [n % 0x100]
  }

  function Zeros(n: nat): (z: seq<byte>)
    ensures |z| == n
  {
    seq(n, _ => 0)
  }

  lemma {:induction false} ToNatZeros(n: nat, b: seq<byte>)
    ensures ToNat(Zeros(n) + b) == ToNat(b)
    decreases |b| + n
  {
    var z := Zeros(n) + b;
    if b != [] {
      ToNatZeros(n, b[..|b| - 1]);
      assert z[..|z| - 1] == Zeros(n) + b[..|b| - 1];
    } else if n > 0 {
      ToNatZeros(n - 1, b);
      assert z[..|z| - 1] == Zeros(n - 1) + b;
    }
  }

  lemma {:induction false} ToNatOctets(n: nat)
    ensures ToNat(Octets(n)) == n
  {
    if n > 0 {
      ToNatOctets(n / 0x100);
      assert Octets(n)[..|Octets(n)| - 1] == Octets(n / 0x100);
    }
  }

  /** The most significant octet of a number is not zero. */
  lemma {:induction false} OctetsShortest(n: nat)
    ensures Octets(n) == [] <==> n == 0
    ensures n > 0 ==> Octets(n)[0] != 0
  {
    if n > 0 {
      OctetsShortest(n / 0x100);
    }
  }

  lemma {:induction false} OctetsMonotone(m: nat, n: nat)
    requires m <= n
    ensures |Octets(m)| <= |Octets(n)|
  {
    if m > 0 {
      OctetsMonotone(m / 0x100, n / 0x100);
    }
  }

  /** `n` right-aligned in a field of `len` octets. */
  function Padded(n: nat, len: nat): (b: seq<byte>)
    requires |Octets(n)| <= len
    ensures |b| == len
  {
    Zeros(len - |Octets(n)|) + Octets(n)
  }

  /** Padding with zeros on the left is decoded back. */
  lemma PaddedDecodes(n: nat, len: nat)
    requires |Octets(n)| <= len
    ensures ToNat(Padded(n, len)) == n
  {
    ToNatZeros(len - |Octets(n)|, Octets(n));
    ToNatOctets(n);
  }

  // ---- group parameters ----

  const G: nat := 2

  /** A modulus the exchange works for: odd, above 2, and its residues fit the 128-octet field. */
  ghost predicate Modulus(p: nat) {
    2 < p && p % 2 == 1 && |Octets(p - 1)| <= KEY_LENGTH
  }

  predicate ValidPublicKey(y: nat, p: nat) {
    1 <= y <= p - 1
  }

  function PublicKey(x: nat, p: nat): nat
    requires 0 < p
  {
    ModPow(G, x, p)
  }

  lemma PublicKeyFits(y: nat, p: nat)
    requires Modulus(p) && y < p
    ensures |Octets(y)| <= KEY_LENGTH
  {
    OctetsMonotone(y, p - 1);
  }

  /** The 128 octets that travel. */
  function PublicOctets(x: nat, p: nat): (b: seq<byte>)
    requires Modulus(p)
    ensures |b| == KEY_LENGTH
  {
    PublicKeyFits(PublicKey(x, p), p);
    Padded(PublicKey(x, p), KEY_LENGTH)
  }

  /** The secret buffer: the shared residue's octets from the left, the rest left zero. */
  function SecretOctets(k: nat, p: nat): (b: seq<byte>)
    requires Modulus(p) && k < p
    ensures |b| == KEY_LENGTH
  {
    PublicKeyFits(k, p);
    Octets(k) + Zeros(KEY_LENGTH - |Octets(k)|)
  }

  /** What an end with exponent `x` makes of the peer's 128 octets; nothing if they are no public key. */
  function SharedSecret(x: nat, peer: seq<byte>, p: nat): (r: Option<seq<byte>>)
    requires Modulus(p)
    ensures r.Some? ==> |r.value| == KEY_LENGTH
  {
    var y := ToNat(peer);
    if ValidPublicKey(y, p) then Some(SecretOctets(ModPow(y, x, p), p)) else None
  }

  /** What travels is 2^x mod p, right-aligned in 128 octets, most significant first. */
  lemma PublicIs(x: nat, p: nat)
    requires Modulus(p)
    ensures |PublicOctets(x, p)| == 128 && ToNat(PublicOctets(x, p)) == Pow(2, x) % p
  {
    PublicKeyFits(PublicKey(x, p), p);
    PaddedDecodes(PublicKey(x, p), KEY_LENGTH);
  }

  /** 2^(xy) mod p out of (2^y)^x. */
  lemma SecretIs(x: nat, y: nat, p: nat)
    requires 0 < p
    ensures ModPow(ModPow(G, y, p), x, p) == Pow(2, x * y) % p
  {
    ModPowMod(Pow(G, y), x, p);
    PowPow(G, y, x);
    assert y * x == x * y;
  }

  /** `s` is the number `k` in 128 octets, its digits from the left and zeros behind them. */
  ghost predicate IsSecret(s: seq<byte>, k: nat) {
    |Octets(k)| <= 128 && s == Octets(k) + Zeros(128 - |Octets(k)|)
  }

  /** The octets of a valid public key are accepted, and give the secret of that number. */
  lemma PeerIsRead(x: nat, peer: seq<byte>, y: nat, p: nat, k: nat)
    requires Modulus(p) && ToNat(peer) == y && 1 <= y <= p - 1 && k == ModPow(y, x, p)
    ensures SharedSecret(x, peer, p).Some? && IsSecret(SharedSecret(x, peer, p).value, k)
  {
    PublicKeyFits(k, p);
  }

  lemma PublicIsValid(y: nat, p: nat)
    requires Modulus(p)
    ensures 1 <= ToNat(PublicOctets(y, p)) <= p - 1 && ToNat(PublicOctets(y, p)) == ModPow(G, y, p)
  {
    PublicIs(y, p);
    PowerOfTwoNonZero(y, p);
  }

  lemma SharedIs(x: nat, y: nat, p: nat, k: nat)
    requires Modulus(p) && k == Pow(2, x * y) % p
    ensures SharedSecret(x, PublicOctets(y, p), p).Some?
    ensures IsSecret(SharedSecret(x, PublicOctets(y, p), p).value, k)
  {
    PublicIsValid(y, p);
    SecretIs(x, y, p);
    PeerIsRead(x, PublicOctets(y, p), ModPow(G, y, p), p, k);
  }

  /** Whatever exponents the ends drew, each accepts the other's octets and both get the same secret, 2^(xy) mod p. */
  lemma ExchangeAgrees(x: nat, y: nat, p: nat)
    requires Modulus(p)
    ensures SharedSecret(x, PublicOctets(y, p), p).Some?
    ensures SharedSecret(x, PublicOctets(y, p), p) == SharedSecret(y, PublicOctets(x, p), p)
    ensures IsSecret(SharedSecret(x, PublicOctets(y, p), p).value, Pow(2, x * y) % p)
  {
    var k := Pow(2, x * y) % p;
    assert x * y == y * x;
    SharedIs(x, y, p, k);
    SharedIs(y, x, p, k);
  }

  /** One end's key pair, as the code keeps it. */
  class MDH {
    const p: nat
    var pubKey: Option<nat>
    var privKey: Option<nat>

    constructor (p: nat)
      ensures this.p == p && pubKey == None && privKey == None
    {
      this.p := p;
      pubKey, privKey := None, None;
    }

    /** Draws exponents until the public key is valid; `draws` is the random source, which fails when it runs out.
        For a usable modulus the first draw is always kept, so the loop never retries. */
    method GenerateKey(draws: seq<nat>) returns (ok: bool)
      requires Modulus(p)
      modifies this
      ensures ok <==> draws != []
      ensures ok ==> privKey == Some(draws[0]) && pubKey == Some(Pow(2, draws[0]) % p)
      ensures ok ==> 1 <= pubKey.value <= p - 1
    {
      var i := 0;
      ok := false;
      while !ok
        invariant ok ==> i == 1 && i <= |draws| && privKey == Some(draws[0]) && pubKey == Some(PublicKey(draws[0], p))
        invariant ok ==> ValidPublicKey(pubKey.value, p)
        invariant !ok ==> i == 0
        decreases !ok
      {
        if i == |draws| {
          return;
        }
        var x := draws[i];
        i := i + 1;
        privKey, pubKey := Some(x), Some(PublicKey(x, p));
        ok := ValidPublicKey(pubKey.value, p);
        if !ok {
          privKey, pubKey := None, None;
        }
        PowerOfTwoNonZero(x, p);
      }
    }

    /** Writes the public key right-aligned into the 128 octets at `at`. */
    method GetPublicKey(buf: array<byte>, at: nat) returns (ok: bool)
      requires at + KEY_LENGTH <= buf.Length
      modifies buf
      ensures ok <==> pubKey.Some? && 0 < |Octets(pubKey.value)| <= KEY_LENGTH
      ensures buf[..] == if ok then Patch(old(buf[..]), at, Padded(pubKey.value, KEY_LENGTH)) else old(buf[..])
    {
      if pubKey == None {
        return false;
      }
      var len := |Octets(pubKey.value)|;
      if len == 0 || len > KEY_LENGTH {
        return false;
      }
      Store(buf, at, Zeros(KEY_LENGTH));
      Store(buf, at + (KEY_LENGTH - len), Octets(pubKey.value));
      assert buf[..] == Patch(old(buf[..]), at, Padded(pubKey.value, KEY_LENGTH));
      return true;
    }

    /** Computes the secret into a zeroed buffer; -1 when the peer's octets are no public key. */
    method ComputeSharedSecretKey(peer: seq<byte>, secret: array<byte>) returns (len: int)
      requires Modulus(p) && privKey.Some? && |peer| == KEY_LENGTH
      requires secret.Length == KEY_LENGTH && secret[..] == Zeros(KEY_LENGTH)
      modifies secret
      ensures (len < 0) <==> !(1 <= ToNat(peer) <= p - 1)
      ensures len >= 0 ==> IsSecret(secret[..], Pow(ToNat(peer), privKey.value) % p)
      ensures SharedSecret(privKey.value, peer, p) == if len < 0 then None else Some(secret[..])
    {
      var y := ToNat(peer);
      if !ValidPublicKey(y, p) {
        return -1;
      }
      var k := ModPow(y, privKey.value, p);
      PublicKeyFits(k, p);
      Store(secret, 0, Octets(k));
      assert secret[..] == SecretOctets(k, p);
      return |Octets(k)|;
    }
  }
}
