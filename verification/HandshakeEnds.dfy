/** `HandShake` and `SHandShake` as they run: buffers written in place, cut where they read from the network. */
module HandshakeEnds {
  import opened Bytes
  import opened Wrappers
  import opened HandshakeLayout
  import opened HandshakeMessages
  import opened HandshakeWire
  import opened DH = DiffieHellman
  import Xtea
  import Blowfish

  /** Encrypts the eight octets at `at` in place. */
  method UpgradeBlock(env: Env, kind: byte, buf: array<byte>, at: nat, keyid: KeyId)
    requires env.Valid() && at + 8 <= buf.Length && (kind == 8 || kind == 9)
    modifies buf
    ensures buf[..] == Patch(old(buf[..]), at, CipherOf(env, kind)(old(buf[at..at + 8]), keyid))
  {
    if kind == 8 {
      Xtea.Rtmpe8Sig(buf, at, buf, at, env.xteaKeys[keyid]);
    } else {
      Blowfish.Rtmpe9Sig(env.tables, buf, at, buf, at, keyid);
    }
  }

  /** `before` with the first `n` blocks of the signature at `at` encrypted. */
  function UpgradedTo(f: BlockCipher, dig: Digest, before: seq<byte>, at: nat, n: nat): (now: seq<byte>)
    requires n <= 4 && at + DIGEST_LENGTH <= |before|
    ensures |now| == |before|
  {
    Patch(before, at, UpgradedBlocks(f, dig, before[at..at + DIGEST_LENGTH], n))
  }

  lemma NothingUpgraded(f: BlockCipher, dig: Digest, before: seq<byte>, at: nat, n: nat)
    requires n == 0 && at + DIGEST_LENGTH <= |before|
    ensures UpgradedTo(f, dig, before, at, n) == before
  {
  }

  lemma NextBlock(f: BlockCipher, dig: Digest, before: seq<byte>, at: nat, n: nat, now: seq<byte>, next: seq<byte>)
    requires n < 4 && at + DIGEST_LENGTH <= |before| == |now|
    requires now == UpgradedTo(f, dig, before, at, n)
    requires next == Patch(now, at + 8 * n, f(now[at + 8 * n..at + 8 * n + 8], dig[8 * n] % 15))
    ensures next == UpgradedTo(f, dig, before, at, n + 1)
  {
    var sig: Digest := before[at..at + DIGEST_LENGTH];
    var done := UpgradedBlocks(f, dig, sig, n);
    BlockUntouched(f, dig, sig, n);
    PatchSlice(before, at, done, 8 * n, 8);
    var block := UpgradedBlock(f, dig, sig, n);
    var slice: Block8 := now[at + 8 * n..at + 8 * n + 8];
    assert slice == sig[8 * n..8 * n + 8];
    assert f(slice, dig[8 * n] % 15) == block;
    assert next == Patch(now, at + 8 * n, block);
    PatchWithin(before, at, done, 8 * n, block);
  }

  lemma PatchSlice(m: seq<byte>, at: nat, d: seq<byte>, i: nat, n: nat)
    requires at + |d| <= |m| && i + n <= |d|
    ensures Patch(m, at, d)[at + i..at + i + n] == d[i..i + n]
  {
  }

  method UpgradeNext(env: Env, kind: byte, dig: Digest, ghost before: seq<byte>, buf: array<byte>, at: nat, b: nat)
    requires env.Valid() && (kind == 8 || kind == 9) && at + DIGEST_LENGTH <= buf.Length == |before| && b < 4
    requires buf[..] == UpgradedTo(CipherOf(env, kind), dig, before, at, b)
    modifies buf
    ensures buf[..] == UpgradedTo(CipherOf(env, kind), dig, before, at, b + 1)
  {
    ghost var now := buf[..];
    assert now[at + 8 * b..at + 8 * b + 8] == buf[at + 8 * b..at + 8 * b + 8];
    UpgradeBlock(env, kind, buf, at + 8 * b, dig[8 * b] % 15);
    NextBlock(CipherOf(env, kind), dig, before, at, b, now, buf[..]);
  }

  /** Encrypts the 32-octet signature at `at` block by block when the type is 8 or 9. */
  method UpgradeSignature(env: Env, kind: byte, dig: Digest, buf: array<byte>, at: nat)
    requires env.Valid() && at + DIGEST_LENGTH <= buf.Length
    modifies buf
    ensures buf[..] == UpgradedTo(CipherOf(env, kind), dig, old(buf[..]), at, |dig| / 8)
  {
    if kind == 8 || kind == 9 {
      var b := UpgradeBlocks(env, kind, dig, buf, at);
    } else {
      PlainUpgraded(env, kind, dig, buf[..], at);
    }
  }

  method UpgradeBlocks(env: Env, kind: byte, dig: Digest, buf: array<byte>, at: nat) returns (b: nat)
    requires env.Valid() && (kind == 8 || kind == 9) && at + DIGEST_LENGTH <= buf.Length
    modifies buf
    ensures b == |dig| / 8 && buf[..] == UpgradedTo(CipherOf(env, kind), dig, old(buf[..]), at, b)
  {
    ghost var before := buf[..];
    b := 0;
    NothingUpgraded(CipherOf(env, kind), dig, before, at, b);
    while b < |dig| / 8
      invariant b <= 4 && buf.Length == |before|
      invariant buf[..] == UpgradedTo(CipherOf(env, kind), dig, before, at, b)
    {
      UpgradeNext(env, kind, dig, before, buf, at, b);
      b := b + 1;
    }
  }

  lemma PlainUpgraded(env: Env, kind: byte, dig: Digest, m: seq<byte>, at: nat)
    requires env.Valid() && kind != 8 && kind != 9 && at + DIGEST_LENGTH <= |m|
    ensures m == UpgradedTo(CipherOf(env, kind), dig, m, at, |dig| / 8)
  {
    BlocksUnchanged(CipherOf(env, kind), dig, m[at..at + DIGEST_LENGTH], |dig| / 8);
  }

  // Blocks not reached yet are still the plain ones
  lemma {:induction false} BlockUntouched(f: BlockCipher, dig: Digest, sig: Digest, n: nat)
    requires n < 4
    ensures UpgradedBlocks(f, dig, sig, n)[8 * n..8 * n + 8] == sig[8 * n..8 * n + 8]
  {
    SuffixUntouched(f, dig, sig, n);
    var u := UpgradedBlocks(f, dig, sig, n);
    assert u[8 * n..8 * n + 8] == u[8 * n..][..8] && sig[8 * n..8 * n + 8] == sig[8 * n..][..8];
  }

  lemma {:induction false} SuffixUntouched(f: BlockCipher, dig: Digest, sig: Digest, n: nat)
    requires n <= 4
    ensures UpgradedBlocks(f, dig, sig, n)[8 * n..] == sig[8 * n..]
  {
    if n > 0 {
      SuffixUntouched(f, dig, sig, n - 1);
      var u := UpgradedBlocks(f, dig, sig, n - 1);
      assert u[8 * n..] == u[8 * (n - 1)..][8..] && sig[8 * n..] == sig[8 * (n - 1)..][8..];
    }
  }

  lemma PatchWithin(m: seq<byte>, at: nat, d: seq<byte>, i: nat, e: seq<byte>)
    requires at + |d| <= |m| && i + |e| <= |d|
    ensures Patch(Patch(m, at, d), at + i, e) == Patch(m, at, Patch(d, i, e))
  {
  }

  /** Puts the signature owed for `peerDigest` into the last 32 octets of the message. */
  method SignMessage(env: Env, kind: byte, peerDigest: seq<byte>, key: seq<byte>, m: array<byte>)
    requires env.Valid() && m.Length == SIG_SIZE
    modifies m
    ensures m[..] == old(m[..BODY]) + Signature(env, kind, old(m[..BODY]), peerDigest, key)
  {
    var dig := env.hmac(key, peerDigest);
    ghost var body, plain := m[..BODY], env.hmac(dig, m[..BODY]);
    Store(m, BODY, env.hmac(dig, m[..BODY]));
    ghost var unsigned := m[..];
    assert unsigned == body + plain;
    UpgradeSignature(env, kind, dig, m, BODY);
    assert unsigned[BODY..BODY + DIGEST_LENGTH] == plain;
    assert m[..] == body + Upgraded(CipherOf(env, kind), dig, plain);
  }

  /** Recomputes the signature a received message should end with. */
  method CheckSignature(env: Env, kind: byte, ownDigest: seq<byte>, key: seq<byte>, m: array<byte>) returns (ok: bool)
    requires env.Valid() && m.Length == SIG_SIZE
    ensures ok <==> m[BODY..] == Signature(env, kind, m[..BODY], ownDigest, key)
    ensures ok <==> Signs(env, kind, m[..], key, ownDigest)
  {
    SignatureSigns(env, kind, m[..], key, ownDigest);
    assert m[..][..BODY] == m[..BODY] && m[..][BODY..] == m[BODY..];
    var dig := env.hmac(key, ownDigest);
    var plain := env.hmac(dig, m[..BODY]);
    var signature := new byte[DIGEST_LENGTH](i requires 0 <= i < DIGEST_LENGTH => plain[i]);
    ghost var before := signature[..];
    assert before == before[0..0 + DIGEST_LENGTH] == plain;
    UpgradeSignature(env, kind, dig, signature, 0);
    assert signature[..] == Upgraded(CipherOf(env, kind), dig, plain);
    ok := m[BODY..] == signature[..];
  }

  /** Writes a first message: header, noise, public key, digest, in that order. */
  method WriteHello(env: Env, s: Scheme, uptime: Uptime, version: seq<byte>, noise: Noise, dh: MDH,
                    exponent: Option<nat>, sealKey: Option<seq<byte>>, m: array<byte>)
    returns (ok: bool, dhPos: nat, digestPos: nat)
    requires env.Valid() && |version| == 4 && m.Length == SIG_SIZE && dh.p == env.p
    modifies m, dh
    ensures ok && m[..] == Hello(env, s, uptime, version, noise, exponent, sealKey)
    ensures exponent.Some? ==> dh.privKey == exponent && dhPos == DHPos(s, m[..])
    ensures sealKey.Some? ==> digestPos == DigestPos(s, m[..])
  {
    ok, dhPos, digestPos := true, 0, 0;
    Store(m, 0, uptime);
    Store(m, 4, version);
    Store(m, 8, noise);
    ghost var base: Message := uptime + version + noise;
    assert m[..] == base;
    if exponent.Some? {
      dhPos := DHPos(s, m[..]);
      ok := dh.GenerateKey([exponent.value]);
      PublicKeyFits(PublicKey(exponent.value, env.p), env.p);
      ok := dh.GetPublicKey(m, dhPos);
      WritesKeepOffsets(s, base, PublicOctets(exponent.value, env.p), seq(DIGEST_LENGTH, _ => 0));
    }
    if sealKey.Some? {
      ghost var keyed: Message := m[..];
      digestPos := Seal(env.hmac, s, m, sealKey.value);
      SealedIsFound(env.hmac, s, keyed, sealKey.value);
    }
  }

  /** Tries the expected digest position of a peer's message and then the other scheme's. */
  method LocatePeer(env: Env, s: Scheme, m: array<byte>, key: seq<byte>) returns (ok: bool, f: Scheme)
    requires m.Length == SIG_SIZE
    ensures Locate(env.hmac, s, m[..], key) == if ok then Found(f, f != s) else Unverified
  {
    f := s;
    ok := VerifyDigest(env.hmac, DigestPos(f, m[..]), m, key);
    if !ok {
      f := 1 - f;
      ok := VerifyDigest(env.hmac, DigestPos(f, m[..]), m, key);
    }
  }

  /** Computes the shared secret and both RC4 keys. */
  method DeriveSession(env: Env, dh: MDH, peer: array<byte>, peerPos: nat, own: array<byte>, ownPos: nat)
    returns (ok: bool, keys: Option<Keys>)
    requires env.Valid() && dh.p == env.p && dh.privKey.Some?
    requires peerPos + DH_LENGTH <= peer.Length && ownPos + DH_LENGTH <= own.Length
    ensures DeriveKeys(env, dh.privKey, peer[peerPos..peerPos + DH_LENGTH], own[ownPos..ownPos + DH_LENGTH]) ==
            if ok then Some(keys) else None
  {
    var secret := new byte[DH_LENGTH](_ => 0);
    assert secret[..] == Zeros(KEY_LENGTH);
    var pubIn, pubOut := peer[peerPos..peerPos + DH_LENGTH], own[ownPos..ownPos + DH_LENGTH];
    var len := dh.ComputeSharedSecretKey(pubIn, secret);
    ok, keys := len >= 0, None;
    if ok {
      keys := Some(InitRC4(env, secret[..], pubIn, pubOut));
    }
  }

  /** Answers the peer's first message: finds its digest, derives the session keys and signs the body in `m`, which
      may be the peer's own message. */
  method AnswerPeer(env: Env, s: Scheme, kind: byte, exponent: Option<nat>, dh: MDH, peer: array<byte>,
                    peerKey: seq<byte>, own: array<byte>, ownPos: nat, ownKey: seq<byte>, m: array<byte>)
    returns (ok: bool, keys: Option<Keys>)
    requires env.Valid() && peer.Length == own.Length == m.Length == SIG_SIZE && m != own
    requires exponent.Some? ==> dh.p == env.p && dh.privKey == exponent && ownPos == DHPos(s, own[..])
    modifies m
    ensures Respond(env, s, kind, exponent, old(peer[..]), peerKey, old(own[..]), old(m[..BODY]), ownKey) ==
            if ok then Some(Answer(m[..], true, keys)) else None
  {
    keys := None;
    var f;
    ok, f := LocatePeer(env, s, peer, peerKey);
    if !ok {
      return;
    }
    ghost var peerMessage: Message := peer[..];
    if exponent.Some? {
      var dhPos := DHPos(f, peer[..]);
      ok, keys := DeriveSession(env, dh, peer, dhPos, own, ownPos);
      assert peer[dhPos..dhPos + DH_LENGTH] == Field(peerMessage, dhPos, DH_LENGTH);
      assert own[ownPos..ownPos + DH_LENGTH] == Field(own[..], ownPos, DH_LENGTH);
      if !ok {
        return;
      }
    }
    var at := DigestPos(f, peer[..]);
    var peerDigest := peer[at..at + DIGEST_LENGTH];
    assert peerDigest == Field(peerMessage, at, DIGEST_LENGTH);
    SignMessage(env, kind, peerDigest, ownKey, m);
  }

  method WriteClientHello(env: Env, ci: ClientInput, dh: MDH, m: array<byte>) returns (dhPos: nat, digestPos: nat)
    requires env.Valid() && m.Length == SIG_SIZE && dh.p == env.p
    modifies m, dh
    ensures m[..] == ClientHello(env, ci)
    ensures ci.mode == Encrypted ==> dh.privKey == Some(ci.exponent) && dhPos == DHPos(1, m[..])
    ensures ci.mode != Plain ==> digestPos == DigestPos(SchemeOf(ci.mode == Encrypted), m[..])
  {
    var ok;
    ok, dhPos, digestPos := WriteHello(env, SchemeOf(ci.mode == Encrypted), ci.uptime, ClientVersion(ci.mode), ci.noise,
                                       dh, ClientExponent(ci), ClientSealKey(env, ci), m);
  }

  /** `HandShake`, cut at its reads. */
  class ClientEnd {
    const env: Env
    const ci: ClientInput
    const dh: MDH
    const clientsig: array<byte>
    // The message written first; `clientsig` keeps it for the rest of the handshake
    ghost const hello: Message
    var signed: bool
    var dhPos: nat
    var digestPos: nat
    var kind: byte
    var keys: Option<Keys>
    ghost var answer: Option<Answer>
    // Link.rc4keyIn and Link.rc4keyOut, set together when the handshake ends
    var link: Option<Keys>

    ghost predicate Valid()
      reads this, clientsig, dh
    {
      && env.Valid() && dh.p == env.p && clientsig.Length == SIG_SIZE && clientsig[..] == hello
      && (ci.mode == Encrypted ==> dh.privKey == Some(ci.exponent) && dhPos == DHPos(1, hello))
      && (ci.mode != Plain ==> digestPos == DigestPos(SchemeOf(ci.mode == Encrypted), hello))
      && link == None
    }

    ghost predicate Answered()
      reads this
    {
      && answer.Some? && answer.value.signed == signed && answer.value.keys == keys
      && (signed ==> ci.mode != Plain)
    }

    constructor (env: Env, ci: ClientInput)
      requires env.Valid()
      ensures Valid() && hello == ClientHello(env, ci)
      ensures fresh(dh) && fresh(clientsig) && this.env == env && this.ci == ci
    {
      var dh := new MDH(env.p);
      var m := new byte[SIG_SIZE](_ => 0);
      var dhAt, digestAt := WriteClientHello(env, ci, dh, m);
      this.env, this.ci, this.dh, clientsig, hello := env, ci, dh, m, m[..];
      signed, keys, link, answer, kind := ci.mode != Plain, None, None, None, 0;
      dhPos, digestPos := dhAt, digestAt;
    }

    /** The octets of the first write. */
    method Hello() returns (out: seq<byte>)
      requires Valid()
      ensures out == [ClientKind(ci)] + hello
    {
      out := [ClientKind(ci)] + clientsig[..];
    }

    /** From the server's type and first message to the second write, or to returning FALSE. */
    method OnHello(kind: byte, serversig: array<byte>) returns (ok: bool, out: Message)
      requires Valid() && serversig.Length == SIG_SIZE
      modifies this
      ensures Valid() && this.kind == kind
      ensures answer == ClientAnswer(env, ci, hello, kind, serversig[..])
      ensures ok <==> answer.Some?
      ensures ok ==> Answered() && answer.value.message == out
    {
      this.kind, keys, ok, out := kind, None, true, serversig[..];
      answer := ClientAnswer(env, ci, hello, kind, serversig[..]);
      signed := ci.mode != Plain && !(kind == 3 && serversig[4] == 0);
      if !signed {
        return;
      }
      var reply := new byte[SIG_SIZE](i requires 0 <= i < SIG_SIZE => ci.replyNoise[i]);
      assert reply[..] == ci.replyNoise && reply[..BODY] == Body(ci.replyNoise);
      ok, keys := AnswerPeer(env, SchemeOf(ci.mode == Encrypted), kind, ClientExponent(ci), dh, serversig,
                             env.ServerDigestKey(), clientsig, dhPos, env.fpKey, reply);
      out := reply[..];
    }

    /** From the server's second message to the return value; the link's keystreams start after the handshake. */
    method OnReply(serversig: array<byte>) returns (ok: bool)
      requires Valid() && Answered() && serversig.Length == SIG_SIZE
      modifies this`link
      ensures ClientFinish(env, ci, hello, answer.value, kind, serversig[..]) == if ok then Some(link) else None
    {
      ok := true;
      if signed {
        var digest := clientsig[digestPos..digestPos + DIGEST_LENGTH];
        assert digest == Field(hello, digestPos, DIGEST_LENGTH);
        ok := CheckSignature(env, kind, digest, env.fmsKey, serversig);
        if ok && keys.Some? {
          link := Some(Advanced(keys.value));
        }
      }
    }
  }

  /** What `SHandShake` makes of the type and first message it read: the offset scheme, encryption, the type it answers
      with and whether messages get signed. */
  method ReadTerms(first: byte, clientsig: array<byte>) returns (t: Option<Terms>)
    requires clientsig.Length == SIG_SIZE
    ensures t == Negotiate(first, clientsig[..])
  {
    var kind, encrypted, fp9 := first, false, false;
    if kind == 3 {
      encrypted := false;
    } else if kind == 6 || kind == 8 {
      encrypted, fp9 := true, true;
      if clientsig[4] == 128 {
        kind := 8;
      }
    } else {
      return None;
    }
    if !fp9 && clientsig[4] != 0 {
      fp9 := true;
    }
    return Some(Terms(kind, encrypted, fp9));
  }

  /** `SHandShake`, cut at its reads. */
  class ServerEnd {
    const env: Env
    const si: ServerInput
    const dh: MDH
    const serversig: array<byte>
    ghost const hello: Message
    const terms: Terms
    var dhPos: nat
    var digestPos: nat
    var keys: Option<Keys>
    ghost var answer: Option<Answer>
    var link: Option<Keys>

    ghost predicate Valid()
      reads this, serversig, dh
    {
      && env.Valid() && dh.p == env.p && serversig.Length == SIG_SIZE && serversig[..] == hello
      && (terms.encrypted ==> dh.privKey == Some(si.exponent) && dhPos == DHPos(1, hello))
      && (terms.signed ==> digestPos == DigestPos(SchemeOf(terms.encrypted), hello))
      && link == None
    }

    ghost predicate Answered()
      reads this
    {
      answer.Some? && answer.value.signed == terms.signed && answer.value.keys == keys
    }

    /** Writes the first message for terms already negotiated. */
    constructor (env: Env, si: ServerInput, terms: Terms)
      requires env.Valid()
      ensures Valid() && hello == ServerHello(env, si, terms)
      ensures fresh(dh) && fresh(serversig) && this.env == env && this.si == si && this.terms == terms
    {
      var dh := new MDH(env.p);
      var m := new byte[SIG_SIZE](_ => 0);
      var ok, dhAt, digestAt := WriteHello(env, SchemeOf(terms.encrypted), si.uptime, ServerVersion(terms.signed),
                                           si.noise, dh, ServerExponent(si, terms),
                                           ServerSealKey(env, terms), m);
      this.env, this.si, this.terms, this.dh, serversig, hello := env, si, terms, dh, m, m[..];
      keys, link, answer := None, None, None;
      dhPos, digestPos := dhAt, digestAt;
    }

    /** Answers the client's first message; the signature goes into that message's own buffer. */
    method OnHello(clientsig: array<byte>) returns (ok: bool)
      requires Valid() && clientsig.Length == SIG_SIZE && clientsig != serversig
      modifies this, clientsig
      ensures Valid()
      ensures answer == ServerAnswer(env, si, terms, hello, old(clientsig[..]))
      ensures ok <==> answer.Some?
      ensures ok ==> Answered() && answer.value.message == clientsig[..]
    {
      answer := ServerAnswer(env, si, terms, hello, clientsig[..]);
      keys, ok := None, true;
      if terms.signed {
        assert clientsig[..BODY] == Body(clientsig[..]);
        ok, keys := AnswerPeer(env, SchemeOf(terms.encrypted), terms.kind, ServerExponent(si, terms), dh, clientsig,
                               env.ClientDigestKey(), serversig, dhPos, env.fmsKey, clientsig);
      }
    }

    method OnReply(clientsig: array<byte>) returns (ok: bool)
      requires Valid() && Answered() && clientsig.Length == SIG_SIZE
      modifies this`link
      ensures ServerFinish(env, terms, hello, answer.value, clientsig[..]) == if ok then Some(link) else None
    {
      ok := true;
      if terms.signed {
        var digest := serversig[digestPos..digestPos + DIGEST_LENGTH];
        assert digest == Field(hello, digestPos, DIGEST_LENGTH);
        ok := CheckSignature(env, terms.kind, digest, env.fpKey, clientsig);
        if ok && keys.Some? {
          link := Some(Advanced(keys.value));
        }
      }
    }
  }
}
