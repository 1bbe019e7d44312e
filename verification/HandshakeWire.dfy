/** The four handshake messages octet by octet, as the two programs exchange them in each mode. */
module HandshakeWire {
  import opened Bytes
  import opened Wrappers
  import opened HandshakeLayout
  import opened HandshakeMessages
  import opened DH = DiffieHellman
  import Blowfish
  import Xtea

  function Four(m: Message, at: nat): nat
    requires at + 4 <= 1536
  {
    m[at] as int + m[at + 1] as int + m[at + 2] as int + m[at + 3] as int
  }

  /** A signed message carries its digest, and an encrypting one its digest and public key, at offsets computed from
      four of its octets. */
  function DigestAt(mode: Mode, m: Message): (at: nat)
    ensures at + 32 <= 1536
  {
    if mode == Encrypted then Four(m, 772) % 728 + 776 else Four(m, 8) % 728 + 12
  }

  function KeyAt(m: Message): (at: nat)
    ensures at + 128 <= 768
  {
    Four(m, 768) % 632 + 8
  }

  lemma OffsetsAre(mode: Mode, m: Message)
    ensures DigestPos(SchemeOf(mode == Encrypted), m) == DigestAt(mode, m)
    ensures DHPos(1, m) == KeyAt(m)
  {
  }

  /** The digest is HMAC of the message without the digest itself. */
  ghost predicate Carries(hmac: Hmac, m: Message, at: nat, key: seq<byte>) {
    at + 32 <= 1536 && m[at..at + 32] == hmac(key, m[..at] + m[at + 32..])
  }

  predicate InField(mode: Mode, m: Message, i: nat) {
    DigestAt(mode, m) <= i < DigestAt(mode, m) + 32 || (mode == Encrypted && KeyAt(m) <= i < KeyAt(m) + 128)
  }

  /** Uptime, version and noise; over the noise, when encrypting, the 128 octets of 2^x mod p, and the digest. */
  ghost predicate IsHello(env: Env, mode: Mode, m: Message, uptime: Uptime, version: seq<byte>, noise: Noise, x: nat,
                          key: seq<byte>) {
    && env.p > 0 && m[..4] == uptime && m[4..8] == version
    && Carries(env.hmac, m, DigestAt(mode, m), key)
    && (mode == Encrypted ==> ToNat(m[KeyAt(m)..KeyAt(m) + 128]) == Pow(2, x) % env.p)
    && forall i :: 8 <= i < 1536 && !InField(mode, m, i) ==> m[i] == noise[i - 8]
  }

  lemma SealedKeeps(hmac: Hmac, s: Scheme, m: Message, key: seq<byte>, i: nat)
    requires i < 1536 && !(DigestPos(s, m) <= i < DigestPos(s, m) + 32)
    ensures Sealed(hmac, s, m, key)[i] == m[i]
  {
  }

  lemma KeyedKeeps(s: Scheme, m: Message, k: seq<byte>, i: nat)
    requires |k| == 128 && i < 1536 && !(DHPos(s, m) <= i < DHPos(s, m) + 128)
    ensures Patch(m, DHPos(s, m), k)[i] == m[i]
  {
  }

  /** Outside the two fields `m`, a first message made from `base`, is `base`. */
  lemma UnkeyedKeeps(hmac: Hmac, s: Scheme, base: Message, key: seq<byte>, m: Message, i: nat)
    requires m == Sealed(hmac, s, base, key)
    requires i < 1536 && !(DigestPos(s, m) <= i < DigestPos(s, m) + 32)
    ensures m[i] == base[i] && DHPos(s, m) == DHPos(s, base)
  {
    SealedIsFound(hmac, s, base, key);
    SealedKeeps(hmac, s, base, key, i);
  }

  lemma HelloKeeps(env: Env, s: Scheme, base: Message, exponent: Option<nat>, key: seq<byte>, m: Message, i: nat)
    requires env.Valid() && i < 1536
    requires m == Sealed(env.hmac, s, if exponent == None then base
                                      else Patch(base, DHPos(s, base), PublicOctets(exponent.value, env.p)), key)
    requires !(DigestPos(s, m) <= i < DigestPos(s, m) + 32)
    requires !(exponent.Some? && DHPos(s, m) <= i < DHPos(s, m) + 128)
    ensures m[i] == base[i]
  {
    match exponent {
      case None =>
        UnkeyedKeeps(env.hmac, s, base, key, m, i);
      case Some(x) =>
        var k := PublicOctets(x, env.p);
        WritesKeepOffsets(s, base, k, seq(DIGEST_LENGTH, _ => 0));
        UnkeyedKeeps(env.hmac, s, Patch(base, DHPos(s, base), k), key, m, i);
        KeyedKeeps(s, base, k, i);
    }
  }

  lemma NoiseKept(env: Env, mode: Mode, uptime: Uptime, version: seq<byte>, noise: Noise, exponent: Option<nat>,
                  key: seq<byte>, m: Message, i: nat)
    requires env.Valid() && |version| == 4 && (exponent.Some? <==> mode == Encrypted)
    requires m == Hello(env, SchemeOf(mode == Encrypted), uptime, version, noise, exponent, Some(key))
    requires 8 <= i < 1536 && !InField(mode, m, i)
    ensures m[i] == noise[i - 8]
  {
    var base: Message := uptime + version + noise;
    assert base[i] == noise[i - 8];
    OffsetsAre(mode, m);
    HelloKeeps(env, SchemeOf(mode == Encrypted), base, exponent, key, m, i);
  }

  lemma HelloIs(env: Env, mode: Mode, uptime: Uptime, version: seq<byte>, noise: Noise, x: nat, key: seq<byte>)
    requires env.Valid() && |version| == 4
    ensures var m := Hello(env, SchemeOf(mode == Encrypted), uptime, version, noise,
                           if mode == Encrypted then Some(x) else None, Some(key));
            IsHello(env, mode, m, uptime, version, noise, x, key)
  {
    var s, exponent := SchemeOf(mode == Encrypted), if mode == Encrypted then Some(x) else None;
    var m := Hello(env, s, uptime, version, noise, exponent, Some(key));
    HelloIsReadBack(env, s, uptime, version, noise, exponent, key);
    OffsetsAre(mode, m);
    assert m[..4] == m[..8][..4] && m[4..8] == m[..8][4..];
    if mode == Encrypted {
      PublicIs(x, env.p);
    }
    forall i | 8 <= i < 1536 && !InField(mode, m, i)
      ensures m[i] == noise[i - 8]
    {
      NoiseKept(env, mode, uptime, version, noise, exponent, key, m, i);
    }
  }

  lemma ClientSealed(env: Env, ci: ClientInput)
    requires env.Valid() && ci.mode != Plain
    ensures IsHello(env, ci.mode, ClientHello(env, ci), ci.uptime,
                    if ci.mode == Encrypted then [128, 0, 3, 2] else [10, 0, 45, 2], ci.noise, ci.exponent,
                    env.fpKey[..30])
  {
    HelloIs(env, ci.mode, ci.uptime, ClientVersion(ci.mode), ci.noise, ci.exponent, env.fpKey[..30]);
  }

  /** What the client writes first: 3 or 6, and a message without digest, signed, or signed with a public key. */
  lemma ClientHelloIs(env: Env, ci: ClientInput)
    requires env.Valid()
    ensures ClientKind(ci) == if ci.mode == Encrypted then 6 else 3
    ensures ci.mode == Plain ==> ClientHello(env, ci) == ci.uptime + [0, 0, 0, 0] + ci.noise
    ensures ci.mode != Plain ==>
              IsHello(env, ci.mode, ClientHello(env, ci), ci.uptime,
                      if ci.mode == Encrypted then [128, 0, 3, 2] else [10, 0, 45, 2], ci.noise, ci.exponent,
                      env.fpKey[..30])
  {
    if ci.mode != Plain {
      ClientSealed(env, ci);
    }
  }

  lemma ServerSealed(env: Env, ci: ClientInput, si: ServerInput)
    requires env.Valid() && ci.mode != Plain
    ensures IsHello(env, ci.mode, ServerHello(env, si, AgreedTerms(ci)), si.uptime, [3, 5, 1, 1], si.noise, si.exponent,
                    env.fmsKey[..36])
  {
    HelloIs(env, ci.mode, si.uptime, [3, 5, 1, 1], si.noise, si.exponent, env.fmsKey[..36]);
  }

  /** What the server writes first to such a client: 3 or, when encrypting, 8, and a message of the same kind. */
  lemma ServerHelloIs(env: Env, ci: ClientInput, si: ServerInput)
    requires env.Valid()
    ensures var t := AgreedTerms(ci);
            && Negotiate(ClientKind(ci), ClientHello(env, ci)) == Some(t)
            && t.kind == if ci.mode == Encrypted then 8 else 3
    ensures ci.mode == Plain ==> ServerHello(env, si, AgreedTerms(ci)) == si.uptime + [0, 0, 0, 0] + si.noise
    ensures ci.mode != Plain ==>
              IsHello(env, ci.mode, ServerHello(env, si, AgreedTerms(ci)), si.uptime, [3, 5, 1, 1], si.noise,
                      si.exponent, env.fmsKey[..36])
  {
    Negotiated(env, ci);
    if ci.mode != Plain {
      ServerSealed(env, ci, si);
    }
  }

  /** The signature owed for a digest: HMAC of the message's first 1504 octets under HMAC of the digest; for types 8
      and 9 each eight octets of it are encrypted under one of fifteen keys, picked by the octet of the inner HMAC at
      their place. */
  ghost predicate Signs(env: Env, kind: byte, m: Message, key: seq<byte>, digest: seq<byte>)
    requires env.Valid()
  {
    var dig := env.hmac(key, digest);
    var plain := env.hmac(dig, m[..1504]);
    if kind == 8 then
      forall i :: 0 <= i < 4 ==> SigBlock(m, i) == Xtea.Sign(Eight(plain, i), env.xteaKeys[dig[8 * i] % 15])
    else if kind == 9 then
      forall i :: 0 <= i < 4 ==>
        SigBlock(m, i) == Blowfish.Sign(Eight(plain, i), Blowfish.KeyOf(env.tables, dig[8 * i] % 15))
    else m[1504..] == plain
  }

  function SigBlock(m: Message, i: nat): Block8
    requires i < 4
  {
    m[1504 + 8 * i..1512 + 8 * i]
  }

  function Eight(s: Digest, i: nat): Block8
    requires i < 4
  {
    s[8 * i..8 * i + 8]
  }

  /** The last 32 octets of a message, block by block. */
  ghost predicate BlocksAre(f: BlockCipher, dig: Digest, plain: Digest, m: Message) {
    forall i :: 0 <= i < 4 ==> SigBlock(m, i) == f(Eight(plain, i), dig[8 * i] % 15)
  }

  lemma SigBlocks(m: Message, sig: Digest)
    requires forall i :: 0 <= i < 4 ==> SigBlock(m, i) == Eight(sig, i)
    ensures m[BODY..] == sig
  {
    var t: Digest := m[BODY..];
    forall i | 0 <= i < 4
      ensures Eight(t, i) == Eight(sig, i)
    {
      SliceOfSlice(m, BODY, SIG_SIZE, 8 * i, 8 * i + 8);
      assert SigBlock(m, i) == Eight(sig, i);
    }
    assert Eight(t, 0) == Eight(sig, 0) && Eight(t, 1) == Eight(sig, 1);
    assert Eight(t, 2) == Eight(sig, 2) && Eight(t, 3) == Eight(sig, 3);
    FourBlocks(t, sig);
  }

  lemma UpgradedIsBlocks(f: BlockCipher, dig: Digest, plain: Digest, m: Message)
    ensures m[BODY..] == Upgraded(f, dig, plain) <==> BlocksAre(f, dig, plain, m)
  {
    var sig := Upgraded(f, dig, plain);
    forall i | 0 <= i < 4
      ensures Eight(sig, i) == f(Eight(plain, i), dig[8 * i] % 15)
    {
      BlockUpgraded(f, dig, plain, |plain| / 8, i);
    }
    if m[BODY..] == sig {
      forall i | 0 <= i < 4
        ensures SigBlock(m, i) == Eight(sig, i)
      {
        SliceOfSlice(m, BODY, SIG_SIZE, 8 * i, 8 * i + 8);
      }
    }
    if BlocksAre(f, dig, plain, m) {
      SigBlocks(m, sig);
    }
  }

  lemma CiphersAre(env: Env, kind: byte, b: Block8, k: KeyId)
    requires env.Valid() && (kind == 8 || kind == 9)
    ensures CipherOf(env, kind)(b, k)
         == if kind == 8 then Xtea.Sign(b, env.xteaKeys[k]) else Blowfish.Sign(b, Blowfish.KeyOf(env.tables, k))
  {
  }

  lemma PlainIs(env: Env, kind: byte, dig: Digest, plain: Digest)
    requires env.Valid() && kind != 8 && kind != 9
    ensures Upgraded(CipherOf(env, kind), dig, plain) == plain
  {
    BlocksUnchanged(CipherOf(env, kind), dig, plain, |plain| / 8);
  }

  /** The signature the code computes, and checks, is this one. */
  lemma SignatureSigns(env: Env, kind: byte, m: Message, key: seq<byte>, digest: seq<byte>)
    requires env.Valid()
    ensures m[BODY..] == Signature(env, kind, m[..BODY], digest, key) <==> Signs(env, kind, m, key, digest)
  {
    var dig := env.hmac(key, digest);
    var plain := env.hmac(dig, m[..BODY]);
    if kind != 8 && kind != 9 {
      PlainIs(env, kind, dig, plain);
    } else {
      UpgradedIsBlocks(CipherOf(env, kind), dig, plain, m);
      forall i | 0 <= i < 4
        ensures CipherOf(env, kind)(Eight(plain, i), dig[8 * i] % 15)
             == if kind == 8 then Xtea.Sign(Eight(plain, i), env.xteaKeys[dig[8 * i] % 15])
                else Blowfish.Sign(Eight(plain, i), Blowfish.KeyOf(env.tables, dig[8 * i] % 15))
      {
        CiphersAre(env, kind, Eight(plain, i), dig[8 * i] % 15);
      }
    }
  }

  /** A message that ends with the signature for the digest of `peer` signs it. */
  lemma AnswerSigns(env: Env, mode: Mode, kind: byte, body: BodyOctets, peer: Message, key: seq<byte>, m: Message)
    requires env.Valid()
    requires var at := DigestPos(SchemeOf(mode == Encrypted), peer);
             m == body + Signature(env, kind, body, Field(peer, at, DIGEST_LENGTH), key)
    ensures m[..1504] == body && Signs(env, kind, m, key, peer[DigestAt(mode, peer)..DigestAt(mode, peer) + 32])
  {
    var at := DigestAt(mode, peer);
    OffsetsAre(mode, peer);
    assert m[..BODY] == body;
    SignatureSigns(env, kind, m, key, peer[at..at + 32]);
  }

  /** The second messages. Without signing each end returns what it got. Otherwise the client sends 1504 random octets,
      signed for the digest of the server's first message under the whole player key, and the server the client's own
      first 1504 octets, signed for the client's digest under the whole server key. */
  lemma RepliesAre(env: Env, ci: ClientInput, si: ServerInput)
    requires env.Valid()
    ensures var t := AgreedTerms(ci);
            var c1, s1 := ClientHello(env, ci), ServerHello(env, si, t);
            var ca, sa := ClientAnswer(env, ci, c1, t.kind, s1), ServerAnswer(env, si, t, s1, c1);
            && ca.Some? && sa.Some?
            && var c2, s2 := ca.value.message, sa.value.message;
               if ci.mode == Plain then c2 == s1 && s2 == c1
               else
                 && c2[..1504] == ci.replyNoise[..1504] && s2[..1504] == c1[..1504]
                 && Signs(env, t.kind, c2, env.fpKey, s1[DigestAt(ci.mode, s1)..DigestAt(ci.mode, s1) + 32])
                 && Signs(env, t.kind, s2, env.fmsKey, c1[DigestAt(ci.mode, c1)..DigestAt(ci.mode, c1) + 32])
  {
    if ci.mode != Plain {
      ClientReplies(env, ci, si);
      ServerReplies(env, ci, si);
    }
  }

  lemma ClientReplies(env: Env, ci: ClientInput, si: ServerInput)
    requires env.Valid() && ci.mode != Plain
    ensures var t := AgreedTerms(ci);
            var s1 := ServerHello(env, si, t);
            var ca := ClientAnswer(env, ci, ClientHello(env, ci), t.kind, s1);
            && ca.Some? && ca.value.message[..1504] == ci.replyNoise[..1504]
            && Signs(env, t.kind, ca.value.message, env.fpKey, s1[DigestAt(ci.mode, s1)..DigestAt(ci.mode, s1) + 32])
  {
    var t := AgreedTerms(ci);
    var s1 := ServerHello(env, si, t);
    ClientAnswers(env, ci, si);
    var ca := ClientAnswer(env, ci, ClientHello(env, ci), t.kind, s1);
    AnswerSigns(env, ci.mode, t.kind, Body(ci.replyNoise), s1, env.fpKey, ca.value.message);
  }

  lemma ServerReplies(env: Env, ci: ClientInput, si: ServerInput)
    requires env.Valid() && ci.mode != Plain
    ensures var t, c1 := AgreedTerms(ci), ClientHello(env, ci);
            var sa := ServerAnswer(env, si, t, ServerHello(env, si, t), c1);
            && sa.Some? && sa.value.message[..1504] == c1[..1504]
            && Signs(env, t.kind, sa.value.message, env.fmsKey, c1[DigestAt(ci.mode, c1)..DigestAt(ci.mode, c1) + 32])
  {
    var t, c1 := AgreedTerms(ci), ClientHello(env, ci);
    ServerAnswers(env, ci, si);
    var sa := ServerAnswer(env, si, t, ServerHello(env, si, t), c1);
    AnswerSigns(env, ci.mode, t.kind, Body(c1), c1, env.fmsKey, sa.value.message);
  }
}
