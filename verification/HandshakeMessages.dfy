/** What each end of an RTMP handshake computes between its reads and writes. */
module HandshakeMessages {
  import opened Bytes
  import opened Wrappers
  import opened HandshakeLayout
  import opened DH = DiffieHellman
  import Xtea
  import Blowfish

  /** Primitives and constants both ends share. */
  datatype Env = Env(hmac: Hmac, p: nat, fmsKey: seq<byte>, fpKey: seq<byte>, xteaKeys: seq<Xtea.Key>,
                     tables: Blowfish.Tables)
  {
    ghost predicate Valid() {
      Modulus(p) && |fmsKey| == 68 && |fpKey| == 62 && |xteaKeys| == 16 && |tables.keys| == 16
    }

    // The genuine-product texts alone key the digests, the whole strings the responses

    function ServerDigestKey(): seq<byte>
      requires Valid()
    {
      fmsKey[..36]
    }

    function ClientDigestKey(): seq<byte>
      requires Valid()
    {
      fpKey[..30]
    }
  }

  /** How the client was set up: neither encryption nor an SWF size, an SWF size only, or encryption. */
  datatype Mode = Plain | Signed | Encrypted

  type Uptime = u: seq<byte> | |u| == 4 witness [0, 0, 0, 0]

  type Noise = n: seq<byte> | |n| == SIG_SIZE - 8 witness seq(SIG_SIZE - 8, _ => 0)

  /** Everything an end draws or reads from outside: clock, random octets, Diffie-Hellman exponent. */
  datatype ClientInput = ClientInput(mode: Mode, uptime: Uptime, noise: Noise, exponent: nat, replyNoise: Message)

  datatype ServerInput = ServerInput(uptime: Uptime, noise: Noise, exponent: nat)

  /** A keystream: its key and how many octets of it are used up. */
  datatype Rc4 = Rc4(key: seq<byte>, pos: nat)

  datatype Keys = Keys(inbound: Rc4, outbound: Rc4)

  function InitRC4(env: Env, secret: seq<byte>, pubIn: seq<byte>, pubOut: seq<byte>): Keys {
    Keys(Rc4(env.hmac(secret, pubOut)[..16], 0), Rc4(env.hmac(secret, pubIn)[..16], 0))
  }

  /** Both keystreams after the handshake message length was run through them. */
  function Advanced(k: Keys): Keys {
    Keys(Rc4(k.inbound.key, k.inbound.pos + SIG_SIZE), Rc4(k.outbound.key, k.outbound.pos + SIG_SIZE))
  }

  // ---- signatures ----

  type Block8 = b: seq<byte> | |b| == 8 witness [0, 0, 0, 0, 0, 0, 0, 0]

  type KeyId = k: int | 0 <= k < 15

  type BlockCipher = (Block8, KeyId) -> Block8

  /** The cipher of the negotiated type; none below type 8. */
  function CipherOf(env: Env, kind: byte): BlockCipher
    requires env.Valid()
  {
    if kind == 8 then (b: Block8, k: KeyId) => Xtea.Sign(b, env.xteaKeys[k])
    else if kind == 9 then (b: Block8, k: KeyId) => Blowfish.Sign(b, Blowfish.KeyOf(env.tables, k))
    else (b: Block8, k: KeyId) => b
  }

  /** Block `i` encrypted under the key its digest octet selects. */
  function UpgradedBlock(f: BlockCipher, dig: Digest, sig: Digest, i: nat): Block8
    requires i < 4
  {
    f(sig[8 * i..8 * i + 8], dig[8 * i] % 15)
  }

  /** The signature with its first `n` blocks encrypted. */
  function UpgradedBlocks(f: BlockCipher, dig: Digest, sig: Digest, n: nat): Digest
    requires n <= 4
  {
    if n == 0 then sig else Patch(UpgradedBlocks(f, dig, sig, n - 1), 8 * (n - 1), UpgradedBlock(f, dig, sig, n - 1))
  }

  function Upgraded(f: BlockCipher, dig: Digest, sig: Digest): Digest {
    UpgradedBlocks(f, dig, sig, |sig| / 8)
  }

  /** The signature over a message body, keyed by the digest the peer sent. */
  function Signature(env: Env, kind: byte, body: seq<byte>, peerDigest: seq<byte>, key: seq<byte>): Digest
    requires env.Valid()
  {
    var dig := env.hmac(key, peerDigest);
    Upgraded(CipherOf(env, kind), dig, env.hmac(dig, body))
  }

  /** Whatever the type, no two blocks encrypt to the same one. */
  lemma CipherInjective(env: Env, kind: byte, b: Block8, c: Block8, k: KeyId)
    requires env.Valid()
    ensures CipherOf(env, kind)(b, k) == CipherOf(env, kind)(c, k) <==> b == c
  {
    if kind == 8 {
      Xtea.SignInjective(b, c, env.xteaKeys[k]);
    } else if kind == 9 {
      Blowfish.SignIsPermutation(b, Blowfish.KeyOf(env.tables, k));
      Blowfish.SignIsPermutation(c, Blowfish.KeyOf(env.tables, k));
    }
  }

  /** Block `i` of an upgraded signature is that block encrypted. */
  lemma {:induction false} BlockUpgraded(f: BlockCipher, dig: Digest, sig: Digest, n: nat, i: nat)
    requires i < n <= 4
    ensures UpgradedBlocks(f, dig, sig, n)[8 * i..8 * i + 8] == UpgradedBlock(f, dig, sig, i)
  {
    if i < n - 1 {
      BlockUpgraded(f, dig, sig, n - 1, i);
      var u, b := UpgradedBlocks(f, dig, sig, n - 1), UpgradedBlock(f, dig, sig, n - 1);
      PatchBehind(u, 8 * (n - 1), b, 8 * i, 8 * i + 8);
    }
  }

  lemma {:induction false} BlocksUnchanged(f: BlockCipher, dig: Digest, sig: Digest, n: nat)
    requires n <= 4 && forall b, k :: f(b, k) == b
    ensures UpgradedBlocks(f, dig, sig, n) == sig
  {
    if n > 0 {
      BlocksUnchanged(f, dig, sig, n - 1);
    }
  }

  lemma PatchBehind(m: seq<byte>, pos: nat, d: seq<byte>, a: nat, b: nat)
    requires a <= b <= pos && pos + |d| <= |m|
    ensures Patch(m, pos, d)[a..b] == m[a..b]
  {
  }

  lemma FourBlocks(s: Digest, t: Digest)
    requires s[0..8] == t[0..8] && s[8..16] == t[8..16] && s[16..24] == t[16..24] && s[24..32] == t[24..32]
    ensures s == t
  {
    assert s == s[0..8] + s[8..16] + s[16..24] + s[24..32];
    assert t == t[0..8] + t[8..16] + t[16..24] + t[24..32];
  }

  // Where two upgraded signatures agree, so do the plain ones, block by block
  lemma BlockRecovered(f: BlockCipher, dig: Digest, s: Digest, t: Digest, i: nat, b: Block8, c: Block8, k: KeyId)
    requires i < 4 && b == s[8 * i..8 * i + 8] && c == t[8 * i..8 * i + 8] && k == dig[8 * i] % 15
    requires UpgradedBlocks(f, dig, s, 4) == UpgradedBlocks(f, dig, t, 4)
    requires f(b, k) == f(c, k) ==> b == c
    ensures b == c
  {
    BlockUpgraded(f, dig, s, 4, i);
    BlockUpgraded(f, dig, t, 4, i);
  }

  lemma BlocksRecovered(env: Env, kind: byte, dig: Digest, s: Digest, t: Digest, i: nat)
    requires env.Valid() && i < 4
    requires UpgradedBlocks(CipherOf(env, kind), dig, s, 4) == UpgradedBlocks(CipherOf(env, kind), dig, t, 4)
    ensures s[8 * i..8 * i + 8] == t[8 * i..8 * i + 8]
  {
    var b: Block8, c: Block8, k: KeyId := s[8 * i..8 * i + 8], t[8 * i..8 * i + 8], dig[8 * i] % 15;
    CipherInjective(env, kind, b, c, k);
    BlockRecovered(CipherOf(env, kind), dig, s, t, i, b, c, k);
  }

  /** Encrypting signatures loses nothing: an upgraded signature matches exactly if the plain one does. */
  lemma UpgradeInjective(env: Env, kind: byte, dig: Digest, s: Digest, t: Digest)
    requires env.Valid()
    ensures Upgraded(CipherOf(env, kind), dig, s) == Upgraded(CipherOf(env, kind), dig, t) <==> s == t
  {
    if Upgraded(CipherOf(env, kind), dig, s) == Upgraded(CipherOf(env, kind), dig, t) {
      BlocksRecovered(env, kind, dig, s, t, 0);
      BlocksRecovered(env, kind, dig, s, t, 1);
      BlocksRecovered(env, kind, dig, s, t, 2);
      BlocksRecovered(env, kind, dig, s, t, 3);
      FourBlocks(s, t);
    }
  }

  const BODY: nat := SIG_SIZE - DIGEST_LENGTH

  type BodyOctets = b: seq<byte> | |b| == BODY witness seq(BODY, _ => 0)

  function Body(m: Message): BodyOctets {
    m[..BODY]
  }

  function Field(m: Message, pos: nat, len: nat): (f: seq<byte>)
    requires pos + len <= SIG_SIZE
    ensures |f| == len
  {
    m[pos..pos + len]
  }

  // ---- the first message of either end ----

  /** Header and noise, the public key when encrypting, and the digest unless the handshake is plain. */
  function Hello(env: Env, s: Scheme, uptime: Uptime, version: seq<byte>, noise: Noise, exponent: Option<nat>,
                 sealKey: Option<seq<byte>>): Message
    requires env.Valid() && |version| == 4
  {
    var base: Message := uptime + version + noise;
    var keyed: Message := match exponent
      case None => base
      case Some(x) => Patch(base, DHPos(s, base), PublicOctets(x, env.p));
    match sealKey
    case None => keyed
    case Some(k) => Sealed(env.hmac, s, keyed, k)
  }

  function SchemeOf(encrypted: bool): Scheme {
    if encrypted then 1 else 0
  }

  function ClientVersion(mode: Mode): (v: seq<byte>)
    ensures |v| == 4
  {
    match mode
    case Plain => [0, 0, 0, 0]
    case Signed => [10, 0, 45, 2]
    case Encrypted => [128, 0, 3, 2]
  }

  function ClientExponent(ci: ClientInput): Option<nat> {
    if ci.mode == Encrypted then Some(ci.exponent) else None
  }

  function ClientSealKey(env: Env, ci: ClientInput): Option<seq<byte>>
    requires env.Valid()
  {
    if ci.mode == Plain then None else Some(env.ClientDigestKey())
  }

  function ClientKind(ci: ClientInput): byte {
    if ci.mode == Encrypted then 6 else 3
  }

  function ClientHello(env: Env, ci: ClientInput): Message
    requires env.Valid()
  {
    Hello(env, SchemeOf(ci.mode == Encrypted), ci.uptime, ClientVersion(ci.mode), ci.noise,
          ClientExponent(ci), ClientSealKey(env, ci))
  }

  /** What the server settles on after reading the client's type and first message. */
  datatype Terms = Terms(kind: byte, encrypted: bool, signed: bool)

  function Negotiate(kind: byte, c1: Message): Option<Terms> {
    if kind == 3 then Some(Terms(3, false, c1[4] != 0))
    else if kind == 6 || kind == 8 then Some(Terms(if c1[4] == 128 then 8 else kind, true, true))
    else None
  }

  /** Only types 3, 6 and 8 are accepted; all but 3 encrypt; a client of version 128 that encrypts is answered with 8 and
      any other with its own type; a client that does not encrypt gets signatures exactly if it gives a version. */
  lemma TermsMean(kind: byte, c1: Message)
    ensures Negotiate(kind, c1) == None <==> kind !in {3, 6, 8}
    ensures Negotiate(kind, c1) != None ==>
              var t := Negotiate(kind, c1).value;
              && (t.encrypted <==> kind != 3)
              && t.kind == (if kind == 6 && c1[4] == 128 then 8 else kind)
              && (t.signed <==> kind != 3 || c1[4] != 0)
  {
  }

  function ServerExponent(si: ServerInput, t: Terms): Option<nat> {
    if t.encrypted then Some(si.exponent) else None
  }

  function ServerSealKey(env: Env, t: Terms): Option<seq<byte>>
    requires env.Valid()
  {
    if t.signed then Some(env.ServerDigestKey()) else None
  }

  function ServerVersion(signed: bool): (v: seq<byte>)
    ensures |v| == 4
  {
    if signed then [3, 5, 1, 1] else [0, 0, 0, 0]
  }

  function ServerHello(env: Env, si: ServerInput, t: Terms): Message
    requires env.Valid()
  {
    Hello(env, SchemeOf(t.encrypted), si.uptime, ServerVersion(t.signed), si.noise,
          ServerExponent(si, t), ServerSealKey(env, t))
  }

  // ---- the second message of either end ----

  datatype Answer = Answer(message: Message, signed: bool, keys: Option<Keys>)

  /** Session keys from the peer's message and our own, when we have an exponent. */
  function DeriveKeys(env: Env, exponent: Option<nat>, pubIn: seq<byte>, pubOut: seq<byte>): Option<Option<Keys>>
    requires env.Valid()
  {
    match exponent
    case None => Some(None)
    case Some(x) =>
      match SharedSecret(x, pubIn, env.p)
      case None => None
      case Some(secret) => Some(Some(InitRC4(env, secret, pubIn, pubOut)))
  }

  /** Finds the peer's digest, derives the session keys and signs `body` for the peer. */
  function Respond(env: Env, s: Scheme, kind: byte, exponent: Option<nat>, peer: Message, peerKey: seq<byte>,
                   own: Message, body: BodyOctets, ownKey: seq<byte>): Option<Answer>
    requires env.Valid()
  {
    match Locate(env.hmac, s, peer, peerKey)
    case Unverified => None
    case Found(f, _) =>
      match DeriveKeys(env, exponent, Field(peer, DHPos(f, peer), DH_LENGTH), Field(own, DHPos(s, own), DH_LENGTH))
      case None => None
      case Some(keys) =>
        var peerDigest := Field(peer, DigestPos(f, peer), DIGEST_LENGTH);
        Some(Answer(body + Signature(env, kind, body, peerDigest, ownKey), true, keys))
  }

  /** The client after reading type and first message of the server. */
  function ClientAnswer(env: Env, ci: ClientInput, own: Message, kind: byte, s1: Message): Option<Answer>
    requires env.Valid()
  {
    if ci.mode == Plain || (kind == 3 && s1[4] == 0) then Some(Answer(s1, false, None)) else
      Respond(env, SchemeOf(ci.mode == Encrypted), kind, ClientExponent(ci), s1, env.ServerDigestKey(),
              own, Body(ci.replyNoise), env.fpKey)
  }

  /** The server after sending its first message: the client's message comes back, signed. */
  function ServerAnswer(env: Env, si: ServerInput, t: Terms, own: Message, c1: Message): Option<Answer>
    requires env.Valid()
  {
    if !t.signed then Some(Answer(c1, false, None)) else
      Respond(env, SchemeOf(t.encrypted), t.kind, ServerExponent(si, t), c1, env.ClientDigestKey(),
              own, Body(c1), env.fmsKey)
  }

  /** The last check: does the peer's second message carry the signature owed to our digest? */
  function Finish(env: Env, a: Answer, kind: byte, s: Scheme, own: Message, second: Message, key: seq<byte>)
    : Option<Option<Keys>>
    requires env.Valid()
  {
    if !a.signed then Some(None)
    else if second[BODY..] == Signature(env, kind, Body(second), Field(own, DigestPos(s, own), DIGEST_LENGTH), key)
    then Some(if a.keys.Some? then Some(Advanced(a.keys.value)) else None)
    else None
  }

  function ClientFinish(env: Env, ci: ClientInput, own: Message, a: Answer, kind: byte, s2: Message)
    : Option<Option<Keys>>
    requires env.Valid()
  {
    Finish(env, a, kind, SchemeOf(ci.mode == Encrypted), own, s2, env.fmsKey)
  }

  function ServerFinish(env: Env, t: Terms, own: Message, a: Answer, c2: Message): Option<Option<Keys>>
    requires env.Valid()
  {
    Finish(env, a, t.kind, SchemeOf(t.encrypted), own, c2, env.fpKey)
  }

  // ---- the two ends fit together ----

  /** A hello keeps the version octets it was given; its public key, if any, sits where the receiver looks for it,
      and its digest verifies at the first offset tried. */
  lemma HelloIsReadBack(env: Env, s: Scheme, uptime: Uptime, version: seq<byte>, noise: Noise, exponent: Option<nat>,
                        sealKey: seq<byte>)
    requires env.Valid() && |version| == 4
    ensures var m := Hello(env, s, uptime, version, noise, exponent, Some(sealKey));
            && m[..8] == uptime + version
            && Locate(env.hmac, s, m, sealKey) == Found(s, false)
            && (exponent.Some? ==> Field(m, DHPos(s, m), DH_LENGTH) == PublicOctets(exponent.value, env.p))
  {
    var base: Message := uptime + version + noise;
    assert base[..8] == uptime + version;
    var zero: Digest := seq(DIGEST_LENGTH, _ => 0);
    var keyed: Message := match exponent
      case None => base
      case Some(x) => Patch(base, DHPos(s, base), PublicOctets(x, env.p));
    if exponent.Some? {
      WritesKeepOffsets(s, base, PublicOctets(exponent.value, env.p), zero);
      FieldsDisjoint(s, base);
      assert keyed[..8] == base[..8];
    }
    SealedIsFound(env.hmac, s, keyed, sealKey);
  }

  function AgreedTerms(ci: ClientInput): Terms {
    match ci.mode
    case Plain => Terms(3, false, false)
    case Signed => Terms(3, false, true)
    case Encrypted => Terms(8, true, true)
  }

  /** Whatever the inputs, the server accepts a client's type and answers as in the mode asked for; an encrypting
      client announcing 6 is upgraded to 8. */
  lemma Negotiated(env: Env, ci: ClientInput)
    requires env.Valid()
    ensures Negotiate(ClientKind(ci), ClientHello(env, ci)) == Some(AgreedTerms(ci))
  {
    VersionIsKept(env, SchemeOf(ci.mode == Encrypted), ci.uptime, ClientVersion(ci.mode), ci.noise,
                  ClientExponent(ci), ClientSealKey(env, ci));
  }

  lemma VersionIsKept(env: Env, s: Scheme, uptime: Uptime, version: seq<byte>, noise: Noise, exponent: Option<nat>,
                      sealKey: Option<seq<byte>>)
    requires env.Valid() && |version| == 4 && (sealKey == None ==> exponent == None)
    ensures Hello(env, s, uptime, version, noise, exponent, sealKey)[4] == version[0]
  {
    var m := Hello(env, s, uptime, version, noise, exponent, sealKey);
    match sealKey {
      case None => assert m == uptime + version + noise;
      case Some(k) =>
        HelloIsReadBack(env, s, uptime, version, noise, exponent, k);
        assert m[4] == m[..8][4] == (uptime + version)[4];
    }
  }

  /** The keys an end derives when its own and its peer's exponents are known. */
  function KeysFor(env: Env, own: Option<nat>, peer: Option<nat>): Option<Keys>
    requires env.Valid() && (own.Some? <==> peer.Some?)
  {
    if own == None then None else
      ExchangeAgrees(own.value, peer.value, env.p);
      var pubIn, pubOut := PublicOctets(peer.value, env.p), PublicOctets(own.value, env.p);
      Some(InitRC4(env, SharedSecret(own.value, pubIn, env.p).value, pubIn, pubOut))
  }

  /** The keys by themselves: what an end decrypts with is keyed by its own public key, what it encrypts with by its
      peer's, both under the number both ends know. */
  lemma KeysAre(env: Env, x: nat, y: nat)
    requires env.Valid()
    ensures var secret := SharedSecret(x, PublicOctets(y, env.p), env.p);
            && secret.Some? && IsSecret(secret.value, Pow(2, x * y) % env.p)
            && KeysFor(env, Some(x), Some(y))
            == Some(Keys(Rc4(env.hmac(secret.value, PublicOctets(x, env.p))[..16], 0),
                         Rc4(env.hmac(secret.value, PublicOctets(y, env.p))[..16], 0)))
  {
    ExchangeAgrees(x, y, env.p);
  }

  /** An end that verified its peer at the first offset, where the peer's public key sits too, always answers. */
  lemma RespondSucceeds(env: Env, s: Scheme, kind: byte, exponent: Option<nat>, peerExponent: Option<nat>,
                        peer: Message, peerKey: seq<byte>, own: Message, body: BodyOctets, ownKey: seq<byte>)
    requires env.Valid() && (exponent.Some? <==> peerExponent.Some?)
    requires Locate(env.hmac, s, peer, peerKey) == Found(s, false)
    requires peerExponent.Some? ==> Field(peer, DHPos(s, peer), DH_LENGTH) == PublicOctets(peerExponent.value, env.p)
    requires exponent.Some? ==> Field(own, DHPos(s, own), DH_LENGTH) == PublicOctets(exponent.value, env.p)
    ensures Respond(env, s, kind, exponent, peer, peerKey, own, body, ownKey) ==
            Some(Answer(body + Signature(env, kind, body, Field(peer, DigestPos(s, peer), DIGEST_LENGTH), ownKey), true,
                        KeysFor(env, exponent, peerExponent)))
  {
    if exponent.Some? {
      ExchangeAgrees(exponent.value, peerExponent.value, env.p);
    }
  }

  /** Both hellos, unless plain, verify at the first offset tried, and carry the public keys where they are read. */
  lemma HellosAreReadBack(env: Env, ci: ClientInput, si: ServerInput)
    requires env.Valid() && ci.mode != Plain
    ensures var t := AgreedTerms(ci);
            var s, c1, s1 := SchemeOf(t.encrypted), ClientHello(env, ci), ServerHello(env, si, t);
            && Locate(env.hmac, s, c1, env.ClientDigestKey()) == Found(s, false)
            && Locate(env.hmac, s, s1, env.ServerDigestKey()) == Found(s, false)
            && s1[4] == 3
            && (t.encrypted ==>
                  && Field(c1, DHPos(s, c1), DH_LENGTH) == PublicOctets(ci.exponent, env.p)
                  && Field(s1, DHPos(s, s1), DH_LENGTH) == PublicOctets(si.exponent, env.p))
  {
    var t := AgreedTerms(ci);
    var s := SchemeOf(t.encrypted);
    HelloIsReadBack(env, s, ci.uptime, ClientVersion(ci.mode), ci.noise, ClientExponent(ci), env.ClientDigestKey());
    HelloIsReadBack(env, s, si.uptime, ServerVersion(t.signed), si.noise, ServerExponent(si, t), env.ServerDigestKey());
    var s1 := ServerHello(env, si, t);
    assert s1[4] == s1[..8][4] == 3;
  }

  /** The server, having read a client's hello, always answers. */
  lemma ServerAnswers(env: Env, ci: ClientInput, si: ServerInput)
    requires env.Valid() && ci.mode != Plain
    ensures var t, c1 := AgreedTerms(ci), ClientHello(env, ci);
            var peerDigest := Field(c1, DigestPos(SchemeOf(t.encrypted), c1), DIGEST_LENGTH);
            ServerAnswer(env, si, t, ServerHello(env, si, t), c1) ==
            Some(Answer(Body(c1) + Signature(env, t.kind, Body(c1), peerDigest, env.fmsKey), true,
                        KeysFor(env, ServerExponent(si, t), ClientExponent(ci))))
  {
    var t := AgreedTerms(ci);
    HellosAreReadBack(env, ci, si);
    RespondSucceeds(env, SchemeOf(t.encrypted), t.kind, ServerExponent(si, t), ClientExponent(ci), ClientHello(env, ci),
                    env.ClientDigestKey(), ServerHello(env, si, t), Body(ClientHello(env, ci)), env.fmsKey);
  }

  /** The client, having read the server's hello, always answers. */
  lemma ClientAnswers(env: Env, ci: ClientInput, si: ServerInput)
    requires env.Valid() && ci.mode != Plain
    ensures var t := AgreedTerms(ci);
            var s1 := ServerHello(env, si, t);
            var peerDigest := Field(s1, DigestPos(SchemeOf(t.encrypted), s1), DIGEST_LENGTH);
            var body := Body(ci.replyNoise);
            ClientAnswer(env, ci, ClientHello(env, ci), t.kind, s1) ==
            Some(Answer(body + Signature(env, t.kind, body, peerDigest, env.fpKey), true,
                        KeysFor(env, ClientExponent(ci), ServerExponent(si, t))))
  {
    var t := AgreedTerms(ci);
    HellosAreReadBack(env, ci, si);
    RespondSucceeds(env, SchemeOf(t.encrypted), t.kind, ClientExponent(ci), ServerExponent(si, t),
                    ServerHello(env, si, t), env.ServerDigestKey(), ClientHello(env, ci), Body(ci.replyNoise),
                    env.fpKey);
  }

  /** Session keys of a client with exponent `x` and a server with exponent `y`. The secret is 2^(xy) mod p, its
      octets from the left; what the client sends, and the server receives, is keyed by the server's public key, what
      the server sends by the client's: the first 16 octets of HMAC under the secret. Both streams are past the
      handshake message. */
  ghost predicate SessionKeys(env: Env, x: nat, y: nat, c: Keys, v: Keys)
    requires env.Valid()
  {
    var n := Octets(Pow(2, x * y) % env.p);
    && |n| <= 128
    && var secret := n + Zeros(128 - |n|);
       && c.outbound == v.inbound == Rc4(env.hmac(secret, PublicOctets(y, env.p))[..16], 1536)
       && c.inbound == v.outbound == Rc4(env.hmac(secret, PublicOctets(x, env.p))[..16], 1536)
  }

  lemma KeysCross(env: Env, x: nat, y: nat)
    requires env.Valid()
    ensures var c, v := KeysFor(env, Some(x), Some(y)), KeysFor(env, Some(y), Some(x));
            c.Some? && v.Some? && SessionKeys(env, x, y, Advanced(c.value), Advanced(v.value))
  {
    KeysAre(env, x, y);
    KeysAre(env, y, x);
    ExchangeAgrees(x, y, env.p);
    assert y * x == x * y;
  }

  /** Both final checks succeed on the messages the ends produce for each other, and when encrypting the session keys
      are those of the two exponents. */
  lemma BothFinish(env: Env, ci: ClientInput, si: ServerInput)
    requires env.Valid()
    ensures var t := AgreedTerms(ci);
            var c1, s1 := ClientHello(env, ci), ServerHello(env, si, t);
            var ca, sa := ClientAnswer(env, ci, c1, t.kind, s1), ServerAnswer(env, si, t, s1, c1);
            && ca.Some? && sa.Some?
            && ClientFinish(env, ci, c1, ca.value, t.kind, sa.value.message).Some?
            && ServerFinish(env, t, s1, sa.value, ca.value.message).Some?
            && var ck := ClientFinish(env, ci, c1, ca.value, t.kind, sa.value.message).value;
               var sk := ServerFinish(env, t, s1, sa.value, ca.value.message).value;
               && (ck.Some? <==> ci.mode == Encrypted) && (sk.Some? <==> ci.mode == Encrypted)
               && (ci.mode == Encrypted ==> SessionKeys(env, ci.exponent, si.exponent, ck.value, sk.value))
  {
    if ci.mode != Plain {
      ServerAnswers(env, ci, si);
      ClientAnswers(env, ci, si);
      if ci.mode == Encrypted {
        KeysCross(env, ci.exponent, si.exponent);
      }
    }
  }

  /** Without signing each end gets its own first message echoed, so neither warns of a mismatch. */
  lemma PlainEchoes(env: Env, ci: ClientInput, si: ServerInput)
    requires env.Valid() && ci.mode == Plain
    ensures var t := AgreedTerms(ci);
            var c1, s1 := ClientHello(env, ci), ServerHello(env, si, t);
            && ServerAnswer(env, si, t, s1, c1) == Some(Answer(c1, false, None))
            && ClientAnswer(env, ci, c1, t.kind, s1) == Some(Answer(s1, false, None))
  {
  }
}
