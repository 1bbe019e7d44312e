/** Where a 1536-octet RTMP handshake message keeps its digest and its Diffie-Hellman key, and how it is sealed. */
module HandshakeLayout {
  import opened Bytes

  const SIG_SIZE: nat := 1536
  const DIGEST_LENGTH: nat := 32
  const DH_LENGTH: nat := 128

  type Message = m: seq<byte> | |m| == SIG_SIZE witness seq(SIG_SIZE, _ => 0)

  type Digest = d: seq<byte> | |d| == DIGEST_LENGTH witness seq(DIGEST_LENGTH, _ => 0)

  /** HMAC-SHA256 of a text under a key; nothing but its output length is used. */
  type Hmac = (seq<byte>, seq<byte>) -> Digest

  /** The two layouts in use: 0 keeps the digest in the front half, 1 in the back half. */
  type Scheme = s: int | 0 <= s < 2

  datatype Offset = At(pos: nat) | Exit

  function SumAt(m: Message, at: nat): nat
    requires at + 4 <= SIG_SIZE
  {
    m[at] as int + m[at + 1] as int + m[at + 2] as int + m[at + 3] as int
  }

  // The four offset functions, with the exit each takes when the field would not fit

  function GetDHOffset2(m: Message): Offset {
    var res := SumAt(m, 768) % 632 + 8;
    if res + 128 > 767 then Exit else At(res)
  }

  function GetDigestOffset2(m: Message): Offset {
    var res := SumAt(m, 772) % 728 + 776;
    if res + 32 > 1535 then Exit else At(res)
  }

  function GetDHOffset1(m: Message): Offset {
    var res := SumAt(m, 1532) % 632 + 772;
    if res + 128 > 1531 then Exit else At(res)
  }

  function GetDigestOffset1(m: Message): Offset {
    var res := SumAt(m, 8) % 728 + 12;
    if res + 32 > 771 then Exit else At(res)
  }

  function GetDigest(s: Scheme, m: Message): Offset {
    if s == 0 then GetDigestOffset1(m) else GetDigestOffset2(m)
  }

  function GetDH(s: Scheme, m: Message): Offset {
    if s == 0 then GetDHOffset1(m) else GetDHOffset2(m)
  }

  /** No message makes an offset function exit. */
  lemma OffsetsNeverExit(m: Message)
    ensures GetDHOffset1(m).At? && GetDHOffset2(m).At?
    ensures GetDigestOffset1(m).At? && GetDigestOffset2(m).At?
  {
  }

  function DigestPos(s: Scheme, m: Message): (pos: nat)
    ensures pos + DIGEST_LENGTH <= SIG_SIZE
  {
    OffsetsNeverExit(m);
    GetDigest(s, m).pos
  }

  function DHPos(s: Scheme, m: Message): (pos: nat)
    ensures pos + DH_LENGTH <= SIG_SIZE
  {
    OffsetsNeverExit(m);
    GetDH(s, m).pos
  }

  // ---- fields and locators ----

  /** The four octets a scheme's digest (DH) offset is computed from. */
  function DigestLocator(s: Scheme): nat {
    if s == 0 then 8 else 772
  }

  function DHLocator(s: Scheme): nat {
    if s == 0 then 1532 else 768
  }

  ghost predicate Disjoint(a: nat, m: nat, b: nat, n: nat) {
    a + m <= b || b + n <= a
  }

  /** For every message the two fields of a scheme and their two locators are disjoint from each other and from
      the uptime and version octets. */
  lemma FieldsDisjoint(s: Scheme, m: Message)
    ensures Disjoint(DigestPos(s, m), DIGEST_LENGTH, DHPos(s, m), DH_LENGTH)
    ensures Disjoint(DigestPos(s, m), DIGEST_LENGTH, DigestLocator(s), 4)
    ensures Disjoint(DigestPos(s, m), DIGEST_LENGTH, DHLocator(s), 4)
    ensures Disjoint(DHPos(s, m), DH_LENGTH, DigestLocator(s), 4)
    ensures Disjoint(DHPos(s, m), DH_LENGTH, DHLocator(s), 4)
    ensures 8 <= DigestPos(s, m) && 8 <= DHPos(s, m)
  {
  }

  /** Writing into either field moves neither field. */
  lemma WritesKeepOffsets(s: Scheme, m: Message, dh: seq<byte>, d: Digest)
    requires |dh| == DH_LENGTH
    ensures var n := Patch(m, DHPos(s, m), dh); DHPos(s, n) == DHPos(s, m) && DigestPos(s, n) == DigestPos(s, m)
    ensures var n := Patch(m, DigestPos(s, m), d); DHPos(s, n) == DHPos(s, m) && DigestPos(s, n) == DigestPos(s, m)
  {
    FieldsDisjoint(s, m);
  }

  // ---- digests ----

  /** The digest of a message: over everything but the digest field itself. */
  function DigestOf(hmac: Hmac, pos: nat, m: Message, key: seq<byte>): Digest
    requires pos + DIGEST_LENGTH <= SIG_SIZE
  {
    hmac(key, m[..pos] + m[pos + DIGEST_LENGTH..])
  }

  predicate Verify(hmac: Hmac, pos: nat, m: Message, key: seq<byte>)
    requires pos + DIGEST_LENGTH <= SIG_SIZE
  {
    m[pos..pos + DIGEST_LENGTH] == DigestOf(hmac, pos, m, key)
  }

  /** The message with its digest filled in. */
  function Sealed(hmac: Hmac, s: Scheme, m: Message, key: seq<byte>): Message {
    var pos := DigestPos(s, m);
    Patch(m, pos, DigestOf(hmac, pos, m, key))
  }

  /** The scheme under which a received message verifies: the expected one first, then the other. */
  datatype Found = Found(scheme: Scheme, retried: bool) | Unverified

  function Locate(hmac: Hmac, s: Scheme, m: Message, key: seq<byte>): Found {
    if Verify(hmac, DigestPos(s, m), m, key) then Found(s, false)
    else if Verify(hmac, DigestPos(1 - s, m), m, key) then Found(1 - s, true)
    else Unverified
  }

  /** A sealed message verifies at the first offset tried, and sealing left offsets, DH field and header alone. */
  lemma SealedIsFound(hmac: Hmac, s: Scheme, m: Message, key: seq<byte>)
    ensures var n := Sealed(hmac, s, m, key);
            && Locate(hmac, s, n, key) == Found(s, false)
            && DigestPos(s, n) == DigestPos(s, m)
            && DHPos(s, n) == DHPos(s, m)
            && n[DHPos(s, n)..DHPos(s, n) + DH_LENGTH] == m[DHPos(s, m)..DHPos(s, m) + DH_LENGTH]
            && n[..8] == m[..8]
  {
    var pos := DigestPos(s, m);
    var n := Sealed(hmac, s, m, key);
    WritesKeepOffsets(s, m, seq(DH_LENGTH, _ => 0), DigestOf(hmac, pos, m, key));
    FieldsDisjoint(s, m);
    assert n[..pos] + n[pos + DIGEST_LENGTH..] == m[..pos] + m[pos + DIGEST_LENGTH..];
  }

  /** `CalculateDigest`: gathers the two pieces around the digest field and authenticates them. */
  method CalculateDigest(hmac: Hmac, pos: nat, m: array<byte>, key: seq<byte>) returns (digest: Digest)
    requires m.Length == SIG_SIZE && pos + DIGEST_LENGTH <= SIG_SIZE
    ensures digest == DigestOf(hmac, pos, m[..], key)
  {
    var message := new byte[SIG_SIZE - DIGEST_LENGTH](_ => 0);
    Store(message, 0, m[..pos]);
    Store(message, pos, m[pos + DIGEST_LENGTH..]);
    assert message[..] == m[..][..pos] + m[..][pos + DIGEST_LENGTH..];
    digest := hmac(key, message[..]);
  }

  /** Computes the digest in place and writes it into its field. */
  method Seal(hmac: Hmac, s: Scheme, m: array<byte>, key: seq<byte>) returns (pos: nat)
    requires m.Length == SIG_SIZE
    modifies m
    ensures m[..] == Sealed(hmac, s, old(m[..]), key) && pos == DigestPos(s, old(m[..]))
  {
    pos := DigestPos(s, m[..]);
    var digest := CalculateDigest(hmac, pos, m, key);
    Store(m, pos, digest);
  }

  /** `VerifyDigest`. */
  method VerifyDigest(hmac: Hmac, pos: nat, m: array<byte>, key: seq<byte>) returns (ok: bool)
    requires m.Length == SIG_SIZE && pos + DIGEST_LENGTH <= SIG_SIZE
    ensures ok <==> Verify(hmac, pos, m[..], key)
  {
    var digest := CalculateDigest(hmac, pos, m, key);
    ok := m[pos..pos + DIGEST_LENGTH] == digest;
  }
}
