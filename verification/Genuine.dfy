/** The constants the program ships with. They are kept apart from the proofs, which hold for any such constants. */
module Genuine {
  import opened Bytes
  import opened DiffieHellman
  import opened HandshakeLayout
  import opened HandshakeMessages
  import Blowfish
  import Xtea

  // The text "Genuine Adobe Flash Media Server 001" followed by 32 random octets
  const FMS_KEY: seq<byte> := [
    0x47, 0x65, 0x6e, 0x75, 0x69, 0x6e, 0x65, 0x20, 0x41, 0x64, 0x6f, 0x62, 0x65, 0x20, 0x46, 0x6c, 0x61, 0x73,
    0x68, 0x20, 0x4d, 0x65, 0x64, 0x69, 0x61, 0x20, 0x53, 0x65, 0x72, 0x76, 0x65, 0x72, 0x20, 0x30, 0x30, 0x31,
    0xf0, 0xee, 0xc2, 0x4a, 0x80, 0x68, 0xbe, 0xe8, 0x2e, 0x00, 0xd0, 0xd1, 0x02, 0x9e, 0x7e, 0x57, 0x6e, 0xec,
    0x5d, 0x2d, 0x29, 0x80, 0x6f, 0xab, 0x93, 0xb8, 0xe6, 0x36, 0xcf, 0xeb, 0x31, 0xae]

  // The text "Genuine Adobe Flash Player 001" followed by the same 32 octets
  const FP_KEY: seq<byte> := [
    0x47, 0x65, 0x6E, 0x75, 0x69, 0x6E, 0x65, 0x20, 0x41, 0x64, 0x6F, 0x62, 0x65, 0x20, 0x46, 0x6C, 0x61, 0x73,
    0x68, 0x20, 0x50, 0x6C, 0x61, 0x79, 0x65, 0x72, 0x20, 0x30, 0x30, 0x31, 0xF0, 0xEE, 0xC2, 0x4A, 0x80, 0x68,
    0xBE, 0xE8, 0x2E, 0x00, 0xD0, 0xD1, 0x02, 0x9E, 0x7E, 0x57, 0x6E, 0xEC, 0x5D, 0x2D, 0x29, 0x80, 0x6F, 0xAB,
    0x93, 0xB8, 0xE6, 0x36, 0xCF, 0xEB, 0x31, 0xAE]

  /** The Second Oakley prime (RFC 2412, appendix E.2). */
  const P1024: nat :=
    0xFFFFFFFFFFFFFFFFC90FDAA22168C234C4C6628B80DC1CD129024E088A67CC74020BBEA63B139B22514A08798E3404DDEF9519B3CD3A431B302B0A6DF25F14374FE1356D6D51C245E485B576625E7EC6F44C42E9A637ED6B0BFF5CB6F406B7EDEE386BFB5A899FA5AE9F24117C4B1FE649286651ECE65381FFFFFFFFFFFFFFFF

  const RTMPE8_KEYS: seq<Xtea.Key> := [
    [0xbff034b2, 0x11d9081f, 0xccdfb795, 0x748de732],
    [0x086a5eb6, 0x1743090e, 0x6ef05ab8, 0xfe5a39e2],
    [0x7b10956f, 0x76ce0521, 0x2388a73a, 0x440149a1],
    [0xa943f317, 0xebf11bb2, 0xa691a5ee, 0x17f36339],
    [0x7a30e00a, 0xb529e22c, 0xa087aea5, 0xc0cb79ac],
    [0xbdce0c23, 0x2febdeff, 0x1cfaae16, 0x1123239d],
    [0x55dd3f7b, 0x77e7e62e, 0x9bb8c499, 0xc9481ee4],
    [0x407bb6b4, 0x71e89136, 0xa7aebf55, 0xca33b839],
    [0xfcf6bdc3, 0xb63c3697, 0x7ce4f825, 0x04d959b2],
    [0x28e091fd, 0x41954c4c, 0x7fb7db00, 0xe3a066f8],
    [0x57845b76, 0x4f251b03, 0x46d45bcd, 0xa2c30d29],
    [0x0acceef8, 0xda55b546, 0x03473452, 0x5863713b],
    [0xb82075dc, 0xa75f1fee, 0xd84268e8, 0xa72a44cc],
    [0x07cf6e9e, 0xa16d7b25, 0x9fa7ae6c, 0xd92f5629],
    [0xfeb1eae4, 0x8c8c3ce1, 0x4e0064a7, 0x6a387c2a],
    [0x893a9427, 0xcc3013a2, 0xf106385b, 0xa829f927]]

  lemma P1024IsModulus()
    ensures Modulus(P1024)
  {
    assert Pow(0x100, 4) == 0x1_0000_0000;
    Square(4, 0x1_0000_0000);
    Square(8, 0x1_0000_0000_0000_0000);
    Square(16, 0x1_0000_0000_0000_0000_0000_0000_0000_0000);
    Square(32, 0x1_0000_0000_0000_0000_0000_0000_0000_0000_0000_0000_0000_0000_0000_0000_0000_0000);
    Square(64, 0x100000000000000000000000000000000000000000000000000000000000000000000000000000000000000000000000000000000000000000000000000000000);
    OctetsLength(P1024 - 1, KEY_LENGTH);
  }

  lemma {:induction false} OctetsLength(n: nat, k: nat)
    requires n < Pow(0x100, k)
    ensures |Octets(n)| <= k
  {
    if n > 0 {
      assert k > 0;
      assert n / 0x100 < Pow(0x100, k - 1);
      OctetsLength(n / 0x100, k - 1);
    }
  }

  lemma Square(k: nat, v: nat)
    requires Pow(0x100, k) == v
    ensures Pow(0x100, 2 * k) == v * v
  {
    PowAdd(0x100, k, k);
  }

  /** The exchange with the program's own keys and group is one the handshake theorems apply to. */
  lemma GenuineEnvironment(hmac: Hmac, tables: Blowfish.Tables)
    requires |tables.keys| == 16
    ensures Env(hmac, P1024, FMS_KEY, FP_KEY, RTMPE8_KEYS, tables).Valid()
  {
    P1024IsModulus();
  }
}
