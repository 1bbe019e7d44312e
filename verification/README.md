# Models of a streaming toolbox: RTMP handshake, RTP senders and receivers, file walkers

This project models the protocol and bitstream code of a collection of streaming programs and proves what that code
promises. Six parts, each in modules that follow the program's own files:

- **RTMP/RTMPE handshake** (`Xtea`, `XteaBits`, `Blowfish`, `DiffieHellman`, `HandshakeLayout`, `HandshakeMessages`,
  `HandshakeWire`, `HandshakeEnds`, `HandshakeProtocol`, `Genuine`). `HandshakeMessages` says what each end computes
  between its reads, `HandshakeWire` what that is octet by octet, `HandshakeEnds` does it in place on buffers and is
  proved to compute the same, and `HandshakeProtocol` runs the two ends as processes over two FIFO octet channels, with
  writes and reads broken up anywhere. `XteaBits` has the cipher once more, on single bits, with a known answer.
- **Intrusive hash table** (`KeyHashTable`, `InsertionOrder`). Heap nodes in a bucket chain and in a global list, with
  the pointer relinking of the original; every method is proved against the insertion-ordered list of entries and the
  cursor, and whole histories, run on the heap, against a plain map.
- **RTCP SDES and report layout** (`Sdes`, `CompoundBuilder`), RFC 3550, sections 6.4 and 6.5. The serializer is written
  from the RFC; the iterator is proved to read it back, and the builder's sizes to be its lengths.
- **Annex B splitter and FU-A packetizer** (`AnnexB`, `FuA`, `RtpPush`), ITU-T H.264 section B.1 and RFC 6184 sections
  5.6 and 5.8. The receiving side of RFC 6184 is written independently and fed with what the program sends.
- **jrtplib sender and receiver** (`Jrtplib`), with start codes of four or of three octets.
- **File walkers** (`Adts`, `FlvPush`): the sliding-window ADTS reader and the FLV tag walker.

`Bytes`, `Words`, `Wrappers` and `CFile` hold what the parts share: octets, memcpy, wrap-around arithmetic, values that may
be missing, a C stream.

HMAC-SHA256 is an arbitrary function to 32 octets, RC4 a key with a position, big numbers are integers. Random octets,
exponents, uptimes and clock readings are parameters. Where code and comment disagree the model follows the code:
`isValidPublicKey` accepts 1 to p - 1 although its messages say 2 to p - 2, and the program that pushes RTP sends single
units with an extra zero octet and drops a last fragment of fewer than two octets, against RFC 6184.

Properties that turn out to fail are stated with the exact condition under which they hold, and with an input they fail
on:

- A unit over 1400 octets arrives if and only if its length modulo 1400 is at least 2 (`FuA.FragmentsRebuild`); one of
  2800 octets does not (`FuA.CutShortUnit`).
- Sequence numbers have no gap if and only if no unit before the last is cut short (`FuA.SequenceNumbers`,
  `FuA.NumbersWithGap`).
- A file is received whole, without overrunning the receiver's buffer, if and only if it begins with a four-octet start
  code, its last unit is marked, and every run of unmarked units fits the buffer of 102400 octets together with the unit
  that closes it (`Jrtplib.FileArrives`); forty units of 2600 octets do not (`Jrtplib.LongFileOverruns`).
- All ADTS frames are sent if and only if the last has an octet behind its header (`Adts.AllEmitted`,
  `Adts.BareHeaderIsLost`).
- The size with an extra source is right exactly on a non-empty table
  (`CompoundBuilder.SDES.NeededBytesWithExtraSource`, `CompoundBuilder.FirstSourceNeeds`).

`dafny verify dfyconfig.toml` checks the whole project.

## Model

| member | source | states |
|---|---|---|
| `HandshakeProtocol.HandshakeCompletes` | rtmp/libRTMP_live_v4l2/include/librtmp/handshake.h:695-1419 | `HandShake` against `SHandShake`, for all random octets, exponents and modes (plain, signed, encrypted) and along every interleaving of partial writes and reads: no end fails, the run is bounded, it can no longer be extended exactly when both ends returned TRUE, every octet written was then read, and when encrypting the ends hold the RC4 keys of the secret 2^(xy) mod p: what the client sends is keyed by HMAC of the server's public key, what the server sends by HMAC of the client's, crossed at the two ends and past the 1536 handshake octets |
| `HandshakeProtocol.ScriptCompletes` | rtmp/libRTMP_live_v4l2/include/librtmp/handshake.h:814-973 | the protocol argument on its own: any two ends whose computations meet each other's messages complete, whatever the messages are |
| `HandshakeProtocol.StepKeepsInv` | rtmp/libRTMP_live_v4l2/include/librtmp/handshake.h:814-973 | every step keeps the invariant (each channel holds exactly what was written and not yet read, each end's partial read is a stretch of the other end's stream) and lowers the measure |
| `HandshakeProtocol.SomeoneCanMove` | rtmp/libRTMP_live_v4l2/include/librtmp/handshake.h:814-973 | no deadlock: unless both ends returned, one of them can move |
| `HandshakeProtocol.ScriptExists` | rtmp/libRTMP_live_v4l2/include/librtmp/handshake.h:1071-1419 | the messages the two programs compute fit together, in each mode, and leave both ends with those session keys |
| `HandshakeMessages.HelloIsReadBack` | rtmp/libRTMP_live_v4l2/include/librtmp/handshake.h:766-807 | a first message keeps its version octets, its public key sits where the receiver looks for it, and its digest verifies at the first offset tried |
| `HandshakeMessages.Negotiated` | rtmp/libRTMP_live_v4l2/include/librtmp/handshake.h:1098-1120 | the server accepts whatever type the client announces, in the mode the client asked for, and upgrades an encrypting client's 6 to 8 |
| `HandshakeMessages.RespondSucceeds` | rtmp/libRTMP_live_v4l2/include/librtmp/handshake.h:845-953 | an end that finds its peer's digest at the first offset, with the public key beside it, always derives keys and answers |
| `HandshakeMessages.BothFinish` | rtmp/libRTMP_live_v4l2/include/librtmp/handshake.h:980-1068 | both final signature checks succeed on the messages the ends make for each other; when encrypting, the client's outgoing and the server's incoming key are the first 16 octets of HMAC(secret, 2^y mod p) and the other two those of HMAC(secret, 2^x mod p), the secret being the octets of 2^(xy) mod p in 128, from the left |
| `HandshakeMessages.KeysCross` | rtmp/libRTMP_live_v4l2/include/librtmp/handshake.h:113-141 | the same of the two calls that derive the keys: which public key goes into which direction |
| `HandshakeMessages.TermsMean` | rtmp/libRTMP_live_v4l2/include/librtmp/handshake.h:1098-1120 | for every type and first message: only 3, 6 and 8 are accepted, all but 3 encrypt, 6 from version 128 becomes 8, and messages get signed exactly if they are encrypted or a version is given |
| `HandshakeEnds.ReadTerms` | rtmp/libRTMP_live_v4l2/include/librtmp/handshake.h:1098-1120 | the branches of `SHandShake` compute those terms |
| `HandshakeWire.ClientHelloIs` | rtmp/libRTMP_live_v4l2/include/librtmp/handshake.h:706-807 | what the client writes first, octet by octet: type 3 or 6; uptime, version 0.0.0.0, 10.0.45.2 or 128.0.3.2 and the random octets; over them HMAC of the rest under the first 30 octets of the player key at octets 8 to 11 mod 728 + 12, or when encrypting 772 to 775 mod 728 + 776, and 2^x mod p in 128 octets at 768 to 771 mod 632 + 8 |
| `HandshakeWire.ServerHelloIs` | rtmp/libRTMP_live_v4l2/include/librtmp/handshake.h:1098-1206 | what the server writes first: type 3 or 8, version 3.5.1.1 unless plain, digest under the first 36 octets of the server key, at the offsets of the same rules |
| `HandshakeWire.RepliesAre` | rtmp/libRTMP_live_v4l2/include/librtmp/handshake.h:914-953 | the second messages: the peer's first one when plain; else 1504 random octets (client) or the client's own (server), signed for the peer's digest under the whole player or server key |
| `HandshakeWire.SignatureSigns` | rtmp/libRTMP_live_v4l2/include/librtmp/handshake.h:1284-1305 | the signature computed and checked is, and nothing else is, HMAC of 1504 octets under HMAC of the digest, each eight octets of it encrypted with XTEA (type 8) or Blowfish (type 9) under the key the inner HMAC picks modulo 15 |
| `HandshakeMessages.PlainEchoes` | rtmp/libRTMP_live_v4l2/include/librtmp/handshake.h:1058-1065 | without signing each end gets its own first message back, as section 5.2 of the RTMP specification 1.0 asks, so neither warns |
| `HandshakeMessages.CipherInjective` | rtmp/libRTMP_live_v4l2/include/librtmp/handshake.h:337-693 | the cipher of every negotiated type maps different blocks to different blocks |
| `HandshakeMessages.UpgradeInjective` | rtmp/libRTMP_live_v4l2/include/librtmp/handshake.h:1288-1305 | an upgraded 32-octet signature matches exactly if the plain one does, for the types without cipher, XTEA and Blowfish |
| `HandshakeLayout.OffsetsNeverExit` | rtmp/libRTMP_live_v4l2/include/librtmp/handshake.h:146-259 | no 1536-octet message makes one of the four offset functions take its error exit |
| `HandshakeLayout.FieldsDisjoint` | rtmp/libRTMP_live_v4l2/include/librtmp/handshake.h:146-262 | digest field, key field and both locators of a scheme are disjoint, and lie behind uptime and version |
| `HandshakeLayout.WritesKeepOffsets` | rtmp/libRTMP_live_v4l2/include/librtmp/handshake.h:780-802 | writing either field moves neither field |
| `HandshakeLayout.SealedIsFound` | rtmp/libRTMP_live_v4l2/include/librtmp/handshake.h:278-303 | calculate then verify succeeds at the first offset tried, and sealing changed neither offsets, key field nor header |
| `HandshakeLayout.CalculateDigest` | rtmp/libRTMP_live_v4l2/include/librtmp/handshake.h:278-291 | the digest is that of the message with the digest field cut out |
| `HandshakeLayout.VerifyDigest` | rtmp/libRTMP_live_v4l2/include/librtmp/handshake.h:293-303 | true exactly if the field holds the digest of the rest |
| `HandshakeEnds.WriteHello` | rtmp/libRTMP_live_v4l2/include/librtmp/handshake.h:729-807 | the in-place construction of a first message is the message `HelloIsReadBack` is about |
| `HandshakeEnds.CheckSignature` | rtmp/libRTMP_live_v4l2/include/librtmp/handshake.h:997-1028 | succeeds exactly if the last 32 octets are the signature `SignatureSigns` describes |
| `HandshakeEnds.ClientEnd.OnHello` | rtmp/libRTMP_live_v4l2/include/librtmp/handshake.h:837-969 | `HandShake` between its reads computes the client's step of the protocol, FALSE included |
| `HandshakeEnds.ServerEnd.OnHello` | rtmp/libRTMP_live_v4l2/include/librtmp/handshake.h:1212-1329 | `SHandShake` between its reads computes the server's step, signing in the client's own buffer |
| `HandshakeEnds.ClientEnd.OnReply` | rtmp/libRTMP_live_v4l2/include/librtmp/handshake.h:980-1068 | the link gets its keys, advanced past the handshake, exactly when the server's signature matches |
| `HandshakeEnds.ServerEnd.OnReply` | rtmp/libRTMP_live_v4l2/include/librtmp/handshake.h:1338-1418 | the same for the server |
| `Genuine.GenuineEnvironment` | rtmp/libRTMP_live_v4l2/include/librtmp/handshake.h:88-111 | the theorems apply to the program's own keys and group |
| `Xtea.SignIsPermutation` | rtmp/libRTMP_live_v4l2/include/librtmp/handshake.h:337-362 | `rtmpe8_sig` and the rounds run backwards undo each other on all 8-octet strings and keys, packing included |
| `Xtea.SignInjective` | rtmp/libRTMP_live_v4l2/include/librtmp/handshake.h:337-362 | equal encrypted signatures come from equal signatures |
| `Xtea.UnroundsRounds` | rtmp/libRTMP_live_v4l2/include/librtmp/handshake.h:347-351 | any number of rounds is taken back by as many backward rounds, whatever the round functions |
| `Xtea.Rtmpe8Sig` | rtmp/libRTMP_live_v4l2/include/librtmp/handshake.h:337-362 | the in-place loop writes the octets after the 32 rounds of `RoundIs` and nothing else; input and output may overlap |
| `Xtea.RoundIs` | rtmp/libRTMP_live_v4l2/include/librtmp/handshake.h:347-351 | one round on any block, bit by bit: bit i of the mixed word is bit i - 4 of v xor bit i + 5 of v; plus v; xored with the sum plus the key word picked by bits 0 and 1 (before) or 11 and 12 (after 9E3779B9 was added); each half moved on by that, modulo 2^32 |
| `Xtea.HalfRoundUnique` | rtmp/libRTMP_live_v4l2/include/librtmp/handshake.h:347-351 | these equations have one solution, so they say all of a half round |
| `XteaBits.RoundsByBits` | rtmp/libRTMP_live_v4l2/include/librtmp/handshake.h:347-351 | for every block, key and number of rounds the cipher is the one that moves, xors and adds single bits with carries |
| `XteaBits.KnownBlock` | rtmp/libRTMP_live_v4l2/include/librtmp/handshake.h:347-351 | the 32 rounds take 41424344 45464748 under the key 00010203 04050607 08090A0B 0C0D0E0F to 497DF3D0 72612CB5 |
| `XteaBits.KnownAnswer` | rtmp/libRTMP_live_v4l2/include/librtmp/handshake.h:337-362 | the same as signature octets, least significant first |
| `Blowfish.CryptReversed` | rtmp/libRTMP_live_v4l2/include/librtmp/handshake.h:603-627 | for any tables and any round function, encrypting with the P array reversed undoes encrypting |
| `Blowfish.EncIsPermutation` | rtmp/libRTMP_live_v4l2/include/librtmp/handshake.h:600-627 | `bf_enc` is a bijection on 64-bit blocks for any tables |
| `Blowfish.SignIsPermutation` | rtmp/libRTMP_live_v4l2/include/librtmp/handshake.h:674-693 | `rtmpe9_sig` is a bijection on 8 octets for every scheduled key |
| `Blowfish.KeyTables.SetKey` | rtmp/libRTMP_live_v4l2/include/librtmp/handshake.h:629-672 | the in-place key schedule leaves the key that `ScheduleIs` and `MixedIs` describe: 521 encryptions of zero over the mixed table |
| `Blowfish.FIs` | rtmp/libRTMP_live_v4l2/include/librtmp/handshake.h:600-601 | the round function on any word abcd: box 0 at a plus box 1 at b, xored with box 2 at c, plus box 3 at d, modulo 2^32 |
| `Blowfish.NetworkIs` | rtmp/libRTMP_live_v4l2/include/librtmp/handshake.h:603-627 | the sixteen rounds without their swapping: eighteen words, each the one before the last xored with the round function of the last and the next subkey; the result is the seventeenth with the last subkey, and the eighteenth |
| `Blowfish.ScheduleIs` | rtmp/libRTMP_live_v4l2/include/librtmp/handshake.h:652-671 | the key schedule by its result: every pair of words is the encryption of the pair before (of zero, at the start) under the key with the words so far and the old ones behind |
| `Blowfish.MixedIs` | rtmp/libRTMP_live_v4l2/include/librtmp/handshake.h:639-650 | where it starts: subkey i xored with key octets 4 i to 4 i + 3, most significant first, the key starting over at its end |
| `Blowfish.Rtmpe9Sig` | rtmp/libRTMP_live_v4l2/include/librtmp/handshake.h:674-693 | the method writes the octets encrypted under the scheduled key and nothing else |
| `DiffieHellman.SecretsAgree` | rtmp/libRTMP_live_v4l2/include/librtmp/dh.h:143-164 | (2^x)^y and (2^y)^x agree modulo p |
| `DiffieHellman.ExchangeAgrees` | rtmp/libRTMP_live_v4l2/include/librtmp/dh.h:313-376 | each end accepts the other's 128 octets and both get the same 128 secret octets, those of 2^(xy) mod p from the left, for all exponents |
| `DiffieHellman.PublicIs` | rtmp/libRTMP_live_v4l2/include/librtmp/dh.h:309-327 | what travels are 128 octets that are 2^x mod p, most significant first |
| `DiffieHellman.PaddedDecodes` | rtmp/libRTMP_live_v4l2/include/librtmp/dh.h:309-327 | the key right-aligned in its field decodes to itself |
| `DiffieHellman.PowerOfTwoNonZero` | rtmp/libRTMP_live_v4l2/include/librtmp/dh.h:196-245 | no power of 2 is 0 modulo an odd p, so no generated key fails the range check |
| `DiffieHellman.MDH.GenerateKey` | rtmp/libRTMP_live_v4l2/include/librtmp/dh.h:279-307 | the retry loop keeps its first draw x, with 2^x mod p: it fails only if the random source does |
| `DiffieHellman.MDH.ComputeSharedSecretKey` | rtmp/libRTMP_live_v4l2/include/librtmp/dh.h:349-376 | -1 exactly for octets that are not a number from 1 to p - 1, else that number to the private exponent modulo p, its octets from the left |
| `Genuine.P1024IsModulus` | rtmp/libRTMP_live_v4l2/include/librtmp/dh.h:261-267 | the shipped modulus meets the conditions of the exchange |
| `InsertionOrder.HistoryAgrees` | rtp/jrtplib_send_recv_h264/include/rtpkeyhashtable.h:119-315 | over every history of additions, deletions by key and at the cursor, clears and cursor moves the list of entries holds no key twice and means exactly what a plain map means after the same changes |
| `KeyHashTable.RTPKeyHashTable.Replay` | rtp/jrtplib_send_recv_h264/include/rtpkeyhashtable.h:59-315 | the same on the heap: running any such history, with the cursor used only while it is defined, keeps the representation and leaves exactly the entries and the cursor the history says |
| `InsertionOrder.FindIsMember` | rtp/jrtplib_send_recv_h264/include/rtpkeyhashtable.h:175-220 | a lookup finds exactly the keys of that map, with their values |
| `InsertionOrder.StatusesMean` | rtp/jrtplib_send_recv_h264/include/rtpkeyhashtable.h:255-315 | what additions and deletions report, by the map: a bad index, a key that is there, a key that is not, or success; only success changes the entries |
| `InsertionOrder.KeptIs` | rtp/jrtplib_send_recv_h264/include/rtpkeyhashtable.h:59-67 | the entries a sweep keeps are those it is told to keep, each once and in order |
| `InsertionOrder.SweepStep` | rtp/jrtplib_send_recv_h264/include/rtpkeyhashtable.h:142-168 | one turn of a sweep visits the next entry and leaves the rest alone, whether the entry is deleted or kept |
| `KeyHashTable.RTPKeyHashTable.MeansMap` | rtp/jrtplib_send_recv_h264/include/rtpkeyhashtable.h:105-315 | in every valid heap state keys are unique and lookup agrees with the map of the entries |
| `KeyHashTable.RTPKeyHashTable.AddElement` | rtp/jrtplib_send_recv_h264/include/rtpkeyhashtable.h:255-304 | appends to the insertion order or reports bad index or duplicate; all links of both structures stay mutually inverse and every node in its own bucket |
| `KeyHashTable.RTPKeyHashTable.DeleteCurrentElement` | rtp/jrtplib_send_recv_h264/include/rtpkeyhashtable.h:119-173 | takes the element at the cursor out of chain, list and order, and moves the cursor to the one after it |
| `KeyHashTable.RTPKeyHashTable.DeleteElement` | rtp/jrtplib_send_recv_h264/include/rtpkeyhashtable.h:306-315 | removes exactly the entry with that key, or reports why not; the cursor ends up behind the deleted entry, past the end for an absent key, and where it was for a bad index |
| `KeyHashTable.RTPKeyHashTable.GotoElement` | rtp/jrtplib_send_recv_h264/include/rtpkeyhashtable.h:175-197 | the cursor lands on the key's entry or nowhere; a bad index leaves it alone |
| `KeyHashTable.RTPKeyHashTable.HasElement` | rtp/jrtplib_send_recv_h264/include/rtpkeyhashtable.h:199-220 | true exactly if the key is in the insertion order |
| `KeyHashTable.RTPKeyHashTable.Clear` | rtp/jrtplib_send_recv_h264/include/rtpkeyhashtable.h:236-253 | empties both structures; nothing is said about the cursor |
| `KeyHashTable.RTPKeyHashTable.Sweep` | rtp/jrtplib_send_recv_h264/include/rtpkeyhashtable.h:59-67 | from the first element on, deleting or stepping over each: terminates, visits every entry once in order, leaves exactly the kept ones in order |
| `Sdes.Walk` | rtp/jrtplib_send_recv_h264/include/rtcpsdespacket.h:162-244 | walking the packet laid out for any chunks yields those chunks: SSRCs in network order, ids, lengths and octets in order |
| `Sdes.RTCPSDESPacket.GetChunkSSRC` | rtp/jrtplib_send_recv_h264/include/rtcpsdespacket.h:202-210 | the number that the four octets of the SSRC are, most significant first; 0 without a chunk |
| `Words.LoadIsNumber` | rtp/jrtplib_send_recv_h264/include/rtcpsdespacket.h:208-209 | four octets read in network order are the number they stand for, and least significant first that of the octets turned round |
| `Sdes.RTCPSDESPacket.GetItemType` | rtp/jrtplib_send_recv_h264/include/rtcpsdespacket.h:246-279 | the item type by its number in RFC 3550, section 6.5; none behind the last item |
| `Sdes.RTCPSDESPacket.GotoNextChunk` | rtp/jrtplib_send_recv_h264/include/rtcpsdespacket.h:175-200 | steps by exactly the laid-out length of the chunk, or stays at the last one |
| `Sdes.RTCPSDESPacket.GotoNextItem` | rtp/jrtplib_send_recv_h264/include/rtcpsdespacket.h:225-244 | moves exactly if there is a further item |
| `Sdes.WalkItems` | rtp/jrtplib_send_recv_h264/include/rtcpsdespacket.h:212-244 | the item iterator yields the chunk's items in order and ends |
| `Sdes.EndInPlace` | rtp/jrtplib_send_recv_h264/include/rtcpsdespacket.h:180-196 | behind the last item there is a null octet and the chunk ends at the next 32-bit boundary |
| `Sdes.PrivateRoundTrip` | rtp/jrtplib_send_recv_h264/include/rtcpsdespacket.h:304-380 | a PRIV item built from prefix and value is read back as those |
| `Sdes.RTCPSDESPacket.GetPRIVValueData` | rtp/jrtplib_send_recv_h264/include/rtcpsdespacket.h:360-380 | points at the value octets, or is null when there are none or the item is malformed |
| `CompoundBuilder.Report.NeededBytesIsPacketOctets` | rtp/jrtplib_send_recv_h264/include/rtcpcompoundpacketbuilder.h:174-196 | the size formula is the length of the report packets of RFC 3550, sections 6.4.1 and 6.4.2, at most 31 blocks to a packet |
| `CompoundBuilder.Report.ExtraBlockIsExact` | rtp/jrtplib_send_recv_h264/include/rtcpcompoundpacketbuilder.h:198-211 | the size with an extra block is the length of the packets after adding it |
| `CompoundBuilder.PacketsAreOctets` | rtp/jrtplib_send_recv_h264/include/rtcpcompoundpacketbuilder.h:174-196 | the sizes added up (header, SSRC, sender info, blocks) are the lengths of the packets laid out field by field |
| `CompoundBuilder.OctetsOfSplit` | rtp/jrtplib_send_recv_h264/include/rtcpcompoundpacketbuilder.h:186-193 | the closed formula equals the sum over the packets, for any number of blocks |
| `CompoundBuilder.SDESSource.ExtraItemIsExact` | rtp/jrtplib_send_recv_h264/include/rtcpcompoundpacketbuilder.h:247-256 | the size with an extra item is the size after adding it |
| `CompoundBuilder.SDES.NeededBytes` | rtp/jrtplib_send_recv_h264/include/rtcpcompoundpacketbuilder.h:305-323 | the loop's sum is the octet total of the packets of at most 31 chunks |
| `CompoundBuilder.SDES.NeededBytesWithExtraItem` | rtp/jrtplib_send_recv_h264/include/rtcpcompoundpacketbuilder.h:325-344 | is `NeededBytes` after `AddItem`; 0 without a source |
| `CompoundBuilder.SDES.NeededBytesWithExtraSource` | rtp/jrtplib_send_recv_h264/include/rtcpcompoundpacketbuilder.h:346-368 | is `NeededBytes` after `AddSSRC` if the table is not empty, and 0 if it is |
| `CompoundBuilder.FirstSourceNeeds` | rtp/jrtplib_send_recv_h264/include/rtcpcompoundpacketbuilder.h:352-353 | that 0 is wrong for the first source, which takes 12 octets |
| `CompoundBuilder.ChunkLength` | rtp/jrtplib_send_recv_h264/include/rtcpcompoundpacketbuilder.h:236-245 | the builder's chunk size is the length of the chunk the iterator steps over |
| `CompoundBuilder.PacketLength` | rtp/jrtplib_send_recv_h264/include/rtcpcompoundpacketbuilder.h:305-323 | the builder's total is the length of the packet the iterator walks |
| `AnnexB.RoundTrip` | rtp/rtp_push_h264/rtp.c:86-181 | units joined with any mix of 3- and 4-octet start codes come back, prefix lengths included, if and only if no unit contains 00 00 01 and none but the last ends in 00 before a 3-octet code |
| `AnnexB.UnitsConserve` | rtp/rtp_push_h264/rtp.c:99-180 | prefixes and units concatenate to the whole file, for any file beginning with a start code |
| `AnnexB.UnitsAreClean` | rtp/rtp_push_h264/rtp.c:134-149 | no unit contains 00 00 01 |
| `AnnexB.ScanStep` | rtp/rtp_push_h264/rtp.c:146-152 | the two look-back tests find the next start code at its first octet, and neither misses one |
| `AnnexB.Scan` | rtp/rtp_push_h264/rtp.c:134-153 | the scan loop ends at the next start code or one octet past the end of the file, in a buffer as large as what it reads |
| `AnnexB.GetAnnexbNALU` | rtp/rtp_push_h264/rtp.c:86-181 | fills the record with the next unit, leaves the file at the next start code or at its end, and returns 0 and -1 as the code does |
| `FuA.FragmentsRebuild` | rtp/rtp_push_h264/rtp.c:271-403 | the fragments of a unit over 1400 octets form a complete FU-A unit (section 5.8 of RFC 6184) if and only if at least two octets are left for the last one; then there are len/1400 + 1 and they rebuild the unit |
| `FuA.UnitsArrive` | rtp/rtp_push_h264/rtp.c:218-405 | over any run a receiver of RFC 6184, sections 5.6 and 5.8, gets the units in order: unchanged if fragmented and not cut short, not at all if cut short; a unit sent singly with a zero octet added if and only if its type is 1 to 23 |
| `FuA.CutShortUnit` | rtp/rtp_push_h264/rtp.c:341-362 | a unit of 2800 octets is sent in two fragments that are never complete, and does not arrive |
| `FuA.SequenceNumbers` | rtp/rtp_push_h264/rtp.c:236-285 | the packets are numbered 0, 1, 2 and so on modulo 2^16 if and only if no unit but possibly the last one is cut short |
| `FuA.NumbersWithGap` | rtp/rtp_push_h264/rtp.c:285-362 | behind such a unit the numbers are not consecutive |
| `FuA.Timestamps` | rtp/rtp_push_h264/rtp.c:280-282 | all packets of unit i carry timestamp 3600 (i + 1) modulo 2^32 |
| `FuA.ParseOctets` | rtp/rtp_push_h264/rtp.c:222-236 | the datagram, octet by octet: 80, payload type 96 with the marker bit, number and timestamp most significant octet first, SSRC 10, payload; a receiver reads the packet back |
| `Words.BigEndian` | rtp/rtp_push_h264/rtp.c:252 | network order: the octets of a word are its digits to base 256, most significant first |
| `RtpPush.Pusher.SendFragment` | rtp/rtp_push_h264/rtp.c:283-402 | one turn of the fragment loop sends the fragment, or nothing for a last one without two octets, and uses up a sequence number either way |
| `RtpPush.Pusher.SendSingle` | rtp/rtp_push_h264/rtp.c:233-267 | a unit of at most 1400 octets goes out as header, unit and one zero octet |
| `RtpPush.Pusher.SendUnit` | rtp/rtp_push_h264/rtp.c:222-405 | the in-place construction of a unit's datagrams sends what the packet functions say, timestamps and numbers included |
| `RtpPush.Pusher.Push` | rtp/rtp_push_h264/rtp.c:218-406 | the `feof` loop terminates and sends exactly the packets of the file's units |
| `RtpPush.FileArrives` | rtp/rtp_push_h264/rtp.c:218-406 | end to end: a file joined from units that come back and fit the record, pushed and received, brings those units as `UnitsArrive` says |
| `Jrtplib.UnitIsSent` | rtp/jrtplib_send_recv_h264/sender.cpp:42-98 | a unit's packets have payload type 96 and carry 1300 octets each, the last one the rest, and the unit together; the last alone can be marked, and is exactly if the unit has at most 1300 octets or no multiple of them |
| `Jrtplib.SendH264Nalu` | rtp/jrtplib_send_recv_h264/sender.cpp:42-98 | the loop sends those packets |
| `Jrtplib.FileIsSent` | rtp/jrtplib_send_recv_h264/sender.cpp:137-179 | all payloads concatenate to the file and one octet 255 if and only if the file begins with a four-octet start code; with a three-octet one the fourth octet is missing |
| `Jrtplib.ScanOctet` | rtp/jrtplib_send_recv_h264/sender.cpp:149-161 | a start code, of the length in use, is found exactly when its last octet was read |
| `Jrtplib.Send` | rtp/jrtplib_send_recv_h264/sender.cpp:132-179 | the main program sends the packets of the file's units, for start codes of either length |
| `Jrtplib.NothingIsLost` | rtp/jrtplib_send_recv_h264/receive.cpp:68-93 | for any packets, file and held octets together are the payloads received |
| `Jrtplib.FileUpToMark` | rtp/jrtplib_send_recv_h264/receive.cpp:74-86 | the file holds the units up to the last marked one and the buffer the others |
| `Jrtplib.FileArrives` | rtp/jrtplib_send_recv_h264/receive.cpp:58-102 | end to end: the file and its end octet are received whole and within the receiver's buffer if and only if the file begins with a four-octet start code, the last unit is marked, and every run of unmarked units fits the buffer with the unit that closes it |
| `Jrtplib.LongFileOverruns` | rtp/jrtplib_send_recv_h264/receive.cpp:74-86 | forty units of 2600 octets and a bare start code fit the sender and end in a marked unit, but overrun the receiver's buffer |
| `Jrtplib.ReceiverFits` | rtp/jrtplib_send_recv_h264/receive.cpp:55-86 | the receiver stays within its buffer if and only if every run of unmarked units fits it with the unit that closes it, whatever it holds already |
| `Jrtplib.MarkedUnitsFit` | rtp/jrtplib_send_recv_h264/receive.cpp:55-86 | if every unit is marked, what fits the sender's buffer fits the receiver's |
| `Jrtplib.Receiver.Receive` | rtp/jrtplib_send_recv_h264/receive.cpp:64-94 | the loop accumulates and flushes as specified, within its buffer |
| `Adts.AllEmitted` | rtmp/rtmp_push_aac/librtmp_sendAAC.cpp:263-303 | all frames of a file of written frames are sent, as AF 01 and what is behind the seven header octets, if and only if the last one has an octet behind its header |
| `Adts.BareHeaderIsLost` | rtmp/rtmp_push_aac/librtmp_sendAAC.cpp:275-302 | a file of the one frame FF F1 00 00 00 E0 00: nothing of it is sent |
| `Adts.FramesAreEmitted` | rtmp/rtmp_push_aac/librtmp_sendAAC.cpp:263-303 | of a file of frames laid out as in ISO/IEC 13818-7, section 6.2, with any other header bits, a last frame that is nothing but a header is the only one not sent |
| `Adts.LengthIsRead` | rtmp/rtmp_push_aac/librtmp_sendAAC.cpp:284-285 | every length below 8192 written in its thirteen bits is read, whatever the other header bits are |
| `Adts.SyncIs` | rtmp/rtmp_push_aac/librtmp_sendAAC.cpp:278 | a frame begins FF and F0, F1, F8 or F9 |
| `Adts.AacBuffer.AdtsParse` | rtmp/rtmp_push_aac/librtmp_sendAAC.cpp:263-303 | the frame loop terminates and sends the bodies of the frames ahead, in order, on any file whose frames do not claim to be shorter than a header |
| `Adts.AacBuffer.FillBuffer` | rtmp/rtmp_push_aac/librtmp_sendAAC.cpp:138-181 | the window is the file at `file_offset`, as long as the buffer allows; a tag (`TaggedIs`) at its front empties it |
| `Adts.TaggedIs` | rtmp/rtmp_push_aac/librtmp_sendAAC.cpp:163-177 | the tags are TAG, LYRICSBEGIN and APETAGEX with an octet behind, in octets |
| `Adts.AacBuffer.Refill` | rtmp/rtmp_push_aac/librtmp_sendAAC.cpp:142-162 | moving and refilling keep window, file cursor and capacity in step |
| `Adts.AacBuffer.AdvanceBuffer` | rtmp/rtmp_push_aac/librtmp_sendAAC.cpp:183-188 | advancing keeps them in step too |
| `Adts.TaggedIsNoFrame` | rtmp/rtmp_push_aac/librtmp_sendAAC.cpp:163-177 | a window that a tag empties would not have begun with a frame anyway |
| `Adts.AacBuffer.SendAACPacket` | rtmp/rtmp_push_aac/librtmp_sendAAC.cpp:121-136 | the body is AF 01 and the frame without its seven header octets |
| `FlvPush.FileIsPushed` | rtmp/rtmp_push_flv/RTMPPushFlv.cpp:88-155 | on a file of written tags the writes are always its first tags in order, and all of them, which is the file behind octet 13, if the connection is up and the clock has stayed past every timestamp |
| `FlvPush.KeyFramesWait` | rtmp/rtmp_push_flv/RTMPPushFlv.cpp:92-102 | no key frame (type 9, first data octet 17) is written before the time since the start, modulo 2^32, has reached the timestamp of the tag ahead of it |
| `FlvPush.Paced` | rtmp/rtmp_push_flv/RTMPPushFlv.cpp:92-152 | the same for every tag that is held back: those behind a key frame with no other video tag between |
| `FlvPush.WritesArePrefix` | rtmp/rtmp_push_flv/RTMPPushFlv.cpp:104-134 | for any file, any clock and any connection the tags written are the first ones |
| `FlvPush.EverythingIsWritten` | rtmp/rtmp_push_flv/RTMPPushFlv.cpp:91-153 | every tag is written if the connection is up and the clock stays past all timestamps for as many turns as there are tags |
| `FlvPush.TagsOfFile` | rtmp/rtmp_push_flv/RTMPPushFlv.cpp:115-120 | on a file of tags laid out as in section E.4.1 of Adobe's specification the tags are the ones written |
| `FlvPush.LaidIs` | rtmp/rtmp_push_flv/RTMPPushFlv.cpp:104-120 | the walk finds the length, timestamp, type and first data octet that were written |
| `FlvPush.NumberIsRead` | rtmp/rtmp_push_flv/include/RTMPPushFlv.h:58-65 | any number below 2^24 written in three octets, most significant first, is the one read |
| `FlvPush.TimeIsRead` | rtmp/rtmp_push_flv/include/RTMPPushFlv.h:85-92 | any 32-bit time, its uppermost octet behind the other three, is the one read |
| `FlvPush.RTMPPushFlv.ReadTag` | rtmp/rtmp_push_flv/RTMPPushFlv.cpp:104-120 | measuring, jumping back and reading gives the tag whole, or fails where no whole tag is left |
| `FlvPush.RTMPPushFlv.LookAhead` | rtmp/rtmp_push_flv/RTMPPushFlv.cpp:136-152 | the peeks leave the cursor on the tag boundary; only a video tag changes the flag |
| `FlvPush.RTMPPushFlv.Worker` | rtmp/rtmp_push_flv/RTMPPushFlv.cpp:88-155 | the run writes what the specification of the walk says, for every sequence of clock readings, connection states and write results |
| `FlvPush.SwapIsU24` | rtmp/rtmp_push_flv/include/RTMPPushFlv.h:58-65 | reading three octets over a little-endian word and swapping them gives the number they are, most significant first, whatever the word held before |
| `FlvPush.SwapIsTime` | rtmp/rtmp_push_flv/include/RTMPPushFlv.h:85-92 | reading four octets and swapping them gives the time, with the fourth octet on top |

## Left out

- `RTPHashTable` (rtphashtable.h): its code is that of `RTPKeyHashTable` with the element as its own key; what is proved holds for it with the element type for both.
- Blowfish.KeyTables.SetKey: the pi digits and the sixteen type 9 keys are parameters (`Tables`); the proofs hold for any.
- DiffieHellman.MDH.ComputeSharedSecretKey: writes the secret from the left, as the OpenSSL build does; the GnuTLS and PolarSSL builds, which pad on the left, are not modelled.
- DiffieHellman.MDH.GenerateKey: the warning about y^q is not modelled, as it does not change the result.
- HandshakeProtocol.HandshakeCompletes: channels neither lose nor close; a failing read or write makes an end return FALSE and is not modelled.
- KeyHashTable.RTPKeyHashTable.Clear: constructor and `Clear` leave the cursor unset, as the code does, so cursor methods require a `Goto` call first.
- Sdes.Walk: packets that are not laid out as RFC 3550 says are outside the iterator's precondition; `EndBuild` is declared in the repository without its body, so the layout is from the RFC.
- AnnexB.GetAnnexbNALU: requires the record's buffer to hold what the scan reads, the unit and the code behind it; the code has no check.
- RtpPush.Pusher.Push: requires non-empty units, because the code copies len - 1 octets.
- FuA.UnitsArrive: units of at most 1400 octets must not have NAL unit types 24 to 29, which mark aggregation packets and fragments in RFC 6184; types 0, 30 and 31, reserved there, are dropped by the receiver.
- RtpPush.FileArrives: the same.
- Jrtplib.Send: requires a file that begins with a start code, and units that fit the buffer with what is read behind them; the code has no check.
- Jrtplib.Receiver.Receive: requires what accumulates to fit the buffer; the code has no check, and `ReceiverFits` says exactly when it does.
- Adts.AacBuffer.AdtsParse: frames that claim fewer than seven octets are excluded, as the code then copies a negative length; the bit rate and duration in floating point are not modelled.
- The remaining jrtplib classes (sources, scheduler, packet parsing, transmitters) are declared without bodies and are not part of this model.
- SWF verification token, sequence-header packets, logging, sleeps, memory managers and allocation failure.
- V4L2 capture, x264, live555 and the librtmp connection calls: device and library calls only.
- NTP time conversion: floating point.
