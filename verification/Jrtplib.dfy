/** The jrtplib sender, which cuts an Annex B file into RTP packets, and the receiver that puts it together again. */
module Jrtplib {
  import opened Bytes
  import opened CFile
  import opened AnnexB

  const MAXLEN := 1300
  const BUFFER_SIZE := 102400
  const H264 := 96

  datatype RtpPacket = RtpPacket(payloadType: nat, marker: bool, payload: seq<byte>)

  // ---- what is sent for one unit ----

  /** Unit `u` gets its last packet marked. */
  predicate Marked(u: seq<byte>) {
    |u| <= MAXLEN || |u| % MAXLEN != 0
  }

  function PacketCount(u: seq<byte>): nat {
    if |u| <= MAXLEN then 1 else |u| / MAXLEN + if |u| % MAXLEN > 0 then 1 else 0
  }

  /** Where packet `i` begins, or the end of the unit. */
  function Cut(u: seq<byte>, i: nat): (c: nat)
    ensures c <= |u|
  {
    if i * MAXLEN <= |u| then i * MAXLEN else |u|
  }

  function Piece(u: seq<byte>, i: nat): RtpPacket
    requires i < PacketCount(u)
  {
    RtpPacket(H264, Marked(u) && i == PacketCount(u) - 1, u[Cut(u, i)..Cut(u, i + 1)])
  }

  /** The packets of a unit up to number `n`. */
  function Pieces(u: seq<byte>, n: nat): (ps: seq<RtpPacket>)
    requires n <= PacketCount(u)
    ensures |ps| == n && forall i :: 0 <= i < n ==> ps[i] == Piece(u, i)
  {
    if n == 0 then [] else Pieces(u, n - 1) + [Piece(u, n - 1)]
  }

  function PacketsOf(u: seq<byte>): (ps: seq<RtpPacket>)
    ensures |ps| == PacketCount(u) > 0
  {
    Pieces(u, PacketCount(u))
  }

  function Sent(us: seq<seq<byte>>): seq<RtpPacket> {
    if us == [] then [] else PacketsOf(us[0]) + Sent(us[1..])
  }

  function Payloads(ps: seq<RtpPacket>): seq<byte> {
    if ps == [] then [] else (if ps[0].payloadType == H264 then ps[0].payload else []) + Payloads(ps[1..])
  }

  // ---- cutting the file ----

  /** The sender looks for start codes of one length throughout: four octets if the file begins with such a code, three
      otherwise. */
  type CodeLength = c: int | c == 3 || c == 4 witness 4

  predicate CodeOf(s: seq<byte>, i: nat, c: CodeLength) {
    if c == 4 then Code4(s, i) else Code3(s, i)
  }

  /** The first start code from `i` on, or the end. */
  function NextOf(s: seq<byte>, i: nat, c: CodeLength): (e: nat)
    requires i <= |s|
    ensures i <= e <= |s| && (e < |s| ==> CodeOf(s, e, c))
    ensures forall j :: i <= j < e ==> !CodeOf(s, j, c)
    decreases |s| - i
  {
    if i == |s| || CodeOf(s, i, c) then i else NextOf(s, i + 1, c)
  }

  /** The units the sender makes of what it reads, start codes included; the last one gets the octet that `fgetc`'s
      end-of-file value becomes. */
  function UnitsOf(s: seq<byte>, c: CodeLength): (us: seq<seq<byte>>)
    requires CodeOf(s, 0, c)
    ensures us != []
    decreases |s|
  {
    var e := NextOf(s, c, c);
    if e == |s| then [s + [255]] else
      CodeBegins(s, e, c);
      [s[..e]] + UnitsOf(s[e..], c)
  }

  lemma CodeBegins(s: seq<byte>, e: nat, c: CodeLength)
    requires CodeOf(s, e, c)
    ensures CodeOf(s[e..], 0, c)
  {
  }

  /** The sender's buffer holds each unit and what is read behind it. */
  ghost predicate FitsBuffer(s: seq<byte>, c: CodeLength)
    requires CodeOf(s, 0, c)
  {
    UnitsFit(UnitsOf(s, c), c)
  }

  ghost predicate UnitsFit(us: seq<seq<byte>>, c: CodeLength) {
    forall i :: 0 <= i < |us| ==> |us[i]| + (if i == |us| - 1 then 0 else c) <= BUFFER_SIZE
  }

  lemma UnitsNext(s: seq<byte>, c: CodeLength)
    requires CodeOf(s, 0, c) && NextOf(s, c, c) < |s|
    ensures var e := NextOf(s, c, c); CodeOf(s[e..], 0, c) && UnitsOf(s, c) == [s[..e]] + UnitsOf(s[e..], c)
    ensures var e := NextOf(s, c, c); FitsBuffer(s, c) <==> e + c <= BUFFER_SIZE && FitsBuffer(s[e..], c)
  {
    var e := NextOf(s, c, c);
    CodeBegins(s, e, c);
    FitCons(s[..e], UnitsOf(s[e..], c), c);
  }

  lemma FitCons(u: seq<byte>, us: seq<seq<byte>>, c: CodeLength)
    requires us != []
    ensures UnitsFit([u] + us, c) <==> |u| + c <= BUFFER_SIZE && UnitsFit(us, c)
  {
    var all := [u] + us;
    assert all[0] == u && forall i :: 0 <= i < |us| ==> all[i + 1] == us[i];
    if UnitsFit(all, c) {
      forall i | 0 <= i < |us|
        ensures |us[i]| + (if i == |us| - 1 then 0 else c) <= BUFFER_SIZE
      {
        assert all[i + 1] == us[i];
      }
    }
  }

  /** Nothing is lost in cutting: the units are what was read and the octet for its end. */
  lemma {:induction false} UnitsConcatenate(s: seq<byte>, c: CodeLength)
    requires CodeOf(s, 0, c)
    ensures Flat(UnitsOf(s, c)) == s + [255]
    decreases |s|
  {
    var e := NextOf(s, c, c);
    if e == |s| {
      FlatOne(s + [255]);
    } else {
      CodeBegins(s, e, c);
      UnitsConcatenate(s[e..], c);
      assert UnitsOf(s, c)[1..] == UnitsOf(s[e..], c);
      assert s[..e] + (s[e..] + [255]) == s + [255];
    }
  }

  // ---- a whole file ----

  predicate BeginsWithCode(s: seq<byte>) {
    Code3(s, 0) || Code4(s, 0)
  }

  function LengthUsed(s: seq<byte>): CodeLength {
    if Code4(s, 0) then 4 else 3
  }

  /** What the scan gets to see: with three-octet codes the fourth octet read is written over. */
  function Seen(s: seq<byte>): (r: seq<byte>)
    requires BeginsWithCode(s) && |s| >= 4
    ensures CodeOf(r, 0, LengthUsed(s))
  {
    if Code4(s, 0) then s else s[..3] + s[4..]
  }

  /** The units of a file; one of three octets sets the end-of-file indicator before the scan begins. */
  function FileUnits(s: seq<byte>): (us: seq<seq<byte>>)
    requires BeginsWithCode(s)
    ensures us != []
  {
    if |s| < 4 then [s] else UnitsOf(Seen(s), LengthUsed(s))
  }

  ghost predicate FitsSender(s: seq<byte>)
    requires BeginsWithCode(s)
  {
    |s| >= 4 ==> FitsBuffer(Seen(s), LengthUsed(s))
  }

  /** All the octets sent for a file. */
  function Carried(s: seq<byte>): seq<byte>
    requires BeginsWithCode(s)
  {
    if |s| < 4 then s else Seen(s) + [255]
  }

  lemma UnitsAreCarried(s: seq<byte>)
    requires BeginsWithCode(s)
    ensures Flat(FileUnits(s)) == Carried(s)
  {
    if |s| < 4 {
      FlatOne(s);
    } else {
      UnitsConcatenate(Seen(s), LengthUsed(s));
    }
  }

  lemma FlatOne<T>(s: seq<T>)
    ensures Flat([s]) == s
  {
    FlatSnoc([], s);
    assert [] + [s] == [s];
  }

  // ---- packets of a unit ----

  lemma PayloadsAppend(a: seq<RtpPacket>, b: seq<RtpPacket>)
    ensures Payloads(a + b) == Payloads(a) + Payloads(b)
  {
    if a == [] {
      assert a + b == b;
    } else {
      assert (a + b)[1..] == a[1..] + b;
      PayloadsAppend(a[1..], b);
    }
  }

  lemma {:induction false} PiecesCover(u: seq<byte>, n: nat)
    requires n <= PacketCount(u)
    ensures Payloads(Pieces(u, n)) == u[..Cut(u, n)]
  {
    if n > 0 {
      PiecesCover(u, n - 1);
      var p := Piece(u, n - 1);
      PayloadsAppend(Pieces(u, n - 1), [p]);
      assert Payloads([p]) == p.payload + Payloads([]);
    }
  }

  /** A unit's packets, of payload type 96, carry 1300 octets each, the last one what is left, and the whole unit
      together. Only the last one can be marked, and it is exactly if the unit has at most 1300 octets or not a multiple
      of that. */
  lemma UnitIsSent(u: seq<byte>)
    ensures Payloads(PacketsOf(u)) == u
    ensures Marked(u) <==> |u| <= 1300 || |u| % 1300 != 0
    ensures var ps := PacketsOf(u);
            forall i :: 0 <= i < |ps| ==>
              ps[i].payloadType == 96 && |ps[i].payload| <= 1300 && (u != [] ==> ps[i].payload != [])
              && (i < |ps| - 1 ==> |ps[i].payload| == 1300) && (ps[i].marker <==> i == |ps| - 1 && Marked(u))
  {
    PiecesCover(u, PacketCount(u));
    assert Cut(u, PacketCount(u)) == |u|;
  }

  /** The payloads of everything sent for a file are the file and the octet for its end exactly if it begins with a
      four-octet start code; otherwise the fourth octet is missing. */
  lemma FileIsSent(s: seq<byte>)
    requires BeginsWithCode(s)
    ensures Payloads(Sent(FileUnits(s))) == s + [255] <==> Code4(s, 0)
    ensures !Code4(s, 0) && |s| >= 4 ==> Payloads(Sent(FileUnits(s))) == s[..3] + s[4..] + [255]
    ensures Payloads(Sent(FileUnits(s))) == Carried(s)
  {
    UnitsAreCarried(s);
    SentCarries(FileUnits(s));
    if !Code4(s, 0) {
      assert |Carried(s)| < |s + [255]|;
    }
  }

  lemma {:induction false} SentCarries(us: seq<seq<byte>>)
    ensures Payloads(Sent(us)) == Flat(us)
  {
    if us != [] {
      SentCarries(us[1..]);
      UnitIsSent(us[0]);
      PayloadsAppend(PacketsOf(us[0]), Sent(us[1..]));
    }
  }

  // ---- the sender ----

  /** The session as the sender uses it: the marker for the next packets, and what was sent. */
  class Session {
    var defaultMark: bool
    const defaultPayloadType: nat
    var sent: seq<RtpPacket>

    constructor ()
      ensures sent == [] && defaultPayloadType == H264
    {
      defaultMark, defaultPayloadType, sent := true, H264, [];
    }

    method SetDefaultMark(m: bool)
      modifies this`defaultMark
      ensures defaultMark == m
    {
      defaultMark := m;
    }

    method SendPacket(data: seq<byte>)
      modifies this`sent
      ensures sent == old(sent) + [RtpPacket(defaultPayloadType, defaultMark, data)]
    {
      sent := sent + [RtpPacket(defaultPayloadType, defaultMark, data)];
    }
  }

  lemma PieceAt(u: seq<byte>, b: seq<byte>, i: nat)
    requires |u| > MAXLEN && |u| <= |b| && b[..|u|] == u && i < PacketCount(u)
    ensures i * MAXLEN <= Cut(u, i + 1)
    ensures Cut(u, i + 1) == if i < |u| / MAXLEN then i * MAXLEN + MAXLEN else |u|
    ensures Piece(u, i) == RtpPacket(H264, i == |u| / MAXLEN, b[i * MAXLEN..Cut(u, i + 1)])
  {
    SliceOfSlice(b, 0, |u|, i * MAXLEN, Cut(u, i + 1));
  }

  method SendH264Nalu(sess: Session, h264buf: array<byte>, buflen: nat)
    requires buflen <= h264buf.Length && sess.defaultPayloadType == H264
    modifies sess
    ensures sess.sent == old(sess.sent) + PacketsOf(h264buf[..buflen])
  {
    ghost var u := h264buf[..buflen];
    if buflen <= MAXLEN {
      sess.SetDefaultMark(true);
      sess.SendPacket(h264buf[0..buflen]);
      assert h264buf[0..buflen] == u == u[Cut(u, 0)..Cut(u, 1)];
      assert PacketsOf(u) == Pieces(u, 0) + [Piece(u, 0)] == [Piece(u, 0)];
    } else {
      var allPacket, overData, sendPacket := buflen / MAXLEN, buflen % MAXLEN, 0;
      while sendPacket < allPacket || (sendPacket == allPacket && overData > 0)
        invariant sendPacket <= PacketCount(u) && sess.sent == old(sess.sent) + Pieces(u, sendPacket)
        decreases PacketCount(u) - sendPacket
      {
        SendPiece(sess, h264buf, buflen, sendPacket, allPacket, overData, u);
        sendPacket := sendPacket + 1;
      }
    }
  }

  /** One turn of the loop. */
  method SendPiece(sess: Session, h264buf: array<byte>, buflen: nat, sendPacket: nat, allPacket: nat, overData: nat,
                   ghost u: seq<byte>)
    requires MAXLEN < buflen <= h264buf.Length && u == h264buf[..buflen] && sess.defaultPayloadType == H264
    requires allPacket == buflen / MAXLEN && overData == buflen % MAXLEN
    requires sendPacket < allPacket || (sendPacket == allPacket && overData > 0)
    modifies sess
    ensures sess.sent == old(sess.sent) + [Piece(u, sendPacket)]
  {
    ghost var b := h264buf[..];
    PieceAt(u, b, sendPacket);
    var from := sendPacket * MAXLEN;
    if 0 == sendPacket || (sendPacket < allPacket && 0 != sendPacket) {
      sess.SetDefaultMark(false);
      assert h264buf[from..from + MAXLEN] == b[from..Cut(u, sendPacket + 1)];
      sess.SendPacket(h264buf[from..from + MAXLEN]);
    } else if (allPacket == sendPacket && overData > 0) || (sendPacket == allPacket - 1 && overData == 0) {
      sess.SetDefaultMark(true);
      var sendLen := if overData > 0 then buflen - from else MAXLEN;
      assert h264buf[from..from + sendLen] == b[from..Cut(u, sendPacket + 1)];
      sess.SendPacket(h264buf[from..from + sendLen]);
    }
  }

  /** The buffer holds the unit that began with `s` up to where the scan is, and no further start code. */
  ghost predicate Scanning(s: seq<byte>, c: CodeLength, pos: nat, b: seq<byte>) {
    && CodeOf(s, 0, c) && c <= pos <= |s| && pos <= |b| && b[..pos] == s[..pos]
    && (forall j :: c <= j && j + c <= pos ==> !CodeOf(s, j, c))
  }

  /** The test for a start code that ends at `pos`. */
  predicate EndsCode(b: seq<byte>, pos: nat, headerFlag: bool)
    requires 3 <= pos < |b|
  {
    if headerFlag then b[pos] == 1 && b[pos - 1] == 0 && b[pos - 2] == 0 && b[pos - 3] == 0
    else b[pos] == 1 && b[pos - 1] == 0 && b[pos - 2] == 0
  }

  /** The scan loop reads an octet, and sees whether a start code ends with it. */
  method ScanOctet(fd: File, buff: array<byte>, headerFlag: bool, pos: nat, ghost s: seq<byte>, ghost c: CodeLength)
    returns (found: bool)
    requires Scanning(s, c, pos, buff[..]) && FitsBuffer(s, c) && buff.Length == BUFFER_SIZE
    requires (headerFlag <==> c == 4) && s[pos..] == fd.Rest() && !fd.eof
    modifies fd, buff
    ensures fd.eof ==> !found && AtEnd(pos + 1, s, c, buff[..])
    ensures !fd.eof ==> pos + 1 <= |s| && fd.Rest() == s[pos + 1..] && |fd.Rest()| < |old(fd.Rest())|
    ensures !fd.eof && !found ==> Scanning(s, c, pos + 1, buff[..])
    ensures found ==> !fd.eof && UnitEnds(s, c, pos + 1 - c, buff[..])
  {
    RoomForOne(s, c, pos, buff[..]);
    ghost var was := buff[..];
    var x := fd.Getc();
    assert x == if pos < |s| then s[pos..][0] else -1;
    buff[pos] := if x == -1 then 255 else x;
    found := EndsCode(buff[..], pos, headerFlag);
    if x == -1 {
      NoCodeLeft(s, c, was);
      assert buff[..pos + 1] == was[..pos] + [255];
    } else {
      OctetScanned(s, c, pos, was, buff[..]);
    }
  }

  /** The unit ends at `e`, where the next start code begins, and is all in the buffer. */
  ghost predicate UnitEnds(s: seq<byte>, c: CodeLength, e: int, b: seq<byte>) {
    CodeOf(s, 0, c) && c <= e < |s| && e == NextOf(s, c, c) && e <= |b| && b[..e] == s[..e]
  }

  /** After one more octet: either no code ends with it, or the unit does before that code. */
  lemma OctetScanned(s: seq<byte>, c: CodeLength, pos: nat, was: seq<byte>, b: seq<byte>)
    requires Scanning(s, c, pos, was) && pos < |s| && pos < |was| && b == was[pos := s[pos]]
    ensures if EndsCode(b, pos, c == 4) then UnitEnds(s, c, pos + 1 - c, b) else Scanning(s, c, pos + 1, b)
  {
    PrefixGrows(s, pos, was, b);
    CodeTest(s, c, pos, b);
    if CodeOf(s, pos + 1 - c, c) {
      CodeFound(s, c, pos + 1 - c);
      ShorterPrefix(s, b, pos + 1, pos + 1 - c);
    }
  }

  lemma PrefixGrows<T>(s: seq<T>, pos: nat, was: seq<T>, b: seq<T>)
    requires pos < |s| && pos < |was| && was[..pos] == s[..pos] && b == was[pos := s[pos]]
    ensures b[..pos + 1] == s[..pos + 1]
  {
    assert b[..pos + 1] == was[..pos] + [s[pos]] == s[..pos + 1];
  }

  lemma ShorterPrefix<T>(s: seq<T>, b: seq<T>, n: nat, m: nat)
    requires m <= n <= |s| && n <= |b| && b[..n] == s[..n]
    ensures b[..m] == s[..m]
  {
    assert b[..m] == b[..n][..m] && s[..m] == s[..n][..m];
  }

  /** Sends the unit in the buffer; the next one begins with the start code just read. */
  method SendAndRestart(sess: Session, buff: array<byte>, headerFlag: bool, e: nat, ghost s: seq<byte>,
                        ghost c: CodeLength)
    requires UnitEnds(s, c, e, buff[..]) && (headerFlag <==> c == 4)
    requires buff.Length == BUFFER_SIZE && sess.defaultPayloadType == H264
    modifies buff, sess
    ensures Scanning(s[e..], c, c, buff[..]) && sess.sent == old(sess.sent) + PacketsOf(s[..e])
  {
    CodeBegins(s, e, c);
    assert buff[..e] == s[..e];
    SendH264Nalu(sess, buff, e);
    assert buff[..3] == buff[..e][..3] == s[..e][..3] == s[..3];
    RestoreStartCode(buff, headerFlag, s, c);
    ScanningStarts(s[e..], c, buff[..]);
  }

  /** With three-octet codes the third octet is left as it is, and the fourth one set instead. */
  method RestoreStartCode(buff: array<byte>, headerFlag: bool, ghost s: seq<byte>, ghost c: CodeLength)
    requires buff.Length >= 4 && (headerFlag <==> c == 4)
    requires CodeOf(s, 0, c) && buff[..3] == s[..3]
    modifies buff
    ensures CodeOf(buff[..], 0, c)
  {
    assert c == 3 ==> buff[2] == buff[..3][2] == s[..3][2] == 1;
    buff[0] := 0;
    buff[1] := 0;
    if headerFlag {
      buff[2] := 0;
    }
    buff[3] := 1;
  }

  lemma ScanningStarts(s: seq<byte>, c: CodeLength, b: seq<byte>)
    requires CodeOf(s, 0, c) && CodeOf(b, 0, c)
    ensures Scanning(s, c, c, b)
  {
  }

  ghost predicate Reading(fd: File, pos: nat, s: seq<byte>, c: CodeLength, b: seq<byte>)
    reads fd
  {
    Scanning(s, c, pos, b) && s[pos..] == fd.Rest()
  }

  ghost predicate AtEnd(pos: nat, s: seq<byte>, c: CodeLength, b: seq<byte>) {
    CodeOf(s, 0, c) && NextOf(s, c, c) == |s| && pos == |s| + 1 <= |b| && b[..pos] == s + [255]
  }

  lemma RoomForOne(s: seq<byte>, c: CodeLength, pos: nat, b: seq<byte>)
    requires Scanning(s, c, pos, b) && FitsBuffer(s, c) && |b| == BUFFER_SIZE
    ensures pos < |b| && (pos == |s| ==> |s| + 1 <= |b|)
  {
    if NextOf(s, c, c) < |s| {
      UnitsNext(s, c);
    }
    if pos == |s| {
      NoCodeLeft(s, c, b);
      assert UnitsOf(s, c)[0] == s + [255];
    }
  }

  lemma NoCodeLeft(s: seq<byte>, c: CodeLength, b: seq<byte>)
    requires Scanning(s, c, |s|, b)
    ensures NextOf(s, c, c) == |s|
  {
  }

  lemma CodeFound(s: seq<byte>, c: CodeLength, e: nat)
    requires CodeOf(s, 0, c) && 1 <= e && CodeOf(s, e, c)
    requires forall j :: c <= j < e ==> !CodeOf(s, j, c)
    ensures c <= e == NextOf(s, c, c) < |s|
  {
    assert s[c - 1] == 1;
  }

  lemma CodeTest(s: seq<byte>, c: CodeLength, pos: nat, b: seq<byte>)
    requires c <= pos < |s| && pos < |b| && b[..pos + 1] == s[..pos + 1]
    ensures CodeOf(s, pos + 1 - c, c) <==> EndsCode(b, pos, c == 4)
  {
    var x, y := b[..pos + 1], s[..pos + 1];
    assert x[pos] == y[pos] && x[pos - 1] == y[pos - 1] && x[pos - 2] == y[pos - 2] && x[pos - 3] == y[pos - 3];
  }

  /** The sender's main program on a file that begins with a start code of either length. */
  method Send(fd: File, sess: Session)
    requires fd.pos == 0 && !fd.eof && BeginsWithCode(fd.data) && FitsSender(fd.data)
    requires sess.sent == [] && sess.defaultPayloadType == H264
    modifies fd, sess
    ensures sess.sent == Sent(FileUnits(fd.data))
  {
    var buff := new byte[BUFFER_SIZE](_ => 0);
    ghost var data := fd.data;
    var headerFlag, pos := ReadHead(fd, buff);
    if fd.eof {
      assert FileUnits(data)[1..] == [];
      SendH264Nalu(sess, buff, pos);
      return;
    }
    ghost var s, c := Seen(data), LengthUsed(data);
    while !fd.eof
      invariant if fd.eof then AtEnd(pos, s, c, buff[..]) else Reading(fd, pos, s, c, buff[..])
      invariant CodeOf(s, 0, c) && FitsBuffer(s, c)
      invariant sess.sent + Sent(UnitsOf(s, c)) == Sent(FileUnits(data))
      decreases !fd.eof, |fd.Rest()|
    {
      ghost var was, before := s, sess.sent;
      pos, s := ScanTurn(fd, sess, buff, headerFlag, pos, s, c);
      MovedKeeps(was, c, s, before, sess.sent);
    }
    if pos != 0 {
      SentLast(s, c);
      SendH264Nalu(sess, buff, pos);
    }
  }

  /** Reads four octets to find out the length of the start codes; of three-octet codes the fourth octet gets lost. */
  method ReadHead(fd: File, buff: array<byte>) returns (headerFlag: bool, pos: nat)
    requires fd.pos == 0 && !fd.eof && BeginsWithCode(fd.data) && FitsSender(fd.data)
    requires buff.Length == BUFFER_SIZE
    modifies fd, buff
    ensures fd.eof <==> |fd.data| < 4
    ensures fd.eof ==> pos == 3 && buff[..3] == fd.data
    ensures !fd.eof ==> (headerFlag <==> LengthUsed(fd.data) == 4)
    ensures !fd.eof ==> Reading(fd, pos, Seen(fd.data), LengthUsed(fd.data), buff[..])
  {
    var d := fd.Read(4);
    assert d == if |fd.data| < 4 then fd.data else fd.data[..4];
    Store(buff, 0, d);
    assert buff[..|d|] == d;
    HeadIs(fd.data, buff[..]);
    headerFlag := buff[0] == 0 && buff[1] == 0 && buff[2] == 0 && buff[3] == 1;
    pos := if headerFlag then 4 else 3;
    if !fd.eof {
      HeadSeen(fd.data, buff[..]);
    }
  }

  lemma HeadSeen(s: seq<byte>, b: seq<byte>)
    requires BeginsWithCode(s) && |s| >= 4 && |b| >= 4 && b[..4] == s[..4]
    ensures var c := LengthUsed(s); Scanning(Seen(s), c, c, b) && Seen(s)[c..] == s[4..]
  {
    ShorterPrefix(s, b, 4, LengthUsed(s));
    assert Seen(s)[..LengthUsed(s)] == s[..LengthUsed(s)];
  }

  lemma HeadIs(s: seq<byte>, b: seq<byte>)
    requires BeginsWithCode(s) && |b| >= 4 && b[..if |s| < 4 then |s| else 4] == s[..if |s| < 4 then |s| else 4]
    ensures |s| >= 4 ==> (Code4(s, 0) <==> b[0] == 0 && b[1] == 0 && b[2] == 0 && b[3] == 1)
    ensures |s| < 4 ==> |s| == 3 && b[2] == 1
  {
    var n := if |s| < 4 then |s| else 4;
    assert forall i :: 0 <= i < n ==> b[i] == b[..n][i] == s[..n][i] == s[i];
  }

  /** Either the unit goes on or it went out, and the next one begins. */
  ghost predicate Moved(s: seq<byte>, c: CodeLength, rest: seq<byte>, before: seq<RtpPacket>, after: seq<RtpPacket>)
    requires |s| >= c
  {
    var e := NextOf(s, c, c);
    if rest == s then after == before else e < |s| && rest == s[e..] && after == before + PacketsOf(s[..e])
  }

  lemma MovedKeeps(s: seq<byte>, c: CodeLength, rest: seq<byte>, before: seq<RtpPacket>, after: seq<RtpPacket>)
    requires CodeOf(s, 0, c) && Moved(s, c, rest, before, after)
    ensures CodeOf(rest, 0, c) && (FitsBuffer(s, c) ==> FitsBuffer(rest, c))
    ensures after + Sent(UnitsOf(rest, c)) == before + Sent(UnitsOf(s, c))
  {
    if rest != s {
      UnitsNext(s, c);
      SentNext(s, c);
      Regrouped(before, PacketsOf(s[..NextOf(s, c, c)]), Sent(UnitsOf(rest, c)));
    }
  }

  /** One turn of the scan loop. */
  method ScanTurn(fd: File, sess: Session, buff: array<byte>, headerFlag: bool, pos: nat, ghost s: seq<byte>,
                  ghost c: CodeLength)
    returns (next: nat, ghost rest: seq<byte>)
    requires !fd.eof && Reading(fd, pos, s, c, buff[..]) && FitsBuffer(s, c) && (headerFlag <==> c == 4)
    requires buff.Length == BUFFER_SIZE && sess.defaultPayloadType == H264
    modifies fd, buff, sess
    ensures if fd.eof then AtEnd(next, rest, c, buff[..])
            else Reading(fd, next, rest, c, buff[..]) && |fd.Rest()| < |old(fd.Rest())|
    ensures Moved(s, c, rest, old(sess.sent), sess.sent)
  {
    var found := ScanOctet(fd, buff, headerFlag, pos, s, c);
    next, rest := pos + 1, s;
    if found {
      next := if headerFlag then 4 else 3;
      SendAndRestart(sess, buff, headerFlag, pos + 1 - next, s, c);
      rest := s[pos + 1 - next..];
      SliceOfSlice(s, pos + 1 - next, |s|, next, |rest|);
    }
  }

  lemma SentLast(s: seq<byte>, c: CodeLength)
    requires CodeOf(s, 0, c) && NextOf(s, c, c) == |s|
    ensures Sent(UnitsOf(s, c)) == PacketsOf(s + [255])
  {
    assert UnitsOf(s, c)[1..] == [];
  }

  lemma SentNext(s: seq<byte>, c: CodeLength)
    requires CodeOf(s, 0, c) && NextOf(s, c, c) < |s|
    ensures var e := NextOf(s, c, c);
            && CodeOf(s[e..], 0, c)
            && Sent(UnitsOf(s, c)) == PacketsOf(s[..e]) + Sent(UnitsOf(s[e..], c))
  {
    UnitsNext(s, c);
    assert UnitsOf(s, c)[1..] == UnitsOf(s[NextOf(s, c, c)..], c);
  }

  // ---- the receiver ----

  /** What the receiver has written to its file, and what it holds until a marked packet comes. */
  datatype Received = Received(file: seq<byte>, held: seq<byte>)

  function Accept(r: Received, p: RtpPacket): Received {
    if p.payloadType != H264 then r
    else if p.marker then Received(r.file + r.held + p.payload, [])
    else Received(r.file, r.held + p.payload)
  }

  function Accepted(r: Received, ps: seq<RtpPacket>): Received
    decreases |ps|
  {
    if ps == [] then r else Accepted(Accept(r, ps[0]), ps[1..])
  }

  ghost predicate FitsReceiver(r: Received, ps: seq<RtpPacket>)
    decreases |ps|
  {
    ps == [] || ((ps[0].payloadType == H264 ==> |r.held| + |ps[0].payload| <= BUFFER_SIZE)
                 && FitsReceiver(Accept(r, ps[0]), ps[1..]))
  }

  class Receiver {
    const buff: array<byte>
    var pos: nat
    var file: seq<byte>

    constructor ()
      ensures Valid() && fresh(buff) && State() == Received([], [])
    {
      buff := new byte[BUFFER_SIZE](_ => 0);
      pos, file := 0, [];
    }

    ghost predicate Valid()
      reads this
    {
      buff.Length == BUFFER_SIZE && pos <= buff.Length
    }

    ghost function State(): Received
      requires Valid()
      reads this, buff
    {
      Received(file, buff[..pos])
    }

    method Take(pack: RtpPacket)
      requires Valid() && (pack.payloadType == H264 ==> pos + |pack.payload| <= buff.Length)
      modifies this, buff
      ensures Valid() && State() == Accept(old(State()), pack)
    {
      if pack.payloadType == H264 {
        Store(buff, pos, pack.payload);
        assert buff[..pos + |pack.payload|] == old(buff[..pos]) + pack.payload;
        if pack.marker {
          file := file + buff[..pos + |pack.payload|];
          pos := 0;
          assert old(file) + (old(buff[..pos]) + pack.payload) == old(file) + old(buff[..pos]) + pack.payload;
        } else {
          pos := pos + |pack.payload|;
        }
      }
    }

    /** The packets the session hands out, in order. */
    method Receive(packs: seq<RtpPacket>)
      requires Valid() && FitsReceiver(State(), packs)
      modifies this, buff
      ensures Valid() && State() == Accepted(old(State()), packs)
    {
      var i := 0;
      while i < |packs|
        invariant i <= |packs| && Valid()
        invariant FitsReceiver(State(), packs[i..]) && Accepted(State(), packs[i..]) == Accepted(old(State()), packs)
      {
        Take(packs[i]);
        assert packs[i..][1..] == packs[i + 1..];
        i := i + 1;
      }
    }
  }

  /** Whatever comes, file and held octets together are the payloads received. */
  lemma {:induction false} NothingIsLost(r: Received, ps: seq<RtpPacket>)
    ensures var q := Accepted(r, ps); q.file + q.held == r.file + r.held + Payloads(ps)
    decreases |ps|
  {
    if ps == [] {
      assert r.file + r.held + [] == r.file + r.held;
    } else {
      NothingIsLost(Accept(r, ps[0]), ps[1..]);
      var x, p := r.file + r.held, if ps[0].payloadType == H264 then ps[0].payload else [];
      var a := Accept(r, ps[0]);
      assert a.file + a.held == x + p;
      assert x + p + Payloads(ps[1..]) == x + (p + Payloads(ps[1..]));
    }
  }

  lemma {:induction false} AcceptedAppend(r: Received, a: seq<RtpPacket>, b: seq<RtpPacket>)
    ensures Accepted(r, a + b) == Accepted(Accepted(r, a), b)
    ensures FitsReceiver(r, a + b) <==> FitsReceiver(r, a) && FitsReceiver(Accepted(r, a), b)
    decreases |a|
  {
    if a == [] {
      assert a + b == b;
    } else {
      assert (a + b)[1..] == a[1..] + b;
      AcceptedAppend(Accept(r, a[0]), a[1..], b);
    }
  }

  /** A unit moves what is held, and itself, to the file exactly if it is marked. */
  function AcceptUnit(r: Received, u: seq<byte>): Received {
    if Marked(u) then Received(r.file + r.held + u, []) else Received(r.file, r.held + u)
  }

  lemma AcceptedSnoc(r: Received, ps: seq<RtpPacket>, q: Received, p: RtpPacket)
    requires Accepted(r, ps) == q && p.payloadType == H264
    ensures Accepted(r, ps + [p]) == Accept(q, p)
    ensures FitsReceiver(r, ps + [p]) <==> FitsReceiver(r, ps) && |q.held| + |p.payload| <= BUFFER_SIZE
  {
    AcceptedAppend(r, ps, [p]);
    assert Accepted(q, [p]) == Accepted(Accept(q, p), []);
    assert FitsReceiver(q, [p]) <==> |q.held| + |p.payload| <= BUFFER_SIZE && FitsReceiver(Accept(q, p), []);
  }

  lemma {:induction false} PiecesHeld(r: Received, u: seq<byte>, n: nat)
    requires n <= PacketCount(u) && (Marked(u) ==> n < PacketCount(u))
    ensures Accepted(r, Pieces(u, n)) == Received(r.file, r.held + u[..Cut(u, n)])
    ensures FitsReceiver(r, Pieces(u, n)) <==> n == 0 || |r.held| + Cut(u, n) <= BUFFER_SIZE
  {
    if n == 0 {
      assert r.held + u[..0] == r.held;
    } else {
      PiecesHeld(r, u, n - 1);
      var p := Piece(u, n - 1);
      AcceptedSnoc(r, Pieces(u, n - 1), Received(r.file, r.held + u[..Cut(u, n - 1)]), p);
      assert r.held + u[..Cut(u, n - 1)] + u[Cut(u, n - 1)..Cut(u, n)] == r.held + u[..Cut(u, n)];
    }
  }

  lemma Regroup<T>(f: seq<T>, h: seq<T>, u: seq<T>, c: nat)
    requires c <= |u|
    ensures f + (h + u[..c]) + u[c..] == f + h + u
  {
    assert u[..c] + u[c..] == u;
  }

  lemma UnitAccepted(r: Received, u: seq<byte>)
    ensures Accepted(r, PacketsOf(u)) == AcceptUnit(r, u)
    ensures FitsReceiver(r, PacketsOf(u)) <==> |r.held| + |u| <= BUFFER_SIZE
  {
    var n := PacketCount(u);
    assert Cut(u, n) == |u| && u[..|u|] == u;
    if Marked(u) {
      PiecesHeld(r, u, n - 1);
      var c, p := Cut(u, n - 1), Piece(u, n - 1);
      AcceptedSnoc(r, Pieces(u, n - 1), Received(r.file, r.held + u[..c]), p);
      assert p.payload == u[c..];
      Regroup(r.file, r.held, u, c);
    } else {
      PiecesHeld(r, u, n);
    }
  }

  /** Units behind the last marked one. */
  function Tail(us: seq<seq<byte>>): nat {
    if us == [] || Marked(us[|us| - 1]) then 0 else 1 + Tail(us[..|us| - 1])
  }

  lemma {:induction false} SentSnoc(us: seq<seq<byte>>, u: seq<byte>)
    ensures Sent(us + [u]) == Sent(us) + PacketsOf(u)
  {
    if us == [] {
      assert Sent([u]) == PacketsOf(u) + Sent([]);
    } else {
      assert (us + [u])[1..] == us[1..] + [u];
      SentSnoc(us[1..], u);
    }
  }

  /** Sender to receiver: of the units sent, the file holds those up to the last marked one, octet by octet, and the
      receiver keeps holding the others. */
  lemma {:induction false} FileUpToMark(us: seq<seq<byte>>)
    ensures Tail(us) <= |us|
    ensures Accepted(Received([], []), Sent(us)) == Received(Flat(us[..|us| - Tail(us)]), Flat(us[|us| - Tail(us)..]))
    decreases |us|
  {
    if us != [] {
      var front, u := us[..|us| - 1], us[|us| - 1];
      assert us == front + [u];
      FileUpToMark(front);
      SentSnoc(front, u);
      AcceptedAppend(Received([], []), Sent(front), PacketsOf(u));
      var k, n := |front| - Tail(front), |us| - Tail(us);
      UnitAccepted(Received(Flat(front[..k]), Flat(front[k..])), u);
      OneMore(front, u, k);
      if Marked(u) {
        assert us[..n] == us && us[n..] == [];
      } else {
        SnocSlices(front, u, k);
        assert n == k;
      }
    }
  }

  lemma SnocSlices<T>(s: seq<T>, x: T, k: nat)
    requires k <= |s|
    ensures (s + [x])[..k] == s[..k] && (s + [x])[k..] == s[k..] + [x]
  {
  }

  lemma OneMore(front: seq<seq<byte>>, u: seq<byte>, k: nat)
    requires k <= |front|
    ensures AcceptUnit(Received(Flat(front[..k]), Flat(front[k..])), u)
         == if Marked(u) then Received(Flat(front + [u]), []) else Received(Flat(front[..k]), Flat(front[k..] + [u]))
  {
    assert front == front[..k] + front[k..];
    FlatAppend(front[..k], front[k..]);
    FlatSnoc(front, u);
    FlatSnoc(front[k..], u);
  }

  // ---- when the receiver's buffer is large enough ----

  /** With `h` octets held, every run of unmarked units fits the buffer together with the unit that closes it. */
  predicate RunsFit(h: nat, us: seq<seq<byte>>)
    decreases |us|
  {
    us == [] || (h + |us[0]| <= 102400 && RunsFit(if Marked(us[0]) then 0 else h + |us[0]|, us[1..]))
  }

  /** The receiver stays within its buffer exactly if the runs fit. */
  lemma {:induction false} ReceiverFits(r: Received, us: seq<seq<byte>>)
    ensures FitsReceiver(r, Sent(us)) <==> RunsFit(|r.held|, us)
    decreases |us|
  {
    if us != [] {
      UnitAccepted(r, us[0]);
      AcceptedAppend(r, PacketsOf(us[0]), Sent(us[1..]));
      ReceiverFits(AcceptUnit(r, us[0]), us[1..]);
    }
  }

  /** What fits the sender's buffer fits the receiver's if every unit is marked. */
  lemma {:induction false} MarkedUnitsFit(s: seq<byte>, c: CodeLength)
    requires CodeOf(s, 0, c) && FitsBuffer(s, c)
    requires forall i :: 0 <= i < |UnitsOf(s, c)| ==> Marked(UnitsOf(s, c)[i])
    ensures RunsFit(0, UnitsOf(s, c))
    decreases |s|
  {
    var us, e := UnitsOf(s, c), NextOf(s, c, c);
    assert Marked(us[0]) && |us[0]| <= BUFFER_SIZE;
    if e < |s| {
      UnitsNext(s, c);
      assert us[1..] == UnitsOf(s[e..], c);
      MarkedUnitsFit(s[e..], c);
    }
  }

  /** End to end: the file is received whole, with the octet for its end and without overrunning the receiver's buffer,
      exactly if it begins with a four-octet start code, its last unit is marked, and every run of unmarked units fits
      the buffer together with the unit that closes it. */
  lemma FileArrives(s: seq<byte>)
    requires BeginsWithCode(s) && FitsSender(s)
    ensures var us := FileUnits(s);
            var r := Accepted(Received([], []), Sent(us));
            && r.file + r.held == Carried(s)
            && (FitsReceiver(Received([], []), Sent(us)) && r.file == s + [255]
                <==> Code4(s, 0) && Marked(us[|us| - 1]) && RunsFit(0, us))
  {
    var us := FileUnits(s);
    var r := Accepted(Received([], []), Sent(us));
    NothingIsLost(Received([], []), Sent(us));
    FileIsSent(s);
    assert r.file + r.held == [] + [] + Carried(s) == Carried(s);
    ReceiverFits(Received([], []), us);
    LastUnit(s);
    EverythingIsWritten(us);
    assert Code4(s, 0) ==> |Carried(s)| == |s| + 1;
    assert !Code4(s, 0) ==> |Carried(s)| < |s| + 1;
  }

  /** Nothing stays held exactly if the last unit is marked. */
  lemma EverythingIsWritten(us: seq<seq<byte>>)
    requires us != [] && us[|us| - 1] != []
    ensures Accepted(Received([], []), Sent(us)).held == [] <==> Marked(us[|us| - 1])
  {
    FileUpToMark(us);
    if !Marked(us[|us| - 1]) {
      TailHeld(us, |us| - Tail(us));
    }
  }

  lemma TailHeld(us: seq<seq<byte>>, k: nat)
    requires k < |us| && us[|us| - 1] != []
    ensures Flat(us[k..]) != []
  {
    var most, u := us[k..|us| - 1], us[|us| - 1];
    assert us[k..] == most + [u];
    FlatSnoc(most, u);
  }

  lemma LastUnit(s: seq<byte>)
    requires BeginsWithCode(s)
    ensures var us := FileUnits(s); us[|us| - 1] != []
  {
    if |s| >= 4 {
      LastUnitOf(Seen(s), LengthUsed(s));
    }
  }

  lemma {:induction false} LastUnitOf(s: seq<byte>, c: CodeLength)
    requires CodeOf(s, 0, c)
    ensures var us := UnitsOf(s, c); us[|us| - 1] != []
    decreases |s|
  {
    var e := NextOf(s, c, c);
    if e < |s| {
      CodeBegins(s, e, c);
      LastUnitOf(s[e..], c);
    }
  }

  // ---- a file that overruns the receiver ----

  /** A unit of 2600 octets, which gets no marker. */
  function LongUnit(): (u: seq<byte>)
    ensures |u| == 2600 && Code4(u, 0) && !Marked(u)
    ensures forall j :: 4 <= j < 2600 ==> u[j] == 2
  {
    [0, 0, 0, 1] + seq(2596, _ => 2)
  }

  /** A unit `n` times, and a start code behind. */
  function Repeated(u: seq<byte>, n: nat): (s: seq<byte>)
    requires Code4(u, 0)
    ensures Code4(s, 0)
  {
    if n == 0 then [0, 0, 0, 1] else u + Repeated(u, n - 1)
  }

  lemma RunsFitCons(h: nat, u: seq<byte>, us: seq<seq<byte>>)
    requires us != [] && !Marked(u)
    ensures RunsFit(h, [u] + us) ==> RunsFit(h + |u|, us)
    ensures var all := [u] + us; all[|all| - 1] == us[|us| - 1]
  {
    assert ([u] + us)[1..] == us;
  }

  lemma UnitBefore(u: seq<byte>, rest: seq<byte>)
    requires 4 <= |u| <= BUFFER_SIZE - 4 && Code4(u, 0) && Code4(rest, 0) && forall j :: 4 <= j < |u| ==> u[j] == 2
    ensures Code4(u + rest, 0) && UnitsOf(u + rest, 4) == [u] + UnitsOf(rest, 4)
    ensures FitsBuffer(rest, 4) ==> FitsBuffer(u + rest, 4)
  {
    var s := u + rest;
    assert s[..|u|] == u && s[|u|..] == rest;
    assert CodeOf(s, |u|, 4);
    assert forall j :: 4 <= j < |u| ==> s[j] == 2 && !CodeOf(s, j, 4);
    assert NextOf(s, 4, 4) == |u|;
    UnitsNext(s, 4);
  }

  lemma OnlyCode(s: seq<byte>, h: nat)
    requires s == [0, 0, 0, 1]
    ensures FitsBuffer(s, 4) && UnitsOf(s, 4) == [[0, 0, 0, 1, 255]]
    ensures RunsFit(h, UnitsOf(s, 4)) ==> h <= BUFFER_SIZE
  {
    assert NextOf(s, 4, 4) == |s| && s + [255] == [0, 0, 0, 1, 255];
  }

  lemma {:induction false} RepeatedUnits(u: seq<byte>, n: nat, h: nat)
    requires |u| == 2600 && Code4(u, 0) && !Marked(u) && forall j :: 4 <= j < |u| ==> u[j] == 2
    ensures FitsBuffer(Repeated(u, n), 4)
    ensures var us := UnitsOf(Repeated(u, n), 4);
            && us[|us| - 1] == [0, 0, 0, 1, 255]
            && (RunsFit(h, us) ==> h + 2600 * n <= BUFFER_SIZE)
    decreases n
  {
    if n == 0 {
      OnlyCode(Repeated(u, n), h);
    } else {
      var rest := Repeated(u, n - 1);
      RepeatedUnits(u, n - 1, h + 2600);
      UnitBefore(u, rest);
      RunsFitCons(h, u, UnitsOf(rest, 4));
    }
  }

  /** Forty of them fit the sender, and the last unit is marked, but the receiver writes past its buffer. */
  lemma LongFileOverruns(n: nat)
    requires n == 40
    ensures var s := Repeated(LongUnit(), n); var us := FileUnits(s);
            && FitsSender(s) && Marked(us[|us| - 1]) && !FitsReceiver(Received([], []), Sent(us))
  {
    var s := Repeated(LongUnit(), n);
    RepeatedUnits(LongUnit(), n, 0);
    ReceiverFits(Received([], []), FileUnits(s));
  }
}
