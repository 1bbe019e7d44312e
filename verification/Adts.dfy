/** The AAC pusher's sliding-window reader: ADTS frames (section 6.2 of ISO/IEC 13818-7) out of a file, each sent
    without its seven header octets. */
module Adts {
  import opened Bytes
  import opened CFile

  const FAAD_MIN_STREAMSIZE := 768
  const MAX_CHANNELS := 64
  const WINDOW := FAAD_MIN_STREAMSIZE * MAX_CHANNELS
  const HEADER := 7

  // ---- frames ----

  /** Twelve set bits, then layer 0. */
  predicate Sync(s: seq<byte>)
    requires |s| >= 2
  {
    s[0] == 255 && s[1] / 16 == 15 && s[1] / 2 % 4 == 0
  }

  function LengthBits(b3: int, b4: int, b5: int): int {
    b3 % 4 * 2048 + b4 * 8 + b5 / 32
  }

  /** The thirteen bits across the fourth to sixth header octet. */
  function FrameLength(s: seq<byte>): (n: nat)
    requires |s| >= 6
    ensures n < 8192
  {
    LengthBits(s[3], s[4], s[5])
  }

  function Body(frame: seq<byte>): seq<byte>
    requires |frame| >= HEADER
  {
    [175, 1] + frame[HEADER..]
  }

  /** More than a header is left, it is in sync, and the frame is all there. */
  predicate FrameAhead(s: seq<byte>) {
    |s| > HEADER && Sync(s) && FrameLength(s) <= |s|
  }

  /** No frame the parser comes to claims to be shorter than its header. */
  ghost predicate Tame(s: seq<byte>)
    decreases |s|
  {
    FrameAhead(s) ==> FrameLength(s) >= HEADER && Tame(s[FrameLength(s)..])
  }

  /** The bodies sent for what is left of a file. */
  function Emitted(s: seq<byte>): seq<seq<byte>>
    requires Tame(s)
    decreases |s|
  {
    if !FrameAhead(s) then [] else [Body(s[..FrameLength(s)])] + Emitted(s[FrameLength(s)..])
  }

  /** A frame without CRC whose length field says how long it is. */
  ghost predicate WellFormed(f: seq<byte>) {
    |f| >= HEADER && Sync(f) && FrameLength(f) == |f|
  }

  ghost predicate AllWellFormed(fs: seq<seq<byte>>) {
    forall i :: 0 <= i < |fs| ==> WellFormed(fs[i])
  }

  ghost function Bodies(fs: seq<seq<byte>>): (bs: seq<seq<byte>>)
    requires AllWellFormed(fs)
    ensures |bs| == |fs|
  {
    if fs == [] then [] else [Body(fs[0])] + Bodies(fs[1..])
  }

  lemma HeadersAgree(f: seq<byte>, rest: seq<byte>)
    requires WellFormed(f)
    ensures var s := f + rest;
            && |s| >= HEADER && Sync(s) && FrameLength(s) == |f|
            && s[..|f|] == f && s[|f|..] == rest
  {
    var s := f + rest;
    assert s[0] == f[0] && s[1] == f[1] && s[3] == f[3] && s[4] == f[4] && s[5] == f[5];
  }

  /** A file of well-formed frames is tame; all its frames are sent, in order, but a last one that is nothing but a
      header. */
  lemma {:induction false} WellFormedEmitted(fs: seq<seq<byte>>)
    requires AllWellFormed(fs)
    ensures Tame(Flat(fs))
    ensures Emitted(Flat(fs)) == Bodies(if fs != [] && |fs[|fs| - 1]| == HEADER then fs[..|fs| - 1] else fs)
    decreases |fs|
  {
    if fs != [] {
      var rest := Flat(fs[1..]);
      WellFormedEmitted(fs[1..]);
      HeadersAgree(fs[0], rest);
      if |fs| == 1 {
        assert fs[1..] == [] && fs[..0] == [];
      } else {
        AtLeastHeader(fs[1..]);
        assert fs[1..][|fs| - 2] == fs[|fs| - 1];
        assert fs[..|fs| - 1][1..] == fs[1..][..|fs| - 2];
      }
    }
  }

  lemma AtLeastHeader(fs: seq<seq<byte>>)
    requires fs != [] && |fs[0]| >= HEADER
    ensures |Flat(fs)| >= HEADER
  {
  }

  // ---- files of written frames ----

  /** A frame as section 6.2 of ISO/IEC 13818-7 lays it out: ID and protection_absent, the third octet (profile,
      sampling frequency index, private bit and the first bit of the channel configuration), the upper six bits of the
      fourth, the buffer fullness, the number of raw data blocks; and all that follows the seven header octets. */
  datatype Frame = Frame(id: nat, absent: nat, third: byte, upper: nat, fullness: nat, blocks: nat, raw: seq<byte>) {
    ghost predicate Valid() {
      id < 2 && absent < 2 && upper < 64 && fullness < 0x800 && blocks < 4 && 7 + |raw| < 8192
    }
  }

  /** The thirteen bits of the length go to the end of the fourth octet, the fifth, and the start of the sixth. */
  ghost function Written(f: Frame): (s: seq<byte>)
    requires f.Valid()
    ensures |s| == 7 + |f.raw|
  {
    var n := 7 + |f.raw|;
    [0xFF, 0xF0 + 8 * f.id + f.absent, f.third, 4 * f.upper + n / 2048, n / 8 % 256, n % 8 * 32 + f.fullness / 64,
     f.fullness % 64 * 4 + f.blocks] + f.raw
  }

  /** For every length and whatever the other bits are, the parser reads the length that was written. */
  lemma LengthIsRead(upper: nat, n: nat, five: nat)
    requires upper < 64 && n < 8192 && five < 32
    ensures LengthBits(4 * upper + n / 2048, n / 8 % 256, n % 8 * 32 + five) == n
  {
  }

  /** What counts as a sync word: twelve set bits, then any ID, layer 0 and any protection bit. */
  lemma SyncIs(s: seq<byte>)
    requires |s| >= 2
    ensures Sync(s) <==> s[0] == 0xFF && (s[1] == 0xF0 || s[1] == 0xF1 || s[1] == 0xF8 || s[1] == 0xF9)
  {
    var b := s[1];
    if s[0] == 255 && b / 16 == 15 {
      var low := b - 240;
      assert b / 2 == 120 + low / 2;
    }
  }

  lemma WrittenIsWellFormed(f: Frame)
    requires f.Valid()
    ensures WellFormed(Written(f)) && Body(Written(f)) == [0xAF, 0x01] + f.raw
  {
    var s, n := Written(f), 7 + |f.raw|;
    SyncIs(s);
    LengthIsRead(f.upper, n, f.fullness / 64);
    assert s[HEADER..] == f.raw;
  }

  ghost predicate AllValid(fs: seq<Frame>) {
    forall i :: 0 <= i < |fs| ==> fs[i].Valid()
  }

  ghost function AllWritten(fs: seq<Frame>): (ss: seq<seq<byte>>)
    requires AllValid(fs)
    ensures |ss| == |fs| && forall i :: 0 <= i < |fs| ==> ss[i] == Written(fs[i])
  {
    seq(|fs|, i requires 0 <= i < |fs| => Written(fs[i]))
  }

  /** The audio bodies for these frames: AAC at 44 kHz, 16 bits, stereo (AF), a raw frame (01), then what is behind the
      header. */
  ghost function Audio(fs: seq<Frame>): seq<seq<byte>> {
    seq(|fs|, i requires 0 <= i < |fs| => [0xAF, 0x01] + fs[i].raw)
  }

  lemma {:induction false} BodiesAreAudio(fs: seq<Frame>)
    requires AllValid(fs)
    ensures AllWellFormed(AllWritten(fs)) && Bodies(AllWritten(fs)) == Audio(fs)
    decreases |fs|
  {
    forall i | 0 <= i < |fs|
      ensures WellFormed(AllWritten(fs)[i])
    {
      WrittenIsWellFormed(fs[i]);
    }
    if fs != [] {
      WrittenIsWellFormed(fs[0]);
      assert AllWritten(fs)[1..] == AllWritten(fs[1..]);
      BodiesAreAudio(fs[1..]);
      assert Audio(fs) == [[0xAF, 0x01] + fs[0].raw] + Audio(fs[1..]);
    }
  }

  /** A file of written frames is tame; all its frames are sent, in order, but a last one that is nothing but a
      header. */
  lemma FramesAreEmitted(fs: seq<Frame>)
    requires AllValid(fs)
    ensures Tame(Flat(AllWritten(fs)))
    ensures Emitted(Flat(AllWritten(fs))) == Audio(if fs != [] && fs[|fs| - 1].raw == [] then fs[..|fs| - 1] else fs)
  {
    BodiesAreAudio(fs);
    WellFormedEmitted(AllWritten(fs));
    if fs != [] {
      var front := fs[..|fs| - 1];
      assert AllWritten(fs)[..|fs| - 1] == AllWritten(front);
      BodiesAreAudio(front);
    }
  }

  /** Every frame of the file is sent exactly if the last one has an octet behind its header. */
  lemma AllEmitted(fs: seq<Frame>)
    requires AllValid(fs)
    ensures Tame(Flat(AllWritten(fs)))
    ensures Emitted(Flat(AllWritten(fs))) == Audio(fs) <==> fs == [] || fs[|fs| - 1].raw != []
  {
    FramesAreEmitted(fs);
  }

  /** A file of one frame that is nothing but a header: nothing is sent. */
  lemma BareHeaderIsLost(f: Frame)
    requires f == Frame(0, 1, 0, 0, 0, 0, [])
    ensures f.Valid() && Written(f) == [255, 241, 0, 0, 0, 224, 0]
    ensures Tame(Flat([Written(f)])) && Emitted(Flat([Written(f)])) == [] != Audio([f])
  {
    FramesAreEmitted([f]);
    assert AllWritten([f]) == [Written(f)];
    assert [f][..0] == [];
  }

  // ---- the window ----

  /** The RTMP connection: audio bodies handed to `SendPacket`, in order. */
  class Link {
    var sent: seq<seq<byte>>

    constructor ()
      ensures sent == []
    {
      sent := [];
    }

    method SendPacket(body: seq<byte>)
      modifies this
      ensures sent == old(sent) + [body]
    {
      sent := sent + [body];
    }
  }

  /** The octets of a text. */
  function Letters(t: string): (s: seq<byte>)
    requires forall i :: 0 <= i < |t| ==> t[i] < 128 as char
    ensures |s| == |t|
  {
    seq(|t|, i requires 0 <= i < |t| => t[i] as int)
  }

  const TAG: seq<byte> := Letters("TAG")
  const LYRICSBEGIN: seq<byte> := Letters("LYRICSBEGIN")
  const APETAGEX: seq<byte> := Letters("APETAGEX")

  predicate Begins(w: seq<byte>, mark: seq<byte>) {
    |w| > |mark| && w[..|mark|] == mark
  }

  /** What ends the audio in files that carry a tag at their end. */
  predicate Tagged(w: seq<byte>) {
    Begins(w, TAG) || Begins(w, LYRICSBEGIN) || Begins(w, APETAGEX)
  }

  /** The same in octets. */
  lemma TaggedIs(w: seq<byte>)
    ensures Tagged(w) <==>
              || (|w| > 3 && w[..3] == [84, 65, 71])
              || (|w| > 11 && w[..11] == [76, 89, 82, 73, 67, 83, 66, 69, 71, 73, 78])
              || (|w| > 8 && w[..8] == [65, 80, 69, 84, 65, 71, 69, 88])
  {
    assert TAG == [84, 65, 71];
    assert LYRICSBEGIN == [76, 89, 82, 73, 67, 83, 66, 69, 71, 73, 78];
    assert APETAGEX == [65, 80, 69, 84, 65, 71, 69, 88];
  }

  lemma TaggedIsNoFrame(w: seq<byte>)
    requires Tagged(w)
    ensures |w| >= 2 && !Sync(w)
  {
    var m := if Begins(w, TAG) then TAG else if Begins(w, LYRICSBEGIN) then LYRICSBEGIN else APETAGEX;
    assert w[0] == w[..|m|][0] == m[0];
  }

  lemma NextEmitted(s: seq<byte>, done: seq<seq<byte>>, whole: seq<seq<byte>>)
    requires Tame(s) && FrameAhead(s) && done + Emitted(s) == whole
    ensures FrameLength(s) >= HEADER && Tame(s[FrameLength(s)..])
    ensures done + [Body(s[..FrameLength(s)])] + Emitted(s[FrameLength(s)..]) == whole
  {
    Regrouped(done, [Body(s[..FrameLength(s)])], Emitted(s[FrameLength(s)..]));
  }

  lemma NoneEmitted(s: seq<byte>, done: seq<seq<byte>>)
    requires Tame(s) && !FrameAhead(s)
    ensures done + Emitted(s) == done
  {
  }

  class AacBuffer {
    var bytes_into_buffer: nat
    var bytes_consumed: nat
    var file_offset: nat
    const buffer: array<byte>
    var at_eof: bool
    const infile: File

    /** Opens the reader on a file and fills the window. */
    constructor (f: File)
      requires f.pos == 0 && !f.eof
      modifies f
      ensures Valid() && infile == f && file_offset == 0 && bytes_consumed == 0 && fresh(buffer)
    {
      infile := f;
      buffer := new byte[WINDOW](_ => 0);
      file_offset, bytes_consumed := 0, 0;
      new;
      var d := infile.Read(WINDOW);
      Store(buffer, 0, d);
      bytes_into_buffer := |d|;
      at_eof := |d| != WINDOW;
      assert buffer[0..|d|] == infile.data[0..|d|];
    }

    /** The window is the file from `file_offset` on, behind the octets consumed; the file cursor stands where it ends,
        and before the end of the file it takes up the whole buffer. */
    ghost predicate Valid()
      reads this, buffer, infile
    {
      && buffer.Length == WINDOW && bytes_consumed + bytes_into_buffer <= WINDOW
      && infile.pos == file_offset + bytes_into_buffer <= |infile.data|
      && buffer[bytes_consumed..bytes_consumed + bytes_into_buffer] == infile.data[file_offset..infile.pos]
      && (!at_eof ==> bytes_consumed + bytes_into_buffer == WINDOW)
      && (at_eof ==> infile.pos == |infile.data|)
    }

    /** What the parser has not taken yet. */
    ghost function Ahead(): seq<byte>
      requires file_offset <= |infile.data|
      reads this
    {
      infile.data[file_offset..]
    }

    lemma WindowIs()
      requires Valid() && bytes_consumed == 0
      ensures buffer[..bytes_into_buffer] == Ahead()[..bytes_into_buffer]
    {
      SliceOfSlice(infile.data, file_offset, |infile.data|, 0, bytes_into_buffer);
    }

    /** Moves the window to the front of the buffer and reads on; a tag empties it. */
    method FillBuffer()
      requires Valid()
      modifies this, buffer, infile
      ensures buffer.Length == WINDOW && file_offset == old(file_offset) <= |infile.data|
      ensures bytes_consumed == 0
      ensures if old(bytes_consumed) > 0 && Tagged(Ahead()[..if |Ahead()| <= WINDOW then |Ahead()| else WINDOW])
              then bytes_into_buffer == 0
              else Valid() && bytes_into_buffer == if |Ahead()| <= WINDOW then |Ahead()| else WINDOW
    {
      if bytes_consumed > 0 {
        Refill();
        WindowIs();
        var w := buffer[..bytes_into_buffer];
        if Begins(w, TAG) {
          bytes_into_buffer := 0;
        }
        if bytes_into_buffer > 11 && buffer[..11] == LYRICSBEGIN {
          assert Begins(w, LYRICSBEGIN);
          bytes_into_buffer := 0;
        }
        if bytes_into_buffer > 8 && buffer[..8] == APETAGEX {
          assert Begins(w, APETAGEX);
          bytes_into_buffer := 0;
        }
        assert bytes_into_buffer != 0 ==> buffer[..bytes_into_buffer] == w;
      }
    }

    method Refill()
      requires Valid() && bytes_consumed > 0
      modifies this, buffer, infile
      ensures Valid() && file_offset == old(file_offset) && bytes_consumed == 0
      ensures bytes_into_buffer == if |Ahead()| <= WINDOW then |Ahead()| else WINDOW
    {
      if bytes_into_buffer > 0 {
        Store(buffer, 0, buffer[bytes_consumed..bytes_consumed + bytes_into_buffer]);
      }
      assert buffer[..bytes_into_buffer] == infile.data[file_offset..infile.pos];
      if !at_eof {
        ReadOn();
      }
      bytes_consumed := 0;
    }

    /** Reads into the room behind the window, which is at the front of the buffer. */
    method ReadOn()
      requires buffer.Length == WINDOW == bytes_consumed + bytes_into_buffer && !at_eof
      requires infile.pos == file_offset + bytes_into_buffer <= |infile.data|
      requires buffer[..bytes_into_buffer] == infile.data[file_offset..infile.pos]
      modifies this`bytes_into_buffer, this`at_eof, buffer, infile
      ensures infile.pos == file_offset + bytes_into_buffer <= |infile.data| && bytes_into_buffer <= WINDOW
      ensures buffer[..bytes_into_buffer] == infile.data[file_offset..infile.pos]
      ensures if at_eof then infile.pos == |infile.data| else bytes_into_buffer == WINDOW
    {
      ghost var w, at := buffer[..bytes_into_buffer], infile.pos;
      var d := infile.Read(bytes_consumed);
      Store(buffer, bytes_into_buffer, d);
      Extends(infile.data, file_offset, at, infile.pos, w, d, buffer[..]);
      if |d| != bytes_consumed {
        at_eof := true;
      }
      bytes_into_buffer := bytes_into_buffer + |d|;
    }

    method AdvanceBuffer(bytes: nat)
      requires Valid() && bytes_consumed == 0 && bytes <= bytes_into_buffer
      modifies this
      ensures Valid() && file_offset == old(file_offset) + bytes && bytes_consumed == bytes
    {
      file_offset := file_offset + bytes;
      bytes_consumed := bytes;
      bytes_into_buffer := bytes_into_buffer - bytes;
    }

    /** With nothing consumed the window is as full as the file allows. */
    ghost predicate Ready()
      reads this, buffer, infile
    {
      Valid() && (bytes_consumed == 0 ==> bytes_into_buffer == if |Ahead()| <= WINDOW then |Ahead()| else WINDOW)
    }

    /** Sends the bodies of all frames from here on, and counts them. */
    method AdtsParse(link: Link) returns (frames: nat)
      requires Ready() && Tame(Ahead())
      modifies this, buffer, infile, link
      ensures link.sent == old(link.sent) + Emitted(old(Ahead()))
      ensures frames == |Emitted(old(Ahead()))|
    {
      frames := 0;
      var more := true;
      ghost var whole := Emitted(Ahead());
      ghost var s, done: seq<seq<byte>> := Ahead(), [];
      while more
        invariant file_offset <= |infile.data| && Tame(s)
        invariant if more then Ready() && s == Ahead() && done + Emitted(s) == whole else done == whole
        invariant link.sent == old(link.sent) + done && frames == |done|
        decreases more, |s|
      {
        more := ParseNext(link, s);
        if more {
          frames := frames + 1;
          NextEmitted(s, done, whole);
          done := done + [Body(s[..FrameLength(s)])];
          s := s[FrameLength(s)..];
        } else {
          NoneEmitted(s, done);
        }
      }
    }

    /** One turn of the frame loop; false where the program leaves it. */
    method ParseNext(link: Link, ghost s: seq<byte>) returns (more: bool)
      requires Ready() && s == Ahead() && Tame(s)
      modifies this, buffer, infile, link
      ensures file_offset <= |infile.data| && (more <==> FrameAhead(s))
      ensures !more ==> Ahead() == s && link.sent == old(link.sent)
      ensures more ==> Ready() && Ahead() == s[FrameLength(s)..]
      ensures more ==> link.sent == old(link.sent) + [Body(s[..FrameLength(s)])]
    {
      ghost var w := s[..if |s| <= WINDOW then |s| else WINDOW];
      FillBuffer();
      if bytes_into_buffer <= 7 {
        if Tagged(w) {
          TaggedIsNoFrame(w);
        }
        return false;
      }
      assert buffer[..bytes_into_buffer] == w;
      WindowShows(s, w, buffer[..]);
      if !(buffer[0] == 255 && buffer[1] / 16 == 15 && buffer[1] / 2 % 4 == 0) {
        return false;
      }
      var frameLength := LengthBits(buffer[3], buffer[4], buffer[5]);
      if frameLength > bytes_into_buffer {
        return false;
      }
      SendAndAdvance(link, frameLength, s);
      return true;
    }

    method SendAndAdvance(link: Link, length: nat, ghost s: seq<byte>)
      requires Valid() && s == Ahead() && bytes_consumed == 0 && HEADER <= length <= bytes_into_buffer
      modifies this, link
      ensures Ready() && Ahead() == s[length..] && link.sent == old(link.sent) + [Body(s[..length])]
    {
      assert buffer[..length] == buffer[0..bytes_into_buffer][..length] == s[..length];
      SendAACPacket(link, length);
      AdvanceBuffer(length);
    }

    method SendAACPacket(link: Link, length: nat)
      requires HEADER <= length <= buffer.Length
      modifies link
      ensures link.sent == old(link.sent) + [Body(buffer[..length])]
    {
      var body := new byte[2 + length - 7](_ => 0);
      body[0] := 175;
      body[1] := 1;
      Store(body, 2, buffer[7..length]);
      assert body[..] == Body(buffer[..length]);
      link.SendPacket(body[..]);
    }
  }

  lemma Extends(data: seq<byte>, from: nat, at: nat, to: nat, w: seq<byte>, d: seq<byte>, b: seq<byte>)
    requires from <= at <= to <= |data| && w == data[from..at] && d == data[at..to]
    requires |w| + |d| <= |b| && b[|w|..|w| + |d|] == d && b[..|w|] == w
    ensures b[..|w| + |d|] == data[from..to]
  {
    assert b[..|w| + |d|] == w + d;
  }

  lemma WindowShows(s: seq<byte>, w: seq<byte>, b: seq<byte>)
    requires HEADER < |w| <= |s| && |w| <= |b| && w == s[..|w|] == b[..|w|] && (|s| <= WINDOW ==> w == s)
    requires |s| > WINDOW ==> |w| == WINDOW
    ensures b[0] == s[0] && b[1] == s[1] && b[3] == s[3] && b[4] == s[4] && b[5] == s[5]
    ensures FrameLength(s) <= |s| <==> FrameLength(s) <= |w|
  {
    assert forall i :: 0 <= i < HEADER ==> b[i] == b[..|w|][i] == s[..|w|][i] == s[i];
  }
}
