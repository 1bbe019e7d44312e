/** The FLV pusher: it walks the tags of a file (section E.4.1 of Adobe's Flash Video File Format Specification 10.1),
    looks ahead for key frames, and holds those back until their time has come. */
module FlvPush {
  import opened Bytes
  import opened Words
  import opened CFile

  // ---- tags ----

  /** Tag header of eleven octets, and PreviousTagSize behind the data. */
  const OVERHEAD := 15
  const VIDEO := 9
  const KEY_FRAME := 23

  /** A three-octet big-endian number. */
  function U24(d: seq<byte>): (n: nat)
    requires |d| == 3
    ensures n < 0x100_0000
  {
    (d[0] as int * 0x100 + d[1] as int) * 0x100 + d[2] as int
  }

  /** Timestamp, with TimestampExtended as its upper eight bits. */
  function Time(d: seq<byte>): (t: word)
    requires |d| == 4
  {
    d[3] as int * 0x100_0000 + U24(d[..3])
  }

  function TagSize(s: seq<byte>): nat
    requires |s| >= OVERHEAD
  {
    OVERHEAD + U24(s[1..4])
  }

  function Timestamp(s: seq<byte>): word
    requires |s| >= OVERHEAD
  {
    Time(s[4..8])
  }

  /** A whole tag is left, with its PreviousTagSize. */
  predicate TagAhead(s: seq<byte>) {
    |s| >= OVERHEAD && TagSize(s) <= |s|
  }

  /** The tags a stretch of the file begins with. */
  function Tags(s: seq<byte>): (ts: seq<seq<byte>>)
    ensures forall i :: 0 <= i < |ts| ==> |ts[i]| >= OVERHEAD
    decreases |s|
  {
    if !TagAhead(s) then [] else [s[..TagSize(s)]] + Tags(s[TagSize(s)..])
  }

  ghost predicate WellFormed(t: seq<byte>) {
    |t| >= OVERHEAD && TagSize(t) == |t|
  }

  /** On a well-formed file the tags are all of it, in order. */
  lemma {:induction false} TagsOfWellFormed(ts: seq<seq<byte>>)
    requires forall i :: 0 <= i < |ts| ==> WellFormed(ts[i])
    ensures Tags(Flat(ts)) == ts
  {
    if ts != [] {
      var t, rest := ts[0], Flat(ts[1..]);
      var s := t + rest;
      assert s[1..4] == t[1..4];
      assert s[..|t|] == t && s[|t|..] == rest;
      TagsOfWellFormed(ts[1..]);
    }
  }

  // ---- written tags ----

  /** A tag as section E.4.1 lays it out: type, timestamp, stream ID and data. */
  datatype Tag = Tag(kind: byte, time: word, stream: seq<byte>, data: seq<byte>) {
    ghost predicate Valid() {
      |stream| == 3 && |data| < 0x100_0000
    }
  }

  /** Type; three octets of data size, the most significant first; the lower three of the timestamp, the most
      significant first, then its upper one; the stream ID; the data; and the size of all this in four octets. */
  ghost function Laid(t: Tag): (s: seq<byte>)
    requires t.Valid()
    ensures |s| == 15 + |t.data|
  {
    var n, size := |t.data|, 11 + |t.data|;
    [t.kind, n / 0x1_0000, n / 0x100 % 0x100, n % 0x100,
     t.time / 0x1_0000 % 0x100, t.time / 0x100 % 0x100, t.time % 0x100, t.time / 0x100_0000] + t.stream + t.data
    + [size / 0x100_0000, size / 0x1_0000 % 0x100, size / 0x100 % 0x100, size % 0x100]
  }

  lemma Digits(n: nat)
    requires n < 0x100_0000
    ensures n == n / 0x1_0000 * 0x1_0000 + n / 0x100 % 0x100 * 0x100 + n % 0x100
  {
    assert n / 0x1_0000 == n / 0x100 / 0x100;
  }

  /** Whatever number below 2^24 is written in three octets, most significant first, is the one read. */
  lemma NumberIsRead(n: nat)
    requires n < 0x100_0000
    ensures U24([n / 0x1_0000, n / 0x100 % 0x100, n % 0x100]) == n
  {
    Digits(n);
  }

  /** So is every time, its uppermost octet written behind the others. */
  lemma TimeIsRead(t: word)
    ensures Time([t / 0x1_0000 % 0x100, t / 0x100 % 0x100, t % 0x100, t / 0x100_0000]) == t
  {
    var low, d := t % 0x100_0000, [t / 0x1_0000 % 0x100, t / 0x100 % 0x100, t % 0x100, t / 0x100_0000];
    LowOctets(t, t / 0x100_0000, low);
    NumberIsRead(low);
    assert d[..3] == [low / 0x1_0000, low / 0x100 % 0x100, low % 0x100];
  }

  lemma LowOctets(t: nat, top: nat, low: nat)
    requires t == 0x100_0000 * top + low && low < 0x100_0000
    ensures t / 0x1_0000 % 0x100 == low / 0x1_0000 && t / 0x100 % 0x100 == low / 0x100 % 0x100
    ensures t % 0x100 == low % 0x100
  {
    var a, b, c := low / 0x1_0000, low / 0x100 % 0x100, low % 0x100;
    Digits(low);
    RemainderUnique(t, 0x1_0000, 0x100 * top + a, 0x100 * b + c);
    RemainderUnique(0x100 * top + a, 0x100, top, a);
    RemainderUnique(t, 0x100, 0x1_0000 * top + 0x100 * a + b, c);
    RemainderUnique(0x1_0000 * top + 0x100 * a + b, 0x100, 0x100 * top + a, b);
  }

  /** The walk finds in a written tag what was written. */
  lemma LaidIs(t: Tag)
    requires t.Valid()
    ensures var s := Laid(t);
            && TagSize(s) == |s| && Timestamp(s) == t.time && s[0] == t.kind
            && s[11] == if t.data == [] then 0 else t.data[0]
  {
    var s, n := Laid(t), |t.data|;
    NumberIsRead(n);
    TimeIsRead(t.time);
    assert s[1..4] == [n / 0x1_0000, n / 0x100 % 0x100, n % 0x100];
    assert s[4..8] == [t.time / 0x1_0000 % 0x100, t.time / 0x100 % 0x100, t.time % 0x100, t.time / 0x100_0000];
  }

  ghost predicate AllValid(ts: seq<Tag>) {
    forall i :: 0 <= i < |ts| ==> ts[i].Valid()
  }

  ghost function AllLaid(ts: seq<Tag>): (ss: seq<seq<byte>>)
    requires AllValid(ts)
    ensures |ss| == |ts| && forall i :: 0 <= i < |ts| ==> ss[i] == Laid(ts[i])
  {
    seq(|ts|, i requires 0 <= i < |ts| => Laid(ts[i]))
  }

  /** The tags of a written file are the ones that were written, in order. */
  lemma TagsOfFile(ts: seq<Tag>)
    requires AllValid(ts)
    ensures Tags(Flat(AllLaid(ts))) == AllLaid(ts)
  {
    forall i | 0 <= i < |ts|
      ensures WellFormed(AllLaid(ts)[i])
    {
      LaidIs(ts[i]);
    }
    TagsOfWellFormed(AllLaid(ts));
  }

  // ---- what the run writes ----

  /** What one turn of the loop finds: the clock reading, whether the connection is up, and whether it would take the
      tag. */
  datatype Moment = Moment(now: word, connected: bool, accepts: bool)

  predicate Up(m: Moment) {
    m.connected && m.accepts
  }

  ghost predicate AllUp(clock: seq<Moment>) {
    forall i :: 0 <= i < |clock| ==> Up(clock[i])
  }

  /** A tag written, and the clock reading it was let through with. */
  datatype Event = Written(tag: seq<byte>, now: word)

  /** The lookahead: a video tag decides the flag by its first data octet, any other tag leaves it. */
  function KeyAhead(s: seq<byte>, key: bool): bool {
    if |s| >= 12 && s[0] == VIDEO then s[11] == KEY_FRAME else key
  }

  /** The run from a tag boundary on, for the turns to come: `before` is the timestamp of the tag written last. The run
      ends where no whole tag is left or the connection fails. */
  function Events(s: seq<byte>, before: word, key: bool, start: word, clock: seq<Moment>): (es: seq<Event>)
    ensures forall i :: 0 <= i < |es| ==> |es[i].tag| >= OVERHEAD
    decreases |clock|
  {
    if clock == [] then []
    else if Sub(clock[0].now, start) < before && key then Events(s, before, key, start, clock[1..])
    else if !TagAhead(s) || !Up(clock[0]) then []
    else
      var tag, rest := s[..TagSize(s)], s[TagSize(s)..];
      [Written(tag, clock[0].now)] + Events(rest, Timestamp(tag), KeyAhead(rest, key), start, clock[1..])
  }

  lemma {:induction false} NoTagNoEvent(s: seq<byte>, before: word, key: bool, start: word, clock: seq<Moment>)
    requires !TagAhead(s)
    ensures Events(s, before, key, start, clock) == []
  {
    if clock != [] && Sub(clock[0].now, start) < before && key {
      NoTagNoEvent(s, before, key, start, clock[1..]);
    }
  }

  function TagsOf(es: seq<Event>): (ts: seq<seq<byte>>)
    ensures |ts| == |es| && forall i :: 0 <= i < |es| ==> ts[i] == es[i].tag
  {
    seq(|es|, i requires 0 <= i < |es| => es[i].tag)
  }

  lemma TagsOfCons(e: Event, es: seq<Event>)
    ensures TagsOf([e] + es) == [e.tag] + TagsOf(es)
  {
  }

  lemma PrefixCons<T>(x: T, a: seq<T>, b: seq<T>)
    requires a <= b
    ensures [x] + a <= [x] + b
  {
    assert b == a + b[|a|..];
    assert [x] + b == [x] + a + b[|a|..];
  }

  /** Whatever clock and connection do, the tags written are the first ones of the file, in order. */
  lemma {:induction false} WritesArePrefix(s: seq<byte>, before: word, key: bool, start: word, clock: seq<Moment>)
    ensures TagsOf(Events(s, before, key, start, clock)) <= Tags(s)
    decreases |clock|
  {
    if clock == [] {
    } else if Sub(clock[0].now, start) < before && key {
      WritesArePrefix(s, before, key, start, clock[1..]);
    } else if TagAhead(s) && Up(clock[0]) {
      var tag, rest := s[..TagSize(s)], s[TagSize(s)..];
      var next := KeyAhead(rest, key);
      var es := Events(rest, Timestamp(tag), next, start, clock[1..]);
      WritesArePrefix(rest, Timestamp(tag), next, start, clock[1..]);
      TagsOfCons(Written(tag, clock[0].now), es);
      PrefixCons(tag, TagsOf(es), Tags(rest));
    }
  }

  /** No timestamp of the file lies after this reading. */
  ghost predicate Past(reading: word, start: word, ts: seq<seq<byte>>) {
    forall i :: 0 <= i < |ts| ==> |ts[i]| >= OVERHEAD && Timestamp(ts[i]) <= Sub(reading, start)
  }

  /** While the connection is up, and once the clock stays past all timestamps for as many turns as there are tags,
      every tag gets written. */
  lemma {:induction false} EverythingIsWritten(s: seq<byte>, before: word, key: bool, start: word, clock: seq<Moment>)
    requires |clock| >= |Tags(s)| && AllUp(clock)
    requires forall i :: |clock| - |Tags(s)| <= i < |clock| ==>
               Past(clock[i].now, start, Tags(s)) && before <= Sub(clock[i].now, start)
    ensures TagsOf(Events(s, before, key, start, clock)) == Tags(s)
    decreases |clock|
  {
    if TagAhead(s) {
      assert Up(clock[0]);
      if Sub(clock[0].now, start) < before && key {
        assert |clock| > |Tags(s)|;
        EverythingIsWritten(s, before, key, start, clock[1..]);
      } else {
        var tag, rest := s[..TagSize(s)], s[TagSize(s)..];
        var ts := Tags(s);
        assert ts[0] == tag && ts[1..] == Tags(rest);
        assert s[4..8] == tag[4..8];
        forall i | |clock[1..]| - |Tags(rest)| <= i < |clock[1..]|
          ensures Past(clock[1..][i].now, start, Tags(rest)) && Timestamp(tag) <= Sub(clock[1..][i].now, start)
        {
          assert Past(clock[i + 1].now, start, ts);
          assert forall j :: 0 <= j < |Tags(rest)| ==> Tags(rest)[j] == ts[j + 1];
          assert Timestamp(ts[0]) <= Sub(clock[i + 1].now, start);
        }
        EverythingIsWritten(rest, Timestamp(tag), KeyAhead(rest, key), start, clock[1..]);
        var es := Events(rest, Timestamp(tag), KeyAhead(rest, key), start, clock[1..]);
        TagsOfCons(Written(tag, clock[0].now), es);
      }
    } else {
      NoTagNoEvent(s, before, key, start, clock);
    }
  }

  // ---- pacing ----

  predicate KeyVideo(t: seq<byte>)
    requires |t| >= OVERHEAD
  {
    t[0] == VIDEO && t[11] == KEY_FRAME
  }

  /** The flag tag `i` is held back by: the last video tag up to it, but for the first tag, is a key frame. */
  function HeldBack(es: seq<Event>, i: nat, key: bool): bool
    requires i < |es| && forall k :: 0 <= k < |es| ==> |es[k].tag| >= OVERHEAD
  {
    if i == 0 then key
    else if es[i].tag[0] == VIDEO then KeyVideo(es[i].tag)
    else HeldBack(es, i - 1, key)
  }

  lemma {:induction false} HeldBackLater(e: Event, es: seq<Event>, i: nat, key: bool, next: bool)
    requires |e.tag| >= OVERHEAD && (forall k :: 0 <= k < |es| ==> |es[k].tag| >= OVERHEAD) && i < |es|
    requires next == if es[0].tag[0] == VIDEO then KeyVideo(es[0].tag) else key
    ensures HeldBack([e] + es, i + 1, key) == HeldBack(es, i, next)
  {
    if i > 0 {
      HeldBackLater(e, es, i - 1, key, next);
    } else {
      assert HeldBack([e] + es, 0, key) == key;
    }
  }

  lemma FirstIsNext(s: seq<byte>, before: word, key: bool, start: word, clock: seq<Moment>)
    ensures var es := Events(s, before, key, start, clock);
            es != [] ==> TagAhead(s) && es[0].tag == s[..TagSize(s)]
                         && (key ==> before <= Sub(es[0].now, start))
    decreases |clock|
  {
  }

  // One more event in front of a paced run
  lemma PacedStep(e: Event, es: seq<Event>, rest: seq<byte>, key: bool, start: word, i: nat)
    requires |e.tag| >= OVERHEAD && (forall k :: 0 <= k < |es| ==> |es[k].tag| >= OVERHEAD) && 0 < i <= |es|
    requires TagAhead(rest) && es[0].tag == rest[..TagSize(rest)]
    requires KeyAhead(rest, key) ==> Timestamp(e.tag) <= Sub(es[0].now, start)
    requires i > 1 && HeldBack(es, i - 1, KeyAhead(rest, key)) ==> Timestamp(es[i - 2].tag) <= Sub(es[i - 1].now, start)
    ensures HeldBack([e] + es, i, key) ==> Timestamp(([e] + es)[i - 1].tag) <= Sub(([e] + es)[i].now, start)
  {
    assert es[0].tag[0] == rest[0] && es[0].tag[11] == rest[11];
    HeldBackLater(e, es, i - 1, key, KeyAhead(rest, key));
  }

  /** Pacing: a tag that is held back is written only when the time since the start, modulo 2^32, has reached the
      timestamp of the tag before it. */
  lemma {:induction false} PacedEvents(s: seq<byte>, before: word, key: bool, start: word, clock: seq<Moment>, i: nat)
    requires 0 < i < |Events(s, before, key, start, clock)|
    ensures var es := Events(s, before, key, start, clock);
            HeldBack(es, i, key) ==> Timestamp(es[i - 1].tag) <= Sub(es[i].now, start)
    decreases |clock|
  {
    if Sub(clock[0].now, start) < before && key {
      PacedEvents(s, before, key, start, clock[1..], i);
    } else {
      var tag, rest := s[..TagSize(s)], s[TagSize(s)..];
      var next := KeyAhead(rest, key);
      var e, es := Written(tag, clock[0].now), Events(rest, Timestamp(tag), next, start, clock[1..]);
      FirstIsNext(rest, Timestamp(tag), next, start, clock[1..]);
      if i > 1 {
        PacedEvents(rest, Timestamp(tag), next, start, clock[1..], i - 1);
      }
      PacedStep(e, es, rest, key, start, i);
      assert Events(s, before, key, start, clock) == [e] + es;
    }
  }

  /** A video tag (type 9) with a key frame in AVC (17) as its first data octet. */
  predicate KeyTag(t: Tag) {
    t.kind == 9 && t.data != [] && t.data[0] == 0x17
  }

  /** Whether tag `i` is held back: the first one is, a video tag if it is a key frame, any other like the one before.
      */
  predicate Held(ts: seq<Tag>, i: nat)
    requires i < |ts|
  {
    if i == 0 then true else if ts[i].kind == 9 then KeyTag(ts[i]) else Held(ts, i - 1)
  }

  lemma {:induction false} HeldIs(ts: seq<Tag>, es: seq<Event>, i: nat)
    requires AllValid(ts) && i < |es| <= |ts| && TagsOf(es) == AllLaid(ts)[..|es|]
    requires forall k :: 0 <= k < |es| ==> |es[k].tag| >= OVERHEAD
    ensures HeldBack(es, i, true) == Held(ts, i)
  {
    assert es[i].tag == TagsOf(es)[i] == Laid(ts[i]);
    LaidIs(ts[i]);
    if i > 0 {
      HeldIs(ts, es, i - 1);
    }
  }

  /** What the run writes of a written file is the first tags of it. */
  lemma FirstTags(ts: seq<Tag>, start: word, clock: seq<Moment>)
    requires AllValid(ts)
    ensures var es := Events(Flat(AllLaid(ts)), 0, true, start, clock);
            |es| <= |ts| && TagsOf(es) == AllLaid(ts)[..|es|] && forall i :: 0 <= i < |es| ==> es[i].tag == Laid(ts[i])
  {
    var es := Events(Flat(AllLaid(ts)), 0, true, start, clock);
    TagsOfFile(ts);
    WritesArePrefix(Flat(AllLaid(ts)), 0, true, start, clock);
    forall i | 0 <= i < |es|
      ensures es[i].tag == Laid(ts[i])
    {
      assert es[i].tag == TagsOf(es)[i] == AllLaid(ts)[i];
    }
  }

  lemma PacedTags(ts: seq<Tag>, es: seq<Event>, start: word, i: nat)
    requires AllValid(ts) && 0 < i < |es| <= |ts| && TagsOf(es) == AllLaid(ts)[..|es|]
    requires forall k :: 0 <= k < |es| ==> es[k].tag == Laid(ts[k])
    requires HeldBack(es, i, true) ==> Timestamp(es[i - 1].tag) <= Sub(es[i].now, start)
    ensures Held(ts, i) ==> ts[i - 1].time <= (es[i].now - start) % 0x1_0000_0000
  {
    HeldIs(ts, es, i);
    LaidIs(ts[i - 1]);
    SubIsModular(es[i].now, start);
  }

  /** Pacing: of a written file a tag that is held back goes out only when the time since the start, modulo 2^32, has
      reached the timestamp of the tag before it. */
  lemma Paced(ts: seq<Tag>, start: word, clock: seq<Moment>, i: nat)
    requires AllValid(ts) && 0 < i < |Events(Flat(AllLaid(ts)), 0, true, start, clock)|
    ensures var es := Events(Flat(AllLaid(ts)), 0, true, start, clock);
            && |es| <= |ts| && es[i].tag == Laid(ts[i])
            && (Held(ts, i) ==> ts[i - 1].time <= (es[i].now - start) % 0x1_0000_0000)
  {
    var s := Flat(AllLaid(ts));
    FirstTags(ts, start, clock);
    PacedEvents(s, 0, true, start, clock, i);
    PacedTags(ts, Events(s, 0, true, start, clock), start, i);
  }

  /** No key frame goes out before the time of the tag ahead of it. */
  lemma KeyFramesWait(ts: seq<Tag>, start: word, clock: seq<Moment>, i: nat)
    requires AllValid(ts) && 0 < i < |Events(Flat(AllLaid(ts)), 0, true, start, clock)|
    ensures var es := Events(Flat(AllLaid(ts)), 0, true, start, clock);
            && |es| <= |ts| && es[i].tag == Laid(ts[i])
            && (KeyTag(ts[i]) ==> ts[i - 1].time <= (es[i].now - start) % 0x1_0000_0000)
  {
    Paced(ts, start, clock, i);
  }

  // ---- byte order ----

  /** Three octets read over the low ones of a little-endian word. */
  function Overlaid(old3: word, d: seq<byte>): word
    requires |d| == 3
  {
    old3 / 0x100_0000 * 0x100_0000 + d[2] as int * 0x1_0000 + d[1] as int * 0x100 + d[0] as int
  }

  function HTON24(x: word): word {
    x / 0x1_0000 % 0x100 + x % 0x100 * 0x1_0000 + x / 0x100 % 0x100 * 0x100
  }

  function HTONTIME(x: word): word {
    HTON24(x) + x / 0x100_0000 * 0x100_0000
  }

  lemma SwapOf(x: word, top: nat, a: byte, b: byte, c: byte)
    requires x == 0x100_0000 * top + 0x1_0000 * c as int + 0x100 * b as int + a as int
    ensures HTON24(x) == a as int * 0x1_0000 + b as int * 0x100 + c as int && x / 0x100_0000 == top
  {
    RemainderUnique(x, 0x100, 0x1_0000 * top + 0x100 * c as int + b, a);
    RemainderUnique(0x1_0000 * top + 0x100 * c as int + b, 0x100, 0x100 * top + c, b);
    RemainderUnique(x, 0x1_0000, 0x100 * top + c, 0x100 * b as int + a);
    RemainderUnique(0x100 * top + c, 0x100, top, c);
    RemainderUnique(x, 0x100_0000, top, 0x1_0000 * c as int + 0x100 * b as int + a);
  }

  /** Swapping reads a three-octet number, whatever was in the word's upper octet. */
  lemma SwapIsU24(old3: word, d: seq<byte>)
    requires |d| == 3
    ensures HTON24(Overlaid(old3, d)) == U24(d) == ToNat(d)
  {
    SwapOf(Overlaid(old3, d), old3 / 0x100_0000, d[0], d[1], d[2]);
    assert d == [d[0], d[1], d[2]];
    ToNatThree(d[0], d[1], d[2]);
  }

  /** The same for a time, whose fourth octet is the most significant one. */
  lemma SwapIsTime(d: seq<byte>)
    requires |d| == 4
    ensures HTONTIME(Load32(d)) == Time(d) == ToNat([d[3], d[0], d[1], d[2]])
  {
    SwapOf(Load32(d), d[3], d[0], d[1], d[2]);
    ToNatFour(d[3], d[0], d[1], d[2]);
  }

  // ---- the walk ----

  class RTMPPushFlv {
    const fp: File
    var start_time: word
    var now_time: word
    var pre_frame_time: word
    var b_next_is_key: bool
    var kind: byte
    var datalength: word
    var timestamp: word
    /** What `RTMP_Write` took, each with the clock reading before it. */
    var written: seq<Event>

    /** Opens the file and jumps over FLV header and first PreviousTagSize. */
    constructor (f: File)
      requires f.pos == 0
      modifies f
      ensures fp == f && fp.pos == 13 && Fresh()
    {
      fp := f;
      start_time, now_time, pre_frame_time, b_next_is_key, kind, datalength, timestamp := 0, 0, 0, true, 0, 0, 0;
      written := [];
      new;
      var a := fp.SeekBy(9);
      var b := fp.SeekBy(4);
    }

    ghost predicate Fresh()
      reads this
    {
      pre_frame_time == 0 && b_next_is_key && written == []
    }

    method ReadU24() returns (ok: bool)
      modifies this`datalength, fp
      ensures ok <==> |old(fp.Rest())| >= 3
      ensures ok ==> datalength == U24(old(fp.Rest())[..3]) && fp.pos == old(fp.pos) + 3
    {
      var d := fp.Read(3);
      ok := |d| == 3;
      if ok {
        SwapIsU24(datalength, d);
        datalength := HTON24(Overlaid(datalength, d));
      }
    }

    method ReadTime() returns (ok: bool)
      modifies this`timestamp, fp
      ensures ok <==> |old(fp.Rest())| >= 4
      ensures ok ==> timestamp == Time(old(fp.Rest())[..4]) && fp.pos == old(fp.pos) + 4
    {
      var d := fp.Read(4);
      ok := |d| == 4;
      if ok {
        SwapIsTime(d);
        timestamp := HTONTIME(Load32(d));
      }
    }

    /** Reads an octet and goes back over it. */
    method PeekU8() returns (ok: bool)
      modifies this`kind, fp
      ensures ok <==> old(fp.Rest()) != []
      ensures ok ==> kind == old(fp.Rest())[0] && fp.pos == old(fp.pos)
    {
      var d := fp.Read(1);
      ok := |d| == 1;
      if ok {
        kind := d[0];
        var back := fp.SeekBy(-1);
      }
    }

    /** Reads length and timestamp of the tag at the cursor, and jumps back. */
    method ReadFields(ghost s: seq<byte>) returns (ok: bool)
      requires s == fp.Rest()
      modifies this`datalength, this`timestamp, fp
      ensures ok <==> |s| >= 8
      ensures ok ==> datalength == U24(s[1..4]) && timestamp == Time(s[4..8]) && fp.Rest() == s
    {
      var over := fp.SeekBy(1);
      assert |s| >= 1 ==> fp.Rest() == s[1..];
      ok := ReadU24();
      if !ok {
        return;
      }
      SliceOfSlice(s, 1, |s|, 0, 3);
      assert fp.Rest() == s[4..];
      ok := ReadTime();
      if !ok {
        return;
      }
      SliceOfSlice(s, 4, |s|, 0, 4);
      var back := fp.SeekBy(-8);
    }

    /** Measures the tag at the cursor and reads it whole, header and PreviousTagSize included. */
    method ReadTag(ghost s: seq<byte>) returns (ok: bool, tag: seq<byte>)
      requires s == fp.Rest()
      modifies this`datalength, this`timestamp, fp
      ensures ok <==> TagAhead(s)
      ensures ok ==> tag == s[..TagSize(s)] && timestamp == Timestamp(s) && fp.Rest() == s[TagSize(s)..]
    {
      ok := ReadFields(s);
      tag := [];
      if ok {
        tag := fp.Read(4 + datalength + 11);
        ok := |tag| == 4 + datalength + 11;
      }
    }

    /** Peeks at the next tag; a video tag's first data octet says whether it is a key frame. */
    method LookAhead(ghost s: seq<byte>) returns (ok: bool)
      requires s == fp.Rest()
      modifies this`kind, this`b_next_is_key, fp
      ensures ok ==> fp.Rest() == s && b_next_is_key == KeyAhead(s, old(b_next_is_key))
      ensures !ok ==> !TagAhead(s)
    {
      ok := PeekU8();
      if !ok {
        return;
      }
      if kind == VIDEO {
        var over := fp.SeekBy(11);
        assert |s| >= 12 ==> fp.Rest() == s[11..];
        ok := PeekU8();
        if !ok {
          return;
        }
        b_next_is_key := kind == KEY_FRAME;
        var back := fp.SeekBy(-11);
      }
    }

    /** The run from the first clock reading, for the turns given. */
    method Worker(start: word, clock: seq<Moment>)
      requires Fresh()
      modifies this, fp
      ensures written == Events(old(fp.Rest()), 0, true, start, clock)
    {
      start_time := start;
      var i, more := 0, true;
      ghost var s := fp.Rest();
      ghost var all := Todo(s, clock);
      while i < |clock| && more
        invariant i <= |clock| && start_time == start
        // the cursor stands on a tag boundary
        invariant more ==> s == fp.Rest()
        invariant all == written + if more then Todo(s, clock[i..]) else []
        decreases |clock| - i
      {
        ghost var later := clock[i + 1..];
        assert clock[i..] == [clock[i]] + later;
        more, s := Turn(clock[i], s, later);
        i := i + 1;
      }
    }

    /** What is written from here on. */
    ghost function Todo(s: seq<byte>, later: seq<Moment>): seq<Event>
      reads this
    {
      Events(s, pre_frame_time, b_next_is_key, start_time, later)
    }

    /** One turn of the loop; false where the program leaves it. */
    method Turn(m: Moment, ghost s: seq<byte>, ghost later: seq<Moment>) returns (more: bool, ghost rest: seq<byte>)
      requires s == fp.Rest()
      modifies this, fp
      ensures start_time == old(start_time) && (more ==> rest == fp.Rest())
      ensures written + (if more then Todo(rest, later) else []) == old(written) + old(Todo(s, [m] + later))
    {
      assert ([m] + later)[1..] == later;
      now_time := m.now;
      if Sub(now_time, start_time) < pre_frame_time && b_next_is_key {
        return true, s;
      }
      var ok, tag := ReadTag(s);
      if !ok {
        return false, s;
      }
      assert tag[4..8] == s[4..8];
      pre_frame_time := timestamp;
      if !m.connected {
        return false, s;
      }
      if !m.accepts {
        return false, s;
      }
      written := written + [Written(tag, now_time)];
      rest := s[TagSize(s)..];
      ghost var key := b_next_is_key;
      more := LookAhead(rest);
      if !more {
        NoTagNoEvent(rest, Timestamp(tag), KeyAhead(rest, key), start_time, later);
      } else {
        Regrouped(old(written), [Written(tag, now_time)], Todo(rest, later));
      }
    }
  }

  /** At this reading as much time has gone by since the start, modulo 2^32, as any timestamp says. */
  ghost predicate AllDue(now: word, start: word, ts: seq<Tag>) {
    forall i :: 0 <= i < |ts| ==> ts[i].time <= (now - start) % 0x1_0000_0000
  }

  lemma DueIsPast(now: word, start: word, ts: seq<Tag>)
    requires AllValid(ts) && AllDue(now, start, ts)
    ensures Past(now, start, AllLaid(ts))
  {
    SubIsModular(now, start);
    forall i | 0 <= i < |ts|
      ensures Timestamp(AllLaid(ts)[i]) <= Sub(now, start)
    {
      LaidIs(ts[i]);
    }
  }

  /** Of a written file the writes are its tags in order: always the first ones of them, and all of the file behind
      octet 13 if the connection is up and the clock has been past every timestamp for as many turns as there are
      tags. */
  lemma FileIsPushed(header: seq<byte>, ts: seq<Tag>, start: word, clock: seq<Moment>)
    requires |header| == 13 && AllValid(ts)
    ensures var es := Events((header + Flat(AllLaid(ts)))[13..], 0, true, start, clock);
            && TagsOf(es) <= AllLaid(ts)
            && (AllUp(clock) && |clock| >= |ts|
                && (forall i :: |clock| - |ts| <= i < |clock| ==> AllDue(clock[i].now, start, ts))
                ==> TagsOf(es) == AllLaid(ts))
  {
    var s := Flat(AllLaid(ts));
    assert (header + s)[13..] == s;
    TagsOfFile(ts);
    WritesArePrefix(s, 0, true, start, clock);
    if AllUp(clock) && |clock| >= |ts|
       && forall i :: |clock| - |ts| <= i < |clock| ==> AllDue(clock[i].now, start, ts) {
      forall i | |clock| - |ts| <= i < |clock|
        ensures Past(clock[i].now, start, AllLaid(ts))
      {
        DueIsPast(clock[i].now, start, ts);
      }
      EverythingIsWritten(s, 0, true, start, clock);
    }
  }
}
