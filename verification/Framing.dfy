/**
 Cutting a byte stream into messages (on_read and find_message_start in src/network.c).
 */
module Framing {
  import opened Bytes
  import opened Options
  import opened Tuples
  import opened Messages

  /** Where the first magic number with a whole header behind it starts; none in a buffer shorter than a header. */
  function FindMessageStart(s: seq<byte>): (r: Option<nat>)
    ensures r.Some? ==> r.value + MESSAGE_HEADER_SIZE <= |s|
  {
    if |s| < MESSAGE_HEADER_SIZE then None
    else if GetMagic(s) == MESSAGE_MAGIC_NUMBER then Some(0)
    else
      match FindMessageStart(s[1..])
      case None => None
      case Some(i) => Some(i + 1)
  }

  /** The messages a buffer holds and what is left of it. */
  datatype Outcome = Outcome(messages: seq<seq<byte>>, residue: seq<byte>)

  function MessageLength(s: seq<byte>): nat
    requires |s| >= MESSAGE_HEADER_SIZE
  {
    MESSAGE_HEADER_SIZE + GetLength(s)
  }

  /** What is left to hand over once some messages have gone before. */
  function After(messages: seq<seq<byte>>, o: Outcome): Outcome {
    Outcome(messages + o.messages, o.residue)
  }

  lemma AfterInTwoSteps(first: seq<seq<byte>>, second: seq<seq<byte>>, o: Outcome)
    ensures After(first, After(second, o)) == After(first + second, o)
  {
    assert first + (second + o.messages) == (first + second) + o.messages;
  }

  function Process(s: seq<byte>): Outcome
    decreases |s|
  {
    match FindMessageStart(s)
    case None => Outcome([], s)
    case Some(i) =>
      var t := s[i..];
      var n := MessageLength(t);
      if |t| < n then Outcome([], t) else After([t[..n]], Process(t[n..]))
  }

  /** Reading chunk after chunk, each appended to what the previous ones left. */
  function Feed(buf: seq<byte>, chunks: seq<seq<byte>>): Outcome
    decreases |chunks|
  {
    if chunks == [] then Outcome([], buf)
    else
      var first := Process(buf + chunks[0]);
      After(first.messages, Feed(first.residue, chunks[1..]))
  }

  function Concat(parts: seq<seq<byte>>): seq<byte>
    decreases |parts|
  {
    if parts == [] then [] else parts[0] + Concat(parts[1..])
  }

  // ---------- the reader ----------

  class Reader {
    var buf: seq<byte>

    constructor ()
      ensures buf == []
    {
      buf := [];
    }

    /** find_message_start: the loop over the buffer. */
    method FindStart() returns (start: Option<nat>)
      ensures start == FindMessageStart(buf)
    {
      var i := 0;
      while i + MESSAGE_HEADER_SIZE <= |buf|
        invariant 0 <= i <= |buf|
        invariant FindMessageStart(buf) ==
                  (match FindMessageStart(buf[i..]) case None => None case Some(j) => Some(i + j))
      {
        if GetMagic(buf[i..]) == MESSAGE_MAGIC_NUMBER {
          return Some(i);
        }
        assert buf[i..][1..] == buf[i + 1..];
        i := i + 1;
      }
      start := None;
    }

    /** on_read with the bytes actually read; the messages are handed over in order. */
    method OnRead(chunk: seq<byte>) returns (handled: seq<seq<byte>>)
      modifies this
      ensures Outcome(handled, buf) == Process(old(buf) + chunk)
    {
      buf := buf + chunk;
      handled := [];
      ghost var goal := Process(buf);
      AfterNothing(goal);
      var start := FindStart();
      while start != None
        invariant start == FindMessageStart(buf)
        invariant goal == After(handled, Process(buf))
        decreases |buf|
      {
        ReadRound(buf, start.value, handled);
        buf := buf[start.value..];
        var n := MESSAGE_HEADER_SIZE + GetLength(buf);
        if |buf| < n {
          return;
        }
        handled := handled + [buf[..n]];
        buf := buf[n..];
        start := FindStart();
      }
      assert handled + [] == handled;
    }
  }

  /** One round of the loop: the padding goes, then the message if all of it is there. */
  lemma ReadRound(s: seq<byte>, i: nat, handled: seq<seq<byte>>)
    requires FindMessageStart(s) == Some(i)
    ensures var t := s[i..];
            var n := MessageLength(t);
            After(handled, Process(s)) ==
            if |t| < n then Outcome(handled, t) else After(handled + [t[..n]], Process(t[n..]))
  {
    var t := s[i..];
    var n := MessageLength(t);
    if |t| < n {
      assert handled + [] == handled;
    } else {
      AfterInTwoSteps(handled, [t[..n]], Process(t[n..]));
    }
  }

  /** Cutting the padding before the first start changes nothing. */
  lemma {:induction false} SkipPadding(s: seq<byte>)
    ensures match FindMessageStart(s)
            case None => true
            case Some(i) => FindMessageStart(s[i..]) == Some(0) && Process(s[i..]) == Process(s)
  {
    if FindMessageStart(s).Some? {
      var i := FindMessageStart(s).value;
      if i > 0 {
        SkipPadding(s[1..]);
        assert s[1..][i - 1..] == s[i..];
      }
      assert s[i..][0..] == s[i..];
    }
  }

  // ---------- where messages start ----------

  const MAGIC_BYTES: seq<byte> := [0x54, 0x52, 0x4a, 0x54]

  /** The magic number stands at position i with a whole header behind it. */
  predicate StartsAt(s: seq<byte>, i: nat) {
    i + 26 <= |s| && s[i..i + 4] == MAGIC_BYTES
  }

  ghost predicate IsFirstStart(s: seq<byte>, i: nat) {
    StartsAt(s, i) && forall j: nat :: j < i ==> !StartsAt(s, j)
  }

  lemma MagicBytes()
    ensures Word32(MESSAGE_MAGIC_NUMBER) == MAGIC_BYTES
  {
    var v := MESSAGE_MAGIC_NUMBER;
    assert BigEndian(1, v / 256 / 256 / 256) == [0x54];
    assert BigEndian(2, v / 256 / 256) == [0x54, 0x52];
    assert BigEndian(3, v / 256) == [0x54, 0x52, 0x4a];
  }

  lemma MagicIsMagicBytes(s: seq<byte>)
    requires |s| >= MESSAGE_HEADER_SIZE
    ensures GetMagic(s) == MESSAGE_MAGIC_NUMBER <==> s[..4] == MAGIC_BYTES
  {
    MagicBytes();
    BigEndianOfValue(s[..4]);
    WordRoundTrip(MESSAGE_MAGIC_NUMBER, 0);
  }

  lemma StartsLater(s: seq<byte>, i: nat)
    requires s != []
    ensures StartsAt(s, i + 1) <==> StartsAt(s[1..], i)
  {
    if i + 27 <= |s| {
      assert s[1..][i..i + 4] == s[i + 1..i + 5];
    }
  }

  /** The search finds the first start, and nothing exactly when there is none. */
  lemma {:induction false} FindsTheFirstStart(s: seq<byte>)
    ensures match FindMessageStart(s)
            case None => forall j: nat :: !StartsAt(s, j)
            case Some(i) => IsFirstStart(s, i)
  {
    if |s| >= MESSAGE_HEADER_SIZE {
      MagicIsMagicBytes(s);
      if GetMagic(s) == MESSAGE_MAGIC_NUMBER {
        assert s[0..0 + 4] == s[..4];
      } else {
        FindsTheFirstStart(s[1..]);
        assert s[0..0 + 4] == s[..4];
        forall j: nat | j > 0
          ensures StartsAt(s, j) <==> StartsAt(s[1..], j - 1)
        {
          StartsLater(s, j - 1);
        }
      }
    }
  }

  /** So it finds i exactly when i is the first position at which a message starts. */
  lemma FindsExactly(s: seq<byte>, i: nat)
    ensures FindMessageStart(s) == Some(i) <==> IsFirstStart(s, i)
    ensures FindMessageStart(s) == None <==> forall j: nat :: !StartsAt(s, j)
  {
    FindsTheFirstStart(s);
    if IsFirstStart(s, i) && FindMessageStart(s).Some? {
      var k := FindMessageStart(s).value;
      assert !(i < k) && !(k < i);
    }
  }

  // ---------- chunking does not matter ----------

  lemma {:induction false} StartStays(a: seq<byte>, b: seq<byte>)
    ensures FindMessageStart(a).Some? ==> FindMessageStart(a + b) == FindMessageStart(a)
  {
    if |a| >= MESSAGE_HEADER_SIZE {
      assert (a + b)[..4] == a[..4];
      if GetMagic(a) != MESSAGE_MAGIC_NUMBER {
        StartStays(a[1..], b);
        assert (a + b)[1..] == a[1..] + b;
      }
    }
  }

  /** A message of n bytes starts at i and is all there. */
  ghost predicate MessageAt(s: seq<byte>, i: nat, n: nat) {
    FindMessageStart(s) == Some(i) && n == MessageLength(s[i..]) && i + n <= |s|
  }

  lemma MessageComesOff(s: seq<byte>, i: nat, n: nat)
    requires MessageAt(s, i, n)
    ensures Process(s) == After([s[i..i + n]], Process(s[i + n..]))
  {
    var t := s[i..];
    assert t[..n] == s[i..i + n] && t[n..] == s[i + n..];
  }

  lemma MessageStays(s: seq<byte>, i: nat, n: nat, more: seq<byte>)
    requires MessageAt(s, i, n)
    ensures MessageAt(s + more, i, n)
  {
    StartStays(s, more);
    LengthStays(s, i, more);
  }

  lemma Slices<T>(s: seq<T>, more: seq<T>, i: nat, j: nat)
    requires i <= j <= |s|
    ensures (s + more)[i..j] == s[i..j] && (s + more)[j..] == s[j..] + more
  {}

  /** More bytes behind it change neither where a message lies nor what it is. */
  lemma MessageComesOffBeforeMore(s: seq<byte>, i: nat, n: nat, more: seq<byte>)
    requires MessageAt(s, i, n)
    ensures Process(s + more) == After([s[i..i + n]], Process(s[i + n..] + more))
  {
    MessageStays(s, i, n, more);
    MessageComesOff(s + more, i, n);
    Slices(s, more, i, i + n);
  }

  lemma LengthStays(s: seq<byte>, i: nat, more: seq<byte>)
    requires i + MESSAGE_HEADER_SIZE <= |s|
    ensures MessageLength((s + more)[i..]) == MessageLength(s[i..])
  {
    assert (s + more)[i..][4..8] == s[i..][4..8];
  }

  /** A message not all there yet waits at the head of the residue. */
  lemma IncompleteMessageWaits(s: seq<byte>, i: nat, more: seq<byte>)
    requires FindMessageStart(s) == Some(i) && |s| < i + MessageLength(s[i..])
    ensures Process(s) == Outcome([], s[i..]) && Process(s + more) == Process(s[i..] + more)
  {
    StartStays(s, more);
    SkipPadding(s + more);
    assert (s + more)[i..] == s[i..] + more;
  }

  /** Processing in two steps delivers the same messages and leaves the same residue as in one. */
  lemma {:induction false} ProcessInSteps(a: seq<byte>, b: seq<byte>)
    ensures Process(a + b) == After(Process(a).messages, Process(Process(a).residue + b))
    decreases |a|
  {
    var start := FindMessageStart(a);
    if start == None {
      assert Process(a) == Outcome([], a);
      AfterNothing(Process(a + b));
    } else {
      var i := start.value;
      var n := MessageLength(a[i..]);
      if |a| < i + n {
        IncompleteMessageWaits(a, i, b);
        AfterNothing(Process(a + b));
      } else {
        var message, rest := [a[i..i + n]], a[i + n..];
        MessageComesOff(a, i, n);
        MessageComesOffBeforeMore(a, i, n, b);
        ProcessInSteps(rest, b);
        AfterInTwoSteps(message, Process(rest).messages, Process(Process(rest).residue + b));
      }
    }
  }

  lemma AfterNothing(o: Outcome)
    ensures After([], o) == o
  {
    assert [] + o.messages == o.messages;
  }

  /** However a stream is split into reads, the outcome is that of one read of the whole. */
  lemma {:induction false} ChunkingIsIrrelevant(buf: seq<byte>, chunks: seq<seq<byte>>)
    requires Process(buf) == Outcome([], buf)
    ensures Feed(buf, chunks) == Process(buf + Concat(chunks))
    decreases |chunks|
  {
    if chunks == [] {
      assert buf + [] == buf;
    } else {
      var sofar, later := buf + chunks[0], Concat(chunks[1..]);
      ResidueIsSettled(sofar);
      ChunkingIsIrrelevant(Process(sofar).residue, chunks[1..]);
      ProcessInSteps(sofar, later);
      assert buf + (chunks[0] + later) == sofar + later;
    }
  }

  lemma SameStreamSameMessages(chunks: seq<seq<byte>>, others: seq<seq<byte>>)
    requires Concat(chunks) == Concat(others)
    ensures Feed([], chunks) == Feed([], others) == Process(Concat(chunks))
  {
    ChunkingIsIrrelevant([], chunks);
    ChunkingIsIrrelevant([], others);
    assert [] + Concat(chunks) == Concat(chunks);
  }

  /** What a read leaves behind holds no complete message. */
  lemma {:induction false} ResidueIsSettled(s: seq<byte>)
    ensures var r := Process(s).residue;
            Process(r) == Outcome([], r)
    decreases |s|
  {
    if FindMessageStart(s).Some? {
      var i := FindMessageStart(s).value;
      var t := s[i..];
      var n := MessageLength(t);
      if |t| < n {
        SkipPadding(s);
      } else {
        ResidueIsSettled(t[n..]);
      }
    }
  }

  // ---------- frames ----------

  datatype Sent = Sent(guid: Guid, event: u16, payload: seq<byte>)

  ghost predicate Sendable(f: Sent) {
    |f.payload| < TWO_TO_THE_32
  }

  function Frames(sent: seq<Sent>): (frames: seq<seq<byte>>)
    ensures |frames| == |sent|
  {
    if sent == [] then [] else [Frame(sent[0].guid, sent[0].event, sent[0].payload)] + Frames(sent[1..])
  }

  lemma FrameComesFirst(f: Sent, rest: seq<byte>)
    requires Sendable(f)
    ensures var frame := Frame(f.guid, f.event, f.payload);
            Process(frame + rest) == After([frame], Process(rest))
  {
    var frame := Frame(f.guid, f.event, f.payload);
    var s := frame + rest;
    FrameFields(f.guid, f.event, f.payload, rest);
    assert FindMessageStart(s) == Some(0) && s[0..] == s;
    MessageComesOff(s, 0, |frame|);
    assert s[0..|frame|] == frame && s[|frame|..] == rest;
  }

  /** A stream of frames, in any split, is delivered as exactly those frames in order. */
  lemma {:induction false} FramesArriveInOrder(sent: seq<Sent>, tail: seq<byte>)
    requires forall f :: f in sent ==> Sendable(f)
    ensures Process(Concat(Frames(sent)) + tail) == After(Frames(sent), Process(tail))
    decreases |sent|
  {
    if sent == [] {
      assert Concat(Frames(sent)) + tail == tail;
      AfterNothing(Process(tail));
    } else {
      var f, others := sent[0], Frames(sent[1..]);
      var frame := Frame(f.guid, f.event, f.payload);
      FramesArriveInOrder(sent[1..], tail);
      FrameComesFirst(f, Concat(others) + tail);
      ConcatStep(frame, others, tail);
      AfterInTwoSteps([frame], others, Process(tail));
    }
  }

  lemma ConcatStep(frame: seq<byte>, others: seq<seq<byte>>, tail: seq<byte>)
    ensures Concat([frame] + others) + tail == frame + (Concat(others) + tail)
  {
    assert ([frame] + others)[1..] == others;
    assert (frame + Concat(others)) + tail == frame + (Concat(others) + tail);
  }

  /** Whatever the reads, the receiver of whole frames gets those frames and keeps nothing. */
  lemma SentFramesAreReceived(sent: seq<Sent>, chunks: seq<seq<byte>>)
    requires forall f :: f in sent ==> Sendable(f)
    requires Concat(chunks) == Concat(Frames(sent))
    ensures Feed([], chunks) == Outcome(Frames(sent), [])
  {
    FramesArriveInOrder(sent, []);
    assert Concat(chunks) + [] == [] + Concat(chunks);
    ChunkingIsIrrelevant([], chunks);
    assert Frames(sent) + [] == Frames(sent);
  }

  /** The beginning of a frame waits, unchanged, for the rest of it. */
  lemma PartialFrameWaits(f: Sent, n: nat)
    requires Sendable(f) && n < |Frame(f.guid, f.event, f.payload)|
    ensures var part := Frame(f.guid, f.event, f.payload)[..n];
            Process(part) == Outcome([], part)
  {
    var frame := Frame(f.guid, f.event, f.payload);
    var part := frame[..n];
    if n >= MESSAGE_HEADER_SIZE {
      FrameFields(f.guid, f.event, f.payload, []);
      assert frame + [] == frame;
      assert part[..4] == frame[..4] && part[4..8] == frame[4..8];
      assert FindMessageStart(part) == Some(0) && part[0..] == part;
    }
  }

  // ---------- padding ----------

  lemma FrameStarts(f: Sent, before: seq<byte>, rest: seq<byte>)
    ensures StartsAt(before + Frame(f.guid, f.event, f.payload) + rest, |before|)
  {
    var frame := Frame(f.guid, f.event, f.payload);
    var s := before + frame + rest;
    MagicBytes();
    assert s[|before|..|before| + 4] == frame[..4] == Word32(MESSAGE_MAGIC_NUMBER);
  }

  /** A frame is delivered from behind bytes in which no message starts, which are dropped. */
  lemma FrameBehindPadding(padding: seq<byte>, f: Sent, rest: seq<byte>)
    requires Sendable(f)
    requires forall j: nat :: j < |padding| ==> !StartsAt(padding + Frame(f.guid, f.event, f.payload) + rest, j)
    ensures var frame := Frame(f.guid, f.event, f.payload);
            Process(padding + frame + rest) == After([frame], Process(rest))
  {
    var frame := Frame(f.guid, f.event, f.payload);
    var s := padding + frame + rest;
    FrameStarts(f, padding, rest);
    FindsExactly(s, |padding|);
    SkipPadding(s);
    assert s[|padding|..] == frame + rest;
    FrameComesFirst(f, rest);
  }

  /** Zeros, of which the unused part of a read buffer consists. */
  predicate IsZero(s: seq<byte>) {
    forall i :: 0 <= i < |s| ==> s[i] == 0
  }

  lemma NothingStartsInZeros(zeros: seq<byte>, more: seq<byte>, j: nat)
    requires IsZero(zeros) && j < |zeros|
    ensures !StartsAt(zeros + more, j)
  {
    var s := zeros + more;
    if j + 26 <= |s| {
      assert s[j..j + 4][0] == s[j] == 0;
    }
  }

  lemma FrameBehindZeros(zeros: seq<byte>, f: Sent, rest: seq<byte>)
    requires Sendable(f) && IsZero(zeros)
    ensures var frame := Frame(f.guid, f.event, f.payload);
            Process(zeros + frame + rest) == After([frame], Process(rest))
  {
    var frame := Frame(f.guid, f.event, f.payload);
    forall j: nat | j < |zeros|
      ensures !StartsAt(zeros + frame + rest, j)
    {
      assert zeros + frame + rest == zeros + (frame + rest);
      NothingStartsInZeros(zeros, frame + rest, j);
    }
    FrameBehindPadding(zeros, f, rest);
  }

  lemma Regroup(a: seq<byte>, b: seq<byte>, c: seq<byte>, d: seq<byte>)
    ensures (a + b + c) + d == a + b + (c + d)
  {
  }

  datatype Padded = Padded(padding: seq<byte>, frame: Sent)

  function Stream(sent: seq<Padded>): seq<byte> {
    if sent == [] then []
    else
      var f := sent[0].frame;
      sent[0].padding + Frame(f.guid, f.event, f.payload) + Stream(sent[1..])
  }

  function FramesOf(sent: seq<Padded>): seq<seq<byte>> {
    if sent == [] then []
    else [Frame(sent[0].frame.guid, sent[0].frame.event, sent[0].frame.payload)] + FramesOf(sent[1..])
  }

  /** Frames with zeros before each arrive as the frames alone, in order. */
  lemma {:induction false} PaddedFramesArrive(sent: seq<Padded>, tail: seq<byte>)
    requires forall p :: p in sent ==> Sendable(p.frame) && IsZero(p.padding)
    ensures Process(Stream(sent) + tail) == After(FramesOf(sent), Process(tail))
    decreases |sent|
  {
    if sent == [] {
      assert Stream(sent) + tail == tail;
      AfterNothing(Process(tail));
    } else {
      var f, zeros, more := sent[0].frame, sent[0].padding, Stream(sent[1..]);
      var frame := Frame(f.guid, f.event, f.payload);
      PaddedFramesArrive(sent[1..], tail);
      FrameBehindZeros(zeros, f, more + tail);
      Regroup(zeros, frame, more, tail);
      AfterInTwoSteps([frame], FramesOf(sent[1..]), Process(tail));
    }
  }
}
