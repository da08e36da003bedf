/**
 The message header (src/message.c) and the frames built by network_send and network_broadcast
 (src/network.c): magic, payload length, four guid words, event type, payload; all big-endian.
 */
module Messages {
  import opened Bytes
  import opened Tuples

  const MESSAGE_MAGIC_NUMBER: u32 := 0x54524a54
  const MESSAGE_HEADER_SIZE := 26

  datatype Guid = Guid(i0: u32, i1: u32, i2: u32, i3: u32)

  const GUID_NULL := Guid(0, 0, 0, 0)

  function GuidBytes(g: Guid): (s: seq<byte>)
    ensures |s| == 16
  {
    Word32(g.i0) + Word32(g.i1) + Word32(g.i2) + Word32(g.i3)
  }

  /** The bytes of a message on the wire. */
  function Frame(guid: Guid, event: u16, payload: seq<byte>): (s: seq<byte>)
    ensures |s| == MESSAGE_HEADER_SIZE + |payload|
  {
    Word32(MESSAGE_MAGIC_NUMBER) + BigEndian(4, |payload|) + GuidBytes(guid) + BigEndian(2, event) + payload
  }

  function GetMagic(m: seq<byte>): u32
    requires |m| >= MESSAGE_HEADER_SIZE
  {
    Read32(m[..4])
  }

  function GetLength(m: seq<byte>): u32
    requires |m| >= MESSAGE_HEADER_SIZE
  {
    Read32(m[4..8])
  }

  function GetGuid(m: seq<byte>): Guid
    requires |m| >= MESSAGE_HEADER_SIZE
  {
    Guid(Read32(m[8..12]), Read32(m[12..16]), Read32(m[16..20]), Read32(m[20..24]))
  }

  function GetType(m: seq<byte>): u16
    requires |m| >= MESSAGE_HEADER_SIZE
  {
    ValueBound(m[24..26]);
    Value(m[24..26])
  }

  /** What is sent is what is read back, field by field. */
  lemma FrameFields(guid: Guid, event: u16, payload: seq<byte>, rest: seq<byte>)
    requires |payload| < TWO_TO_THE_32
    ensures var m := Frame(guid, event, payload) + rest;
            && GetMagic(m) == MESSAGE_MAGIC_NUMBER && GetLength(m) == |payload|
            && GetGuid(m) == guid && GetType(m) == event
            && m[MESSAGE_HEADER_SIZE..MESSAGE_HEADER_SIZE + |payload|] == payload
  {
    var m := Frame(guid, event, payload) + rest;
    assert m[..4] == Word32(MESSAGE_MAGIC_NUMBER);
    assert m[4..8] == Word32(|payload|);
    GuidFields(guid, m);
    assert m[24..26] == BigEndian(2, event);
    assert Capacity(2) == 0x1_0000;
    ValueOfBigEndian(2, event);
    WordRoundTrip(MESSAGE_MAGIC_NUMBER, 0);
    WordRoundTrip(|payload|, 0);
  }

  lemma FourWords(a: seq<byte>, b: seq<byte>, c: seq<byte>, d: seq<byte>, m: seq<byte>)
    requires |a| == |b| == |c| == |d| == 4
    requires |m| >= 24 && m[8..24] == a + b + c + d
    ensures m[8..12] == a && m[12..16] == b && m[16..20] == c && m[20..24] == d
  {
    var g := a + b + c + d;
    SliceOfSlice(m, 8, 24, 0, 4);
    SliceOfSlice(m, 8, 24, 4, 8);
    SliceOfSlice(m, 8, 24, 8, 12);
    SliceOfSlice(m, 8, 24, 12, 16);
    assert g[0..4] == a && g[4..8] == b && g[8..12] == c && g[12..16] == d;
  }

  lemma SliceOfSlice(m: seq<byte>, lo: nat, hi: nat, i: nat, j: nat)
    requires lo <= hi <= |m| && i <= j <= hi - lo
    ensures m[lo..hi][i..j] == m[lo + i..lo + j]
  {
    forall k | 0 <= k < j - i
      ensures m[lo..hi][i..j][k] == m[lo + i..lo + j][k]
    {
      assert m[lo..hi][i + k] == m[lo + i + k];
    }
  }

  lemma GuidFields(guid: Guid, m: seq<byte>)
    requires |m| >= MESSAGE_HEADER_SIZE && m[8..24] == GuidBytes(guid)
    ensures GetGuid(m) == guid
  {
    FourWords(Word32(guid.i0), Word32(guid.i1), Word32(guid.i2), Word32(guid.i3), m);
    WordRoundTrip(guid.i0, 0);
    WordRoundTrip(guid.i1, 0);
    WordRoundTrip(guid.i2, 0);
    WordRoundTrip(guid.i3, 0);
  }

  // ---------- the setters, in place ----------

  /** Overwrites part of a message, as memcpy and the word stores do. */
  function Overwritten(m: seq<byte>, at: nat, bytes: seq<byte>): seq<byte>
    requires at + |bytes| <= |m|
  {
    m[..at] + bytes + m[at + |bytes|..]
  }

  lemma OverwrittenTwice(m: seq<byte>, at: nat, first: seq<byte>, second: seq<byte>)
    requires at + |first| + |second| <= |m|
    ensures Overwritten(Overwritten(m, at, first), at + |first|, second) == Overwritten(m, at, first + second)
  {
  }

  method Store(message: array<byte>, at: nat, bytes: seq<byte>)
    requires at + |bytes| <= message.Length
    modifies message
    ensures message[..] == Overwritten(old(message[..]), at, bytes)
  {
    for i := 0 to |bytes|
      invariant message[..at] == old(message[..at])
      invariant message[at..at + i] == bytes[..i]
      invariant message[at + i..] == old(message[at + i..])
    {
      message[at + i] := bytes[i];
    }
    assert message[..] == message[..at] + message[at..at + |bytes|] + message[at + |bytes|..];
  }

  method SetMagic(message: array<byte>, magic: u32)
    requires message.Length >= MESSAGE_HEADER_SIZE
    modifies message
    ensures message[..] == Overwritten(old(message[..]), 0, Word32(magic))
  {
    Store(message, 0, Word32(magic));
  }

  method SetLength(message: array<byte>, length: u32)
    requires message.Length >= MESSAGE_HEADER_SIZE
    modifies message
    ensures message[..] == Overwritten(old(message[..]), 4, Word32(length))
  {
    Store(message, 4, Word32(length));
  }

  method SetGuid(message: array<byte>, guid: Guid)
    requires message.Length >= MESSAGE_HEADER_SIZE
    modifies message
    ensures message[..] == Overwritten(old(message[..]), 8, GuidBytes(guid))
  {
    var words := [guid.i0, guid.i1, guid.i2, guid.i3];
    for j := 0 to 4
      invariant message[..] == Overwritten(old(message[..]), 8, GuidBytes(guid)[..4 * j])
    {
      var word := Word32(words[j]);
      OverwrittenTwice(old(message[..]), 8, GuidBytes(guid)[..4 * j], word);
      assert GuidBytes(guid)[4 * j..4 * j + 4] == word;
      assert GuidBytes(guid)[..4 * (j + 1)] == GuidBytes(guid)[..4 * j] + word;
      Store(message, 8 + 4 * j, word);
    }
    assert GuidBytes(guid)[..16] == GuidBytes(guid);
  }

  method SetType(message: array<byte>, event: u16)
    requires message.Length >= MESSAGE_HEADER_SIZE
    modifies message
    ensures message[..] == Overwritten(old(message[..]), 24, BigEndian(2, event))
  {
    Store(message, 24, BigEndian(2, event));
  }

  /** The message that network_send and network_broadcast put together, header setters first. */
  method Compose(guid: Guid, event: u16, payload: seq<byte>) returns (message: array<byte>)
    requires |payload| < TWO_TO_THE_32
    ensures fresh(message) && message[..] == Frame(guid, event, payload)
  {
    message := new byte[MESSAGE_HEADER_SIZE + |payload|](_ => 0);
    SetMagic(message, MESSAGE_MAGIC_NUMBER);
    SetLength(message, |payload|);
    SetGuid(message, guid);
    SetType(message, event);
    Store(message, MESSAGE_HEADER_SIZE, payload);
  }
}
