/**
 The binary tuple format (src/tuple.c, grammar in README.md): a tuple is "(" elements ")" and an
 element is a one-byte tag followed by its data. Integers are big-endian; the length of a binary
 is written here in the same order on both sides. A tuple is the sequence of its elements.
 */
module Tuples {
  import opened Bytes

  const START: byte := '(' as int
  const END: byte := ')' as int
  const NULL_TAG: byte := 'n' as int
  const I32_TAG: byte := 'i' as int
  const I64_TAG: byte := 'I' as int
  const U32_TAG: byte := 'u' as int
  const U64_TAG: byte := 'U' as int
  const F32_TAG: byte := 'f' as int
  const F64_TAG: byte := 'F' as int
  const BOOL_TAG: byte := 'b' as int
  const STRING_TAG: byte := 's' as int
  const BINARY_TAG: byte := 'B' as int

  /** Floats are the words that hold them and a boolean is its byte. */
  datatype Element =
    | Nil
    | I32(i32: i32)
    | I64(i64: i64)
    | U32(u32: u32)
    | U64(u64: u64)
    | F32(f32: seq<byte>)
    | F64(f64: seq<byte>)
    | Bool(b: byte)
    | Str(str: seq<byte>)
    | Bin(bin: seq<byte>)
    | Tup(elems: seq<Element>)

  type Tuple = seq<Element>

  /** What C can hold: words of their size, strings without a NUL inside, lengths of 32 bits. */
  ghost predicate Fits(e: Element)
    decreases e, 0
  {
    match e
    case F32(w) => |w| == 4
    case F64(w) => |w| == 8
    case Str(s) => 0 !in s
    case Bin(d) => |d| < TWO_TO_THE_32
    case Tup(es) => AllFit(es)
    case _ => true
  }

  ghost predicate AllFit(es: seq<Element>)
    decreases es, 1
  {
    es == [] || (Fits(es[0]) && AllFit(es[1..]))
  }

  // ---------- writing ----------

  function Word32(v: u32): seq<byte> {
    BigEndian(4, v)
  }

  function Word64(v: u64): seq<byte> {
    BigEndian(8, v)
  }

  /** Two's complement. */
  function Unsigned32(v: i32): u32 {
    if v < 0 then v + TWO_TO_THE_32 else v
  }

  function Unsigned64(v: i64): u64 {
    if v < 0 then v + TWO_TO_THE_64 else v
  }

  function Signed32(v: u32): i32 {
    if v >= 0x8000_0000 then v - TWO_TO_THE_32 else v
  }

  function Signed64(v: u64): i64 {
    if v >= 0x8000_0000_0000_0000 then v - TWO_TO_THE_64 else v
  }

  function Encode(e: Element): (s: seq<byte>)
    ensures s != []
    decreases e, 0
  {
    match e
    case Nil => [NULL_TAG]
    case I32(v) => [I32_TAG] + Word32(Unsigned32(v))
    case I64(v) => [I64_TAG] + Word64(Unsigned64(v))
    case U32(v) => [U32_TAG] + Word32(v)
    case U64(v) => [U64_TAG] + Word64(v)
    case F32(w) => [F32_TAG] + w
    case F64(w) => [F64_TAG] + w
    case Bool(b) => [BOOL_TAG, b]
    case Str(s) => [STRING_TAG] + s + [0]
    case Bin(d) => [BINARY_TAG] + BigEndian(4, |d|) + d
    case Tup(es) => [START] + EncodeAll(es) + [END]
  }

  function EncodeAll(es: seq<Element>): seq<byte>
    decreases es, 1
  {
    if es == [] then [] else Encode(es[0]) + EncodeAll(es[1..])
  }

  // ---------- reading ----------

  /** A value with the number of bytes it took, or failure. */
  datatype Parsed<T> = Fail | Done(value: T, used: nat)

  function Read32(s: seq<byte>): u32
    requires |s| == 4
  {
    Capacities();
    ValueBound(s);
    Value(s)
  }

  function Read64(s: seq<byte>): u64
    requires |s| == 8
  {
    Capacities();
    ValueBound(s);
    Value(s)
  }

  /** The position of the first NUL, or the length when there is none (strlen). */
  function Strlen(s: seq<byte>): (n: nat)
    ensures n <= |s| && 0 !in s[..n] && (n < |s| ==> s[n] == 0)
  {
    if s == [] || s[0] == 0 then 0 else 1 + Strlen(s[1..])
  }

  /** How many bytes of data follow a tag of fixed width. */
  function Width(tag: byte): nat {
    if tag == I32_TAG || tag == U32_TAG || tag == F32_TAG then 4
    else if tag == I64_TAG || tag == U64_TAG || tag == F64_TAG then 8
    else if tag == BOOL_TAG then 1
    else 0
  }

  predicate IsFixed(tag: byte) {
    tag == NULL_TAG || Width(tag) > 0
  }

  function FixedElement(tag: byte, data: seq<byte>): Element
    requires IsFixed(tag) && |data| == Width(tag)
  {
    if tag == NULL_TAG then Nil
    else if tag == I32_TAG then I32(Signed32(Read32(data)))
    else if tag == I64_TAG then I64(Signed64(Read64(data)))
    else if tag == U32_TAG then U32(Read32(data))
    else if tag == U64_TAG then U64(Read64(data))
    else if tag == F32_TAG then F32(data)
    else if tag == F64_TAG then F64(data)
    else Bool(data[0])
  }

  /** One element other than a nested tuple, from its tag on. */
  function ParseLeaf(s: seq<byte>): (r: Parsed<Element>)
    requires s != []
    ensures r.Done? ==> 1 <= r.used <= |s|
  {
    var rest := s[1..];
    if IsFixed(s[0]) then
      var w := Width(s[0]);
      if w <= |rest| then Done(FixedElement(s[0], rest[..w]), 1 + w) else Fail
    else if s[0] == STRING_TAG then
      var n := Strlen(rest);
      if n < |rest| then Done(Str(rest[..n]), n + 2) else Fail
    else if s[0] == BINARY_TAG then
      if |rest| < 4 then Fail
      else
        var n := Read32(rest[..4]);
        if 4 + n < |rest| then Done(Bin(rest[4..4 + n]), 5 + n) else Fail
    else Fail
  }

  /** One tuple from its opening parenthesis on; tuple_parse. */
  function ParseTuple(s: seq<byte>): (r: Parsed<Tuple>)
    ensures r.Done? ==> 2 <= r.used <= |s|
    decreases |s|, 0
  {
    if |s| < 2 || s[0] != START then Fail
    else
      match ParseElements(s[1..])
      case Fail => Fail
      case Done(es, n) => Done(es, n + 1)
  }

  /** Elements up to and including the closing parenthesis. */
  function ParseElements(s: seq<byte>): (r: Parsed<Tuple>)
    ensures r.Done? ==> 1 <= r.used <= |s|
    decreases |s|, 2
  {
    if s == [] then Fail
    else if s[0] == END then Done([], 1)
    else
      match ParseElement(s)
      case Fail => Fail
      case Done(e, n) =>
        match ParseElements(s[n..])
        case Fail => Fail
        case Done(es, m) => Done([e] + es, n + m)
  }

  function ParseElement(s: seq<byte>): (r: Parsed<Element>)
    requires s != []
    ensures r.Done? ==> 1 <= r.used <= |s|
    decreases |s|, 1
  {
    if s[0] == START then
      match ParseTuple(s)
      case Fail => Fail
      case Done(es, n) => Done(Tup(es), n)
    else ParseLeaf(s)
  }

  // ---------- words ----------

  lemma Capacities()
    ensures Capacity(4) == TWO_TO_THE_32 && Capacity(8) == TWO_TO_THE_64
  {
    assert Capacity(2) == 65536;
    assert Capacity(4) == 256 * (256 * Capacity(2));
    assert Capacity(6) == 256 * (256 * Capacity(4));
    assert Capacity(8) == 256 * (256 * Capacity(6));
  }

  lemma WordRoundTrip(v: u32, w: u64)
    ensures Read32(Word32(v)) == v && Read64(Word64(w)) == w
  {
    Capacities();
    ValueOfBigEndian(4, v);
    ValueOfBigEndian(8, w);
  }

  // ---------- parsing what was written ----------

  /** The tag and the data of an element other than a string, a binary or a tuple. */
  function FixedData(e: Element): (byte, seq<byte>)
    requires !e.Str? && !e.Bin? && !e.Tup?
  {
    match e
    case Nil => (NULL_TAG, [])
    case I32(v) => (I32_TAG, Word32(Unsigned32(v)))
    case I64(v) => (I64_TAG, Word64(Unsigned64(v)))
    case U32(v) => (U32_TAG, Word32(v))
    case U64(v) => (U64_TAG, Word64(v))
    case F32(w) => (F32_TAG, w)
    case F64(w) => (F64_TAG, w)
    case Bool(b) => (BOOL_TAG, [b])
  }

  lemma FixedRoundTrip(e: Element)
    requires Fits(e) && !e.Str? && !e.Bin? && !e.Tup?
    ensures var (tag, data) := FixedData(e);
            && IsFixed(tag) && |data| == Width(tag)
            && Encode(e) == [tag] + data && FixedElement(tag, data) == e
  {
    if e.I32? {
      WordRoundTrip(Unsigned32(e.i32), 0);
    } else if e.I64? {
      WordRoundTrip(0, Unsigned64(e.i64));
    } else if e.U32? {
      WordRoundTrip(e.u32, 0);
    } else if e.U64? {
      WordRoundTrip(0, e.u64);
    }
  }

  lemma {:induction false} StrlenStops(s: seq<byte>, rest: seq<byte>)
    requires 0 !in s
    ensures Strlen(s + [0] + rest) == |s|
  {
    if s != [] {
      StrlenStops(s[1..], rest);
      assert (s + [0] + rest)[1..] == s[1..] + [0] + rest;
    }
  }

  lemma LeafRoundTrip(e: Element, rest: seq<byte>)
    requires Fits(e) && !e.Tup? && rest != []
    ensures ParseLeaf(Encode(e) + rest) == Done(e, |Encode(e)|)
  {
    var s := Encode(e) + rest;
    if e.Str? {
      StrlenStops(e.str, rest);
      assert s[1..] == e.str + [0] + rest;
      assert s[1..][..|e.str|] == e.str;
    } else if e.Bin? {
      var d := e.bin;
      WordRoundTrip(|d|, 0);
      assert s[1..] == Word32(|d|) + d + rest;
      assert s[1..][..4] == Word32(|d|);
      assert s[1..][4..4 + |d|] == d;
    } else {
      FixedLeafRoundTrip(e, rest);
    }
  }

  lemma FixedLeafRoundTrip(e: Element, rest: seq<byte>)
    requires Fits(e) && !e.Str? && !e.Bin? && !e.Tup?
    ensures ParseLeaf(Encode(e) + rest) == Done(e, |Encode(e)|)
  {
    var s := Encode(e) + rest;
    FixedRoundTrip(e);
    var (tag, data) := FixedData(e);
    assert s[1..] == data + rest;
    assert s[1..][..Width(tag)] == data;
  }

  lemma {:induction false} ElementRoundTrip(e: Element, rest: seq<byte>)
    requires Fits(e) && rest != []
    ensures ParseElement(Encode(e) + rest) == Done(e, |Encode(e)|)
    ensures Encode(e)[0] != END
    decreases e, 0
  {
    if e.Tup? {
      TupleRoundTrip(e.elems, rest);
    } else {
      LeafRoundTrip(e, rest);
    }
  }

  lemma {:induction false} ElementsRoundTrip(es: Tuple, rest: seq<byte>)
    requires AllFit(es)
    ensures ParseElements(EncodeAll(es) + [END] + rest) == Done(es, |EncodeAll(es)| + 1)
    decreases es, 1
  {
    var s := EncodeAll(es) + [END] + rest;
    if es == [] {
      assert s[0] == END;
    } else {
      assert es == [es[0]] + es[1..];
      var e, tail := es[0], EncodeAll(es[1..]) + [END] + rest;
      assert s == Encode(e) + tail;
      ElementRoundTrip(e, tail);
      ElementsRoundTrip(es[1..], rest);
      assert s[|Encode(e)|..] == tail;
    }
  }

  /** Parsing an encoded tuple gives the tuple back and consumes exactly its encoding, whatever follows. */
  lemma {:induction false} TupleRoundTrip(es: Tuple, rest: seq<byte>)
    requires AllFit(es)
    ensures ParseTuple(Encode(Tup(es)) + rest) == Done(es, |Encode(Tup(es))|)
    decreases es, 2
  {
    var s := Encode(Tup(es)) + rest;
    assert s[1..] == EncodeAll(es) + [END] + rest;
    ElementsRoundTrip(es, rest);
  }

  // ---------- writing what was parsed ----------

  lemma FixedInverse(tag: byte, data: seq<byte>)
    requires IsFixed(tag) && |data| == Width(tag)
    ensures var e := FixedElement(tag, data);
            !e.Tup? && Fits(e) && Encode(e) == [tag] + data
  {
    BigEndianOfValue(data);
  }

  lemma LeafInverse(s: seq<byte>)
    requires s != [] && ParseLeaf(s).Done?
    ensures var r := ParseLeaf(s);
            s[..r.used] == Encode(r.value) && Fits(r.value)
  {
    var rest := s[1..];
    if IsFixed(s[0]) {
      FixedInverse(s[0], rest[..Width(s[0])]);
    } else if s[0] == BINARY_TAG {
      BigEndianOfValue(rest[..4]);
    }
  }

  lemma {:induction false} ElementInverse(s: seq<byte>)
    requires s != [] && ParseElement(s).Done?
    ensures var r := ParseElement(s);
            s[..r.used] == Encode(r.value) && Fits(r.value)
    decreases |s|, 1
  {
    if s[0] == START {
      TupleInverse(s);
    } else {
      LeafInverse(s);
    }
  }

  lemma {:induction false} ElementsInverse(s: seq<byte>)
    requires ParseElements(s).Done?
    ensures var r := ParseElements(s);
            s[..r.used] == EncodeAll(r.value) + [END] && AllFit(r.value)
    decreases |s|, 2
  {
    if s[0] == END {
      assert s[..1] == [END];
    } else {
      var r := ParseElement(s);
      var rest := ParseElements(s[r.used..]);
      assert ParseElements(s) == Done([r.value] + rest.value, r.used + rest.used);
      ElementInverse(s);
      ElementsInverse(s[r.used..]);
      EncodeAllCons(r.value, rest.value);
      TakenInTwo(s, r.used, rest.used);
      assert Encode(r.value) + (EncodeAll(rest.value) + [END]) == Encode(r.value) + EncodeAll(rest.value) + [END];
    }
  }

  lemma TakenInTwo(s: seq<byte>, n: nat, m: nat)
    requires n + m <= |s|
    ensures s[..n + m] == s[..n] + s[n..][..m]
  {
  }

  lemma EncodeAllCons(e: Element, es: Tuple)
    ensures EncodeAll([e] + es) == Encode(e) + EncodeAll(es)
    ensures AllFit([e] + es) <==> Fits(e) && AllFit(es)
  {
    assert ([e] + es)[1..] == es;
  }

  /** Whatever the parser accepts is the encoding of what it returns: no two byte strings mean one tuple. */
  lemma {:induction false} TupleInverse(s: seq<byte>)
    requires ParseTuple(s).Done?
    ensures var r := ParseTuple(s);
            s[..r.used] == Encode(Tup(r.value)) && AllFit(r.value)
    decreases |s|, 0
  {
    var r := ParseElements(s[1..]);
    ElementsInverse(s[1..]);
    assert s[..r.used + 1] == [START] + s[1..][..r.used];
  }

  /** Different tuples have different encodings, and neither encoding is a prefix of the other. */
  lemma EncodingIsPrefixFree(es: Tuple, fs: Tuple)
    requires AllFit(es) && AllFit(fs) && Encode(Tup(es)) <= Encode(Tup(fs))
    ensures es == fs
  {
    var rest := Encode(Tup(fs))[|Encode(Tup(es))|..];
    TupleRoundTrip(es, rest);
    TupleRoundTrip(fs, []);
    assert Encode(Tup(es)) + rest == Encode(Tup(fs));
    assert Encode(Tup(fs)) + [] == Encode(Tup(fs));
  }

  // ---------- the parser's loop ----------

  /** What is left to do once the first elements have been read. */
  function Continue(elements: Tuple, used: nat, r: Parsed<Tuple>): Parsed<Tuple> {
    match r
    case Fail => Fail
    case Done(es, n) => Done(elements + es, used + n)
  }

  lemma ContinueStarts(s: seq<byte>)
    requires |s| >= 2 && s[0] == START
    ensures Continue([], 1, ParseElements(s[1..])) == ParseTuple(s)
  {
    var r := ParseElements(s[1..]);
    if r.Done? {
      assert [] + r.value == r.value;
    }
  }

  lemma ContinueStops(elements: Tuple, used: nat)
    ensures Continue(elements, used, Done([], 1)) == Done(elements, used + 1)
  {
    assert elements + [] == elements;
  }

  lemma ContinueSteps(elements: Tuple, used: nat, s: seq<byte>)
    requires s != [] && s[0] != END && ParseElement(s).Done?
    ensures var r := ParseElement(s);
            Continue(elements, used, ParseElements(s)) ==
            Continue(elements + [r.value], used + r.used, ParseElements(s[r.used..]))
  {
    var r := ParseElement(s);
    var rest := ParseElements(s[r.used..]);
    if rest.Done? {
      assert elements + ([r.value] + rest.value) == elements + [r.value] + rest.value;
    }
  }

  /** One round of the loop, at the element that starts at iter. */
  lemma RoundAt(buffer: seq<byte>, elements: Tuple, iter: nat)
    requires iter < |buffer|
    ensures var rest := Continue(elements, iter, ParseElements(buffer[iter..]));
            if buffer[iter] == END then rest == Done(elements, iter + 1)
            else
              match ParseElement(buffer[iter..])
              case Fail => rest == Fail
              case Done(e, n) => rest == Continue(elements + [e], iter + n, ParseElements(buffer[iter + n..]))
  {
    var s := buffer[iter..];
    if s[0] == END {
      ContinueStops(elements, iter);
    } else if ParseElement(s).Done? {
      ContinueSteps(elements, iter, s);
      assert s[ParseElement(s).used..] == buffer[iter + ParseElement(s).used..];
    }
  }

  /** tuple_parse: a cursor over the buffer, one switch per element, recursion for a nested tuple. */
  method TupleParse(buffer: seq<byte>) returns (r: Parsed<Tuple>)
    ensures r == ParseTuple(buffer)
    decreases |buffer|, 0
  {
    if |buffer| < 2 || buffer[0] != START {
      return Fail;
    }
    var elements: Tuple := [];
    var iter := 1;
    ghost var goal := ParseTuple(buffer);
    ContinueStarts(buffer);
    while iter < |buffer|
      invariant 1 <= iter <= |buffer|
      invariant goal == Continue(elements, iter, ParseElements(buffer[iter..]))
      decreases |buffer| - iter
    {
      RoundAt(buffer, elements, iter);
      if buffer[iter] == END {
        return Done(elements, iter + 1);
      }
      var element := Switch(buffer[iter..]);
      if element == Fail {
        return Fail;
      }
      elements := elements + [element.value];
      iter := iter + element.used;
    }
    r := Fail;
  }

  /** The switch on the tag of the next element. */
  method Switch(s: seq<byte>) returns (element: Parsed<Element>)
    requires s != [] && s[0] != END
    ensures element == ParseElement(s)
    decreases |s|, 1
  {
    if s[0] == START {
      var nested := TupleParse(s);
      element := if nested == Fail then Fail else Done(Tup(nested.value), nested.used);
    } else {
      element := ParseLeaf(s);
    }
  }

  // ---------- the writers ----------

  /** A buffer that grows at the end (src/util/buffer.c). */
  class DynamicBuffer {
    var data: seq<byte>

    constructor ()
      ensures data == []
    {
      data := [];
    }

    method Putc(c: byte)
      modifies this
      ensures data == old(data) + [c]
    {
      data := data + [c];
    }

    method Write(bytes: seq<byte>)
      modifies this
      ensures data == old(data) + bytes
    {
      data := data + bytes;
    }

    method WriteU32(v: u32)
      modifies this
      ensures data == old(data) + Encode(U32(v))
    {
      Putc(U32_TAG);
      Write(Word32(v));
    }

    method WriteU64(v: u64)
      modifies this
      ensures data == old(data) + Encode(U64(v))
    {
      Putc(U64_TAG);
      Write(Word64(v));
    }

    method WriteI32(v: i32)
      modifies this
      ensures data == old(data) + Encode(I32(v))
    {
      Putc(I32_TAG);
      Write(Word32(Unsigned32(v)));
    }

    method WriteI64(v: i64)
      modifies this
      ensures data == old(data) + Encode(I64(v))
    {
      Putc(I64_TAG);
      Write(Word64(Unsigned64(v)));
    }

    method WriteF32(word: seq<byte>)
      requires |word| == 4
      modifies this
      ensures data == old(data) + Encode(F32(word))
    {
      Putc(F32_TAG);
      Write(word);
    }

    method WriteF64(word: seq<byte>)
      requires |word| == 8
      modifies this
      ensures data == old(data) + Encode(F64(word))
    {
      Putc(F64_TAG);
      Write(word);
    }

    method WriteBool(v: bool)
      modifies this
      ensures data == old(data) + Encode(Bool(if v then 1 else 0))
    {
      Putc(BOOL_TAG);
      Write([if v then 1 else 0]);
    }

    /** The string is written with the NUL that ends it. */
    method WriteString(v: seq<byte>)
      modifies this
      ensures data == old(data) + Encode(Str(v))
    {
      Putc(STRING_TAG);
      Write(v + [0]);
    }

    method WriteBinary(v: seq<byte>)
      modifies this
      ensures data == old(data) + Encode(Bin(v))
    {
      Putc(BINARY_TAG);
      Write(BigEndian(4, |v|));
      Write(v);
    }

    method WriteStart()
      modifies this
      ensures data == old(data) + [START]
    {
      Putc(START);
    }

    method WriteEnd()
      modifies this
      ensures data == old(data) + [END]
    {
      Putc(END);
    }
  }
}
