/** No other bytes say the same in less room: every size class, every length prefix and
    every id is the smallest the decoder would understand. */
module WamShortest {
  import opened Values
  import opened Doubles
  import opened Wam

  lemma {:induction false} FromLittleEndianBound(bytes: seq<Byte>)
    ensures FromLittleEndian(bytes) < Pow256(|bytes|)
  {
    if bytes != [] { FromLittleEndianBound(bytes[1..]); }
  }

  lemma {:induction false} LittleEndianBack(bytes: seq<Byte>)
    ensures LittleEndian(FromLittleEndian(bytes), |bytes|) == bytes
  {
    if bytes != [] {
      var first, rest := bytes[0], FromLittleEndian(bytes[1..]);
      LittleEndianBack(bytes[1..]);
      BytesApart(first, rest);
      assert bytes == [first] + bytes[1..];
    }
  }

  lemma BytesApart(first: Byte, rest: nat)
    ensures (first + 256 * rest) % 256 == first && (first + 256 * rest) / 256 == rest
  {}

  // ---------------------------------------------------------------- numbers

  lemma WholeIsWhole(n: int)
    requires -0x8000_0000 <= n <= 0x7fff_ffff
    ensures AsI32(Finite(n as real)) == n
  {
    if n < 0 { assert -(n as real) == (-n) as real; }
  }

  /** The whole number a small class holds, by its width. */
  lemma ClassHolds(class_: nat, bytes: seq<Byte>, x: Num, length: nat)
    requires DecodeBody(class_, bytes) == Some((Numeric(x), length)) && class_ != 7
    ensures length <= |bytes| && length <= 4
    ensures exists n: int :: x == Finite(n as real) && Holds(n, length, class_, bytes[..length])
  {
    Pow256Values();
    hide Pow256, LittleEndian, FromLittleEndian;
    if class_ == 3 {
      var n := SignedFrom(bytes[0], 128);
      assert Holds(n, length, class_, bytes[..length]);
    } else if class_ == 4 {
      FromLittleEndianBound(bytes[..2]);
      LittleEndianBack(bytes[..2]);
      var n := SignedFrom(FromLittleEndian(bytes[..2]), 32768);
      assert Holds(n, length, class_, bytes[..length]);
    } else if class_ == 5 {
      FromLittleEndianBound(bytes[..4]);
      LittleEndianBack(bytes[..4]);
      var n := SignedFrom(FromLittleEndian(bytes[..4]), 0x8000_0000);
      assert Holds(n, length, class_, bytes[..length]);
    } else {
      var n := class_ - 1;
      assert Holds(n, length, class_, bytes[..length]);
    }
  }

  /** What a class of that width can say, and how it says it. */
  ghost predicate Holds(n: int, width: nat, class_: nat, payload: seq<Byte>) {
    match class_
    case 1 => n == 0 && width == 0 && payload == []
    case 2 => n == 1 && width == 0 && payload == []
    case 3 => -128 <= n <= 127 && width == 1 && payload == [Unsigned(n, 256)]
    case 4 => -32768 <= n <= 32767 && width == 2 && payload == LittleEndian(Unsigned(n, 65536), 2)
    case 5 => -0x8000_0000 <= n <= 0x7fff_ffff && width == 4 && payload == LittleEndian(Unsigned(n, 0x1_0000_0000), 4)
    case _ => false
  }

  /** No class understood by the decoder says a number in fewer bytes; where the number fits
      32 bits, none says it otherwise in as many. */
  lemma NumShortest(bits: Bits, class_: nat, bytes: seq<Byte>, length: nat)
    requires DecodeBody(class_, bytes) == Some((Numeric(Denotes(bits)), length))
    ensures length >= |NumBody(bits).1|
    ensures length == |NumBody(bits).1| && NumBody(bits).0 != 7 ==> class_ == NumBody(bits).0 && bytes[..length] == NumBody(bits).1
  {
    if class_ != 7 {
      ClassHolds(class_, bytes, Denotes(bits), length);
      var n: int :| Denotes(bits) == Finite(n as real) && Holds(n, length, class_, bytes[..length]);
      WholeIsWhole(n);
      hide DecodeBody, Denotes, AsI32, LittleEndian;
    } else {
      hide Denotes, AsI32, LittleEndian, FromLittleEndian;
    }
  }

  // ---------------------------------------------------------------- texts

  /** No shorter length prefix says the same text, and no other one of that length. */
  lemma TextShortest(utf8: seq<Byte>, class_: nat, bytes: seq<Byte>, length: nat)
    requires DecodeBody(class_, bytes) == Some((Utf8(utf8), length))
    ensures var body := Body(Wire.Str(utf8));
      length >= |body.1| && (length == |body.1| ==> class_ == body.0 && bytes[..length] == body.1)
  {
    var width := if class_ == 8 then 1 else if class_ == 9 then 2 else 4;
    assert DecodeText(width, bytes) == Some((Utf8(utf8), length)) && 8 <= class_ <= 10;
    hide DecodeBody;
    FromLittleEndianBound(bytes[..width]);
    LittleEndianBack(bytes[..width]);
    Pow256Values();
    assert |utf8| == FromLittleEndian(bytes[..width]) && |utf8| < Pow256(width) && length == width + |utf8|;
    assert bytes[..length] == bytes[..width] + bytes[width..length];
    assert LittleEndian(|utf8|, 1) == [|utf8| % 256] by { assert LittleEndian(|utf8| / 256, 0) == []; }
    hide Pow256, LittleEndian, FromLittleEndian;
  }

  // ---------------------------------------------------------------- entries

  lemma BodyShortest(v: Wire, class_: nat, bytes: seq<Byte>, length: nat)
    requires DecodeBody(class_, bytes) == Some((Meaning(v), length))
    ensures length >= |Body(v).1|
    ensures length == |Body(v).1| && Body(v).0 != 7 ==> class_ == Body(v).0 && bytes[..length] == Body(v).1
  {
    hide DecodeBody, NumBody, FromInt, Denotes, Rounded;
    match v
    case Int(n) =>
      FromIntDenotes(n);
      NumShortest(FromInt(n), class_, bytes, length);
    case Float(bits) => NumShortest(bits, class_, bytes, length);
    case Bool(flag) =>
      var n := if flag then 1 else 0;
      FromIntDenotes(n);
      BitsOfFlag(n);
      NumShortest(FromInt(n), class_, bytes, length);
    case Str(utf8) => TextShortest(utf8, class_, bytes, length);
  }

  lemma DecodedLength(class_: nat, bytes: seq<Byte>)
    ensures DecodeBody(class_, bytes).Some? ==> DecodeBody(class_, bytes).value.1 <= |bytes|
  {
    hide FromLittleEndian, Denotes;
  }

  lemma DecodedParts(e: Entry, bytes: seq<Byte>, length: nat)
    requires Decode(bytes) == Some((RecordOf(e), length))
    ensures bytes != [] && Start(bytes) <= length <= |bytes| && FromLittleEndian(bytes[1..Start(bytes)]) == e.id
    ensures MarkerFrom(MarkerField(bytes[0])) == Some(e.marker) && IsTerminal(bytes[0]) == e.terminal
    ensures DecodeBody(ClassField(bytes[0]), bytes[Start(bytes)..]) == Some((Meaning(e.value), length - Start(bytes)))
  {
    DecodedLength(ClassField(bytes[0]), bytes[Start(bytes)..]);
    hide DecodeBody, Meaning, FromLittleEndian, MarkerFrom, MarkerField, IsTerminal, ClassField;
  }

  /** Bytes that decode to an entry are at least as long as its encoding, and if no longer
      they are its encoding, except for the pattern of a number that is no 32-bit integer. */
  lemma EntryShortest(e: Entry, bytes: seq<Byte>, length: nat)
    requires Decode(bytes) == Some((RecordOf(e), length))
    ensures length <= |bytes| && length >= |Encode(e)|
    ensures length == |Encode(e)| && Body(e.value).0 != 7 ==> bytes[..length] == Encode(e)
  {
    hide *;
    DecodedParts(e, bytes, length);
    FlagBits(e.marker, e.terminal);
    var start, class_ := Start(bytes), ClassField(bytes[0]);
    var joined := Joined(Flags(e.marker, e.terminal), Body(e.value).0);
    BodyShortest(e.value, class_, bytes[start..], length - start);
    TagShortest(joined, e.id, bytes);
    EncodeParts(e);
    if length == |Encode(e)| && Body(e.value).0 != 7 {
      SameByte(bytes[0], joined, e);
      assert bytes[..length] == bytes[..start] + bytes[start..][..length - start];
    }
  }

  lemma EncodeParts(e: Entry)
    ensures Flags(e.marker, e.terminal) < 8
    ensures Encode(e) == Tag(Joined(Flags(e.marker, e.terminal), Body(e.value).0), e.id) + Body(e.value).1
  {
    hide Tag, Body, Joined;
  }

  lemma TagShortest(joined: nat, id: Id, bytes: seq<Byte>)
    requires joined < 256 && !IsWide(joined) && bytes != [] && |bytes| >= Start(bytes) && FromLittleEndian(bytes[1..Start(bytes)]) == id
    ensures Start(bytes) >= |Tag(joined, id)|
    ensures Start(bytes) == |Tag(joined, id)| && bytes[0] == joined + (if IsWide(bytes[0]) then WIDE else 0) ==>
      bytes[..Start(bytes)] == Tag(joined, id)
  {
    Pow256Values();
    var start := Start(bytes);
    FromLittleEndianBound(bytes[1..start]);
    LittleEndianBack(bytes[1..start]);
    assert bytes[..start] == [bytes[0]] + bytes[1..start];
    assert LittleEndian(id, 1) == [id % 256] by { assert LittleEndian(id / 256, 0) == []; }
    hide FromLittleEndian, LittleEndian, Pow256, IsWide;
  }

  /** A flags byte is its four fields. */
  lemma SameByte(byte: Byte, joined: nat, e: Entry)
    requires joined == Joined(Flags(e.marker, e.terminal), Body(e.value).0) && ClassField(byte) == Body(e.value).0
    requires MarkerFrom(MarkerField(byte)) == Some(e.marker) && IsTerminal(byte) == e.terminal
    ensures byte == joined + if IsWide(byte) then WIDE else 0
  {
    hide Body;
    FlagBits(e.marker, e.terminal);
    FourFields(byte);
    FourFields(joined);
    assert MarkerField(byte) == MarkerBits(e.marker);
    hide MarkerField, IsTerminal, IsWide, ClassField;
  }

  lemma FourFields(byte: Byte)
    ensures byte == MarkerField(byte) + (if IsTerminal(byte) then TERMINAL else 0) + (if IsWide(byte) then WIDE else 0) + 16 * ClassField(byte)
  {
    var a, b, c := byte / 4, byte / 8, byte / 16;
    assert a / 2 == b && b / 2 == c;
  }

  /** So is a whole buffer of entries as short as the decoder allows. */
  lemma {:induction false} EntriesShortest(es: seq<Entry>, bytes: seq<Byte>)
    requires DecodeAll(bytes) == Some(RecordsOf(es))
    ensures |bytes| >= |EncodeAll(es)|
    ensures |bytes| == |EncodeAll(es)| && (forall e | e in es :: Body(e.value).0 != 7) ==> bytes == EncodeAll(es)
    decreases |es|
  {
    if es != [] {
      hide *;
      var length := DecodeAllStep(es, bytes);
      EntryShortest(es[0], bytes, length);
      EntriesShortest(es[1..], bytes[length..]);
      EncodeAllStep(es);
      assert bytes == bytes[..length] + bytes[length..];
      assert forall e | e in es[1..] :: e in es;
    } else {
      hide *;
      NoEntries();
    }
  }

  lemma NoEntries()
    ensures EncodeAll([]) == [] && DecodeAll([]) == Some([]) && forall bytes :: DecodeAll(bytes) == Some([]) ==> bytes == []
  {}

  lemma DecodeAllStep(es: seq<Entry>, bytes: seq<Byte>) returns (length: nat)
    requires es != [] && DecodeAll(bytes) == Some(RecordsOf(es))
    ensures Decode(bytes) == Some((RecordOf(es[0]), length)) && length <= |bytes|
    ensures DecodeAll(bytes[length..]) == Some(RecordsOf(es[1..]))
  {
    hide Decode, RecordOf;
    length := Decode(bytes).value.1;
    var rest := DecodeAll(bytes[length..]).value;
    assert RecordsOf(es) == [Decode(bytes).value.0] + rest;
    assert rest == RecordsOf(es)[1..];
    assert RecordsOf(es)[1..] == RecordsOf(es[1..]);
  }

  lemma EncodeAllStep(es: seq<Entry>)
    requires es != []
    ensures EncodeAll(es) == Encode(es[0]) + EncodeAll(es[1..])
  {
    hide Encode;
  }
}
