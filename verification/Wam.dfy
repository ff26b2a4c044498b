/** The WAM wire codec: entries of variable width, written by an appending buffer and
    recovered from the bytes alone. Flag bits are disjoint, so joining them is adding. */
module Wam {
  import opened Values
  import opened Doubles

  type Byte = b: int | 0 <= b < 256
  type Id = n: nat | n < 65536

  /** What callers hand over. `Int` is a 64-bit integer, `Float` a 64-bit pattern. */
  datatype Wire = Int(n: Int64) | Float(bits: Bits) | Bool(flag: bool) | Str(utf8: seq<Byte>)

  type Int64 = n: int | -TWO_63 <= n < TWO_63

  datatype Marker = GlobalMark | EventMark | FieldMark

  datatype Entry = Entry(marker: Marker, terminal: bool, id: Id, value: Wire)

  const TERMINAL: nat := 4
  const WIDE: nat := 8
  const VERSION: Byte := 5

  // ---------------------------------------------------------------- little-endian

  function Pow256(k: nat): (p: nat)
    ensures p >= 1
  {
    if k == 0 then 1 else 256 * Pow256(k - 1)
  }

  function LittleEndian(n: nat, k: nat): (bytes: seq<Byte>)
    ensures |bytes| == k
  {
    if k == 0 then [] else [n % 256] + LittleEndian(n / 256, k - 1)
  }

  function FromLittleEndian(bytes: seq<Byte>): nat {
    if bytes == [] then 0 else bytes[0] + 256 * FromLittleEndian(bytes[1..])
  }

  lemma {:induction false} LittleEndianInverse(n: nat, k: nat)
    requires n < Pow256(k)
    ensures FromLittleEndian(LittleEndian(n, k)) == n
  {
    if k > 0 {
      assert n / 256 < Pow256(k - 1);
      LittleEndianInverse(n / 256, k - 1);
    }
  }

  // ---------------------------------------------------------------- encoding

  function MarkerBits(m: Marker): nat {
    match m case GlobalMark => 0 case EventMark => 1 case FieldMark => 2
  }

  function Flags(marker: Marker, terminal: bool): nat {
    MarkerBits(marker) + if terminal then TERMINAL else 0
  }

  /** The four fields of a flags byte. */
  function MarkerField(flags: nat): nat { flags % 4 }
  predicate IsTerminal(flags: nat) { flags / 4 % 2 == 1 }
  predicate IsWide(flags: nat) { flags / 8 % 2 == 1 }
  function ClassField(flags: nat): nat { flags / 16 }

  /** Marker and terminal bit joined with a size class. */
  function Joined(flags: nat, class_: nat): (joined: nat)
    requires flags < 8 && class_ < 16
    ensures joined < 256 && !IsWide(joined) && ClassField(joined) == class_
    ensures MarkerField(joined) == MarkerField(flags) && (IsTerminal(joined) <==> IsTerminal(flags))
  {
    flags + 16 * class_
  }

  function Tag(flags: nat, id: Id): seq<Byte>
    requires flags < 256 && !IsWide(flags)
  {
    WideBit(flags);
    if id < 256 then [flags, id] else [flags + WIDE] + LittleEndian(id, 2)
  }

  lemma WideBit(flags: nat)
    requires flags < 256 && !IsWide(flags)
    ensures flags + WIDE < 256 && IsWide(flags + WIDE) && ClassField(flags + WIDE) == ClassField(flags)
    ensures MarkerField(flags + WIDE) == MarkerField(flags) && (IsTerminal(flags + WIDE) <==> IsTerminal(flags))
  {}

  /** `x as i32`: toward zero, saturating, NaN to 0. */
  function AsI32(x: Num): int {
    match x
    case NaN => 0
    case PosInf => 0x7fff_ffff
    case NegInf => -0x8000_0000
    case Finite(r) =>
      var t := if r >= 0.0 then r.Floor else -(-r).Floor;
      if t > 0x7fff_ffff then 0x7fff_ffff else if t < -0x8000_0000 then -0x8000_0000 else t
  }

  /** Two's complement at `modulus`. */
  function Unsigned(n: int, modulus: nat): nat
    requires 0 - modulus <= n < modulus
  {
    if n < 0 then n + modulus else n
  }

  /** Size class and payload of a number. */
  function NumBody(bits: Bits): (nat, seq<Byte>) {
    var n := AsI32(Denotes(bits));
    if Denotes(bits) == Finite(n as real) then
      if n == 0 then (1, [])
      else if n == 1 then (2, [])
      else if -128 <= n <= 127 then (3, [Unsigned(n, 256)])
      else if -32768 <= n <= 32767 then (4, LittleEndian(Unsigned(n, 65536), 2))
      else
        (5, LittleEndian(Unsigned(n, 0x1_0000_0000), 4))
    else (7, LittleEndian(bits, 8))
  }

  /** Size class and payload of a value; lengths are truncated to 32 bits. */
  function Body(v: Wire): (body: (nat, seq<Byte>))
    ensures 1 <= body.0 <= 10
  {
    match v
    case Int(n) => NumBody(FromInt(n))
    case Float(bits) => NumBody(bits)
    case Bool(flag) => NumBody(FromInt(if flag then 1 else 0))
    case Str(utf8) =>
      if |utf8| < 256 then (8, [|utf8|] + utf8)
      else if |utf8| < 65536 then (9, LittleEndian(|utf8|, 2) + utf8)
      else (10, LittleEndian(|utf8| % 0x1_0000_0000, 4) + utf8)
  }

  function EncodeValue(flags: nat, id: Id, v: Wire): seq<Byte>
    requires flags < 8
  {
    Tag(Joined(flags, Body(v).0), id) + Body(v).1
  }

  function Encode(e: Entry): seq<Byte> {
    EncodeValue(Flags(e.marker, e.terminal), e.id, e.value)
  }

  function EncodeAll(es: seq<Entry>): seq<Byte> {
    if es == [] then [] else Encode(es[0]) + EncodeAll(es[1..])
  }

  function Header(channel: Byte, stream: Byte, sequence: Id): seq<Byte> {
    ['W' as int, 'A' as int, 'M' as int, VERSION, stream] + LittleEndian(sequence, 2) + [channel]
  }

  // ---------------------------------------------------------------- decoding

  /** What the bytes say: a number, whatever it was written from, or text. */
  datatype Decoded = Numeric(x: Num) | Utf8(bytes: seq<Byte>)

  datatype Record = Record(marker: Marker, terminal: bool, id: Id, value: Decoded)

  function Meaning(v: Wire): Decoded {
    match v
    case Int(n) => Numeric(Finite(Rounded(n) as real))
    case Float(bits) => Numeric(Denotes(bits))
    case Bool(flag) => Numeric(Finite(if flag then 1.0 else 0.0))
    case Str(utf8) => Utf8(utf8)
  }

  function RecordOf(e: Entry): Record {
    Record(e.marker, e.terminal, e.id, Meaning(e.value))
  }

  function RecordsOf(es: seq<Entry>): (rs: seq<Record>)
    ensures |rs| == |es| && forall i | 0 <= i < |es| :: rs[i] == RecordOf(es[i])
  {
    seq(|es|, i requires 0 <= i < |es| => RecordOf(es[i]))
  }

  function SignedFrom(n: nat, half: nat): int {
    if n >= half then n - 2 * half else n
  }

  function Whole(n: int): Decoded {
    Numeric(Finite(n as real))
  }

  /** A value of the given size class at the front of the bytes, and how long it is. */
  function DecodeBody(class_: nat, bytes: seq<Byte>): Option<(Decoded, nat)> {
    if class_ == 1 then Some((Whole(0), 0))
    else if class_ == 2 then Some((Whole(1), 0))
    else if class_ == 3 then (if |bytes| < 1 then None else Some((Whole(SignedFrom(bytes[0], 128)), 1)))
    else if class_ == 4 then
      (if |bytes| < 2 then None else Some((Whole(SignedFrom(FromLittleEndian(bytes[..2]), 32768)), 2)))
    else if class_ == 5 then
      (if |bytes| < 4 then None else Some((Whole(SignedFrom(FromLittleEndian(bytes[..4]), 0x8000_0000)), 4)))
    else if class_ == 7 then
      if |bytes| < 8 then None
      else
        var n := FromLittleEndian(bytes[..8]);
        if n < TWO_64 then Some((Numeric(Denotes(n)), 8)) else None
    else if class_ == 8 then DecodeText(1, bytes)
    else if class_ == 9 then DecodeText(2, bytes)
    else if class_ == 10 then DecodeText(4, bytes)
    else None
  }

  function DecodeText(width: nat, bytes: seq<Byte>): Option<(Decoded, nat)> {
    if |bytes| < width then None
    else
      var length := FromLittleEndian(bytes[..width]);
      if |bytes| < width + length then None else Some((Utf8(bytes[width..width + length]), width + length))
  }

  function MarkerFrom(n: nat): Option<Marker> {
    if n == 0 then Some(GlobalMark) else if n == 1 then Some(EventMark) else if n == 2 then Some(FieldMark) else None
  }

  /** The entry at the front of the bytes, and how long it is. */
  function Decode(bytes: seq<Byte>): Option<(Record, nat)> {
    if |bytes| < 2 then None
    else
      var flags := bytes[0];
      var start := if IsWide(flags) then 3 else 2;
      if |bytes| < start then None
      else
        var id := FromLittleEndian(bytes[1..start]);
        var marker := MarkerFrom(MarkerField(flags));
        var body := DecodeBody(ClassField(flags), bytes[start..]);
        if marker.None? || body.None? || id >= 65536 then None
        else Some((Record(marker.value, IsTerminal(flags), id, body.value.0), start + body.value.1))
  }

  function DecodeAll(bytes: seq<Byte>): Option<seq<Record>>
    decreases |bytes|
  {
    if bytes == [] then Some([])
    else
      var first := Decode(bytes);
      if first.None? || first.value.1 == 0 || first.value.1 > |bytes| then None
      else
        match DecodeAll(bytes[first.value.1..])
        case None => None
        case Some(rest) => Some([first.value.0] + rest)
  }

  // ---------------------------------------------------------------- one entry

  /** What the format can carry: a length must fit 32 bits. */
  predicate Carried(v: Wire) {
    v.Str? ==> |v.utf8| < 0x1_0000_0000
  }

  lemma Pow256Values()
    ensures Pow256(1) == 256 && Pow256(2) == 65536 && Pow256(4) == 0x1_0000_0000 && Pow256(8) == TWO_64
  {
    assert Pow256(3) == 256 * 65536;
    assert Pow256(5) == 256 * 0x1_0000_0000;
    assert Pow256(6) == 65536 * 0x1_0000_0000;
    assert Pow256(7) == 256 * 65536 * 0x1_0000_0000;
  }

  lemma NumRoundTrip(bits: Bits, rest: seq<Byte>)
    ensures var (class_, payload) := NumBody(bits);
      DecodeBody(class_, payload + rest) == Some((Numeric(Denotes(bits)), |payload|))
  {
    Pow256Values();
    var n := AsI32(Denotes(bits));
    var payload := NumBody(bits).1;
    assert (payload + rest)[..|payload|] == payload;
    hide Denotes, AsI32, Pow256;
    if Denotes(bits) == Finite(n as real) {
      if -128 <= n <= 127 {
      } else if -32768 <= n <= 32767 {
        LittleEndianInverse(Unsigned(n, 65536), 2);
      } else {
        AsI32Range(Denotes(bits));
        LittleEndianInverse(Unsigned(n, 0x1_0000_0000), 4);
      }
    } else {
      LittleEndianInverse(bits, 8);
    }
  }

  lemma AsI32Range(x: Num)
    ensures -0x8000_0000 <= AsI32(x) <= 0x7fff_ffff
  {}

  lemma TextRoundTrip(utf8: seq<Byte>, width: nat, rest: seq<Byte>)
    requires |utf8| < Pow256(width)
    ensures DecodeText(width, LittleEndian(|utf8|, width) + utf8 + rest) == Some((Utf8(utf8), width + |utf8|))
  {
    hide *;
    var length := LittleEndian(|utf8|, width);
    LittleEndianInverse(|utf8|, width);
    SliceBehind(length, utf8, rest);
    TextAt(length + utf8 + rest, width, utf8);
  }

  lemma TextAt(bytes: seq<Byte>, width: nat, utf8: seq<Byte>)
    requires width + |utf8| <= |bytes| && FromLittleEndian(bytes[..width]) == |utf8| && bytes[width..width + |utf8|] == utf8
    ensures DecodeText(width, bytes) == Some((Utf8(utf8), width + |utf8|))
  {
    hide FromLittleEndian;
  }

  lemma SliceBehind(a: seq<Byte>, b: seq<Byte>, c: seq<Byte>)
    ensures (a + b + c)[..|a|] == a && (a + b + c)[|a|..|a| + |b|] == b
  {
  }

  lemma BodyRoundTrip(v: Wire, rest: seq<Byte>)
    requires Carried(v)
    ensures DecodeBody(Body(v).0, Body(v).1 + rest) == Some((Meaning(v), |Body(v).1|))
  {
    match v
    case Int(n) => IntRoundTrip(n, rest);
    case Float(bits) => NumRoundTrip(bits, rest);
    case Bool(flag) => FlagRoundTrip(flag, rest);
    case Str(utf8) => StrRoundTrip(utf8, rest);
  }

  lemma IntRoundTrip(n: Int64, rest: seq<Byte>)
    ensures var v := Wire.Int(n); DecodeBody(Body(v).0, Body(v).1 + rest) == Some((Meaning(v), |Body(v).1|))
  {
    hide DecodeBody, NumBody, FromInt, Denotes, Rounded;
    FromIntDenotes(n);
    NumRoundTrip(FromInt(n), rest);
  }

  lemma FlagRoundTrip(flag: bool, rest: seq<Byte>)
    ensures var v := Wire.Bool(flag); DecodeBody(Body(v).0, Body(v).1 + rest) == Some((Meaning(v), |Body(v).1|))
  {
    hide DecodeBody, NumBody, FromInt, Denotes, Rounded;
    var n := if flag then 1 else 0;
    FromIntDenotes(n);
    BitsOfFlag(n);
    NumRoundTrip(FromInt(n), rest);
  }

  /** How many bytes give the length of a text. */
  function LengthWidth(utf8: seq<Byte>): nat {
    if |utf8| < 256 then 1 else if |utf8| < 65536 then 2 else 4
  }

  lemma StrRoundTrip(utf8: seq<Byte>, rest: seq<Byte>)
    requires Carried(Wire.Str(utf8))
    ensures var v := Wire.Str(utf8); DecodeBody(Body(v).0, Body(v).1 + rest) == Some((Meaning(v), |Body(v).1|))
  {
    hide *;
    TextBody(utf8);
    TextRoundTrip(utf8, LengthWidth(utf8), rest);
    TextClass(utf8, LittleEndian(|utf8|, LengthWidth(utf8)) + utf8 + rest);
  }

  lemma TextBody(utf8: seq<Byte>)
    requires Carried(Wire.Str(utf8))
    ensures var v := Wire.Str(utf8);
      |utf8| < Pow256(LengthWidth(utf8)) && Body(v).1 == LittleEndian(|utf8|, LengthWidth(utf8)) + utf8 &&
      |Body(v).1| == LengthWidth(utf8) + |utf8| && Meaning(v) == Utf8(utf8)
  {
    Pow256Values();
    assert LittleEndian(|utf8|, 1) == [|utf8| % 256] by { assert LittleEndian(|utf8| / 256, 0) == []; }
    hide LittleEndian, Pow256;
  }

  lemma TextClass(utf8: seq<Byte>, bytes: seq<Byte>)
    ensures DecodeBody(Body(Wire.Str(utf8)).0, bytes) == DecodeText(LengthWidth(utf8), bytes)
  {
    hide LittleEndian, DecodeText;
  }

  lemma BitsOfFlag(n: nat)
    requires n <= 1
    ensures Rounded(n) == n
  {
    if n == 1 { RoundedExactly(1); }
  }

  /** Start of the body behind a tag. */
  function Start(bytes: seq<Byte>): nat
    requires bytes != []
  {
    if IsWide(bytes[0]) then 3 else 2
  }

  /** The flags byte says what `flags` says, apart from the width of the id. */
  predicate SameFlags(byte: nat, flags: nat) {
    MarkerField(byte) == MarkerField(flags) && IsTerminal(byte) == IsTerminal(flags) && ClassField(byte) == ClassField(flags)
  }

  lemma TagRoundTrip(flags: nat, id: Id, rest: seq<Byte>)
    requires flags < 256 && !IsWide(flags)
    ensures var bytes := Tag(flags, id) + rest;
      |bytes| >= 2 && Start(bytes) == |Tag(flags, id)| && FromLittleEndian(bytes[1..Start(bytes)]) == id &&
      bytes[Start(bytes)..] == rest && SameFlags(bytes[0], flags)
  {
    var bytes := Tag(flags, id) + rest;
    Pow256Values();
    WideBit(flags);
    hide IsWide, MarkerField, IsTerminal, ClassField;
    if id < 256 {
      assert bytes[1..2] == [id] && bytes[1..2][1..] == [];
      assert bytes[2..] == rest;
    } else {
      assert bytes[1..3] == LittleEndian(id, 2);
      LittleEndianInverse(id, 2);
      assert bytes[3..] == rest;
    }
  }

  lemma FlagBits(marker: Marker, terminal: bool)
    ensures Flags(marker, terminal) < 8
    ensures MarkerFrom(MarkerField(Flags(marker, terminal))) == Some(marker) && (IsTerminal(Flags(marker, terminal)) <==> terminal)
  {}

  /** Decoding is reading the tag, then the body behind it. */
  lemma DecodeParts(bytes: seq<Byte>, flags: nat, tag: seq<Byte>, behind: seq<Byte>, id: Id)
    requires bytes == tag + behind && |bytes| >= 2 && SameFlags(bytes[0], flags)
    requires Start(bytes) == |tag| && FromLittleEndian(bytes[1..Start(bytes)]) == id && bytes[Start(bytes)..] == behind
    ensures Decode(bytes) == match (MarkerFrom(MarkerField(flags)), DecodeBody(ClassField(flags), behind))
      case (Some(marker), Some((value, length))) => Some((Record(marker, IsTerminal(flags), id, value), |tag| + length))
      case _ => None
  {
    hide FromLittleEndian, DecodeBody, MarkerFrom, IsWide, MarkerField, IsTerminal, ClassField;
  }

  lemma EncodeParts(e: Entry)
    ensures Flags(e.marker, e.terminal) < 8
    ensures Encode(e) == Tag(Joined(Flags(e.marker, e.terminal), Body(e.value).0), e.id) + Body(e.value).1
  {
    hide Tag, Body, Joined;
  }

  lemma RecordParts(e: Entry)
    ensures RecordOf(e) == Record(e.marker, e.terminal, e.id, Meaning(e.value))
  {}

  /** What decoding does with an encoded entry, its body left to be decoded. */
  lemma DecodeEncoded(e: Entry, rest: seq<Byte>)
    ensures Decode(Encode(e) + rest) == match DecodeBody(Body(e.value).0, Body(e.value).1 + rest)
      case Some((value, length)) => Some((Record(e.marker, e.terminal, e.id, value), |Encode(e)| - |Body(e.value).1| + length))
      case None => None
  {
    hide *;
    FlagBits(e.marker, e.terminal);
    var (class_, payload) := Body(e.value);
    var flags := Joined(Flags(e.marker, e.terminal), class_);
    EncodeParts(e);
    assert Encode(e) + rest == Tag(flags, e.id) + (payload + rest);
    TagRoundTrip(flags, e.id, payload + rest);
    DecodeParts(Encode(e) + rest, flags, Tag(flags, e.id), payload + rest, e.id);
  }

  /** The first entry is recovered, and its length, whatever bytes follow it. */
  lemma EntryRoundTrip(e: Entry, rest: seq<Byte>)
    requires Carried(e.value)
    ensures Decode(Encode(e) + rest) == Some((RecordOf(e), |Encode(e)|))
  {
    hide *;
    DecodeEncoded(e, rest);
    BodyRoundTrip(e.value, rest);
    RecordParts(e);
  }

  /** A string of 2^32 bytes or more is never recovered: its length is cut to 32 bits. */
  lemma CarriedIsNeeded(e: Entry, rest: seq<Byte>)
    requires !Carried(e.value)
    ensures Decode(Encode(e) + rest) != Some((RecordOf(e), |Encode(e)|))
  {
    var utf8 := e.value.utf8;
    var payload := Body(e.value).1;
    assert Body(e.value).0 == 10 && DecodeBody(10, payload + rest) == DecodeText(4, payload + rest);
    assert Meaning(e.value) == Utf8(utf8);
    RecordParts(e);
    var length := LittleEndian(|utf8| % 0x1_0000_0000, 4);
    assert (payload + rest)[..4] == length;
    Pow256Values();
    LittleEndianInverse(|utf8| % 0x1_0000_0000, 4);
    hide Encode, Meaning, Decode, DecodeBody, Body, FromLittleEndian, LittleEndian, RecordOf, Pow256;
    DecodeEncoded(e, rest);
    var text := DecodeText(4, payload + rest);
    assert text.Some? ==> |text.value.0.bytes| == |utf8| % 0x1_0000_0000;
  }

  // ---------------------------------------------------------------- whole buffers

  predicate AllCarried(es: seq<Entry>) {
    forall i | 0 <= i < |es| :: Carried(es[i].value)
  }

  /** Every entry of a buffer is recovered, in order, from the bytes alone. */
  lemma {:induction false} EntriesRoundTrip(es: seq<Entry>)
    requires AllCarried(es)
    ensures DecodeAll(EncodeAll(es)) == Some(RecordsOf(es))
  {
    if es == [] {
      assert RecordsOf(es) == [];
    } else {
      RecordsStep(es);
      hide *;
      EntryRoundTrip(es[0], EncodeAll(es[1..]));
      EntriesRoundTrip(es[1..]);
      DecodeStep(Encode(es[0]), EncodeAll(es[1..]), RecordOf(es[0]), RecordsOf(es[1..]));
    }
  }

  lemma RecordsStep(es: seq<Entry>)
    requires es != []
    ensures RecordsOf(es) == [RecordOf(es[0])] + RecordsOf(es[1..])
    ensures EncodeAll(es) == Encode(es[0]) + EncodeAll(es[1..]) && Encode(es[0]) != []
  {
    hide RecordOf, Encode;
    EncodeNotEmpty(es[0]);
  }

  lemma EncodeNotEmpty(e: Entry)
    ensures Encode(e) != []
  {
    hide Body, LittleEndian;
  }

  lemma DecodeStep(front: seq<Byte>, rest: seq<Byte>, first: Record, more: seq<Record>)
    requires front != [] && Decode(front + rest) == Some((first, |front|)) && DecodeAll(rest) == Some(more)
    ensures DecodeAll(front + rest) == Some([first] + more)
  {
    assert (front + rest)[|front|..] == rest;
    hide Decode;
  }
}
