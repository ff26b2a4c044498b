/** Whole WAM buffers: global attributes and events with their fields, regrouped by the
    terminal bit alone. */
module WamEvents {
  import opened Values
  import opened Doubles
  import opened Wam

  /** What a client writes: an attribute for the events that follow, or an event. */
  datatype Item = Attribute(id: Id, value: Wire) | Occurrence(code: Id, weight: Int64, fields: seq<Column>)

  datatype Column = Column(id: Id, value: Wire)

  function FieldEntries(fields: seq<Column>): (es: seq<Entry>)
    ensures |es| == |fields|
  {
    if fields == [] then []
    else [Entry(FieldMark, |fields| == 1, fields[0].id, fields[0].value)] + FieldEntries(fields[1..])
  }

  function EntriesOf(item: Item): seq<Entry> {
    match item
    case Attribute(id, value) => [Entry(GlobalMark, false, id, value)]
    case Occurrence(code, weight, fields) => [Entry(EventMark, fields == [], code, Int(weight))] + FieldEntries(fields)
  }

  function AllEntries(items: seq<Item>): seq<Entry> {
    if items == [] then [] else EntriesOf(items[0]) + AllEntries(items[1..])
  }

  // ---------------------------------------------------------------- reading back

  /** What a reader sees of an item. */
  datatype Seen = SeenAttribute(id: Id, value: Decoded) | SeenEvent(code: Id, weight: Decoded, fields: seq<SeenColumn>)

  datatype SeenColumn = SeenColumn(id: Id, value: Decoded)

  function ColumnsSeen(fields: seq<Column>): seq<SeenColumn> {
    if fields == [] then [] else [SeenColumn(fields[0].id, Meaning(fields[0].value))] + ColumnsSeen(fields[1..])
  }

  function ItemSeen(item: Item): Seen {
    match item
    case Attribute(id, value) => SeenAttribute(id, Meaning(value))
    case Occurrence(code, weight, fields) => SeenEvent(code, Meaning(Int(weight)), ColumnsSeen(fields))
  }

  function ItemsSeen(items: seq<Item>): seq<Seen> {
    if items == [] then [] else [ItemSeen(items[0])] + ItemsSeen(items[1..])
  }

  /** The fields up to and including the terminal one, and how many there are. */
  function TakeFields(rs: seq<Record>): Option<seq<SeenColumn>> {
    if rs == [] || !rs[0].marker.FieldMark? then None
    else
      var column := SeenColumn(rs[0].id, rs[0].value);
      if rs[0].terminal then Some([column])
      else match TakeFields(rs[1..])
        case Some(more) => Some([column] + more)
        case None => None
  }

  function Regroup(rs: seq<Record>): Option<seq<Seen>>
    decreases |rs|
  {
    if rs == [] then Some([])
    else match rs[0].marker
      case GlobalMark => Prepend(SeenAttribute(rs[0].id, rs[0].value), Regroup(rs[1..]))
      case FieldMark => None
      case EventMark =>
        if rs[0].terminal then Prepend(SeenEvent(rs[0].id, rs[0].value, []), Regroup(rs[1..]))
        else match TakeFields(rs[1..])
          case None => None
          case Some(fields) =>
            if |fields| >= |rs| then None
            else Prepend(SeenEvent(rs[0].id, rs[0].value, fields), Regroup(rs[1 + |fields|..]))
  }

  function Prepend(first: Seen, rest: Option<seq<Seen>>): Option<seq<Seen>> {
    match rest case Some(more) => Some([first] + more) case None => None
  }

  /** A whole buffer: the eight header bytes, then its entries. */
  function ReadBuffer(bytes: seq<Byte>): Option<seq<Seen>> {
    if |bytes| < 8 || bytes[..4] != ['W' as int, 'A' as int, 'M' as int, VERSION] then None
    else match DecodeAll(bytes[8..])
      case None => None
      case Some(rs) => Regroup(rs)
  }

  function WholeBuffer(channel: Byte, stream: Byte, sequence: Id, items: seq<Item>): seq<Byte> {
    Header(channel, stream, sequence) + EncodeAll(AllEntries(items))
  }

  predicate ItemCarried(item: Item) {
    match item
    case Attribute(_, value) => Carried(value)
    case Occurrence(_, _, fields) => forall f | f in fields :: Carried(f.value)
  }

  predicate ItemsCarried(items: seq<Item>) {
    forall item | item in items :: ItemCarried(item)
  }

  // ---------------------------------------------------------------- the terminal bit suffices

  lemma RecordsConcat(a: seq<Entry>, b: seq<Entry>)
    ensures RecordsOf(a + b) == RecordsOf(a) + RecordsOf(b)
  {
    hide RecordOf;
  }

  lemma TakeFieldsStep(rs: seq<Record>)
    requires rs != [] && rs[0].marker.FieldMark?
    ensures rs[0].terminal ==> TakeFields(rs) == Some([SeenColumn(rs[0].id, rs[0].value)])
    ensures !rs[0].terminal && TakeFields(rs[1..]).Some? ==>
      TakeFields(rs) == Some([SeenColumn(rs[0].id, rs[0].value)] + TakeFields(rs[1..]).value)
  {}

  lemma FieldEntriesStep(fields: seq<Column>)
    requires fields != []
    ensures FieldEntries(fields)[0] == Entry(FieldMark, |fields| == 1, fields[0].id, fields[0].value)
    ensures FieldEntries(fields)[1..] == FieldEntries(fields[1..])
  {}

  lemma FieldRecords(fields: seq<Column>)
    requires fields != []
    ensures RecordsOf(FieldEntries(fields)) ==
            [Record(FieldMark, |fields| == 1, fields[0].id, Meaning(fields[0].value))] + RecordsOf(FieldEntries(fields[1..]))
  {
    hide *;
    FieldEntriesStep(fields);
    RecordsStep(FieldEntries(fields));
    RecordParts(FieldEntries(fields)[0]);
  }

  lemma ColumnsStep(fields: seq<Column>)
    ensures ColumnsSeen([]) == []
    ensures fields != [] ==> ColumnsSeen(fields) == [SeenColumn(fields[0].id, Meaning(fields[0].value))] + ColumnsSeen(fields[1..])
  {
    hide Meaning;
  }

  lemma {:induction false} TakeFieldsSpec(fields: seq<Column>, rest: seq<Record>)
    requires fields != []
    ensures TakeFields(RecordsOf(FieldEntries(fields)) + rest) == Some(ColumnsSeen(fields))
    ensures |ColumnsSeen(fields)| == |fields|
  {
    hide *;
    var rs := RecordsOf(FieldEntries(fields)) + rest;
    FieldRecords(fields);
    assert rs[1..] == RecordsOf(FieldEntries(fields[1..])) + rest;
    TakeFieldsStep(rs);
    ColumnsStep(fields);
    var column := SeenColumn(fields[0].id, Meaning(fields[0].value));
    assert [column] + [] == [column];
    if |fields| == 1 {
      assert fields[1..] == [];
    } else {
      TakeFieldsSpec(fields[1..], rest);
    }
  }

  lemma {:induction false} ColumnsLength(fields: seq<Column>)
    ensures |ColumnsSeen(fields)| == |fields|
  {
    if fields != [] { ColumnsLength(fields[1..]); }
  }

  /** One item is regrouped whatever follows it. */
  lemma RegroupItem(item: Item, rest: seq<Record>)
    ensures Regroup(RecordsOf(EntriesOf(item)) + rest) == Prepend(ItemSeen(item), Regroup(rest))
  {
    var rs := RecordsOf(EntriesOf(item)) + rest;
    match item
    case Attribute(id, value) =>
      assert rs[0] == Record(GlobalMark, false, id, Meaning(value)) && rs[1..] == rest;
      hide Meaning, Regroup;
      RegroupStep(rs);
    case Occurrence(code, weight, fields) =>
      assert rs[0] == Record(EventMark, fields == [], code, Meaning(Int(weight)));
      var head := [Entry(EventMark, fields == [], code, Int(weight))];
      RecordsConcat(head, FieldEntries(fields));
      assert RecordsOf(head) == [RecordOf(head[0])];
      assert rs[1..] == RecordsOf(FieldEntries(fields)) + rest;
      ColumnsLength(fields);
      if fields != [] { TakeFieldsSpec(fields, rest); }
      assert rs[1 + |fields|..] == rest;
      hide Meaning, Regroup, TakeFields, RecordsOf, FieldEntries;
      RegroupStep(rs);
  }

  lemma RegroupStep(rs: seq<Record>)
    requires rs != [] && !rs[0].marker.FieldMark?
    ensures rs[0].marker.GlobalMark? ==> Regroup(rs) == Prepend(SeenAttribute(rs[0].id, rs[0].value), Regroup(rs[1..]))
    ensures rs[0].marker.EventMark? && rs[0].terminal ==> Regroup(rs) == Prepend(SeenEvent(rs[0].id, rs[0].value, []), Regroup(rs[1..]))
    ensures rs[0].marker.EventMark? && !rs[0].terminal ==>
      match TakeFields(rs[1..])
      case None => true
      case Some(fields) => |fields| < |rs| ==> Regroup(rs) == Prepend(SeenEvent(rs[0].id, rs[0].value, fields), Regroup(rs[1 + |fields|..]))
  {}

  lemma {:induction false} RegroupAll(items: seq<Item>)
    ensures Regroup(RecordsOf(AllEntries(items))) == Some(ItemsSeen(items))
  {
    if items == [] {
      assert RecordsOf([]) == [];
    } else {
      RegroupAll(items[1..]);
      RecordsConcat(EntriesOf(items[0]), AllEntries(items[1..]));
      hide RecordsOf, EntriesOf, ItemSeen, Regroup;
      RegroupItem(items[0], RecordsOf(AllEntries(items[1..])));
    }
  }

  lemma {:induction false} FieldsCarried(fields: seq<Column>)
    requires forall f | f in fields :: Carried(f.value)
    ensures AllCarried(FieldEntries(fields))
  {
    if fields != [] {
      FieldsCarried(fields[1..]);
      hide Carried;
    }
  }

  lemma {:induction false} EntriesCarried(items: seq<Item>)
    requires ItemsCarried(items)
    ensures AllCarried(AllEntries(items))
  {
    if items != [] {
      EntriesCarried(items[1..]);
      assert ItemCarried(items[0]);
      match items[0] {
        case Attribute(_, _) =>
        case Occurrence(_, _, fields) => FieldsCarried(fields);
      }
      hide Carried;
    }
  }

  /** A buffer read back is what was written, attribute by attribute and event by event,
      each number by its value. */
  lemma BufferRoundTrip(channel: Byte, stream: Byte, sequence: Id, items: seq<Item>)
    requires ItemsCarried(items)
    ensures ReadBuffer(WholeBuffer(channel, stream, sequence, items)) == Some(ItemsSeen(items))
  {
    var header, body := Header(channel, stream, sequence), EncodeAll(AllEntries(items));
    assert |header| == 8 && header[..4] == ['W' as int, 'A' as int, 'M' as int, VERSION];
    assert (header + body)[..4] == header[..4] && (header + body)[8..] == body;
    hide Header, EncodeAll, AllEntries, DecodeAll, Regroup, ItemsSeen, ItemsCarried;
    EntriesCarried(items);
    EntriesRoundTrip(AllEntries(items));
    RegroupAll(items);
  }

  /** No two item lists that differ to a reader share their bytes, headers aside. */
  lemma UniquelyDecodable(c1: Byte, s1: Byte, q1: Id, c2: Byte, s2: Byte, q2: Id, a: seq<Item>, b: seq<Item>)
    requires ItemsCarried(a) && ItemsCarried(b)
    requires EncodeAll(AllEntries(a)) == EncodeAll(AllEntries(b)) || WholeBuffer(c1, s1, q1, a) == WholeBuffer(c2, s2, q2, b)
    ensures ItemsSeen(a) == ItemsSeen(b)
  {
    BufferRoundTrip(c1, s1, q1, a);
    BufferRoundTrip(c2, s2, q2, b);
    BufferRoundTrip(c1, s1, q1, b);
  }

  /** The header says who uploads: stream, sequence number and channel. */
  datatype Upload = Upload(channel: Byte, stream: Byte, sequence: nat, items: seq<Seen>)

  function ReadUpload(bytes: seq<Byte>): Option<Upload> {
    match ReadBuffer(bytes)
    case Some(items) => if |bytes| < 8 then None else Some(Upload(bytes[7], bytes[4], FromLittleEndian(bytes[5..7]), items))
    case None => None
  }

  /** What a session uploads is read back whole, header included. */
  lemma UploadRoundTrip(channel: Byte, stream: Byte, sequence: Id, items: seq<Item>)
    requires ItemsCarried(items)
    ensures ReadUpload(WholeBuffer(channel, stream, sequence, items)) == Some(Upload(channel, stream, sequence, ItemsSeen(items)))
  {
    var header, body := Header(channel, stream, sequence), EncodeAll(AllEntries(items));
    Pow256Values();
    LittleEndianInverse(sequence, 2);
    BufferRoundTrip(channel, stream, sequence, items);
    hide ReadBuffer, EncodeAll, AllEntries, ItemsSeen, ItemsCarried, LittleEndian, FromLittleEndian, Pow256;
    assert (header + body)[5..7] == header[5..7] == LittleEndian(sequence, 2);
    assert (header + body)[4] == header[4] && (header + body)[7] == header[7];
  }
}
