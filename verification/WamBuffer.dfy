/** The appending buffer, and the base64 text it is uploaded as. */
module WamBuffer {
  import opened Values
  import opened Doubles
  import opened Wam
  import opened WamEvents

  class Buffer {
    var buf: seq<Byte>

    constructor (channel: Byte, stream: Byte, sequence: Id)
      ensures buf == Header(channel, stream, sequence)
    {
      buf := ['W' as int, 'A' as int, 'M' as int] + [VERSION] + [stream] + LittleEndian(sequence, 2) + [channel];
    }

    method WriteTag(flags: nat, id: Id)
      requires flags < 256 && !IsWide(flags)
      modifies this
      ensures buf == old(buf) + Tag(flags, id)
    {
      WideBit(flags);
      if id < 256 {
        buf := buf + [flags] + [id];
      } else {
        buf := buf + [flags + WIDE] + LittleEndian(id, 2);
      }
    }

    method WriteNum(flags: nat, id: Id, bits: Bits)
      requires flags < 8
      modifies this
      ensures buf == old(buf) + Tag(Joined(flags, NumBody(bits).0), id) + NumBody(bits).1
    {
      var n := AsI32(Denotes(bits));
      hide Tag, Denotes, AsI32, Joined, LittleEndian;
      if Denotes(bits) == Finite(n as real) {
        if n == 0 {
          WriteTag(Joined(flags, 1), id);
        } else if n == 1 {
          WriteTag(Joined(flags, 2), id);
        } else if -128 <= n <= 127 {
          WriteTag(Joined(flags, 3), id);
          buf := buf + [Unsigned(n, 256)];
        } else if -32768 <= n <= 32767 {
          WriteTag(Joined(flags, 4), id);
          buf := buf + LittleEndian(Unsigned(n, 65536), 2);
        } else {
          WriteTag(Joined(flags, 5), id);
          AsI32Range(Denotes(bits));
          buf := buf + LittleEndian(Unsigned(n, 0x1_0000_0000), 4);
        }
      } else {
        WriteTag(Joined(flags, 7), id);
        buf := buf + LittleEndian(bits, 8);
      }
    }

    method WriteValue(flags: nat, id: Id, v: Wire)
      requires flags < 8
      modifies this
      ensures buf == old(buf) + EncodeValue(flags, id, v)
    {
      hide Tag, NumBody, Joined, LittleEndian;
      match v
      case Bool(flag) => WriteNum(flags, id, FromInt(if flag then 1 else 0));
      case Int(n) => WriteNum(flags, id, FromInt(n));
      case Float(bits) => WriteNum(flags, id, bits);
      case Str(utf8) =>
        var length := |utf8|;
        if length < 256 {
          WriteTag(Joined(flags, 8), id);
          buf := buf + [length];
        } else if length < 65536 {
          WriteTag(Joined(flags, 9), id);
          buf := buf + LittleEndian(length, 2);
        } else {
          WriteTag(Joined(flags, 10), id);
          buf := buf + LittleEndian(length % 0x1_0000_0000, 4);
        }
        buf := buf + utf8;
    }

    method WriteGlobalAttribute(id: Id, v: Wire)
      modifies this
      ensures buf == old(buf) + EncodeAll(EntriesOf(Attribute(id, v)))
    {
      One(Entry(GlobalMark, false, id, v));
      WriteValue(Flags(GlobalMark, false), id, v);
    }

    method WriteEvent(code: Id, weight: Int64, hasFields: bool)
      modifies this
      ensures buf == old(buf) + Encode(Entry(EventMark, !hasFields, code, Int(weight)))
    {
      WriteValue(Flags(EventMark, !hasFields), code, Int(weight));
    }

    method WriteField(id: Id, v: Wire, more: bool)
      modifies this
      ensures buf == old(buf) + Encode(Entry(FieldMark, !more, id, v))
    {
      WriteValue(Flags(FieldMark, !more), id, v);
    }

    /** One event: its record, then its fields, the last one terminal. */
    method Emit(code: Id, weight: Int64, fields: seq<Column>)
      modifies this
      ensures buf == old(buf) + EncodeAll(EntriesOf(Occurrence(code, Negated(weight), fields)))
    {
      hide *;
      var written := Negated(weight);
      OccurrenceSpec(code, written, fields);
      WriteEvent(code, written, fields != []);
      var n := |fields|;
      assert fields[0..] == fields;
      for i := 0 to n
        invariant buf + EncodeAll(FieldEntries(fields[i..])) == old(buf) + EncodeAll(EntriesOf(Occurrence(code, written, fields)))
      {
        assert fields[i..][0] == fields[i] && fields[i..][1..] == fields[i + 1..];
        FieldStep(fields[i..]);
        WriteField(fields[i].id, fields[i].value, i + 1 < n);
      }
      assert fields[n..] == [];
    }

    /** A whole session's writes. */
    method EmitAll(items: seq<Item>)
      modifies this
      ensures buf == old(buf) + EncodeAll(AllEntries(items))
    {
      hide *;
      assert items[0..] == items;
      for i := 0 to |items|
        invariant buf + EncodeAll(AllEntries(items[i..])) == old(buf) + EncodeAll(AllEntries(items))
      {
        assert items[i..][0] == items[i] && items[i..][1..] == items[i + 1..];
        ItemStep(items[i..]);
        match items[i] {
          case Attribute(id, v) => WriteGlobalAttribute(id, v);
          case Occurrence(code, weight, fields) =>
            NegatedTwice(weight);
            Emit(code, Negated(weight), fields);
        }
      }
      NoItems();
      assert items[|items|..] == [];
    }
  }

  /** Two's-complement negation: the smallest weight is its own negative. */
  function Negated(weight: Int64): Int64 {
    if weight == -TWO_63 then weight else -weight
  }

  lemma NegatedTwice(weight: Int64)
    ensures Negated(Negated(weight)) == weight
  {}

  lemma ItemStep(items: seq<Item>)
    requires items != []
    ensures EncodeAll(AllEntries(items)) == EncodeAll(EntriesOf(items[0])) + EncodeAll(AllEntries(items[1..]))
  {
    hide EntriesOf, Encode;
    EncodeConcat(EntriesOf(items[0]), AllEntries(items[1..]));
  }

  lemma NoItems()
    ensures EncodeAll(AllEntries([])) == []
  {}

  lemma One(e: Entry)
    ensures EncodeAll([e]) == Encode(e)
  {
    assert [e][1..] == [];
    hide Encode;
    assert Encode(e) + [] == Encode(e);
  }

  lemma OccurrenceSpec(code: Id, weight: Int64, fields: seq<Column>)
    ensures EncodeAll(EntriesOf(Occurrence(code, weight, fields))) ==
            Encode(Entry(EventMark, fields == [], code, Int(weight))) + EncodeAll(FieldEntries(fields))
    ensures EncodeAll(FieldEntries([])) == []
  {
    hide Encode;
    var head := Entry(EventMark, fields == [], code, Int(weight));
    EncodeConcat([head], FieldEntries(fields));
    One(head);
  }

  lemma FieldStep(fields: seq<Column>)
    requires fields != []
    ensures EncodeAll(FieldEntries(fields)) ==
            Encode(Entry(FieldMark, |fields| == 1, fields[0].id, fields[0].value)) + EncodeAll(FieldEntries(fields[1..]))
  {
    hide Encode;
    assert FieldEntries(fields)[1..] == FieldEntries(fields[1..]);
  }

  lemma {:induction false} EncodeConcat(a: seq<Entry>, b: seq<Entry>)
    ensures EncodeAll(a + b) == EncodeAll(a) + EncodeAll(b)
  {
    hide Encode;
    if a == [] {
      assert a + b == b;
    } else {
      EncodeConcat(a[1..], b);
      assert (a + b)[1..] == a[1..] + b && (a + b)[0] == a[0];
    }
  }
}
