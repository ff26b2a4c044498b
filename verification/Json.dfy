/** Parsed JSON documents. */
module Json {
  import opened Values

  datatype Doc = Nothing | Flag(b: bool) | Numeric(n: real) | Words(s: string) | List(items: seq<Doc>) | Dict(members: seq<Pair>)

  datatype Pair = Pair(key: string, value: Doc)

  function KeysOf(members: seq<Pair>): set<string> {
    set m | m in members :: m.key
  }

  function Get(members: seq<Pair>, key: string): Option<Doc> {
    if members == [] then None
    else if members[0].key == key then Some(members[0].value)
    else Get(members[1..], key)
  }

  lemma {:induction false} GetSpec(members: seq<Pair>, key: string)
    ensures Get(members, key).Some? <==> key in KeysOf(members)
    ensures Get(members, key).Some? ==> exists i :: 0 <= i < |members| && members[i] == Pair(key, Get(members, key).value)
  {
    if members != [] {
      GetSpec(members[1..], key);
      if members[0].key == key {
        assert members[0] == Pair(key, Get(members, key).value);
      } else if Get(members, key).Some? {
        var i :| 0 <= i < |members[1..]| && members[1..][i] == Pair(key, Get(members[1..], key).value);
        assert members[i + 1] == members[1..][i];
      }
      assert KeysOf(members) == {members[0].key} + KeysOf(members[1..]);
    }
  }

  predicate UniqueKeys(members: seq<Pair>) {
    forall i, j | 0 <= i < j < |members| :: members[i].key != members[j].key
  }

  lemma {:induction false} GetAt(members: seq<Pair>, i: nat)
    requires UniqueKeys(members) && i < |members|
    ensures Get(members, members[i].key) == Some(members[i].value)
  {
    if i > 0 { GetAt(members[1..], i - 1); }
  }

  /** No object in the document repeats a key. */
  predicate WellKeyed(d: Doc)
    decreases d, 1
  {
    match d
    case List(items) => WellKeyedAll(items)
    case Dict(members) => UniqueKeys(members) && WellKeyedMembers(members)
    case _ => true
  }

  predicate WellKeyedAll(items: seq<Doc>)
    decreases items, 0
  {
    items == [] || (WellKeyed(items[0]) && WellKeyedAll(items[1..]))
  }

  predicate WellKeyedMember(m: Pair)
    decreases m, 2
  {
    WellKeyed(m.value)
  }

  predicate WellKeyedMembers(members: seq<Pair>)
    decreases members, 0
  {
    members == [] || (WellKeyedMember(members[0]) && WellKeyedMembers(members[1..]))
  }

  lemma {:induction false} WellKeyedAt(members: seq<Pair>, i: nat)
    requires WellKeyedMembers(members) && i < |members|
    ensures WellKeyed(members[i].value)
  {
    if i > 0 { WellKeyedAt(members[1..], i - 1); }
  }

  lemma {:induction false} WellKeyedItem(items: seq<Doc>, i: nat)
    requires WellKeyedAll(items) && i < |items|
    ensures WellKeyed(items[i])
  {
    if i > 0 { WellKeyedItem(items[1..], i - 1); }
  }
}
