/** Reordering identified entries moves no stable path. */
module StableReorder {
  import opened Values
  import opened Decimals
  import opened Json
  import opened JsonPointers
  import opened StablePaths

  /** What identifies an object is as it was. */
  predicate KeepsIdentity(a: seq<Pair>, b: seq<Pair>) {
    forall key | key in IdentityKeys(a) :: Get(a, key) == Get(b, key)
  }

  predicate AllIdentified(items: seq<Doc>) {
    forall d | d in items :: Identified(d)
  }

  /** The same document with the entries of some arrays in another order; only arrays
      all of whose entries carry an identity are reordered, and no array within a value
      that identifies an object. */
  ghost predicate Reordered(d: Doc, e: Doc)
    decreases d, 2
  {
    match (d, e)
    case (Dict(a), Dict(b)) => MembersReordered(a, b) && KeepsIdentity(a, b)
    case (List(x), List(y)) => ItemsReordered(x, y) || (AllIdentified(x) && AllIdentified(y) && ItemsPermuted(x, y))
    case _ => d == e
  }

  ghost predicate MemberReordered(m: Pair, n: Pair)
    decreases m, 3
  {
    m.key == n.key && Reordered(m.value, n.value)
  }

  ghost predicate MembersReordered(a: seq<Pair>, b: seq<Pair>)
    decreases a, 0
  {
    |a| == |b| && (a == [] || (MemberReordered(a[0], b[0]) && MembersReordered(a[1..], b[1..])))
  }

  /** Entry by entry. */
  ghost predicate ItemsReordered(x: seq<Doc>, y: seq<Doc>)
    decreases x, 0
  {
    |x| == |y| && (x == [] || (Reordered(x[0], y[0]) && ItemsReordered(x[1..], y[1..])))
  }

  /** Each entry found somewhere on the other side. */
  ghost predicate ItemsPermuted(x: seq<Doc>, y: seq<Doc>)
    decreases x, 0
  {
    |x| == |y| && (x == [] || exists j | 0 <= j < |y| :: Reordered(x[0], y[j]) && ItemsPermuted(x[1..], y[..j] + y[j + 1..]))
  }

  // ---------------------------------------------------------------- labels survive

  lemma {:induction false} MembersSameKeys(a: seq<Pair>, b: seq<Pair>)
    requires MembersReordered(a, b)
    ensures KeysOf(a) == KeysOf(b)
    ensures forall key :: match (Get(a, key), Get(b, key))
      case (Some(v), Some(w)) => Reordered(v, w)
      case (None, None) => true
      case _ => false
    decreases a
  {
    if a != [] {
      MembersSameKeys(a[1..], b[1..]);
      assert KeysOf(a) == {a[0].key} + KeysOf(a[1..]) && KeysOf(b) == {b[0].key} + KeysOf(b[1..]);
      assert MemberReordered(a[0], b[0]);
      hide Reordered;
    }
  }

  lemma {:induction false} SameIdentity(a: seq<Pair>, b: seq<Pair>, keys: seq<string>, show: Printer)
    requires forall key | key in keys :: Get(a, key) == Get(b, key)
    ensures Identity(a, keys, show) == Identity(b, keys, show)
    decreases keys
  {
    hide Get;
    if keys != [] {
      assert keys[0] in keys;
      assert forall key | key in keys[1..] :: key in keys;
      if |keys| > 1 { SameIdentity(a, b, keys[1..], show); }
    }
  }

  lemma SameLabel(d: Doc, e: Doc, part: string, other: string, show: Printer)
    requires Reordered(d, e)
    ensures Identified(d) <==> Identified(e)
    ensures Identified(d) || part == other ==> Label(d, part, show) == Label(e, other, show)
  {
    if d.Dict? {
      MembersSameKeys(d.members, e.members);
      SameIdentity(d.members, e.members, IdentityKeys(d.members), show);
    }
  }

  // ---------------------------------------------------------------- paths survive

  lemma {:induction false} StableSurvives(d: Doc, e: Doc, path: string, show: Printer)
    requires Reordered(d, e)
    ensures multiset(Stable(d, path, show)) == multiset(Stable(e, path, show))
    decreases d, 2
  {
    match d
    case Dict(a) =>
      MembersSurvive(a, e.members, path, show);
    case List(x) =>
      if ItemsReordered(x, e.items) {
        ItemsSurvive(x, e.items, 0, path, show);
      } else {
        PermutedSurvive(x, e.items, 0, 0, path, show);
      }
    case _ =>
  }

  lemma {:induction false} MemberSurvives(m: Pair, n: Pair, path: string, show: Printer)
    requires MemberReordered(m, n)
    ensures multiset(StableMember(m, path, show)) == multiset(StableMember(n, path, show))
    decreases m, 3
  {
    StableSurvives(m.value, n.value, path + "/" + Escape(m.key), show);
  }

  lemma {:induction false} MembersSurvive(a: seq<Pair>, b: seq<Pair>, path: string, show: Printer)
    requires MembersReordered(a, b)
    ensures multiset(StableMembers(a, path, show)) == multiset(StableMembers(b, path, show))
    decreases a, 0
  {
    if a != [] {
      MemberSurvives(a[0], b[0], path, show);
      MembersSurvive(a[1..], b[1..], path, show);
    }
  }

  /** What one entry contributes at a position. */
  function StableItem(d: Doc, i: nat, path: string, show: Printer): seq<string> {
    Stable(d, path + "/" + Label(d, Decimal(i), show), show)
  }

  lemma {:induction false} ItemSurvives(d: Doc, e: Doc, i: nat, j: nat, path: string, show: Printer)
    requires Reordered(d, e) && (i == j || Identified(d))
    ensures multiset(StableItem(d, i, path, show)) == multiset(StableItem(e, j, path, show))
    decreases d, 3
  {
    SameLabel(d, e, Decimal(i), Decimal(j), show);
    StableSurvives(d, e, path + "/" + Label(d, Decimal(i), show), show);
  }

  lemma {:induction false} ItemsSurvive(x: seq<Doc>, y: seq<Doc>, i: nat, path: string, show: Printer)
    requires ItemsReordered(x, y)
    ensures multiset(StableItems(x, i, path, show)) == multiset(StableItems(y, i, path, show))
    decreases x, 0
  {
    if x != [] {
      ItemSurvives(x[0], y[0], i, i, path, show);
      ItemsSurvive(x[1..], y[1..], i + 1, path, show);
    }
  }

  lemma LabelIgnoresPosition(d: Doc, i: nat, j: nat, path: string, show: Printer)
    requires Identified(d)
    ensures StableItem(d, i, path, show) == StableItem(d, j, path, show)
  {}

  /** Identified entries contribute the same wherever they stand. */
  lemma {:induction false} ShiftSurvives(y: seq<Doc>, i: nat, k: nat, path: string, show: Printer)
    requires AllIdentified(y)
    ensures StableItems(y, i, path, show) == StableItems(y, k, path, show)
    decreases y
  {
    if y != [] {
      assert y[0] in y;
      LabelIgnoresPosition(y[0], i, k, path, show);
      ShiftSurvives(y[1..], i + 1, k + 1, path, show);
    }
  }

  /** An entry's share can be taken out of the whole. */
  lemma {:induction false} TakeOut(y: seq<Doc>, j: nat, i: nat, path: string, show: Printer)
    requires AllIdentified(y) && j < |y|
    ensures multiset(StableItems(y, i, path, show)) ==
            multiset(StableItem(y[j], i, path, show)) + multiset(StableItems(y[..j] + y[j + 1..], i, path, show))
    decreases y
  {
    hide *;
    AllButFirst(y, j);
    LabelIgnoresPosition(y[j], i + 1, i, path, show);
    ItemsStep(y, i, path, show);
    var rest := y[..j] + y[j + 1..];
    Without(y, j);
    if j == 0 {
      ShiftSurvives(y[1..], i + 1, i, path, show);
    } else {
      TakeOut(y[1..], j - 1, i + 1, path, show);
      ItemsStep(rest, i, path, show);
      var first, tail, less := StableItem(y[0], i, path, show), StableItems(y[1..], i + 1, path, show), StableItems(rest[1..], i + 1, path, show);
      assert multiset(first + tail) == multiset(first) + multiset(tail);
      assert multiset(first + less) == multiset(first) + multiset(less);
    }
  }

  lemma Without(y: seq<Doc>, j: nat)
    requires j < |y|
    ensures var rest := y[..j] + y[j + 1..];
      if j == 0 then rest == y[1..]
      else rest[0] == y[0] && y[1..][j - 1] == y[j] && rest[1..] == y[1..][..j - 1] + y[1..][j..]
  {}

  lemma AllButFirst(y: seq<Doc>, j: nat)
    requires AllIdentified(y) && j < |y|
    ensures AllIdentified(y[1..]) && Identified(y[j])
  {
    hide Identified;
  }

  lemma ItemsStep(y: seq<Doc>, i: nat, path: string, show: Printer)
    requires y != []
    ensures StableItems(y, i, path, show) == StableItem(y[0], i, path, show) + StableItems(y[1..], i + 1, path, show)
  {}

  lemma {:induction false} PermutedSurvive(x: seq<Doc>, y: seq<Doc>, i: nat, k: nat, path: string, show: Printer)
    requires AllIdentified(x) && AllIdentified(y) && ItemsPermuted(x, y)
    ensures multiset(StableItems(x, i, path, show)) == multiset(StableItems(y, k, path, show))
    decreases x, 0
  {
    if x != [] {
      var j :| 0 <= j < |y| && Reordered(x[0], y[j]) && ItemsPermuted(x[1..], y[..j] + y[j + 1..]);
      var rest := y[..j] + y[j + 1..];
      assert x[0] in x && y[j] in y;
      assert AllIdentified(x[1..]) && AllIdentified(rest);
      ItemSurvives(x[0], y[j], i, k, path, show);
      PermutedSurvive(x[1..], rest, i + 1, k, path, show);
      TakeOut(y, j, k, path, show);
      hide StableItem;
      ItemsStep(x, i, path, show);
    }
  }

  /** The stable forms of all walked paths, as a multiset. */
  ghost predicate StableFormsOf(d: Doc, show: Printer, forms: seq<string>) {
    |forms| == |Walk(d, "")| && forall i | 0 <= i < |forms| :: StableOf(d, Walk(d, "")[i].path, show) == Some(forms[i])
  }

  /** Two orders of the same identified entries have the same stable paths, each as often. */
  lemma ReorderingMovesNoPath(d: Doc, e: Doc, show: Printer, forms: seq<string>, others: seq<string>)
    requires WellKeyed(d) && WellKeyed(e) && Reordered(d, e)
    requires StableFormsOf(d, show, forms) && StableFormsOf(e, show, others)
    ensures multiset(forms) == multiset(others)
  {
    StableOfWalked(d, show);
    StableOfWalked(e, show);
    assert forms == Stable(d, "", show);
    assert others == Stable(e, "", show);
    StableSurvives(d, e, "", show);
  }
}
