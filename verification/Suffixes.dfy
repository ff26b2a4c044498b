/** Names made distinct by a number: the base itself, then its numbered variants. */
module Suffixes {
  import opened Decimals
  import FiniteSets

  /** The n-th name tried. */
  function Numbered(base: string, mark: string, n: nat): string {
    if n < 2 then base else base + mark + Decimal(n)
  }

  lemma NumberedDiffer(base: string, mark: string, m: nat, n: nat)
    requires 1 <= m < n
    ensures Numbered(base, mark, m) != Numbered(base, mark, n)
  {
    DecimalNotEmpty(n);
    var skip := |base| + |mark|;
    if m >= 2 && Numbered(base, mark, m) == Numbered(base, mark, n) {
      assert Numbered(base, mark, m)[skip..] == Decimal(m) && Numbered(base, mark, n)[skip..] == Decimal(n);
      DecimalInjective(m, n);
    }
  }

  /** The names tried before the n-th. */
  ghost function Tried(base: string, mark: string, n: nat): set<string> {
    set m | 1 <= m < n :: Numbered(base, mark, m)
  }

  lemma {:induction false} TriedSize(base: string, mark: string, n: nat)
    requires n >= 1
    ensures |Tried(base, mark, n)| == n - 1
  {
    if n == 1 {
      assert Tried(base, mark, 1) == {};
    } else {
      TriedSize(base, mark, n - 1);
      forall m | 1 <= m < n - 1 ensures Numbered(base, mark, m) != Numbered(base, mark, n - 1) {
        NumberedDiffer(base, mark, m, n - 1);
      }
      hide Numbered;
      assert Tried(base, mark, n) == Tried(base, mark, n - 1) + {Numbered(base, mark, n - 1)};
    }
  }

  /** So a finite set takes only so many of them, and a search for a free one ends. */
  lemma TakenBound(base: string, mark: string, n: nat, used: set<string>)
    requires n >= 1 && forall m | 1 <= m < n :: Numbered(base, mark, m) in used
    ensures n - 1 <= |used|
  {
    hide Numbered;
    TriedSize(base, mark, n);
    FiniteSets.SubsetSize(Tried(base, mark, n), used);
  }
}
