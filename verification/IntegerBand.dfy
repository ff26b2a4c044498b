/** The width an integer field is decoded at and the band it is checked against. */
module IntegerBand {
  import opened Values
  import opened FieldTree

  const INTEGER_METHODS: set<string> := {"attrInt", "attrTime", "attrIntRange", "attrFutureTime", "contentInt", "contentUint"}

  function Lower(c: char): char {
    if 'A' <= c <= 'Z' then c + 32 as char else c
  }

  /** `maybeAttrX` decodes as `attrX` does. */
  predicate DecodesInteger(m: string)
    decreases |m|
  {
    if "maybe" <= m && |m| > 5 then DecodesInteger([Lower(m[5])] + m[6..]) else m in INTEGER_METHODS
  }

  datatype Width = I64 | U64

  /** A test on a decoded value. */
  datatype Check = Never | Between(lo: int, hi: int) | AtLeast(lo: int) | AtMost(hi: int)

  predicate Fits(w: Width, x: int) {
    match w
    case I64 => -0x8000_0000_0000_0000 <= x < 0x8000_0000_0000_0000
    case U64 => 0 <= x < 0x1_0000_0000_0000_0000
  }

  predicate AdmitsNegative(f: FieldTree.Field) {
    f.method_ != "contentUint" && DecodesInteger(f.method_) &&
    match (f.intMin, f.intMax)
    case (Some(lo), _) => lo < 0
    case (None, Some(_)) => true
    case (None, None) => false
  }

  predicate ContradictoryBand(f: FieldTree.Field) {
    (f.intMin.Some? && f.intMax.Some? && f.intMin.value > f.intMax.value) ||
    (!AdmitsNegative(f) && DecodesInteger(f.method_) && f.intMax.Some? && f.intMax.value < 0)
  }

  function IntegerWidth(f: FieldTree.Field): Width {
    if AdmitsNegative(f) then I64 else U64
  }

  function IntBand(f: FieldTree.Field): Option<Check> {
    if !DecodesInteger(f.method_) then None
    else if ContradictoryBand(f) then Some(Never)
    else
      var signed := AdmitsNegative(f);
      var lo := if f.intMin.Some? && (signed || f.intMin.value > 0) then f.intMin else None;
      var hi := if f.intMax.Some? && (signed || f.intMax.value >= 0) then f.intMax else None;
      match (lo, hi)
      case (Some(a), Some(b)) => Some(Between(a, b))
      case (Some(a), None) => Some(AtLeast(a))
      case (None, Some(b)) => Some(AtMost(b))
      case (None, None) => None
  }

  predicate Passes(check: Option<Check>, x: int) {
    match check
    case None => true
    case Some(Never) => false
    case Some(Between(a, b)) => a <= x <= b
    case Some(AtLeast(a)) => a <= x
    case Some(AtMost(b)) => x <= b
  }

  /** The accessor's own rule. */
  predicate InBand(f: FieldTree.Field, x: int) {
    (f.intMin.Some? ==> f.intMin.value <= x) && (f.intMax.Some? ==> x <= f.intMax.value)
  }

  /** Bounds are recorded as 64-bit signed integers. */
  predicate Recorded(f: FieldTree.Field) {
    (f.intMin.Some? ==> Fits(I64, f.intMin.value)) && (f.intMax.Some? ==> Fits(I64, f.intMax.value))
  }

  /** Bounds spelled in the check are literals of the emitted width. */
  predicate Spellable(check: Option<Check>, w: Width) {
    match check
    case Some(Between(a, b)) => Fits(w, a) && Fits(w, b)
    case Some(AtLeast(a)) => Fits(w, a)
    case Some(AtMost(b)) => Fits(w, b)
    case _ => true
  }

  /** Decoded at the emitted width, a value passes the emitted check exactly when the
      accessor takes it; the check is `false` exactly when no value of that width can be
      taken; its bounds are literals of that width; and a doubly bounded field that is
      not a byte fold loses no value to its width. */
  lemma BandIsExact(f: FieldTree.Field)
    requires DecodesInteger(f.method_) && Recorded(f)
    ensures forall x | Fits(IntegerWidth(f), x) :: Passes(IntBand(f), x) <==> InBand(f, x)
    ensures IntBand(f) == Some(Never) <==> forall x | Fits(IntegerWidth(f), x) :: !InBand(f, x)
    ensures Spellable(IntBand(f), IntegerWidth(f))
    ensures f.method_ != "contentUint" && f.intMin.Some? && f.intMax.Some? ==> forall x | InBand(f, x) :: Fits(IntegerWidth(f), x)
  {
    hide DecodesInteger;
    if !ContradictoryBand(f) {
      var floor := if f.intMin.Some? then f.intMin.value else if f.intMax.Some? then f.intMax.value else 0;
      var sample := if floor < 0 && !AdmitsNegative(f) then 0 else floor;
      assert Fits(IntegerWidth(f), sample) && InBand(f, sample);
    }
  }
}
