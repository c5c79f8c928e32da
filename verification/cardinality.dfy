/** The cardinality of a relationship: a pair of inclusive ranges (source side, destination
    side) whose upper ends may be the unbounded sentinel N. */
module Cardinality {
  import opened Wrappers

  /** An upper end: a finite count or N (the source uses floating-point infinity). */
  datatype Bound = Fin(n: int) | Inf

  predicate BoundLe(a: Bound, b: Bound) {
    match (a, b)
    case (_, Inf) => true
    case (Inf, Fin(_)) => false
    case (Fin(x), Fin(y)) => x <= y
  }

  /** Ruby's `<=>` on the numbers a bound stands for (`N <=> N` is 0). */
  function BoundCompare(a: Bound, b: Bound): (r: int)
    ensures -1 <= r <= 1
    ensures r == 0 <==> a == b
    ensures r <= 0 <==> BoundLe(a, b)
  {
    if a == b then 0 else if BoundLe(a, b) then -1 else 1
  }

  function BoundMax(a: Bound, b: Bound): (r: Bound)
    ensures BoundLe(a, r) && BoundLe(b, r)
    ensures r == a || r == b
  {
    if BoundLe(a, b) then b else a
  }

  function BoundMin(a: Bound, b: Bound): (r: Bound)
    ensures BoundLe(r, a) && BoundLe(r, b)
    ensures r == a || r == b
  {
    if BoundLe(a, b) then a else b
  }

  /** Addition where N absorbs every finite count. */
  function BoundAdd(a: Bound, b: Bound): (r: Bound)
    ensures r == Inf <==> a == Inf || b == Inf
    ensures a.Fin? && b.Fin? ==> r == Fin(a.n + b.n)
  {
    match (a, b)
    case (Fin(x), Fin(y)) => Fin(x + y)
    case _ => Inf
  }

  /** The inclusive range `first..last`. */
  datatype Range = Range(first: int, last: Bound)

  /** Does the range admit the count `x`? */
  predicate Admits(r: Range, x: int) {
    r.first <= x && BoundLe(Fin(x), r.last)
  }

  /** The range arguments `Cardinality.new` accepts: a bare integer, `a..b` or `a...b`. */
  datatype RangeSpec = Count(k: int) | Inclusive(lo: int, hi: Bound) | Exclusive(lo: int, hi: Bound)

  /** The counts an argument stands for. */
  predicate SpecAdmits(s: RangeSpec, x: int) {
    match s
    case Count(k) => x == k
    case Inclusive(lo, hi) => lo <= x && BoundLe(Fin(x), hi)
    case Exclusive(lo, hi) => lo <= x && BoundLe(Fin(x), hi) && Fin(x) != hi
  }

  /** `compose_range`: normalises an argument into an inclusive range admitting exactly the
      same counts. A bare integer that is not positive reaches `exclude_end?`, which Integer
      does not have, and the source raises (None here). */
  function ComposeRange(s: RangeSpec): (r: Option<Range>)
    ensures r.None? <==> s.Count? && s.k <= 0
    ensures r.Some? ==> forall x :: Admits(r.value, x) <==> SpecAdmits(s, x)
  {
    match s
    case Count(k) => if k > 0 then Some(Range(k, Fin(k))) else None
    case Exclusive(lo, hi) =>
      if hi.Fin? then Some(Range(lo, Fin(hi.n - 1))) else Some(Range(lo, Inf))
    case Inclusive(lo, hi) => Some(Range(lo, hi))
  }

  datatype Cardinality = Cardinality(source: Range, destination: Range)

  /** `Cardinality.new(source_range, destination_range)`. */
  function New(s: RangeSpec, d: RangeSpec): (c: Option<Cardinality>)
    ensures c.Some? <==> ComposeRange(s).Some? && ComposeRange(d).Some?
    ensures c.Some? ==> c.value == Cardinality(ComposeRange(s).value, ComposeRange(d).value)
  {
    match (ComposeRange(s), ComposeRange(d))
    case (Some(a), Some(b)) => Some(Cardinality(a, b))
    case _ => None
  }

  /** The class of one side: 1 or N. */
  datatype CardClass = One | Many

  function RangeClass(r: Range): CardClass {
    if r.last == Fin(1) then One else Many
  }

  function SourceClass(c: Cardinality): CardClass {
    RangeClass(c.source)
  }

  function DestinationClass(c: Cardinality): CardClass {
    RangeClass(c.destination)
  }

  /** The values of CLASSES. */
  datatype Name = OneToOne | OneToMany | ManyToOne | ManyToMany

  function CardName(c: Cardinality): (n: Name)
    ensures n == OneToOne <==> SourceClass(c) == One && DestinationClass(c) == One
    ensures n == OneToMany <==> SourceClass(c) == One && DestinationClass(c) == Many
    ensures n == ManyToOne <==> SourceClass(c) == Many && DestinationClass(c) == One
    ensures n == ManyToMany <==> SourceClass(c) == Many && DestinationClass(c) == Many
  {
    match (SourceClass(c), DestinationClass(c))
    case (One, One) => OneToOne
    case (One, Many) => OneToMany
    case (Many, One) => ManyToOne
    case (Many, Many) => ManyToMany
  }

  predicate IsOneToOne(c: Cardinality) { SourceClass(c) == One && DestinationClass(c) == One }
  predicate IsOneToMany(c: Cardinality) { SourceClass(c) == One && DestinationClass(c) == Many }
  predicate IsManyToOne(c: Cardinality) { SourceClass(c) == Many && DestinationClass(c) == One }
  predicate IsManyToMany(c: Cardinality) { SourceClass(c) == Many && DestinationClass(c) == Many }

  /** A side has class 1 exactly when its upper end is exactly 1; every other range,
      `1..2` or `5..17` or `0..N` alike, has class N. */
  lemma ClassOne(r: Range)
    ensures RangeClass(r) == One <==> r.last == Fin(1)
    ensures RangeClass(Range(5, Fin(17))) == Many && RangeClass(Range(1, Fin(2))) == Many
  {
  }

  /** Exactly one of the four class predicates holds, and it is the one `name` reports. */
  lemma ExactlyOneName(c: Cardinality)
    ensures IsOneToOne(c) <==> CardName(c) == OneToOne
    ensures IsOneToMany(c) <==> CardName(c) == OneToMany
    ensures IsManyToOne(c) <==> CardName(c) == ManyToOne
    ensures IsManyToMany(c) <==> CardName(c) == ManyToMany
    ensures IsOneToOne(c) || IsOneToMany(c) || IsManyToOne(c) || IsManyToMany(c)
  {
  }

  /** `source_optional?`: the source side is not mandatory. */
  function SourceOptional(c: Cardinality): (b: bool)
    ensures c.source.first >= 0 && BoundLe(Fin(0), c.source.last) ==> (b <==> Admits(c.source, 0))
  {
    c.source.first < 1
  }

  /** `destination_optional?`: the destination side is not mandatory. */
  function DestinationOptional(c: Cardinality): (b: bool)
    ensures c.destination.first >= 0 && BoundLe(Fin(0), c.destination.last) ==> (b <==> Admits(c.destination, 0))
  {
    c.destination.first < 1
  }

  /** Destination becomes source and source becomes destination. */
  function Inverse(c: Cardinality): (r: Cardinality)
    ensures SourceOptional(r) <==> DestinationOptional(c)
    ensures DestinationOptional(r) <==> SourceOptional(c)
    ensures SourceClass(r) == DestinationClass(c) && DestinationClass(r) == SourceClass(c)
  {
    Cardinality(c.destination, c.source)
  }

  lemma InverseInvolution(c: Cardinality)
    ensures Inverse(Inverse(c)) == c
  {
  }

  /** Inverting turns one-to-many into many-to-one and keeps the symmetric names. */
  lemma InverseName(c: Cardinality)
    ensures CardName(c) == OneToMany <==> CardName(Inverse(c)) == ManyToOne
    ensures CardName(c) == OneToOne <==> CardName(Inverse(c)) == OneToOne
    ensures CardName(c) == ManyToMany <==> CardName(Inverse(c)) == ManyToMany
  {
  }

  /** A bare count and the range made of it give equal cardinalities. */
  lemma NewCountIsRange(k: int, j: int)
    requires k > 0 && j > 0
    ensures New(Count(k), Count(j)) == New(Inclusive(k, Fin(k)), Inclusive(j, Fin(j)))
  {
  }

  // ---------------------------------------------------------------------------
  // Ordering

  /** 1 sorts before N. */
  function ClassCompare(a: CardClass, b: CardClass): int {
    if a == b then 0 else if a == One then -1 else 1
  }

  function IntCompare(a: int, b: int): int {
    if a < b then -1 else if a == b then 0 else 1
  }

  /** `Cardinality#<=>`: lexicographic on the class pair, then the sum of the lower ends,
      then the sum of the upper ends, then the source upper end, then the destination one. */
  function Compare(a: Cardinality, b: Cardinality): (r: int)
    ensures -1 <= r <= 1
  {
    var k1 := ClassCompare(SourceClass(a), SourceClass(b));
    var k2 := ClassCompare(DestinationClass(a), DestinationClass(b));
    var k3 := IntCompare(a.source.first + a.destination.first, b.source.first + b.destination.first);
    var k4 := BoundCompare(BoundAdd(a.source.last, a.destination.last), BoundAdd(b.source.last, b.destination.last));
    var k5 := BoundCompare(a.source.last, b.source.last);
    var k6 := BoundCompare(a.destination.last, b.destination.last);
    if k1 != 0 then k1 else if k2 != 0 then k2 else if k3 != 0 then k3
    else if k4 != 0 then k4 else if k5 != 0 then k5 else k6
  }

  lemma CompareAntisymmetric(a: Cardinality, b: Cardinality)
    ensures Compare(a, b) == -Compare(b, a)
  {
  }

  lemma CompareReflexive(a: Cardinality)
    ensures Compare(a, a) == 0
  {
  }

  lemma CompareTransitive(a: Cardinality, b: Cardinality, c: Cardinality)
    requires Compare(a, b) <= 0 && Compare(b, c) <= 0
    ensures Compare(a, c) <= 0
  {
  }

  /** The ordering is coarser than equality: 0..1 to 1..1 and 1..1 to 0..1 differ but tie. */
  lemma CompareTiesUnequal()
    ensures var a := Cardinality(Range(0, Fin(1)), Range(1, Fin(1)));
            var b := Cardinality(Range(1, Fin(1)), Range(0, Fin(1)));
            Compare(a, b) == 0 && a != b
  {
  }

  /** One-to-one sorts before one-to-many, which sorts before many-to-many. */
  lemma CompareByManiness(a: Cardinality, b: Cardinality)
    requires (IsOneToOne(a) && IsOneToMany(b)) || (IsOneToMany(a) && IsManyToMany(b))
    ensures Compare(a, b) < 0
  {
  }
}
