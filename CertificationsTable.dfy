/** The sortable catalog table (src/components/certifications/CertificationsTable.tsx): a
    column key and a direction cycled by clicking headers, a copy of the rows sorted with a
    comparator built from them, and two badge colour maps. */
module CertificationsTable {
  import opened Wrappers
  import opened Text
  import opened Sorting
  import opened CertificationData

  /** The keys the seven sortable headers pass. "area" and "level" are not fields of a
      certification, so reading them gives `undefined`. */
  datatype SortKey = CertificationName | Area | LanguageFramework | Provider | Level
                   | CertificateQuality | PriceInEUR

  datatype Direction = Asc | Desc

  /** What `a[sortKey]` evaluates to, as far as the comparator can tell: a string, a number,
      or anything else (an array, `undefined`). */
  datatype Cell = Str(s: string) | Num(n: real) | Other

  function Column(c: Certification, key: SortKey): Cell {
    match key
    case CertificationName => Str(c.certificationName)
    case CertificateQuality => Str(c.certificateQuality)
    case PriceInEUR => Num(c.priceInEUR)
    case _ => Other
  }

  /** The keys whose column has a type the comparator orders. */
  predicate Typed(key: SortKey) {
    key == CertificationName || key == CertificateQuality || key == PriceInEUR
  }

  /** The comparator handed to `sort`. */
  function Compare(key: Option<SortKey>, dir: Option<Direction>, a: Certification, b: Certification): (r: real)
    ensures key.None? || dir.None? || !Typed(key.value) ==> r == 0.0
    ensures key.Some? && dir.Some? ==> (r == 0.0 <==> Column(a, key.value) == Column(b, key.value))
    ensures key.Some? && dir.Some? ==> (r <= 0.0 <==> CellsOrdered(dir.value, Column(a, key.value), Column(b, key.value)))
  {
    if key.None? || dir.None? then 0.0
    else
      match (Column(a, key.value), Column(b, key.value))
      case (Str(x), Str(y)) =>
        if dir.value == Asc then LocaleCompare(x, y) as real else LocaleCompare(y, x) as real
      case (Num(x), Num(y)) =>
        if dir.value == Asc then x - y else y - x
      case _ => 0.0
  }

  /** `cmp(a, b) <= 0`: `a` may stay in front of `b`. */
  function SortLe(key: Option<SortKey>, dir: Option<Direction>): (Certification, Certification) -> bool {
    (a, b) => Compare(key, dir, a, b) <= 0.0
  }

  /** Descending compares the arguments of ascending the other way round. */
  lemma DescendingIsSwappedAscending(key: SortKey, a: Certification, b: Certification)
    ensures Compare(Some(key), Some(Desc), a, b) == Compare(Some(key), Some(Asc), b, a)
  {
  }

  /** What "in order" means for one pair of cells, per direction. */
  predicate CellsOrdered(dir: Direction, x: Cell, y: Cell) {
    match (x, y)
    case (Str(s), Str(t)) => if dir == Asc then LexLe(s, t) else LexLe(t, s)
    case (Num(m), Num(n)) => if dir == Asc then m <= n else n <= m
    case _ => true
  }

  lemma SortLeMeansOrdered(key: SortKey, dir: Direction, a: Certification, b: Certification)
    ensures SortLe(Some(key), Some(dir))(a, b) <==> CellsOrdered(dir, Column(a, key), Column(b, key))
  {
  }

  /** The comparator is consistent for every state, so `sort` has a defined (stable) result. */
  lemma ComparatorConsistent(key: Option<SortKey>, dir: Option<Direction>)
    ensures TotalPreorder(SortLe(key, dir))
  {
    var le := SortLe(key, dir);
    if key.Some? && dir.Some? {
      forall a, b ensures le(a, b) || le(b, a) {
        SortLeMeansOrdered(key.value, dir.value, a, b);
        SortLeMeansOrdered(key.value, dir.value, b, a);
        if Column(a, key.value).Str? {
          LexLeTotal(Column(a, key.value).s, Column(b, key.value).s);
        }
      }
      forall a, b, c | le(a, b) && le(b, c) ensures le(a, c) {
        SortLeMeansOrdered(key.value, dir.value, a, b);
        SortLeMeansOrdered(key.value, dir.value, b, c);
        SortLeMeansOrdered(key.value, dir.value, a, c);
        var x, y, z := Column(a, key.value), Column(b, key.value), Column(c, key.value);
        if x.Str? {
          if dir.value == Asc { LexLeTransitive(x.s, y.s, z.s); } else { LexLeTransitive(z.s, y.s, x.s); }
        }
      }
    }
  }

  /** The rendered rows: a sorted copy; the prop array itself is left alone (values). */
  function SortedRows(certs: seq<Certification>, key: Option<SortKey>, dir: Option<Direction>): (r: seq<Certification>)
    ensures multiset(r) == multiset(certs)
  {
    SortBy(certs, SortLe(key, dir))
  }

  /** Whatever the state, the rows shown are a rearrangement of the rows given. */
  lemma SortedRowsArePermutation(certs: seq<Certification>, key: Option<SortKey>, dir: Option<Direction>)
    ensures multiset(SortedRows(certs, key, dir)) == multiset(certs)
    ensures |SortedRows(certs, key, dir)| == |certs|
  {
    assert |SortedRows(certs, key, dir)| == |multiset(SortedRows(certs, key, dir))|;
  }

  /** In the unsorted state, and for the array-valued and absent columns, every pair ties and
      the rows keep their order. */
  lemma UnorderedKeepsInputOrder(certs: seq<Certification>, key: Option<SortKey>, dir: Option<Direction>)
    requires key.None? || dir.None? || !Typed(key.value)
    ensures SortedRows(certs, key, dir) == certs
  {
    assert forall a, b :: SortLe(key, dir)(a, b);
    SortBySortedIdentity(certs, SortLe(key, dir));
  }

  /** Sorting on a typed column puts the rows in column order: lexicographic for the two text
      columns, numeric for the price, reversed for descending. */
  lemma SortedRowsOrdered(certs: seq<Certification>, key: SortKey, dir: Direction)
    ensures var r := SortedRows(certs, Some(key), Some(dir));
      forall i, j :: 0 <= i < j < |r| ==> CellsOrdered(dir, Column(r[i], key), Column(r[j], key))
  {
    var r := SortedRows(certs, Some(key), Some(dir));
    ComparatorConsistent(Some(key), Some(dir));
    SortBySorted(certs, SortLe(Some(key), Some(dir)));
    forall i, j | 0 <= i < j < |r| ensures CellsOrdered(dir, Column(r[i], key), Column(r[j], key)) {
      SortLeMeansOrdered(key, dir, r[i], r[j]);
    }
  }

  /** When no two rows share a value in a typed column, descending is exactly ascending reversed.
      (With ties the stable sort keeps tied rows in input order in both directions.) */
  lemma DescendingReversesAscending(certs: seq<Certification>, key: SortKey)
    requires Typed(key)
    requires forall x, y :: x in certs && y in certs && Column(x, key) == Column(y, key) ==> x == y
    ensures SortedRows(certs, Some(key), Some(Desc)) == Reverse(SortedRows(certs, Some(key), Some(Asc)))
  {
    var desc := SortLe(Some(key), Some(Desc));
    var a := SortedRows(certs, Some(key), Some(Asc));
    var d := SortedRows(certs, Some(key), Some(Desc));
    ComparatorConsistent(Some(key), Some(Asc));
    ComparatorConsistent(Some(key), Some(Desc));
    SortBySorted(certs, SortLe(Some(key), Some(Asc)));
    SortBySorted(certs, desc);
    ReverseMultiset(a);
    ReversedAscendingIsDescending(a, key);
    forall x, y | x in d && y in d && desc(x, y) && desc(y, x) ensures x == y {
      assert x in multiset(d) && y in multiset(d);
      DescendingAntisymmetric(key, x, y);
    }
    SortedUnique(d, Reverse(a), desc);
  }

  lemma ReversedAscendingIsDescending(a: seq<Certification>, key: SortKey)
    requires SortedBy(a, SortLe(Some(key), Some(Asc)))
    ensures SortedBy(Reverse(a), SortLe(Some(key), Some(Desc)))
  {
    var r := Reverse(a);
    forall i, j | 0 <= i < j < |r| ensures SortLe(Some(key), Some(Desc))(r[i], r[j]) {
      assert SortLe(Some(key), Some(Asc))(a[|a| - 1 - j], a[|a| - 1 - i]);
      DescendingIsSwappedAscending(key, r[i], r[j]);
    }
  }

  lemma DescendingAntisymmetric(key: SortKey, x: Certification, y: Certification)
    requires Typed(key)
    requires SortLe(Some(key), Some(Desc))(x, y) && SortLe(Some(key), Some(Desc))(y, x)
    ensures Column(x, key) == Column(y, key)
  {
    SortLeMeansOrdered(key, Desc, x, y);
    SortLeMeansOrdered(key, Desc, y, x);
    if Column(x, key).Str? {
      LexLeAntisymmetric(Column(x, key).s, Column(y, key).s);
    }
  }

  // ---------------------------------------------------------------------------
  // The header click state

  /** Clicking header `key` in state (`k`, `d`): a new key starts ascending, the same key goes
      from ascending to descending and from descending back to unsorted. */
  function NextSort(k: Option<SortKey>, d: Option<Direction>, key: SortKey): (r: (Option<SortKey>, Option<Direction>))
    ensures k != Some(key) ==> r == (Some(key), Some(Asc))
    ensures (k.None? <==> d.None?) ==> (r.0.None? <==> r.1.None?)
    ensures r.0.Some? ==> r.0 == Some(key)
  {
    if k == Some(key) then
      if d == Some(Asc) then (k, Some(Desc))
      else if d == Some(Desc) then (None, None)
      else (k, d)
    else (Some(key), Some(Asc))
  }

  /** From any state not sorted on `key`, three clicks on `key` go ascending, descending, off. */
  lemma ThreeClicksCycle(k: Option<SortKey>, d: Option<Direction>, key: SortKey)
    requires k != Some(key)
    ensures NextSort(k, d, key) == (Some(key), Some(Asc))
    ensures NextSort(Some(key), Some(Asc), key) == (Some(key), Some(Desc))
    ensures NextSort(Some(key), Some(Desc), key) == (None, None)
  {
  }

  class SortState {
    var sortKey: Option<SortKey>
    var sortDirection: Option<Direction>

    /** The key is set exactly when the direction is. */
    predicate Valid()
      reads this
    {
      sortKey.None? <==> sortDirection.None?
    }

    constructor ()
      ensures sortKey == None && sortDirection == None && Valid()
    {
      sortKey := None;
      sortDirection := None;
    }

    /** `handleSort(key)`. */
    method HandleSort(key: SortKey)
      modifies this
      ensures (sortKey, sortDirection) == NextSort(old(sortKey), old(sortDirection), key)
      ensures old(Valid()) ==> Valid()
    {
      if sortKey == Some(key) {
        if sortDirection == Some(Asc) {
          sortDirection := Some(Desc);
        } else if sortDirection == Some(Desc) {
          sortKey := None;
          sortDirection := None;
        }
      } else {
        sortKey := Some(key);
        sortDirection := Some(Asc);
      }
    }

    /** `sortedCertifications` for the current state. */
    function SortedCertifications(certs: seq<Certification>): seq<Certification>
      reads this
    {
      SortedRows(certs, sortKey, sortDirection)
    }
  }

  // ---------------------------------------------------------------------------
  // Badge colours

  /** `getLevelColor`: switch on the lower-cased level, with a default. "foundation" shares
      the neutral badge with every unknown level; the other four get a colour of their own. */
  function LevelColor(level: string): (cls: string)
    ensures cls == "bg-secondary text-secondary-foreground" <==>
            Lower(level) !in ["associate", "intermediate", "professional", "expert"]
    ensures Lower(level) == "expert" ==> cls == "bg-destructive/10 text-destructive border-destructive/20"
  {
    var key := Lower(level);
    if key == "associate" then "bg-info/10 text-info border-info/20"
    else if key == "intermediate" then "bg-warning/10 text-warning border-warning/20"
    else if key == "professional" then "bg-primary/10 text-primary border-primary/20"
    else if key == "expert" then "bg-destructive/10 text-destructive border-destructive/20"
    else "bg-secondary text-secondary-foreground" // "foundation" and the default
  }

  /** `getQualityColor`: switch on the lower-cased quality, with a default: the neutral badge
      exactly for a quality other than the three names. */
  function QualityColor(quality: string): (cls: string)
    ensures cls == "bg-secondary text-secondary-foreground" <==> Lower(quality) !in ["high", "medium", "low"]
    ensures Lower(quality) == "high" ==> cls == "bg-success/10 text-success border-success/20"
  {
    var key := Lower(quality);
    if key == "high" then "bg-success/10 text-success border-success/20"
    else if key == "medium" then "bg-warning/10 text-warning border-warning/20"
    else if key == "low" then "bg-muted text-muted-foreground"
    else "bg-secondary text-secondary-foreground"
  }

  /** Both colour maps ignore letter case. */
  lemma ColoursIgnoreCase(a: string, b: string)
    requires Lower(a) == Lower(b)
    ensures LevelColor(a) == LevelColor(b) && QualityColor(a) == QualityColor(b)
  {
  }
}
