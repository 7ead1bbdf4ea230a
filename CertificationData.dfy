/** The catalog record and the helpers that derive the filter options from a catalog
    (src/data/certifications.ts). */
module CertificationData {
  import opened Text
  import opened Sorting

  /** One catalog entry, as the application holds it in memory. Prices are JavaScript
      numbers, modelled as exact reals; `lastChecked` is ISO-8601 text. */
  datatype Certification = Certification(
    id: string,
    certificationName: string,
    domain: string,
    languageFramework: seq<string>,
    url: string,
    provider: seq<string>,
    price: real,
    currency: string,
    experienceLevel: string,
    certificateQuality: string,
    lastChecked: string,
    notes: string,
    priceInEUR: real)

  /** `[...new Set(values.filter(Boolean))].sort(cmp)` for a consistent comparator: every
      non-empty value exactly once, in the comparator's order. */
  function DistinctSortedBy(values: seq<string>, le: (string, string) -> bool): (r: seq<string>)
    requires TotalPreorder(le)
    ensures forall x :: x in r <==> x in values && x != ""
    ensures Distinct(r) && SortedBy(r, le)
  {
    var d := Dedup(NonEmpty(values));
    var r := SortBy(d, le);
    SortBySorted(d, le);
    DistinctPermutation(d, r);
    assert forall x :: x in r <==> x in multiset(r);
    assert forall x :: x in d <==> x in multiset(d);
    r
  }

  /** `[...new Set(values.filter(Boolean))].sort()`: every non-empty value exactly once, in
      strictly increasing order. */
  function DistinctSorted(values: seq<string>): (r: seq<string>)
    ensures forall x :: x in r <==> x in values && x != ""
    ensures forall i, j :: 0 <= i < j < |r| ==> LexLe(r[i], r[j]) && r[i] != r[j]
  {
    LexLeIsTotalPreorder();
    DistinctSortedBy(values, LexLe)
  }

  lemma LexLeIsTotalPreorder()
    ensures TotalPreorder(LexLe)
  {
    forall a, b ensures LexLe(a, b) || LexLe(b, a) {
      LexLeTotal(a, b);
    }
    forall a, b, c | LexLe(a, b) && LexLe(b, c) ensures LexLe(a, c) {
      LexLeTransitive(a, b, c);
    }
  }

  function Domains(certs: seq<Certification>): (r: seq<string>)
    ensures |r| == |certs| && forall i :: 0 <= i < |certs| ==> r[i] == certs[i].domain
  {
    seq(|certs|, i requires 0 <= i < |certs| => certs[i].domain)
  }

  function Levels(certs: seq<Certification>): (r: seq<string>)
    ensures |r| == |certs| && forall i :: 0 <= i < |certs| ==> r[i] == certs[i].experienceLevel
  {
    seq(|certs|, i requires 0 <= i < |certs| => certs[i].experienceLevel)
  }

  function Qualities(certs: seq<Certification>): (r: seq<string>)
    ensures |r| == |certs| && forall i :: 0 <= i < |certs| ==> r[i] == certs[i].certificateQuality
  {
    seq(|certs|, i requires 0 <= i < |certs| => certs[i].certificateQuality)
  }

  /** `certs.flatMap(c => c.languageFramework)`. */
  function AllLanguages(certs: seq<Certification>): (r: seq<string>)
    ensures forall x :: x in r <==> exists i :: 0 <= i < |certs| && x in certs[i].languageFramework
  {
    if |certs| == 0 then []
    else
      var rest := AllLanguages(certs[1..]);
      certs[0].languageFramework + rest
  }

  /** `certs.flatMap(c => c.provider)`. */
  function AllProviders(certs: seq<Certification>): (r: seq<string>)
    ensures forall x :: x in r <==> exists i :: 0 <= i < |certs| && x in certs[i].provider
  {
    if |certs| == 0 then []
    else
      var rest := AllProviders(certs[1..]);
      certs[0].provider + rest
  }

  /** `getUniqueDomains`: the non-empty domains, each once, ascending. */
  function GetUniqueDomains(certs: seq<Certification>): (r: seq<string>)
    ensures forall x :: x in r <==> x != "" && exists i :: 0 <= i < |certs| && certs[i].domain == x
    ensures forall i, j :: 0 <= i < j < |r| ==> LexLe(r[i], r[j]) && r[i] != r[j]
  {
    var ds := Domains(certs);
    assert forall x :: x in ds <==> exists i :: 0 <= i < |certs| && certs[i].domain == x;
    DistinctSorted(ds)
  }

  /** `getUniqueLanguages`: every non-empty tag of any certification, each once, ascending. */
  function GetUniqueLanguages(certs: seq<Certification>): (r: seq<string>)
    ensures forall x :: x in r <==> x != "" && exists i :: 0 <= i < |certs| && x in certs[i].languageFramework
    ensures forall i, j :: 0 <= i < j < |r| ==> LexLe(r[i], r[j]) && r[i] != r[j]
  {
    DistinctSorted(AllLanguages(certs))
  }

  /** `getUniqueProviders`: every non-empty provider of any certification, each once, ascending. */
  function GetUniqueProviders(certs: seq<Certification>): (r: seq<string>)
    ensures forall x :: x in r <==> x != "" && exists i :: 0 <= i < |certs| && x in certs[i].provider
    ensures forall i, j :: 0 <= i < j < |r| ==> LexLe(r[i], r[j]) && r[i] != r[j]
  {
    DistinctSorted(AllProviders(certs))
  }

  /** `getUniqueQualities`: the non-empty quality values, each once, ascending. */
  function GetUniqueQualities(certs: seq<Certification>): (r: seq<string>)
    ensures forall x :: x in r <==> x != "" && exists i :: 0 <= i < |certs| && certs[i].certificateQuality == x
    ensures forall i, j :: 0 <= i < j < |r| ==> LexLe(r[i], r[j]) && r[i] != r[j]
  {
    var qs := Qualities(certs);
    assert forall x :: x in qs <==> exists i :: 0 <= i < |certs| && certs[i].certificateQuality == x;
    DistinctSorted(qs)
  }

  // ---------------------------------------------------------------------------
  // Experience levels

  /** The known levels, lowest first. */
  const LevelOrder: seq<string> := ["entry-level", "intermediate", "advanced", "expert"]

  /** `xs.indexOf(x)`: the first position of `x`, or -1. */
  function IndexOf(xs: seq<string>, x: string): (k: int)
    ensures -1 <= k < |xs|
    ensures k >= 0 ==> xs[k] == x && forall j :: 0 <= j < k ==> xs[j] != x
    ensures k == -1 <==> x !in xs
  {
    if |xs| == 0 then -1
    else if xs[0] == x then 0
    else
      var k := IndexOf(xs[1..], x);
      if k == -1 then -1 else k + 1
  }

  /** `levelOrder.indexOf(level.toLowerCase())`: 0 to 3 for a known level, -1 otherwise. */
  function LevelRank(level: string): (k: int)
    ensures -1 <= k <= 3
    ensures k >= 0 <==> Lower(level) in LevelOrder
    ensures k >= 0 ==> LevelOrder[k] == Lower(level)
  {
    IndexOf(LevelOrder, Lower(level))
  }

  /** The comparator of `getUniqueExperienceLevels`. */
  function LevelCompare(a: string, b: string): (r: int)
    ensures LevelRank(a) != -1 && LevelRank(b) != -1 ==> (r < 0 <==> LevelRank(a) < LevelRank(b))
    ensures LevelRank(a) != -1 && LevelRank(b) != -1 ==> (r == 0 <==> LevelRank(a) == LevelRank(b))
    ensures LevelRank(a) != -1 && LevelRank(b) == -1 ==> r < 0
    ensures LevelRank(a) == -1 && LevelRank(b) != -1 ==> r > 0
    ensures LevelRank(a) == -1 && LevelRank(b) == -1 ==> (r <= 0 <==> LexLe(a, b)) && (r == 0 <==> a == b)
  {
    var ia := LevelRank(a);
    var ib := LevelRank(b);
    if ia == -1 && ib == -1 then LocaleCompare(a, b)
    else if ia == -1 then 1
    else if ib == -1 then -1
    else ia - ib
  }

  predicate LevelLe(a: string, b: string) {
    LevelCompare(a, b) <= 0
  }

  /** The level comparator is consistent, so the sorted order is well defined. */
  lemma LevelLeIsTotalPreorder()
    ensures TotalPreorder(LevelLe)
  {
    forall a, b ensures LevelLe(a, b) || LevelLe(b, a) {
      LexLeTotal(a, b);
    }
    forall a, b, c | LevelLe(a, b) && LevelLe(b, c) ensures LevelLe(a, c) {
      if LevelRank(a) == -1 && LevelRank(b) == -1 && LevelRank(c) == -1 {
        LexLeTransitive(a, b, c);
      }
    }
  }

  /** `getUniqueExperienceLevels`: the distinct non-empty levels (exact, case-sensitive
      comparison), known levels first in the order entry-level < intermediate < advanced <
      expert, then the unknown ones in lexicographic order. */
  function GetUniqueExperienceLevels(certs: seq<Certification>): (r: seq<string>)
    ensures forall x :: x in r <==> x != "" && exists i :: 0 <= i < |certs| && certs[i].experienceLevel == x
    ensures Distinct(r)
    ensures forall i, j :: 0 <= i < j < |r| && LevelRank(r[i]) >= 0 && LevelRank(r[j]) >= 0 ==>
              LevelRank(r[i]) <= LevelRank(r[j])
    ensures forall i, j :: 0 <= i < j < |r| && LevelRank(r[i]) == -1 ==>
              LevelRank(r[j]) == -1 && LexLe(r[i], r[j])
  {
    var ls := Levels(certs);
    assert forall x :: x in ls <==> exists i :: 0 <= i < |certs| && certs[i].experienceLevel == x;
    LevelLeIsTotalPreorder();
    var r := DistinctSortedBy(ls, LevelLe);
    LevelOrderOfSorted(r);
    r
  }

  /** What "sorted by the level comparator" means for the levels themselves. */
  lemma LevelOrderOfSorted(r: seq<string>)
    requires Distinct(r) && SortedBy(r, LevelLe)
    ensures forall i, j :: 0 <= i < j < |r| && LevelRank(r[i]) >= 0 && LevelRank(r[j]) >= 0 ==>
              LevelRank(r[i]) <= LevelRank(r[j])
    ensures forall i, j :: 0 <= i < j < |r| && LevelRank(r[i]) == -1 ==>
              LevelRank(r[j]) == -1 && LexLe(r[i], r[j])
  {
    forall i, j | 0 <= i < j < |r|
      ensures LevelRank(r[i]) >= 0 && LevelRank(r[j]) >= 0 ==> LevelRank(r[i]) <= LevelRank(r[j])
      ensures LevelRank(r[i]) == -1 ==> LevelRank(r[j]) == -1 && LexLe(r[i], r[j])
    {
      assert LevelLe(r[i], r[j]);
    }
  }

  /** Two spellings of one known level that differ only in case are both kept (the set
      compares exactly), and, being of one rank, stay in order of first appearance (the sort
      is stable). */
  lemma CaseVariantsKept(a: Certification, b: Certification)
    requires Lower(a.experienceLevel) == Lower(b.experienceLevel)
    requires a.experienceLevel != b.experienceLevel
    requires Lower(a.experienceLevel) in LevelOrder
    ensures GetUniqueExperienceLevels([a, b]) == [a.experienceLevel, b.experienceLevel]
  {
    var x, y := a.experienceLevel, b.experienceLevel;
    assert x != "" && y != "" by {
      assert |Lower(x)| == |x| && |Lower(y)| == |y|;
    }
    var ls := Levels([a, b]);
    assert ls == [x, y];
    assert ls[1..] == [y] && ls[1..][1..] == [];
    assert NonEmpty([y]) == [y] + NonEmpty([]);
    assert NonEmpty(ls) == [x] + NonEmpty([y]);
    var d := Dedup([x, y]);
    assert [x, y][..1] == [x];
    assert Dedup([x]) == [x] by {
      assert [x][..0] == [];
    }
    assert d == [x, y];
    assert LevelLe(x, y);
    assert SortBy(d, LevelLe) == Insert(x, SortBy([y], LevelLe), LevelLe) by {
      assert d[1..] == [y];
    }
    assert SortBy([y], LevelLe) == [y] by {
      assert [y][1..] == [];
    }
  }
}
