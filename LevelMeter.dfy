/** The experience-level meter (src/components/ui/level-meter.tsx): four segments, as many
    of them lit in the level's colour as the level's rank plus one, next to the level text.
    `getLevelIndex` is the same lookup as the catalog's level rank,
    `CertificationData.LevelRank`: the position of the lower-cased level in
    ["entry-level", "intermediate", "advanced", "expert"], or -1. */
module LevelMeter {
  import opened Text
  import opened CertificationData

  const SegmentCount: nat := 4

  const LevelColors: seq<string> := ["bg-emerald-500", "bg-blue-500", "bg-indigo-500", "bg-rose-500"]

  const Unlit: string := "bg-border"

  /** `getLevelIndex` ignores case: a level and its lower-cased form have the same index. */
  lemma LevelIndexIgnoresCase(level: string)
    ensures LevelRank(level) == LevelRank(Lower(level))
    ensures LevelRank("Expert") == 3 && LevelRank("entry-level") == 0
  {
    LowerIdempotent(level);
    assert Lower("Expert") == "expert";
    assert Lower("entry-level") == "entry-level";
  }

  /** `levelColors[index] || "bg-primary"`: the entry for a known level, "bg-primary" for -1. */
  function ActiveColor(index: int): (c: string)
    requires -1 <= index < SegmentCount
    ensures index == -1 ==> c == "bg-primary"
    ensures 0 <= index ==> c == LevelColors[index]
    ensures c != Unlit
  {
    if index == -1 then "bg-primary" else LevelColors[index]
  }

  /** Which of the four segments are lit: segment `i` iff `i <= index`. */
  function LitSegments(level: string): (lit: seq<bool>)
    ensures |lit| == SegmentCount
    ensures forall i :: 0 <= i < SegmentCount ==> (lit[i] <==> i <= LevelRank(level))
  {
    var index := LevelRank(level);
    seq(SegmentCount, i => i <= index)
  }

  /** The class of each segment: the active colour when lit, the border colour otherwise. */
  function SegmentClasses(level: string): (r: seq<string>)
    ensures |r| == SegmentCount
    ensures forall i :: 0 <= i < SegmentCount ==>
      (r[i] == ActiveColor(LevelRank(level)) <==> i <= LevelRank(level))
    ensures forall i :: 0 <= i < SegmentCount ==> (r[i] == Unlit <==> LevelRank(level) < i)
  {
    var lit := LitSegments(level);
    var color := ActiveColor(LevelRank(level));
    seq(SegmentCount, i requires 0 <= i < SegmentCount => if lit[i] then color else Unlit)
  }

  function CountTrue(s: seq<bool>): nat {
    if |s| == 0 then 0 else (if s[0] then 1 else 0) + CountTrue(s[1..])
  }

  /** Of the first `n` positions, those up to `k` number `k + 1`, clamped to 0 and `n`. */
  lemma {:induction false} CountPrefix(n: nat, k: int)
    requires -1 <= k
    ensures CountTrue(seq(n, i => i <= k)) == if k + 1 < n then k + 1 else n
  {
    if n > 0 {
      var s := seq(n, i => i <= k);
      var t := seq(n - 1, i => i <= k);
      assert s == t + [n - 1 <= k];
      CountAppend(t, [n - 1 <= k]);
      CountPrefix(n - 1, k);
    }
  }

  lemma {:induction false} CountAppend(a: seq<bool>, b: seq<bool>)
    ensures CountTrue(a + b) == CountTrue(a) + CountTrue(b)
  {
    if |a| == 0 {
      assert a + b == b;
    } else {
      assert (a + b)[0] == a[0];
      assert (a + b)[1..] == a[1..] + b;
      CountAppend(a[1..], b);
    }
  }

  /** The meter lights index + 1 segments: none for an unknown level, all four for "expert". */
  lemma LitCount(level: string)
    ensures CountTrue(LitSegments(level)) == LevelRank(level) + 1
  {
    assert LitSegments(level) == seq(SegmentCount, i => i <= LevelRank(level));
    CountPrefix(SegmentCount, LevelRank(level));
  }
}
