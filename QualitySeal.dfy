/** The quality badge (src/components/ui/quality-seal.tsx). The quality column holds either
    a star rating "1" to "5" or, in older rows, "high", "medium" or "low"; `getConfig` picks
    the badge's colours and caption. */
module QualitySeal {
  import opened Wrappers
  import opened Text

  /** The Tailwind classes and the text of one badge. */
  datatype SealConfig = SealConfig(color: string, bg: string, ring: string, caption: string)

  /** A caption of `n` black stars. */
  function Stars(n: nat): (s: string)
    ensures |s| == n && forall i :: 0 <= i < n ==> s[i] == '\U{2605}'
  {
    seq(n, _ => '\U{2605}')
  }

  const Dash: string := "\U{2013}"

  /** The star rating a quality reads as, when one of the numeric comparisons succeeds: the exact
      string "k" or a `parseInt` value of k, checked from 5 down to 1. */
  function StarRating(quality: string): (r: Option<nat>)
    ensures r.Some? <==> ParseInt(quality).Some? && 1 <= ParseInt(quality).value <= 5
    ensures r.Some? ==> ParseInt(quality) == Some(r.value as int)
  {
    var n := ParseInt(quality);
    ParseIntOfDigit(quality);
    if quality == "5" || n == Some(5) then Some(5)
    else if quality == "4" || n == Some(4) then Some(4)
    else if quality == "3" || n == Some(3) then Some(3)
    else if quality == "2" || n == Some(2) then Some(2)
    else if quality == "1" || n == Some(1) then Some(1)
    else None
  }

  /** The exact-string comparisons add nothing to the `parseInt` ones: "k" parses to k. */
  lemma ParseIntOfDigit(quality: string)
    ensures quality == "5" ==> ParseInt(quality) == Some(5)
    ensures quality == "4" ==> ParseInt(quality) == Some(4)
    ensures quality == "3" ==> ParseInt(quality) == Some(3)
    ensures quality == "2" ==> ParseInt(quality) == Some(2)
    ensures quality == "1" ==> ParseInt(quality) == Some(1)
  {
    if |quality| == 1 && IsDigit(quality[0]) {
      assert quality == [quality[0]];
      OneDigitParses(quality[0]);
    }
  }

  /** A single digit parses to its value. */
  lemma OneDigitParses(c: char)
    requires IsDigit(c)
    ensures ParseInt([c]) == Some(DigitValue(c))
  {
    assert IntToString(DigitValue(c)) == [c];
    ParseIntToString(DigitValue(c));
  }

  /** `getConfig`: a star badge for a rating, checked before the legacy names; then "high",
      "medium" and "low" in any case; a dash for everything else. */
  function GetConfig(quality: string): (r: SealConfig)
    ensures StarRating(quality).Some? ==> r.caption == Stars(StarRating(quality).value)
    ensures StarRating(quality).None? && Lower(quality) == "high" ==> r.caption == "High"
    ensures StarRating(quality).None? && Lower(quality) == "medium" ==> r.caption == "Avg"
    ensures StarRating(quality).None? && Lower(quality) == "low" ==> r.caption == "Low"
    ensures (StarRating(quality).None? && Lower(quality) != "high" && Lower(quality) != "medium"
             && Lower(quality) != "low") ==> r.caption == Dash
  {
    match StarRating(quality)
    case Some(n) => StarConfig(n)
    case None => LegacyConfig(Lower(quality))
  }

  /** The badge of a star rating: one colour scheme per rating. */
  function StarConfig(n: nat): (r: SealConfig)
    requires 1 <= n <= 5
    ensures r.caption == Stars(n)
  {
    if n == 5 then SealConfig("text-purple-600", "bg-purple-100", "ring-purple-200", Stars(5))
    else if n == 4 then SealConfig("text-emerald-600", "bg-emerald-100", "ring-emerald-200", Stars(4))
    else if n == 3 then SealConfig("text-blue-600", "bg-blue-100", "ring-blue-200", Stars(3))
    else if n == 2 then SealConfig("text-amber-600", "bg-amber-100", "ring-amber-200", Stars(2))
    else SealConfig("text-slate-500", "bg-slate-100", "ring-slate-200", Stars(1))
  }

  /** The badge of a legacy quality name, already lower-cased. */
  function LegacyConfig(key: string): (r: SealConfig)
    ensures key == "high" ==> r.caption == "High"
    ensures key == "medium" ==> r.caption == "Avg"
    ensures key == "low" ==> r.caption == "Low"
    ensures key != "high" && key != "medium" && key != "low" ==> r.caption == Dash
  {
    if key == "high" then SealConfig("text-success", "bg-success/10", "ring-success/20", "High")
    else if key == "medium" then SealConfig("text-warning", "bg-warning/10", "ring-warning/20", "Avg")
    else if key == "low" then SealConfig("text-muted-foreground", "bg-muted", "ring-border", "Low")
    else SealConfig("text-muted-foreground", "bg-muted", "ring-border", Dash)
  }

  /** A rating `k` from 1 to 5 written as a number gets exactly `k` stars. */
  lemma NumericQualityStars(k: int)
    requires 1 <= k <= 5
    ensures GetConfig(IntToString(k)).caption == Stars(k)
  {
    ParseIntToString(k);
  }

  /** Text after the leading digits is ignored, as `parseInt` ignores it: "4 stars" and
      "4.5" read as four stars. */
  lemma TrailingTextIgnored(k: nat, rest: string)
    requires 1 <= k <= 5
    requires rest == [] || !IsDigit(rest[0])
    ensures GetConfig(NatToString(k) + rest).caption == Stars(k)
  {
    var s := NatToString(k) + rest;
    var d := NatToString(k);
    assert |d| == 1;
    assert !IsJsSpace(s[0]);
    assert TrimStart(s) == s;
    assert Unsigned(s) == s;
    assert LeadingDigits(s[1..]) == 0 by {
      assert s[1..] == rest;
    }
    assert LeadingDigits(s) == 1;
    assert s[..1] == d;
    assert ParseInt(s) == Some(k);
  }
}
