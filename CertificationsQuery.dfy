/** The catalog query (src/hooks/useCertifications.ts): every row of the `certifications`
    table is turned into an in-memory `Certification`, defaulting each missing column. The
    database call is not modelled; its answer (`data`, `error`) is the input. */
module CertificationsQuery {
  import opened Wrappers
  import opened Text
  import opened CertificationData

  /** A row as the database returns it; `None` is SQL NULL. Numeric columns arrive as
      numbers. */
  datatype CertificationRow = CertificationRow(
    id: string,
    certification_name: Option<string>,
    domain: Option<string>,
    language_framework: Option<string>,
    url: Option<string>,
    provider: Option<string>,
    price: Option<real>,
    currency: Option<string>,
    experience_level: Option<string>,
    certificate_quality: Option<string>,
    last_checked: Option<string>,
    notes: Option<string>,
    price_in_eur: Option<real>)

  /** `field ? field.split(",").map(s => s.trim()) : []`. */
  function SplitList(field: Option<string>): (r: seq<string>)
    ensures field.None? || field.value == "" ==> r == []
    ensures field.Some? && field.value != "" ==>
      |r| == |Split(field.value, ',')| && forall i :: 0 <= i < |r| ==> r[i] == Trim(Split(field.value, ',')[i])
  {
    if field.Some? && field.value != "" then
      var parts := Split(field.value, ',');
      seq(|parts|, i requires 0 <= i < |parts| => Trim(parts[i]))
    else []
  }

  /** A non-empty list column has one entry per comma, plus one: empty pieces are kept. */
  lemma SplitListCount(s: string)
    requires s != ""
    ensures |SplitList(Some(s))| == multiset(s)[','] + 1
  {
    SplitCount(s, ',');
  }

  /** Two commas in a row leave an empty entry for the piece between them: "a,,b" gives
      three entries. */
  lemma EmptyPiecesKept(a: string, b: string)
    requires ',' !in a && ',' !in b
    ensures SplitList(Some(a + [',', ','] + b)) == [Trim(a), "", Trim(b)]
  {
    SplitDoubleSeparator(a, b, ',');
    ThreePieces(a + [',', ','] + b, a, "", b);
    TrimUnchanged("");
  }

  lemma ThreePieces(s: string, x: string, y: string, z: string)
    requires s != "" && Split(s, ',') == [x, y, z]
    ensures SplitList(Some(s)) == [Trim(x), Trim(y), Trim(z)]
  {
    SplitListPieces(s, [x, y, z]);
    TrimEach([x, y, z]);
  }

  /** Trimming each of three pieces, written out. */
  lemma TrimEach(parts: seq<string>)
    requires |parts| == 3
    ensures seq(|parts|, i requires 0 <= i < |parts| => Trim(parts[i])) == [Trim(parts[0]), Trim(parts[1]), Trim(parts[2])]
  {
  }

  /** `SplitList` trims each piece of the split. */
  lemma SplitListPieces(s: string, parts: seq<string>)
    requires s != "" && Split(s, ',') == parts
    ensures SplitList(Some(s)) == seq(|parts|, i requires 0 <= i < |parts| => Trim(parts[i]))
  {
  }

  /** Each entry is trimmed: "a, b" gives "a" and "b". */
  lemma PiecesTrimmed(a: string, b: string)
    requires ',' !in a && ',' !in b
    ensures SplitList(Some(a + [','] + b)) == [Trim(a), Trim(b)]
  {
    SplitAppend(a, b, ',');
    SplitWithoutSeparator(a, ',');
    SplitWithoutSeparator(b, ',');
    SplitListPieces(a + [','] + b, [a, b]);
  }

  /** `Number(x) || 0` on a numeric column: NULL gives 0. */
  function NumberOrZero(x: Option<real>): (r: real)
    ensures x.None? ==> r == 0.0
    ensures x.Some? ==> r == x.value
  {
    if x.Some? then x.value else 0.0
  }

  /** The `map` callback: one certification per row, `now` standing for
      `new Date().toISOString()`. */
  function FromRow(row: CertificationRow, now: string): (c: Certification)
    ensures c.id == row.id
    ensures c.certificationName == OrElse(row.certification_name, "")
    ensures c.domain == OrElse(row.domain, "") && c.url == OrElse(row.url, "")
    ensures c.experienceLevel == OrElse(row.experience_level, "")
    ensures c.certificateQuality == OrElse(row.certificate_quality, "")
    ensures c.notes == OrElse(row.notes, "")
    ensures c.currency == OrElse(row.currency, "USD") && c.currency != ""
    ensures c.languageFramework == SplitList(row.language_framework)
    ensures c.provider == SplitList(row.provider)
    ensures c.price == NumberOrZero(row.price) && c.priceInEUR == NumberOrZero(row.price_in_eur)
    ensures c.lastChecked == OrElse(row.last_checked, now)
  {
    Certification(
      row.id,
      OrElse(row.certification_name, ""),
      OrElse(row.domain, ""),
      SplitList(row.language_framework),
      OrElse(row.url, ""),
      SplitList(row.provider),
      NumberOrZero(row.price),
      OrElse(row.currency, "USD"),
      OrElse(row.experience_level, ""),
      OrElse(row.certificate_quality, ""),
      OrElse(row.last_checked, now),
      OrElse(row.notes, ""),
      NumberOrZero(row.price_in_eur))
  }

  /** The query function: a database error is rethrown; otherwise `(data || []).map(FromRow)`,
      one certification per row, in row order, ids passed through. */
  function FetchCertifications(data: Option<seq<CertificationRow>>, error: Option<string>, now: string)
    : (r: Result<seq<Certification>, string>)
    ensures error.Some? <==> r.Err?
    ensures error.Some? ==> r.error == error.value
    ensures r.Ok? && data.None? ==> r.value == []
    ensures r.Ok? && data.Some? ==>
      && |r.value| == |data.value|
      && forall i :: 0 <= i < |data.value| ==> r.value[i] == FromRow(data.value[i], now) && r.value[i].id == data.value[i].id
  {
    if error.Some? then Err(error.value)
    else
      var rows := data.GetOr([]);
      Ok(seq(|rows|, i requires 0 <= i < |rows| => FromRow(rows[i], now)))
  }
}
