/** The spreadsheet import of the admin page (src/pages/AdminDashboard.tsx, `handleSync`).
    The sheet id and tab are trimmed; a blank id stops everything. Otherwise the settings are
    saved, the tab is resolved to a range through the spreadsheet's metadata, the values are
    fetched, the header row is mapped to columns, every data row becomes a certification
    record, rows without a name are dropped and the rest are written one at a time into the
    `certifications` table, matched by exact name.

    The Sheets API answers are inputs: the metadata response, and the values response as a
    function of the range asked for. Every URL fetched is appended to a request log, so the
    model can say which requests happen. `new Date(x).toISOString()` is the parameter
    `isoDate` (`None` for an unparsable date), the current time is `now`, the ids the database
    gives new rows are `freshId(i)` and `writeFails(i)` says that the write for the i-th
    prepared row failed. */
module AdminSync {
  import opened Wrappers
  import opened Text
  import opened Sorting

  const EnterSheetId: string := "Please enter a Google Sheet ID"
  const NoTokenMessage: string :=
    "No Google Access Token found. " + "Please click 'Authorize " + "Sheets Access' above."
  const AuthRequired: string := "AUTH_REQUIRED"
  const SheetNotFound: string := "Spreadsheet not found. Check ID."
  const NoDataMessage: string := "No data found in sheet (or only header row)"
  const NoNameColumn: string := "Could not find 'Certification Name' column"
  /** The message of the `RangeError` that `toISOString` throws on an invalid date. */
  const InvalidTimeValue: string := "Invalid time value"
  const AuthToast: string := "Auth Token Missing/Invalid. Please CLICK 'Authorize Sheets Access' button."
  const GenericFailure: string := "Failed to sync. Check console."
  const DefaultRange: string := "A:Z"
  const SheetIdSetting: string := "google_sheet_id"
  const SheetTabSetting: string := "google_sheet_tab"
  const SheetsApi: string := "https://sheets.googleapis.com/v4/spreadsheets/"

  // ---------------------------------------------------------------------------
  // Resolving the tab to a range

  datatype SheetProperties = SheetProperties(sheetId: int, title: string)

  /** `s.properties.sheetId.toString() === tab`. */
  predicate IdReads(sheet: SheetProperties, tab: string) {
    IntToString(sheet.sheetId) == tab
  }

  /** The sheets' ids, each printed as `toString` prints it. */
  function SheetIds(sheets: seq<SheetProperties>): (ids: seq<string>)
    ensures |ids| == |sheets|
    ensures forall k :: 0 <= k < |sheets| ==> ids[k] == IntToString(sheets[k].sheetId)
  {
    seq(|sheets|, k requires 0 <= k < |sheets| => IntToString(sheets[k].sheetId))
  }

  /** The first position holding `tab`, if any. */
  function FirstIndexOf(keys: seq<string>, tab: string): (r: Option<nat>)
    ensures r.None? <==> tab !in keys
    ensures r.Some? ==> r.value < |keys| && keys[r.value] == tab
    ensures r.Some? ==> forall k :: 0 <= k < r.value ==> keys[k] != tab
  {
    if |keys| == 0 then None
    else if keys[0] == tab then Some(0)
    else
      match FirstIndexOf(keys[1..], tab)
      case None => None
      case Some(k) => Some(k + 1)
  }

  /** `metaData.sheets.find(s => s.properties.sheetId.toString() === tab)`, as an index. */
  function FindSheet(sheets: seq<SheetProperties>, tab: string): (r: Option<nat>)
    ensures r.None? <==> forall k :: 0 <= k < |sheets| ==> !IdReads(sheets[k], tab)
    ensures r.Some? ==> r.value < |sheets| && IdReads(sheets[r.value], tab)
    ensures r.Some? ==> forall k :: 0 <= k < r.value ==> !IdReads(sheets[k], tab)
  {
    var ids := SheetIds(sheets);
    var r := FirstIndexOf(ids, tab);
    assert r.None? <==> forall k :: 0 <= k < |ids| ==> ids[k] != tab;
    r
  }

  /** Sheet `k` is the first whose id reads as the tab. */
  predicate FirstSheetFor(sheets: seq<SheetProperties>, tab: string, k: int) {
    0 <= k < |sheets| && IdReads(sheets[k], tab) && forall j :: 0 <= j < k ==> !IdReads(sheets[j], tab)
  }

  /** The A1 range of columns A to Z of one named sheet. */
  function SheetRange(name: string): string {
    "'" + name + "'!A:Z"
  }

  /** The range once the metadata is in: the title of the first sheet whose numeric id reads
      as the tab, or else the tab itself taken as a sheet name. */
  function TabRange(tab: string, sheets: seq<SheetProperties>): (r: string)
    ensures forall k :: FirstSheetFor(sheets, tab, k) ==> r == SheetRange(sheets[k].title)
    ensures (forall k :: 0 <= k < |sheets| ==> !IdReads(sheets[k], tab)) ==> r == SheetRange(tab)
  {
    match FindSheet(sheets, tab)
    case Some(k) =>
      FirstSheetUnique(sheets, tab, k);
      SheetRange(sheets[k].title)
    case None => SheetRange(tab)
  }

  /** Only one sheet is the first whose id reads as the tab. */
  lemma FirstSheetUnique(sheets: seq<SheetProperties>, tab: string, k: int)
    requires FirstSheetFor(sheets, tab, k)
    ensures forall k' :: FirstSheetFor(sheets, tab, k') ==> k' == k
  {
  }

  /** Sheet ids print without leading zeros, so a tab such as "007" is always a name. */
  lemma LeadingZeroTabIsName(tab: string, sheets: seq<SheetProperties>)
    requires |tab| > 1 && tab[0] == '0'
    ensures TabRange(tab, sheets) == SheetRange(tab)
  {
    forall k | 0 <= k < |sheets|
      ensures IntToString(sheets[k].sheetId) != tab
    {
      IntToStringNoLeadingZero(sheets[k].sheetId);
    }
  }

  lemma IntToStringNoLeadingZero(i: int)
    ensures |IntToString(i)| > 1 ==> IntToString(i)[0] != '0'
  {
    if i >= 0 {
      NatToStringNoLeadingZero(i);
    }
  }

  lemma {:induction false} NatToStringNoLeadingZero(n: nat)
    ensures |NatToString(n)| > 1 ==> NatToString(n)[0] != '0'
    decreases n
  {
    if n >= 10 {
      var s := NatToString(n / 10);
      assert NatToString(n) == s + [DigitChar(n % 10)];
      if n / 10 >= 10 {
        NatToStringNoLeadingZero(n / 10);
      } else {
        assert s == [DigitChar(n / 10)];
      }
    }
  }

  // ---------------------------------------------------------------------------
  // Classifying failed responses

  /** `response.ok`. */
  predicate IsOk(status: int) {
    200 <= status < 300
  }

  /** The error a failed metadata request raises. */
  function MetaError(status: int, text: string): (m: string)
    ensures status == 401 || status == 403 ==> m == AuthRequired
    ensures status == 404 ==> m == SheetNotFound
    ensures status != 401 && status != 403 && status != 404 ==>
      m == "Metadata Error: " + IntToString(status) + " - " + text
  {
    if status == 401 || status == 403 then AuthRequired
    else if status == 404 then SheetNotFound
    else "Metadata Error: " + IntToString(status) + " - " + text
  }

  /** The body of a failed values request: `JSON.parse` either throws (with a message the host
      chooses) or yields an object whose `error.message` may be missing. */
  datatype ErrorBody = Unparsable(syntaxError: string) | Parsed(message: Option<string>)

  /** The error a failed values request raises: only 401 and 403 are singled out. */
  function ValuesError(status: int, text: string, body: ErrorBody): (m: string)
    ensures status == 401 || status == 403 ==> m == AuthRequired
    ensures status != 401 && status != 403 && body.Parsed? ==>
      m == "Sheets API Error: " + OrElse(body.message, text)
    ensures status != 401 && status != 403 && body.Unparsable? ==> m == body.syntaxError
  {
    if status == 401 || status == 403 then AuthRequired
    else match body
      case Unparsable(e) => e
      case Parsed(msg) => "Sheets API Error: " + OrElse(msg, text)
  }

  /** A 404 of the values request is reported as an API error, not as a missing spreadsheet. */
  lemma ValuesNotFoundIsApiError(text: string, message: Option<string>)
    ensures ValuesError(404, text, Parsed(message)) != SheetNotFound
    ensures MetaError(404, text) == SheetNotFound
  {
    var m := ValuesError(404, text, Parsed(message));
    assert m[1] == 'h' && SheetNotFound[1] == 'p';
  }

  /** The message the `catch` shows: the authorisation hint for `AUTH_REQUIRED` or a message
      mentioning "No provider token", otherwise the message itself, or a generic one when it
      is empty. */
  function FailureToast(m: string): (t: string)
    ensures m == AuthRequired || Contains(m, "No provider token") ==> t == AuthToast
    ensures m != AuthRequired && !Contains(m, "No provider token") ==> t == (if m == "" then GenericFailure else m)
  {
    if m == AuthRequired || Contains(m, "No provider token") then AuthToast
    else if m == "" then GenericFailure
    else m
  }

  /** The error thrown for a missing token does not mention "No provider token", so the
      `catch` shows it as it is rather than the authorisation hint. */
  lemma MissingTokenShowsItsOwnMessage()
    ensures FailureToast(NoTokenMessage) == NoTokenMessage
  {
    NoTokenMessageLacksP();
    if Contains(NoTokenMessage, "No provider token") {
      ContainsOnlyTextChars(NoTokenMessage, "No provider token", 3);
    }
  }

  lemma NoTokenMessageLacksP()
    ensures 'p' !in NoTokenMessage
  {
    LacksP1();
    LacksP2();
    LacksP3();
  }

  lemma LacksP1() ensures 'p' !in "No Google Access Token found. " {}
  lemma LacksP2() ensures 'p' !in "Please click 'Authorize " {}
  lemma LacksP3() ensures 'p' !in "Sheets Access' above." {}

  /** Every character of a contained pattern occurs in the text. */
  lemma ContainsOnlyTextChars(text: string, pat: string, i: int)
    requires 0 <= i < |pat| && Contains(text, pat)
    ensures pat[i] in text
  {
    ContainsIffOccurs(text, pat);
    var k :| OccursAt(text, pat, k);
    assert text[k + i] == text[k..k + |pat|][i];
  }

  // ---------------------------------------------------------------------------
  // Mapping the header row

  /** `rows[0].map(h => h.toLowerCase().trim())`. */
  function NormalizeHeaders(row: seq<string>): (r: seq<string>)
    ensures |r| == |row|
    ensures forall i :: 0 <= i < |r| ==> r[i] == Trim(Lower(row[i]))
  {
    seq(|row|, i requires 0 <= i < |row| => Trim(Lower(row[i])))
  }

  /** `headers.findIndex(p)`. */
  function FindIndex(headers: seq<string>, p: string -> bool): (r: int)
    ensures -1 <= r < |headers|
    ensures r >= 0 ==> p(headers[r]) && forall j :: 0 <= j < r ==> !p(headers[j])
    ensures r == -1 <==> forall j :: 0 <= j < |headers| ==> !p(headers[j])
  {
    if |headers| == 0 then -1
    else if p(headers[0]) then 0
    else
      var k := FindIndex(headers[1..], p);
      if k == -1 then -1 else k + 1
  }

  predicate MatchesAny(h: string, keys: seq<string>) {
    exists k :: k in keys && Contains(h, k)
  }

  /** `getIndex(keys)`: the first header containing any of the keywords. */
  function GetIndex(headers: seq<string>, keys: seq<string>): (r: int)
    ensures -1 <= r < |headers|
    ensures r >= 0 ==> MatchesAny(headers[r], keys) && forall j :: 0 <= j < r ==> !MatchesAny(headers[j], keys)
    ensures r == -1 <==> forall j :: 0 <= j < |headers| ==> !MatchesAny(headers[j], keys)
  {
    FindIndex(headers, h => MatchesAny(h, keys))
  }

  /** The EUR price column must mention both "price" and "eur". */
  function EurIndex(headers: seq<string>): (r: int)
    ensures -1 <= r < |headers|
    ensures r >= 0 ==> Contains(headers[r], "price") && Contains(headers[r], "eur")
    ensures r >= 0 ==> forall j :: 0 <= j < r ==> !(Contains(headers[j], "price") && Contains(headers[j], "eur"))
    ensures r == -1 <==> forall j :: 0 <= j < |headers| ==> !(Contains(headers[j], "price") && Contains(headers[j], "eur"))
  {
    FindIndex(headers, h => Contains(h, "price") && Contains(h, "eur"))
  }

  lemma ColumnWords(headers: seq<string>)
    ensures FirstMentioning(headers, "name", GetIndex(headers, NameKeys))
    ensures FirstMentioning(headers, "level", GetIndex(headers, ["experience level", "level"]))
    ensures FirstMentioning(headers, "checked", GetIndex(headers, ["last checked", "checked"]))
  {
    assert "certification name" == "certification " + "name";
    assert NameKeys == ["certification " + "name", "name"];
    SuffixKeyword(headers, "certification ", "name");
    assert "experience level" == "experience " + "level";
    assert ["experience level", "level"] == ["experience " + "level", "level"];
    SuffixKeyword(headers, "experience ", "level");
    assert "last checked" == "last " + "checked";
    assert ["last checked", "checked"] == ["last " + "checked", "checked"];
    SuffixKeyword(headers, "last ", "checked");
  }

  lemma PriceNotAfterEur(headers: seq<string>)
    ensures EurIndex(headers) >= 0 ==> 0 <= GetIndex(headers, ["price"]) <= EurIndex(headers)
  {
    if EurIndex(headers) >= 0 {
      PriceIndexAndEurIndex(headers);
    }
  }

  /** `i` is the first header containing `word`, or -1 when none does. */
  predicate FirstMentioning(headers: seq<string>, word: string, i: int) {
    -1 <= i < |headers|
    && (i >= 0 ==> Contains(headers[i], word))
    && (forall j :: 0 <= j < |headers| && (i == -1 || j < i) ==> !Contains(headers[j], word))
  }

  /** A keyword list made of a phrase and its last word finds the first header holding the
      word. */
  lemma SuffixKeyword(headers: seq<string>, front: string, word: string)
    ensures FirstMentioning(headers, word, GetIndex(headers, [front + word, word]))
  {
    forall h ensures MatchesAny(h, [front + word, word]) <==> Contains(h, word) {
      assert word in [front + word, word];
      if Contains(h, front + word) {
        ContainsWordOfPhrase(h, front, word);
      }
    }
  }

  lemma ContainsWordOfPhrase(h: string, front: string, word: string)
    requires Contains(h, front + word)
    ensures Contains(h, word)
  {
    ContainsIffOccurs(h, front + word);
    ContainsIffOccurs(h, word);
    var k :| OccursAt(h, front + word, k);
    assert h[k + |front|..k + |front| + |word|] == (front + word)[|front|..];
    assert OccursAt(h, word, k + |front|);
  }

  /** The header position decides, not the order of the keywords. */
  lemma KeywordOrderIrrelevant(headers: seq<string>, keys: seq<string>, keys': seq<string>)
    requires forall k :: k in keys <==> k in keys'
    ensures GetIndex(headers, keys) == GetIndex(headers, keys')
  {
    assert forall h :: MatchesAny(h, keys) <==> MatchesAny(h, keys');
  }

  /** The plain price column is never after the EUR column, and is the same column when no
      earlier header mentions "price". */
  lemma PriceIndexAndEurIndex(headers: seq<string>)
    requires EurIndex(headers) >= 0
    ensures 0 <= GetIndex(headers, ["price"]) <= EurIndex(headers)
    ensures (forall j :: 0 <= j < EurIndex(headers) ==> !Contains(headers[j], "price")) ==>
      GetIndex(headers, ["price"]) == EurIndex(headers)
  {
    var e := EurIndex(headers);
    assert MatchesAny(headers[e], ["price"]) by {
      assert "price" in ["price"];
    }
    forall h | MatchesAny(h, ["price"])
      ensures Contains(h, "price")
    {
    }
  }

  /** The column of each field (-1 when absent). */
  datatype Columns = Columns(
    name: int, domain: int, tech: int, level: int, quality: int, url: int, provider: int,
    price: int, priceEur: int, currency: int, lastChecked: int, notes: int)

  const NameKeys: seq<string> := ["certification name", "name"]

  /** The columns the mapping uses: the name column is the first header mentioning "name"
      (the longer keyword "certification name" adds nothing), likewise "level" and "checked";
      the plain price column is never after the EUR one. */
  function ColumnsOf(headers: seq<string>): (r: Columns)
    ensures FirstMentioning(headers, "name", r.name)
    ensures FirstMentioning(headers, "level", r.level)
    ensures FirstMentioning(headers, "checked", r.lastChecked)
    ensures r.priceEur >= 0 ==> 0 <= r.price <= r.priceEur
  {
    ColumnWords(headers);
    PriceNotAfterEur(headers);
    Columns(
      GetIndex(headers, NameKeys),
      GetIndex(headers, ["domain", "area"]),
      GetIndex(headers, ["technology", "language", "framework"]),
      GetIndex(headers, ["experience level", "level"]),
      GetIndex(headers, ["quality"]),
      GetIndex(headers, ["url"]),
      GetIndex(headers, ["provider"]),
      GetIndex(headers, ["price"]),
      EurIndex(headers),
      GetIndex(headers, ["currency"]),
      GetIndex(headers, ["last checked", "checked"]),
      GetIndex(headers, ["notes"]))
  }

  // ---------------------------------------------------------------------------
  // Cells, prices and records

  /** `getVal(idx)`: the trimmed cell, or "" for a missing column, a short row or an empty
      cell. */
  function GetVal(row: seq<string>, idx: int): (v: string)
    ensures !(0 <= idx < |row|) ==> v == ""
    ensures 0 <= idx < |row| ==> v == Trim(row[idx])
  {
    if idx != -1 && 0 <= idx < |row| && row[idx] != "" then Trim(row[idx])
    else
      TrimUnchanged("");
      ""
  }

  /** `v || fallback` on a string. */
  function OrDefault(v: string, fallback: string): (r: string)
    ensures r != "" <==> v != "" || fallback != ""
    ensures v != "" ==> r == v
    ensures v == "" ==> r == fallback
  {
    if v == "" then fallback else v
  }

  predicate PriceChar(c: char) {
    IsDigit(c) || c == '.' || c == '-'
  }

  /** `val.replace(/[^\d.-]/g, '')`. */
  function StripPrice(s: string): (r: string)
    ensures forall i :: 0 <= i < |r| ==> PriceChar(r[i])
    ensures IsSubsequence(r, s)
  {
    if |s| == 0 then []
    else if PriceChar(s[0]) then [s[0]] + StripPrice(s[1..])
    else
      SubsequenceCons(StripPrice(s[1..]), s[1..], s[0]);
      assert [s[0]] + s[1..] == s;
      StripPrice(s[1..])
  }

  /** Stripping keeps every price character, in order, and only those. */
  lemma {:induction false} StripPriceKeepsPriceChars(s: string)
    ensures forall i :: 0 <= i < |s| && PriceChar(s[i]) ==> s[i] in StripPrice(s)
    ensures (forall i :: 0 <= i < |s| ==> PriceChar(s[i])) ==> StripPrice(s) == s
  {
    if |s| > 0 {
      StripPriceKeepsPriceChars(s[1..]);
      assert forall i :: 1 <= i < |s| ==> s[i] == s[1..][i - 1];
    }
  }

  lemma {:induction false} StripPriceConcat(a: string, b: string)
    ensures StripPrice(a + b) == StripPrice(a) + StripPrice(b)
  {
    if |a| > 0 {
      assert (a + b)[1..] == a[1..] + b;
      StripPriceConcat(a[1..], b);
    } else {
      assert a + b == b;
    }
  }

  /** `parsePrice(val)`: 0 for an empty cell; otherwise `parseFloat` of the stripped text, 0
      when that is NaN. */
  function ParsePrice(val: string): (p: real)
    ensures val == "" || ParseDecimalPrefix(StripPrice(val)).None? ==> p == 0.0
    ensures val != "" && ParseDecimalPrefix(StripPrice(val)).Some? ==> p == ParseDecimalPrefix(StripPrice(val)).value
  {
    if val == "" then 0.0
    else
      match ParseDecimalPrefix(StripPrice(val))
      case None => 0.0
      case Some(v) => v
  }

  /** Currency symbols, letters, spaces and thousands separators are dropped before parsing:
      "€ 120" reads as 120, "-" in the text keeps the sign. */
  lemma PriceIgnoresSymbols(sym: string, ds: string)
    requires forall i :: 0 <= i < |sym| ==> !PriceChar(sym[i])
    requires |ds| > 0 && forall i :: 0 <= i < |ds| ==> IsDigit(ds[i])
    ensures ParsePrice(sym + ds) == DigitsValue(ds) as real
    ensures ParsePrice(sym + "-" + ds) == -(DigitsValue(ds) as real)
  {
    UnsignedDigits(ds);
    StripPriceKeepsPriceChars(ds);
    PriceOfNumber(sym, ds, DigitsValue(ds) as real);
    NegativePrice(sym, ds);
  }

  /** The minus sign survives the stripping and negates the digits after it. */
  lemma NegativePrice(sym: string, ds: string)
    requires forall i :: 0 <= i < |sym| ==> !PriceChar(sym[i])
    requires |ds| > 0 && forall i :: 0 <= i < |ds| ==> IsDigit(ds[i])
    ensures ParsePrice(sym + "-" + ds) == -(DigitsValue(ds) as real)
  {
    UnsignedDigits(ds);
    StripPriceKeepsPriceChars(ds);
    NegatedPrice(sym, ds, DigitsValue(ds) as real);
    assert sym + "-" + ds == sym + ("-" + ds);
  }

  /** A kept, unsigned number with a minus sign in front reads as its negation. */
  lemma NegatedPrice(sym: string, u: string, v: real)
    requires forall i :: 0 <= i < |sym| ==> !PriceChar(sym[i])
    requires StripPrice(u) == u && UnsignedDecimal(u) == Some(v)
    ensures ParsePrice(sym + ("-" + u)) == -v
  {
    NegatedDigits(u, v);
    var s := "-" + u;
    assert s[0] == '-' && s[1..] == u;
    StripSymbols(sym, s);
  }

  /** A number behind characters that are not part of one reads as that number. */
  lemma PriceOfNumber(sym: string, s: string, v: real)
    requires forall i :: 0 <= i < |sym| ==> !PriceChar(sym[i])
    requires |s| > 0 && StripPrice(s) == s
    requires ParseDecimalPrefix(s) == Some(v)
    ensures ParsePrice(sym + s) == v
  {
    StripSymbols(sym, s);
  }

  /** Characters that are not part of a number are removed from in front of a price. */
  lemma StripSymbols(sym: string, s: string)
    requires forall i :: 0 <= i < |sym| ==> !PriceChar(sym[i])
    requires StripPrice(s) == s
    ensures StripPrice(sym + s) == s
  {
    StripPriceConcat(sym, s);
    StripNothing(sym);
  }

  /** `parseFloat` reads a minus sign in front of a number as its negation. */
  lemma NegatedDigits(ds: string, v: real)
    requires UnsignedDecimal(ds) == Some(v)
    ensures ParseDecimalPrefix("-" + ds) == Some(-v)
  {
    var s := "-" + ds;
    assert s[0] == '-' && s[1..] == ds;
  }

  /** `parseFloat` of a run of digits is its value. */
  lemma UnsignedDigits(ds: string)
    requires |ds| > 0 && forall i :: 0 <= i < |ds| ==> IsDigit(ds[i])
    ensures UnsignedDecimal(ds) == Some(DigitsValue(ds) as real)
    ensures ParseDecimalPrefix(ds) == Some(DigitsValue(ds) as real)
  {
    AllDigitsLeading(ds);
    assert ds[..|ds|] == ds;
    assert UnsignedDecimal(ds) == Some(DigitsValue(ds) as real);
    assert IsDigit(ds[0]);
  }

  lemma {:induction false} StripNothing(s: string)
    requires forall i :: 0 <= i < |s| ==> !PriceChar(s[i])
    ensures StripPrice(s) == ""
  {
    if |s| > 0 {
      StripNothing(s[1..]);
    }
  }

  /** The record written for one sheet row. */
  datatype CertUpsert = CertUpsert(
    certification_name: string, domain: string, language_framework: string, url: string,
    provider: string, price: real, currency: string, experience_level: string,
    certificate_quality: string, last_checked: string, notes: string, price_in_eur: real)

  /** One row of the `map`: the cells of the mapped columns, with the defaults "Unknown",
      "Other" and "USD", parsed prices, and `last_checked` normalised by `isoDate` (the current
      time when the cell is empty); an unparsable date throws. */
  function BuildRow(row: seq<string>, cols: Columns, now: string, isoDate: string -> Option<string>)
    : (r: Result<CertUpsert, string>)
    ensures r.Err? <==> DateUnreadable(row, cols, isoDate)
    ensures r.Err? ==> r.error == InvalidTimeValue
  {
    var checked := GetVal(row, cols.lastChecked);
    if checked != "" && isoDate(checked).None? then Err(InvalidTimeValue)
    else
      Ok(CertUpsert(
        OrDefault(GetVal(row, cols.name), "Unknown"),
        OrDefault(GetVal(row, cols.domain), "Other"),
        GetVal(row, cols.tech),
        GetVal(row, cols.url),
        GetVal(row, cols.provider),
        ParsePrice(GetVal(row, cols.price)),
        OrDefault(GetVal(row, cols.currency), "USD"),
        GetVal(row, cols.level),
        GetVal(row, cols.quality),
        if checked == "" then now else isoDate(checked).value,
        GetVal(row, cols.notes),
        ParsePrice(GetVal(row, cols.priceEur))))
  }

  /** The last-checked cell holds something `new Date` cannot read. */
  predicate DateUnreadable(row: seq<string>, cols: Columns, isoDate: string -> Option<string>) {
    GetVal(row, cols.lastChecked) != "" && isoDate(GetVal(row, cols.lastChecked)).None?
  }

  /** The defaults and conversions of one record. */
  lemma BuildRowFields(row: seq<string>, cols: Columns, now: string, isoDate: string -> Option<string>)
    requires !DateUnreadable(row, cols, isoDate)
    ensures var c := BuildRow(row, cols, now, isoDate).value;
      && c.certification_name == OrDefault(GetVal(row, cols.name), "Unknown")
      && c.domain == OrDefault(GetVal(row, cols.domain), "Other")
      && c.currency == OrDefault(GetVal(row, cols.currency), "USD")
      && c.language_framework == GetVal(row, cols.tech) && c.url == GetVal(row, cols.url)
      && c.provider == GetVal(row, cols.provider) && c.notes == GetVal(row, cols.notes)
      && c.experience_level == GetVal(row, cols.level) && c.certificate_quality == GetVal(row, cols.quality)
      && c.price == ParsePrice(GetVal(row, cols.price))
      && c.price_in_eur == ParsePrice(GetVal(row, cols.priceEur))
      && c.last_checked == (if GetVal(row, cols.lastChecked) == "" then now
                            else isoDate(GetVal(row, cols.lastChecked)).value)
  {
  }

  /** Position `i` is where `xs.map(f)` throws: `f` fails there and on no earlier element. */
  ghost predicate FirstFailure<A, B>(xs: seq<A>, f: A -> Result<B, string>, i: int) {
    0 <= i < |xs| && f(xs[i]).Err? && forall j :: 0 <= j < i ==> f(xs[j]).Ok?
  }

  /** `xs.map(f)` where `f` may throw: the first failure is the result. */
  function MapAll<A, B>(xs: seq<A>, f: A -> Result<B, string>): (r: Result<seq<B>, string>)
    ensures r.Err? <==> exists i :: 0 <= i < |xs| && f(xs[i]).Err?
    ensures r.Err? ==> exists i :: FirstFailure(xs, f, i) && f(xs[i]) == Err(r.error)
    ensures r.Ok? ==> (|r.value| == |xs| && forall i :: 0 <= i < |xs| ==> f(xs[i]) == Ok(r.value[i]))
  {
    if |xs| == 0 then Ok([])
    else
      assert forall i :: 0 <= i < |xs[1..]| ==> xs[1..][i] == xs[i + 1];
      match f(xs[0])
      case Err(e) =>
        assert FirstFailure(xs, f, 0);
        Err(e)
      case Ok(y) =>
        match MapAll(xs[1..], f)
        case Err(e) =>
          assert exists i :: FirstFailure(xs, f, i) && f(xs[i]) == Err(e) by {
            var i :| FirstFailure(xs[1..], f, i) && f(xs[1..][i]) == Err(e);
            assert FirstFailure(xs, f, i + 1);
          }
          Err(e)
        case Ok(ys) =>
          assert forall i :: 1 <= i < |xs| ==> xs[i] == xs[1..][i - 1];
          Ok([y] + ys)
  }

  /** The `map` over the data rows: it throws at the first row whose date cannot be read, even
      a row the filter would drop. */
  function BuildRows(rows: seq<seq<string>>, cols: Columns, now: string, isoDate: string -> Option<string>)
    : (r: Result<seq<CertUpsert>, string>)
    ensures r.Err? <==> exists i :: 0 <= i < |rows| && DateUnreadable(rows[i], cols, isoDate)
    ensures r.Err? ==> r.error == InvalidTimeValue
    ensures r.Ok? ==> (|r.value| == |rows| &&
      forall i :: 0 <= i < |rows| ==> BuildRow(rows[i], cols, now, isoDate) == Ok(r.value[i]))
  {
    MapAll(rows, row => BuildRow(row, cols, now, isoDate))
  }

  /** The `filter`: a row is kept when its name is neither empty nor "Unknown". */
  predicate Named(c: CertUpsert) {
    c.certification_name != "" && c.certification_name != "Unknown"
  }

  function KeepNamed(cs: seq<CertUpsert>): (r: seq<CertUpsert>)
    ensures IsSubsequence(r, cs)
    ensures forall c :: c in r <==> c in cs && Named(c)
  {
    FilterSubsequence(cs, Named);
    Filter(cs, Named)
  }

  /** The filter keeps every copy of a named record: two identical sheet rows are both
      written. */
  lemma KeepNamedKeepsEveryCopy(cs: seq<CertUpsert>)
    ensures forall c :: multiset(KeepNamed(cs))[c] == if Named(c) then multiset(cs)[c] else 0
  {
    FilterMultiset(cs, Named);
  }

  /** From the sheet's rows to the records to write: at least a header and one data row, a
      name column, then the map and the filter. */
  function PrepareRows(values: seq<seq<string>>, now: string, isoDate: string -> Option<string>)
    : (r: Result<seq<CertUpsert>, string>)
    ensures |values| < 2 ==> r == Err(NoDataMessage)
    ensures |values| >= 2 && GetIndex(NormalizeHeaders(values[0]), NameKeys) == -1 ==> r == Err(NoNameColumn)
    ensures |values| >= 2 && GetIndex(NormalizeHeaders(values[0]), NameKeys) != -1 ==>
      var built := BuildRows(values[1..], ColumnsOf(NormalizeHeaders(values[0])), now, isoDate);
      r == (if built.Err? then Err(InvalidTimeValue) else Ok(KeepNamed(built.value)))
    ensures r.Ok? ==> forall c :: c in r.value ==> Named(c)
    ensures r.Ok? ==> (|values| >= 2 &&
      var built := BuildRows(values[1..], ColumnsOf(NormalizeHeaders(values[0])), now, isoDate);
      built.Ok? && IsSubsequence(r.value, built.value)
      && forall c :: c in built.value && Named(c) ==> c in r.value)
  {
    if |values| < 2 then Err(NoDataMessage)
    else
      var cols := ColumnsOf(NormalizeHeaders(values[0]));
      if cols.name == -1 then Err(NoNameColumn)
      else
        match BuildRows(values[1..], cols, now, isoDate)
        case Err(e) => Err(e)
        case Ok(cs) => Ok(KeepNamed(cs))
  }

  /** A row whose name cell is empty or holds only spaces is not written. */
  lemma BlankNameDropped(row: seq<string>, cols: Columns, now: string, isoDate: string -> Option<string>)
    requires BuildRow(row, cols, now, isoDate).Ok?
    requires 0 <= cols.name < |row| ==> IsBlank(row[cols.name])
    ensures !Named(BuildRow(row, cols, now, isoDate).value)
  {
    if 0 <= cols.name < |row| {
      assert forall k :: 0 <= k < |row[cols.name]| ==> IsJsSpace(row[cols.name][k]);
    }
  }

  // ---------------------------------------------------------------------------
  // The requests

  datatype MetaResponse = MetaResponse(status: int, text: string, sheets: seq<SheetProperties>)
  datatype ValuesResponse = ValuesResponse(status: int, text: string, body: ErrorBody,
                                           values: Option<seq<seq<string>>>)

  function MetaUrl(id: string): string {
    SheetsApi + id + "?fields=sheets.properties"
  }

  function ValuesUrl(id: string, range: string): string {
    SheetsApi + id + "/values/" + range
  }

  /** What the `try` block does before the writes: which URLs it fetches, and either the
      records to write or the message of the error it throws. */
  datatype Plan = Plan(fetched: seq<string>, outcome: Result<seq<CertUpsert>, string>)

  function PlanSync(id: string, tab: string, token: Option<string>, meta: MetaResponse,
                    values: string -> ValuesResponse, now: string, isoDate: string -> Option<string>)
    : (p: Plan)
    ensures token.None? || token == Some("") ==> p == Plan([], Err(NoTokenMessage))
    ensures token.Some? && token.value != "" ==> p.fetched != []
    ensures token.Some? && token.value != "" && tab == "" ==> p.fetched == [ValuesUrl(id, DefaultRange)]
    ensures token.Some? && token.value != "" && tab != "" ==> p.fetched[0] == MetaUrl(id)
    ensures token.Some? && token.value != "" && tab != "" && !IsOk(meta.status) ==>
      p == Plan([MetaUrl(id)], Err(MetaError(meta.status, meta.text)))
    ensures token.Some? && token.value != "" && tab != "" && IsOk(meta.status) ==>
      p.fetched == [MetaUrl(id), ValuesUrl(id, TabRange(tab, meta.sheets))]
    ensures p.outcome.Ok? ==> |p.fetched| >= 1 && forall c :: c in p.outcome.value ==> Named(c)
    ensures token.Some? && token.value != "" && (tab == "" || IsOk(meta.status)) ==>
      var resp := values(if tab == "" then DefaultRange else TabRange(tab, meta.sheets));
      && (!IsOk(resp.status) ==> p.outcome == Err(ValuesError(resp.status, resp.text, resp.body)))
      && (IsOk(resp.status) && resp.values.None? ==> p.outcome == Err(NoDataMessage))
      && (IsOk(resp.status) && resp.values.Some? ==> p.outcome == PrepareRows(resp.values.value, now, isoDate))
  {
    if token.None? || token == Some("") then Plan([], Err(NoTokenMessage))
    else if tab != "" && !IsOk(meta.status) then Plan([MetaUrl(id)], Err(MetaError(meta.status, meta.text)))
    else
      var range := if tab == "" then DefaultRange else TabRange(tab, meta.sheets);
      var fetched := (if tab == "" then [] else [MetaUrl(id)]) + [ValuesUrl(id, range)];
      var resp := values(range);
      if !IsOk(resp.status) then Plan(fetched, Err(ValuesError(resp.status, resp.text, resp.body)))
      else if resp.values.None? then Plan(fetched, Err(NoDataMessage))
      else Plan(fetched, PrepareRows(resp.values.value, now, isoDate))
  }

  /** A sheet with only a header row, or none, fails with the no-data message before
      anything is written, whichever range was read. */
  lemma ShortSheetIsNoData(id: string, tab: string, token: Option<string>, meta: MetaResponse,
                           values: string -> ValuesResponse, now: string, isoDate: string -> Option<string>)
    requires token.Some? && token.value != "" && (tab == "" || IsOk(meta.status))
    requires var resp := values(if tab == "" then DefaultRange else TabRange(tab, meta.sheets));
      IsOk(resp.status) && (resp.values.None? || |resp.values.value| < 2)
    ensures PlanSync(id, tab, token, meta, values, now, isoDate).outcome == Err(NoDataMessage)
  {
  }

  // ---------------------------------------------------------------------------
  // Writing the table

  /** A row of `certifications`: its id and the written columns. */
  datatype StoredCert = StoredCert(id: string, cert: CertUpsert)

  /** The positions of the rows named `name`, in increasing order. */
  function NamedIndices(t: seq<StoredCert>, name: string): (r: seq<int>)
    ensures forall i :: 0 <= i < |r| ==> 0 <= r[i] < |t| && t[r[i]].cert.certification_name == name
    ensures forall k :: 0 <= k < |t| && t[k].cert.certification_name == name ==> k in r
    ensures forall i, j :: 0 <= i < j < |r| ==> r[i] < r[j]
  {
    if |t| == 0 then []
    else
      var rest := NamedIndices(t[..|t| - 1], name);
      if t[|t| - 1].cert.certification_name == name then rest + [|t| - 1] else rest
  }

  /** One iteration of the loop: `maybeSingle()` yields the row only when exactly one has the
      name, which is then updated; otherwise (none, or several) a new row is inserted. A failed
      write changes nothing. */
  function UpsertOne(t: seq<StoredCert>, c: CertUpsert, freshId: string, fails: bool): (r: seq<StoredCert>)
    ensures fails ==> r == t
    ensures !fails ==> forall k :: OnlyRowNamed(t, c.certification_name, k) ==> r == t[k := StoredCert(t[k].id, c)]
    ensures !fails && (forall k :: !OnlyRowNamed(t, c.certification_name, k)) ==> r == t + [StoredCert(freshId, c)]
    ensures |t| <= |r| <= |t| + 1 && forall k :: 0 <= k < |t| ==> r[k].id == t[k].id
  {
    if fails then t
    else
      var m := NamedIndices(t, c.certification_name);
      NamedIndicesSingle(t, c.certification_name);
      if |m| == 1 then t[m[0] := StoredCert(t[m[0]].id, c)]
      else t + [StoredCert(freshId, c)]
  }

  /** Row `k` is the one row of `t` named `name`. */
  predicate OnlyRowNamed(t: seq<StoredCert>, name: string, k: int) {
    0 <= k < |t| && t[k].cert.certification_name == name
    && forall j :: 0 <= j < |t| && j != k ==> t[j].cert.certification_name != name
  }

  /** The lookup by name has one hit exactly when one row has the name. */
  lemma NamedIndicesSingle(t: seq<StoredCert>, name: string)
    ensures |NamedIndices(t, name)| == 1 ==> OnlyRowNamed(t, name, NamedIndices(t, name)[0])
    ensures forall k :: OnlyRowNamed(t, name, k) ==> NamedIndices(t, name) == [k]
  {
    var m := NamedIndices(t, name);
    forall k | OnlyRowNamed(t, name, k) ensures m == [k] {
      NamedIndicesOnly(t, name, k);
    }
  }

  lemma {:induction false} NamedIndicesOnly(t: seq<StoredCert>, name: string, k: int)
    requires OnlyRowNamed(t, name, k)
    ensures NamedIndices(t, name) == [k]
  {
    var last := |t| - 1;
    var p := t[..last];
    assert forall j :: 0 <= j < last ==> p[j] == t[j];
    if k == last {
      NamedIndicesNone(p, name);
    } else {
      NamedIndicesOnly(p, name, k);
    }
  }

  /** The whole loop over the prepared records, in order: no row is ever deleted, and every
      row keeps its id. */
  function UpsertAll(t: seq<StoredCert>, cs: seq<CertUpsert>, freshId: nat -> string, fails: nat -> bool)
    : (r: seq<StoredCert>)
    ensures |t| <= |r| <= |t| + |cs|
    ensures forall k :: 0 <= k < |t| ==> r[k].id == t[k].id
    decreases |cs|
  {
    if |cs| == 0 then t
    else
      var n := |cs| - 1;
      UpsertOne(UpsertAll(t, cs[..n], freshId, fails), cs[n], freshId(n), fails(n))
  }

  predicate NamesUnique(t: seq<StoredCert>) {
    forall i, j :: 0 <= i < j < |t| ==> t[i].cert.certification_name != t[j].cert.certification_name
  }

  /** On a table with one row per name, a successful write leaves one row per name, stores the
      record, and leaves the rows of other names where they were. */
  lemma UpsertOneKeepsNamesUnique(t: seq<StoredCert>, c: CertUpsert, freshId: string)
    requires NamesUnique(t)
    ensures var r := UpsertOne(t, c, freshId, false);
      && NamesUnique(r) && |t| <= |r|
      && (exists k :: 0 <= k < |r| && r[k].cert == c)
      && forall k :: 0 <= k < |t| && t[k].cert.certification_name != c.certification_name ==> r[k] == t[k]
  {
    var name := c.certification_name;
    var r := UpsertOne(t, c, freshId, false);
    if k :| 0 <= k < |t| && t[k].cert.certification_name == name {
      NamedIndicesOne(t, name, k);
      assert r[k].cert == c;
    } else {
      NamedIndicesNone(t, name);
      assert r[|t|].cert == c;
    }
  }

  lemma {:induction false} NamedIndicesNone(t: seq<StoredCert>, name: string)
    requires forall k :: 0 <= k < |t| ==> t[k].cert.certification_name != name
    ensures NamedIndices(t, name) == []
  {
    if |t| > 0 {
      NamedIndicesNone(t[..|t| - 1], name);
    }
  }

  /** With one row per name, the lookup by name finds exactly the row of that name. */
  lemma {:induction false} NamedIndicesOne(t: seq<StoredCert>, name: string, k: int)
    requires NamesUnique(t) && 0 <= k < |t| && t[k].cert.certification_name == name
    ensures NamedIndices(t, name) == [k]
  {
    var last := |t| - 1;
    var p := t[..last];
    if k == last {
      assert forall j :: 0 <= j < last ==> p[j] == t[j];
      NamedIndicesNone(p, name);
    } else {
      assert forall j :: 0 <= j < last ==> p[j] == t[j];
      NamedIndicesOne(p, name, k);
    }
  }

  /** The table holds the record `cs[i]` was written with when no later record has its name. */
  predicate LastOfName(cs: seq<CertUpsert>, i: int)
    requires 0 <= i < |cs|
  {
    forall j :: i < j < |cs| ==> cs[j].certification_name != cs[i].certification_name
  }

  /** `r` holds the last record of every name in `cs`. */
  predicate HoldsLastOfEachName(r: seq<StoredCert>, cs: seq<CertUpsert>) {
    forall i :: 0 <= i < |cs| && LastOfName(cs, i) ==> exists k :: 0 <= k < |r| && r[k].cert == cs[i]
  }

  /** No record of `cs` has the name. */
  predicate NotInSheet(cs: seq<CertUpsert>, name: string) {
    forall i :: 0 <= i < |cs| ==> cs[i].certification_name != name
  }

  /** The rows of `t` whose name is not in `cs` are where they were in `r`. */
  predicate OthersUntouched(t: seq<StoredCert>, r: seq<StoredCert>, cs: seq<CertUpsert>) {
    |t| <= |r| && forall k :: 0 <= k < |t| && NotInSheet(cs, t[k].cert.certification_name) ==> r[k] == t[k]
  }

  /** A later record with a name overwrites an earlier one: after the loop, with no write
      failing, a table with one row per name still has one row per name, holding the last
      record of each name, and rows of names not in the sheet are untouched. */
  lemma {:induction false} LastWriteWins(t: seq<StoredCert>, cs: seq<CertUpsert>, freshId: nat -> string,
                                         fails: nat -> bool)
    requires NamesUnique(t)
    requires forall i :: !fails(i)
    ensures var r := UpsertAll(t, cs, freshId, fails);
      NamesUnique(r) && HoldsLastOfEachName(r, cs) && OthersUntouched(t, r, cs)
    decreases |cs|
  {
    if |cs| > 0 {
      var n := |cs| - 1;
      var prefix := cs[..n];
      LastWriteWins(t, prefix, freshId, fails);
      var before := UpsertAll(t, prefix, freshId, fails);
      assert UpsertAll(t, cs, freshId, fails) == UpsertOne(before, cs[n], freshId(n), false) by {
        assert !fails(n);
      }
      LastStep(t, before, cs, freshId(n));
    }
  }

  /** One more write keeps the three facts. */
  lemma LastStep(t: seq<StoredCert>, before: seq<StoredCert>, cs: seq<CertUpsert>, id: string)
    requires |cs| > 0 && NamesUnique(before)
    requires HoldsLastOfEachName(before, cs[..|cs| - 1]) && OthersUntouched(t, before, cs[..|cs| - 1])
    ensures var r := UpsertOne(before, cs[|cs| - 1], id, false);
      NamesUnique(r) && HoldsLastOfEachName(r, cs) && OthersUntouched(t, r, cs)
  {
    UpsertOneKeepsNamesUnique(before, cs[|cs| - 1], id);
    LastStepHoldsLast(before, cs, id);
    LastStepUntouched(t, before, cs, id);
  }

  lemma LastStepHoldsLast(before: seq<StoredCert>, cs: seq<CertUpsert>, id: string)
    requires |cs| > 0 && NamesUnique(before) && HoldsLastOfEachName(before, cs[..|cs| - 1])
    ensures HoldsLastOfEachName(UpsertOne(before, cs[|cs| - 1], id, false), cs)
  {
    var n := |cs| - 1;
    var prefix := cs[..n];
    var r := UpsertOne(before, cs[n], id, false);
    UpsertOneKeepsNamesUnique(before, cs[n], id);
    forall i | 0 <= i < |cs| && LastOfName(cs, i)
      ensures exists k :: 0 <= k < |r| && r[k].cert == cs[i]
    {
      if i < n {
        assert prefix[i] == cs[i];
        assert LastOfName(prefix, i);
        var k :| 0 <= k < |before| && before[k].cert == cs[i];
        assert r[k] == before[k];
      }
    }
  }

  lemma LastStepUntouched(t: seq<StoredCert>, before: seq<StoredCert>, cs: seq<CertUpsert>, id: string)
    requires |cs| > 0 && NamesUnique(before) && OthersUntouched(t, before, cs[..|cs| - 1])
    ensures OthersUntouched(t, UpsertOne(before, cs[|cs| - 1], id, false), cs)
  {
    var n := |cs| - 1;
    UpsertOneKeepsNamesUnique(before, cs[n], id);
    forall k | 0 <= k < |t| && NotInSheet(cs, t[k].cert.certification_name)
      ensures NotInSheet(cs[..n], t[k].cert.certification_name)
    {
      assert forall i :: 0 <= i < n ==> cs[..n][i] == cs[i];
    }
  }

  /** When the table already holds several rows of a name, `maybeSingle()` finds none and the
      record is inserted as yet another row. */
  lemma DuplicatesGrow(t: seq<StoredCert>, c: CertUpsert, freshId: string, i: int, j: int)
    requires 0 <= i < j < |t|
    requires t[i].cert.certification_name == c.certification_name == t[j].cert.certification_name
    ensures UpsertOne(t, c, freshId, false) == t + [StoredCert(freshId, c)]
  {
    var m := NamedIndices(t, c.certification_name);
    assert i in m && j in m;
  }

  /** A failed write is skipped and the loop goes on. */
  lemma {:induction false} FailuresAreSkipped(t: seq<StoredCert>, cs: seq<CertUpsert>, freshId: nat -> string,
                                              fails: nat -> bool)
    requires forall i :: fails(i)
    ensures UpsertAll(t, cs, freshId, fails) == t
    decreases |cs|
  {
    if |cs| > 0 {
      FailuresAreSkipped(t, cs[..|cs| - 1], freshId, fails);
    }
  }

  // ---------------------------------------------------------------------------
  // The page

  datatype Toast = Success(message: string) | Failure(message: string)

  /** The admin page's state: the two settings inputs, the busy flag, the `admin_settings`
      and `certifications` tables, and the log of Sheets API requests. */
  class AdminDashboard {
    var sheetId: string
    var sheetName: string
    var syncing: bool
    var settings: map<string, string>
    var certifications: seq<StoredCert>
    var requests: seq<string>

    constructor (settings: map<string, string>, certifications: seq<StoredCert>)
      ensures sheetId == "" && sheetName == "" && !syncing && requests == []
      ensures this.settings == settings && this.certifications == certifications
    {
      sheetId := "";
      sheetName := "";
      syncing := false;
      this.settings := settings;
      this.certifications := certifications;
      requests := [];
    }

    /** `handleSync`. */
    method HandleSync(token: Option<string>, meta: MetaResponse, values: string -> ValuesResponse,
                      now: string, isoDate: string -> Option<string>,
                      freshId: nat -> string, writeFails: nat -> bool)
      returns (toast: Toast)
      modifies this
      ensures sheetId == old(sheetId) && sheetName == old(sheetName)
      ensures Trim(sheetId) == "" ==>
        toast == Failure(EnterSheetId) && syncing == old(syncing) && settings == old(settings)
        && certifications == old(certifications) && requests == old(requests)
      ensures Trim(sheetId) != "" ==>
        var plan := PlanSync(Trim(sheetId), Trim(sheetName), token, meta, values, now, isoDate);
        && !syncing
        && settings == old(settings)[SheetIdSetting := Trim(sheetId)][SheetTabSetting := Trim(sheetName)]
        && requests == old(requests) + plan.fetched
        && (plan.outcome.Err? ==>
              certifications == old(certifications) && toast == Failure(FailureToast(plan.outcome.error)))
        && (plan.outcome.Ok? ==>
              certifications == UpsertAll(old(certifications), plan.outcome.value, freshId, writeFails)
              && toast == Success("Success! Synced " + NatToString(|plan.outcome.value|) + " certifications."))
    {
      var cleanId := Trim(sheetId);
      var cleanTab := Trim(sheetName);
      if cleanId == "" {
        toast := Failure(EnterSheetId);
        return;
      }
      toast := SyncTrimmed(cleanId, cleanTab, token, meta, values, now, isoDate, freshId, writeFails);
    }

    /** `handleSync` past the empty-id guard: save both settings, then run the plan for the
        trimmed id and tab with the spinner on. */
    method SyncTrimmed(cleanId: string, cleanTab: string, token: Option<string>, meta: MetaResponse,
                       values: string -> ValuesResponse, now: string, isoDate: string -> Option<string>,
                       freshId: nat -> string, writeFails: nat -> bool)
      returns (toast: Toast)
      modifies this
      ensures sheetId == old(sheetId) && sheetName == old(sheetName)
      ensures
        var plan := PlanSync(cleanId, cleanTab, token, meta, values, now, isoDate);
        && !syncing
        && settings == old(settings)[SheetIdSetting := cleanId][SheetTabSetting := cleanTab]
        && requests == old(requests) + plan.fetched
        && (plan.outcome.Err? ==>
              certifications == old(certifications) && toast == Failure(FailureToast(plan.outcome.error)))
        && (plan.outcome.Ok? ==>
              certifications == UpsertAll(old(certifications), plan.outcome.value, freshId, writeFails)
              && toast == Success("Success! Synced " + NatToString(|plan.outcome.value|) + " certifications."))
    {
      syncing := true;
      settings := settings[SheetIdSetting := cleanId][SheetTabSetting := cleanTab];
      var plan := PlanSync(cleanId, cleanTab, token, meta, values, now, isoDate);
      toast := RunPlan(plan, freshId, writeFails);
      syncing := false;
    }

    /** The `try` block once the requests are decided: log them, then either report the error
        thrown or write the records and report how many were prepared. */
    method RunPlan(plan: Plan, freshId: nat -> string, writeFails: nat -> bool) returns (toast: Toast)
      modifies this
      ensures requests == old(requests) + plan.fetched
      ensures plan.outcome.Err? ==>
        certifications == old(certifications) && toast == Failure(FailureToast(plan.outcome.error))
      ensures plan.outcome.Ok? ==>
        certifications == UpsertAll(old(certifications), plan.outcome.value, freshId, writeFails)
        && toast == Success("Success! Synced " + NatToString(|plan.outcome.value|) + " certifications.")
      ensures sheetId == old(sheetId) && sheetName == old(sheetName) && syncing == old(syncing)
      ensures settings == old(settings)
    {
      requests := requests + plan.fetched;
      if plan.outcome.Err? {
        toast := Failure(FailureToast(plan.outcome.error));
      } else {
        var certs := plan.outcome.value;
        WriteAll(certs, freshId, writeFails);
        toast := Success("Success! Synced " + NatToString(|certs|) + " certifications.");
      }
    }

    /** The `for` loop of `handleSync`: each record is looked up by exact name and updated or
        inserted; a failed write is swallowed. */
    method WriteAll(certs: seq<CertUpsert>, freshId: nat -> string, writeFails: nat -> bool)
      modifies this
      ensures certifications == UpsertAll(old(certifications), certs, freshId, writeFails)
      ensures sheetId == old(sheetId) && sheetName == old(sheetName) && syncing == old(syncing)
      ensures settings == old(settings) && requests == old(requests)
    {
      for i := 0 to |certs|
        invariant certifications == UpsertAll(old(certifications), certs[..i], freshId, writeFails)
        invariant sheetId == old(sheetId) && sheetName == old(sheetName) && syncing == old(syncing)
        invariant settings == old(settings) && requests == old(requests)
      {
        assert certs[..i + 1][..i] == certs[..i];
        var cert := certs[i];
        if !writeFails(i) {
          var existing := NamedIndices(certifications, cert.certification_name);
          if |existing| == 1 {
            var k := existing[0];
            certifications := certifications[k := StoredCert(certifications[k].id, cert)];
          } else {
            certifications := certifications + [StoredCert(freshId(i), cert)];
          }
        }
      }
      assert certs[..|certs|] == certs;
    }
  }
}
