/** The keep-alive monitor (scripts/monitor.js): it reads the `keep_alive` table and fails
    when the last recorded ping is more than 48 hours old. The process is modelled by its
    request, its exit code and the status line it prints. Decoding the body's bytes, JSON
    parsing, date parsing and the clock are inputs. */
module Monitor {
  import opened Wrappers
  import opened SupabaseEndpoint

  const PingPath: string := "/rest/v1/keep_alive?select=*"

  /** 48 hours, in minutes. */
  const OverdueMinutes: int := 2880

  const MsPerMinute: int := 60000

  const OverdueStatus: string := "OVERDUE (>48h)"
  const OkStatus: string := "OK"

  /** A row's `last_ping` as `JSON.parse` gives it: no such key, JSON `null` (what a NULL
      column arrives as), or a text. */
  datatype PingValue = Absent | Null | Text(text: string)

  /** The first row's `last_ping`. */
  datatype PingRow = PingRow(lastPing: PingValue)

  /** A byte of the response body. */
  newtype byte = x: int | 0 <= x < 256

  /** `JSON.parse(data)` on the body: a list of rows, or a parse error. */
  datatype Body = Unparsable | Rows(rows: seq<PingRow>)

  /** The answer: a status code and the body's chunks (`Buffer`s) as they arrived, or a
      request error. */
  datatype Reply = Response(statusCode: int, chunks: seq<seq<byte>>) | RequestError(message: string)

  /** The request made, the exit code and the printed status, if any. */
  datatype Report = Report(request: Option<Request>, exitCode: int, status: Option<string>)

  // ---------------------------------------------------------------------------
  // The response body

  /** `data += chunk` for every chunk in arrival order: each chunk is decoded on its own
      (`decode` is `Buffer.prototype.toString`) and the texts are joined. */
  function Concat(chunks: seq<seq<byte>>, decode: seq<byte> -> string): (r: string)
    ensures |chunks| == 0 ==> r == ""
    ensures |chunks| > 0 ==> decode(chunks[0]) <= r
    ensures |chunks| > 0 ==> var last := decode(chunks[|chunks| - 1]); |last| <= |r| && r[|r| - |last|..] == last
  {
    if |chunks| == 0 then ""
    else
      var front := chunks[..|chunks| - 1];
      var last := decode(chunks[|chunks| - 1]);
      var r := Concat(front, decode) + last;
      assert r[|r| - |last|..] == last;
      if |front| > 0 then
        assert front[0] == chunks[0];
        r
      else
        r
  }

  /** Concatenating two runs of chunks concatenates their texts. */
  lemma {:induction false} ConcatAppend(a: seq<seq<byte>>, b: seq<seq<byte>>, decode: seq<byte> -> string)
    ensures Concat(a + b, decode) == Concat(a, decode) + Concat(b, decode)
    decreases |b|
  {
    if |b| == 0 {
      assert a + b == a;
    } else {
      var b', ab := b[..|b| - 1], a + b;
      assert ab[..|ab| - 1] == a + b';
      assert ab[|ab| - 1] == b[|b| - 1];
      ConcatLast(ab, a + b', b[|b| - 1], decode);
      ConcatLast(b, b', b[|b| - 1], decode);
      ConcatAppend(a, b', decode);
      AppendAssoc(Concat(a, decode), Concat(b', decode), decode(b[|b| - 1]));
    }
  }

  lemma AppendAssoc(x: string, y: string, z: string)
    ensures (x + y) + z == x + (y + z)
  {
  }

  lemma ConcatLast(chunks: seq<seq<byte>>, front: seq<seq<byte>>, last: seq<byte>, decode: seq<byte> -> string)
    requires |chunks| > 0 && chunks[..|chunks| - 1] == front && chunks[|chunks| - 1] == last
    ensures Concat(chunks, decode) == Concat(front, decode) + decode(last)
  {
  }

  /** A chunk split in two where the split does not cut a character (the two halves decode
      to the two halves of the text) gives the same data. */
  lemma ChunkBoundariesIrrelevant(a: seq<seq<byte>>, x: seq<byte>, y: seq<byte>, b: seq<seq<byte>>,
                                  decode: seq<byte> -> string)
    requires decode(x + y) == decode(x) + decode(y)
    ensures Concat(a + [x + y] + b, decode) == Concat(a + [x, y] + b, decode)
  {
    var joined, apart := a + [x + y], a + [x, y];
    ConcatAppend(joined, b, decode);
    ConcatAppend(apart, b, decode);
    ConcatAppend(a, [x + y], decode);
    ConcatAppend(a, [x, y], decode);
    ConcatPair(x, y, decode);
  }

  /** One chunk `x + y` and the two chunks `x`, `y`, each decoded. */
  lemma ConcatPair(x: seq<byte>, y: seq<byte>, decode: seq<byte> -> string)
    ensures Concat([x + y], decode) == decode(x + y) && Concat([x, y], decode) == decode(x) + decode(y)
  {
    assert [x, y][..1] == [x];
    assert [x][..0] == [];
    assert [x + y][..0] == [];
  }

  /** `let data = ''; res.on('data', chunk => data += chunk)`. */
  method AccumulateBody(chunks: seq<seq<byte>>, decode: seq<byte> -> string) returns (data: string)
    ensures data == Concat(chunks, decode)
  {
    data := "";
    var i := 0;
    while i < |chunks|
      invariant 0 <= i <= |chunks|
      invariant data == Concat(chunks[..i], decode)
    {
      assert chunks[..i + 1][..i] == chunks[..i];
      data := data + decode(chunks[i]);
      i := i + 1;
    }
    assert chunks[..i] == chunks;
  }

  // ---------------------------------------------------------------------------
  // The decisions

  /** `Math.floor((now - lastPing) / 60000)`. */
  function MinutesAgo(now: int, lastPing: int): (m: int)
    ensures m * MsPerMinute <= now - lastPing < (m + 1) * MsPerMinute
  {
    (now - lastPing) / MsPerMinute
  }

  /** `new Date(last_ping).getTime()`: a missing key is `new Date(undefined)`, an invalid
      date (`None`); JSON `null` is `new Date(null)`, the epoch; a text is parsed. */
  function PingTime(p: PingValue, parseDate: string -> Option<int>): (t: Option<int>)
    ensures p.Absent? ==> t.None?
    ensures p.Null? ==> t == Some(0)
    ensures p.Text? ==> t == parseDate(p.text)
  {
    match p
    case Absent => None
    case Null => Some(0)
    case Text(s) => parseDate(s)
  }

  /** The `end` handler, on the whole body. An invalid date gives `NaN` minutes, and
      `NaN > 2880` is false: such a row reports OK. */
  function Decide(statusCode: int, data: string, parse: string -> Body,
                  parseDate: string -> Option<int>, now: int): (r: (int, Option<string>))
    ensures r.0 == 0 || r.0 == 1
    ensures statusCode != 200 ==> r == (1, None)
    ensures statusCode == 200 && (parse(data).Unparsable? || |parse(data).rows| == 0) ==> r == (1, None)
    ensures r.0 == 0 <==> r.1 == Some(OkStatus)
    ensures r.0 == 1 && r.1.Some? <==> r.1 == Some(OverdueStatus)
  {
    if statusCode != 200 then (1, None)
    else
      match parse(data)
      case Unparsable => (1, None)
      case Rows(rows) =>
        if |rows| == 0 then (1, None)
        else
          var at := PingTime(rows[0].lastPing, parseDate);
          if at.Some? && MinutesAgo(now, at.value) > OverdueMinutes then (1, Some(OverdueStatus))
          else (0, Some(OkStatus))
  }

  /** The whole script. */
  function Monitor(url: Option<string>, key: Option<string>, reply: Reply, decode: seq<byte> -> string,
                   parse: string -> Body, parseDate: string -> Option<int>, now: int): (r: Report)
    ensures r.request.None? <==> !Configured(url, key)
    ensures r.request.Some? ==> r.request.value == GetRequest(url.value, key.value, PingPath)
    ensures !Configured(url, key) || reply.RequestError? ==> r.exitCode == 1 && r.status.None?
    ensures Configured(url, key) && reply.Response? ==>
      (r.exitCode, r.status) == Decide(reply.statusCode, Concat(reply.chunks, decode), parse, parseDate, now)
  {
    if !Configured(url, key) then Report(None, 1, None)
    else
      var req := Some(GetRequest(url.value, key.value, PingPath));
      match reply
      case RequestError(_) => Report(req, 1, None)
      case Response(code, chunks) =>
        var d := Decide(code, Concat(chunks, decode), parse, parseDate, now);
        Report(req, d.0, d.1)
  }

  /** A ping read as a date is overdue exactly when it is at least 48 hours and one minute
      old: minutes are rounded down before the comparison. */
  lemma OverdueIffOlderThanThreshold(data: string, parse: string -> Body, parseDate: string -> Option<int>,
                                     now: int, stamp: string, at: int)
    requires parse(data).Rows? && |parse(data).rows| > 0 && parse(data).rows[0].lastPing == Text(stamp)
    requires parseDate(stamp) == Some(at)
    ensures Decide(200, data, parse, parseDate, now).0 == 1 <==> now - at >= (OverdueMinutes + 1) * MsPerMinute
    ensures Decide(200, data, parse, parseDate, now).1 == Some(OverdueStatus) <==>
      now - at >= (OverdueMinutes + 1) * MsPerMinute
  {
    var m := MinutesAgo(now, at);
    if m > OverdueMinutes {
      assert (OverdueMinutes + 1) * MsPerMinute <= m * MsPerMinute;
    } else {
      assert (m + 1) * MsPerMinute <= (OverdueMinutes + 1) * MsPerMinute;
    }
  }

  /** A first row without a `last_ping` key, or with a text that does not read as a date,
      passes as OK. */
  lemma UnreadablePingIsOk(data: string, parse: string -> Body, parseDate: string -> Option<int>, now: int)
    requires parse(data).Rows? && |parse(data).rows| > 0
    requires var p := parse(data).rows[0].lastPing; p.Absent? || (p.Text? && parseDate(p.text).None?)
    ensures Decide(200, data, parse, parseDate, now) == (0, Some(OkStatus))
  {
  }

  /** A `null` ping, which the REST API sends for a NULL column, counts from the epoch: from
      48 hours and one minute after it on, the run fails as OVERDUE. */
  lemma NullPingIsOverdue(data: string, parse: string -> Body, parseDate: string -> Option<int>, now: int)
    requires parse(data).Rows? && |parse(data).rows| > 0 && parse(data).rows[0].lastPing == Null
    requires now >= (OverdueMinutes + 1) * MsPerMinute
    ensures Decide(200, data, parse, parseDate, now) == (1, Some(OverdueStatus))
  {
    assert (OverdueMinutes + 1) * MsPerMinute <= now - 0;
    var m := MinutesAgo(now, 0);
    assert OverdueMinutes < m;
  }

  /** The script with the body read chunk by chunk, as the `data` handler does. */
  method RunMonitor(url: Option<string>, key: Option<string>, reply: Reply, decode: seq<byte> -> string,
                    parse: string -> Body, parseDate: string -> Option<int>, now: int) returns (r: Report)
    ensures r == Monitor(url, key, reply, decode, parse, parseDate, now)
  {
    if !Configured(url, key) {
      return Report(None, 1, None);
    }
    var req := Some(GetRequest(url.value, key.value, PingPath));
    if reply.RequestError? {
      return Report(req, 1, None);
    }
    var data := AccumulateBody(reply.chunks, decode);
    var d := Decide(reply.statusCode, data, parse, parseDate, now);
    r := Report(req, d.0, d.1);
  }
}
