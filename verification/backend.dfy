/** The Apps Script backend: a request dispatcher over two spreadsheet tabs,
    `CheckIns` (one row per saved location under a six-column header) and
    `Stats` (key/value rows holding the visit counter). Every action is a
    pure transition from the spreadsheet before the request to the
    spreadsheet after it, together with the response sent back. The
    spreadsheet API is the row-sequence model of module Sheets; the fresh id
    (`Utilities.getUuid`) and the clock (`new Date().toISOString()`) are
    the inputs in `Env`. */
module Backend {
  import opened Options
  import opened Sheets
  import opened Seqs
  import JsText

  const VisitKey: string := "visitCount"
  const CheckInsHeader: Row := [Text("id"), Text("locationName"), Text("latitude"), Text("longitude"), Text("timestamp"), Text("description")]
  const StatsHeader: Row := [Text("key"), Text("value")]
  const InitialVisitRow: Row := [Text(VisitKey), Number(0.0)]
  const UnknownAction: string := "Unknown action"

  /** The two tabs the backend uses; `None` is a tab that does not exist yet. */
  datatype Book = Book(checkIns: Option<Sheet>, stats: Option<Sheet>)

  predicate Ensured(b: Book) {
    b.checkIns.Some? && b.stats.Some?
  }

  /** `ensureSheets`: creates a missing tab with its header rows (and, for
      `Stats`, the counter row at 0); an existing tab is left as it is. */
  function EnsureSheets(b: Book): (r: Book)
    ensures Ensured(r)
    ensures b.checkIns.Some? ==> r.checkIns == b.checkIns
    ensures b.stats.Some? ==> r.stats == b.stats
    ensures b.checkIns.None? ==> r.checkIns == Some([CheckInsHeader])
    ensures b.stats.None? ==> r.stats == Some([StatsHeader, InitialVisitRow])
  {
    Book(
      if b.checkIns.Some? then b.checkIns else Some([CheckInsHeader]),
      if b.stats.Some? then b.stats else Some([StatsHeader, InitialVisitRow]))
  }

  /** A JSON value a request body field can hold. */
  datatype Scalar = JNull | JBool(b: bool) | JNum(n: real) | JStr(s: string)

  /** The result of `JSON.parse` on the body. A top-level value that is
      neither `null` nor an object has none of the fields read here, so it
      behaves as an empty object. */
  datatype Json = JsonNull | JsonObject(fields: map<string, Scalar>)

  /** `e.postData`: absent (a GET), not valid JSON, or parsed. */
  datatype PostBody = NoPostData | Unparsable(message: string) | Parsed(json: Json)

  /** A request: the `action` query parameter and the body. */
  datatype Request = Request(action: Option<string>, body: PostBody)

  /** The oracles a request consults: a fresh id and the current time. */
  datatype Env = Env(uuid: string, now: string)

  /** One check-in as sent back: the header cell and the value of each
      column, in column order (the object built by `row[headers[j]] = ...`). */
  type Record = seq<(Cell, Cell)>

  /** Whether property `name` of a JavaScript object is the one a header
      cell sets: the key is `String(header)`. A number never prints as a name
      starting with a lower-case letter, so it never matches one here. */
  predicate KeyMatches(header: Cell, name: string) {
    match header
    case Text(t) => t == name
    case Blank => name == ""
    case Bool(v) => name == (if v then "true" else "false")
    case Number(_) => false
  }

  /** `record[name]`: the value of the LAST column whose header is `name`,
      since each later assignment overwrites the earlier one; `None` is
      `undefined`. */
  function Lookup(rec: Record, name: string): (v: Option<Cell>)
    requires |name| > 0 && 'a' <= name[0] <= 'z'
    ensures v.None? <==> forall j :: 0 <= j < |rec| ==> !KeyMatches(rec[j].0, name)
  {
    if |rec| == 0 then None
    else if KeyMatches(rec[|rec| - 1].0, name) then Some(rec[|rec| - 1].1)
    else
      var v := Lookup(rec[..|rec| - 1], name);
      assert forall j :: 0 <= j < |rec| - 1 ==> rec[..|rec| - 1][j] == rec[j];
      v
  }

  datatype Payload =
    | Stats(visitCount: int, totalLocations: nat)
    | Visits(visitCount: int)
    | Saved(id: string, locationName: Option<Scalar>, latitude: Option<Scalar>,
            longitude: Option<Scalar>, timestamp: string, description: Scalar)
    | CheckIns(items: seq<Record>)

  datatype Response = Success(data: Payload) | Failure(error: string)

  /** The spreadsheet after a request and the response to it. */
  datatype Step = Step(book: Book, response: Response)

  /** The message of the `TypeError` V8 raises when reading property `prop`
      of `undefined` or `null`, as `err.toString()` renders it. */
  function ReadError(of: string, prop: string): string {
    "TypeError: Cannot read properties of " + of + " (reading '" + prop + "')"
  }

  /** JavaScript truthiness of an optional field; `None` is `undefined`. */
  predicate Truthy(v: Option<Scalar>) {
    match v
    case None => false
    case Some(JNull) => false
    case Some(JBool(b)) => b
    case Some(JNum(n)) => n != 0.0
    case Some(JStr(s)) => s != ""
  }

  function ToCell(v: Scalar): Cell {
    match v
    case JNull => Blank
    case JBool(b) => Bool(b)
    case JNum(n) => Number(n)
    case JStr(s) => Text(s)
  }

  /** `v || d` as stored in a cell. */
  function OrDefault(v: Option<Scalar>, d: Cell): (c: Cell)
    ensures Truthy(v) ==> c == ToCell(v.value)
    ensures !Truthy(v) ==> c == d
  {
    if Truthy(v) then ToCell(v.value) else d
  }

  /** The five falsy values JavaScript can meet here. */
  const Falsy: set<Option<Scalar>> := {None, Some(JNull), Some(JBool(false)), Some(JNum(0.0)), Some(JStr(""))}

  /** `v || d` falls back to `d` exactly for `undefined`, `null`, `false`, `0`
      and `''`, and keeps any other value. */
  lemma OrDefaultFallsBack(v: Option<Scalar>, d: Cell)
    ensures v in Falsy ==> OrDefault(v, d) == d
    ensures v !in Falsy ==> v.Some? && OrDefault(v, d) == ToCell(v.value)
  {
  }

  function Field(fields: map<string, Scalar>, name: string): Option<Scalar> {
    if name in fields then Some(fields[name]) else None
  }

  /** `Math.trunc`: the integer part, rounding toward zero. */
  function Trunc(r: real): int {
    if r >= 0.0 then r.Floor else -((-r).Floor)
  }

  /** `parseInt(cell) || 0`. `parseInt` reads `String(cell)`: a blank cell is
      the empty string and a boolean is `"true"` or `"false"`, neither of
      which holds a digit; a number is written in decimal, so its digit
      prefix is its integer part. */
  function CountValue(c: Cell): int {
    match c
    case Blank => JsText.ParseIntOrZero("")
    case Text(s) => JsText.ParseIntOrZero(s)
    case Number(r) => Trunc(r)
    case Bool(b) => JsText.ParseIntOrZero(if b then "true" else "false")
  }

  predicate IsVisitRow(row: Row) {
    CellAt(row, 0) == Text(VisitKey)
  }

  /** The loop of `getStats` from row `i` on, with `acc` the value found so
      far: every `visitCount` row overwrites it, so the last one wins. */
  function VisitScan(data: seq<Row>, i: nat, acc: int): int
    decreases |data| - i
  {
    if i >= |data| then acc
    else VisitScan(data, i + 1, if IsVisitRow(data[i]) then CountValue(CellAt(data[i], 1)) else acc)
  }

  /** The loop of `incrementVisitCount` from row `i` on: the first
      `visitCount` row. */
  function FirstVisitRow(data: seq<Row>, i: nat): (k: Option<nat>)
    ensures k.Some? ==> i <= k.value < |data| && IsVisitRow(data[k.value])
    ensures k.Some? ==> forall m :: i <= m < k.value ==> !IsVisitRow(data[m])
    ensures k.None? ==> forall m :: i <= m < |data| ==> !IsVisitRow(data[m])
    decreases |data| - i
  {
    if i >= |data| then None
    else if IsVisitRow(data[i]) then Some(i)
    else FirstVisitRow(data, i + 1)
  }

  /** `getStats`: the visit counter and the number of check-in rows below the
      header. Apart from creating missing tabs it changes nothing. */
  function GetStats(b: Book): (s: Step)
    ensures s.book == EnsureSheets(b)
    ensures s.response.Success? && s.response.data.Stats?
    ensures var rows := EnsureSheets(b).checkIns.value;
      s.response.data.totalLocations == if |rows| == 0 then 0 else |rows| - 1
  {
    var e := EnsureSheets(b);
    var visits := VisitScan(Values(e.stats.value), 1, 0);
    var last := |e.checkIns.value|;
    Step(e, Success(Stats(visits, if last - 1 > 0 then last - 1 else 0)))
  }

  /** `incrementVisitCount`: adds one to the first `visitCount` row below the
      header, or appends that row with 1 when there is none. */
  function IncrementVisitCount(b: Book): (s: Step)
    ensures s.book.checkIns == EnsureSheets(b).checkIns
    ensures s.book.stats.Some? && s.response.Success? && s.response.data.Visits?
  {
    var e := EnsureSheets(b);
    var stats := e.stats.value;
    var data := Values(stats);
    match FirstVisitRow(data, 1)
    case Some(k) =>
      var next := CountValue(CellAt(data[k], 1)) + 1;
      Step(e.(stats := Some(SetValue(stats, k, 1, Number(next as real)))), Success(Visits(next)))
    case None =>
      Step(e.(stats := Some(AppendRow(stats, [Text(VisitKey), Number(1.0)]))), Success(Visits(1)))
  }

  /** The row `saveCheckIn` appends: the fresh id, the four fields with their
      falsy values replaced by `''` or `0`, and the timestamp. */
  function CheckInRow(fields: map<string, Scalar>, env: Env): (row: Row)
    ensures |row| == |CheckInsHeader|
  {
    [ Text(env.uuid),
      OrDefault(Field(fields, "locationName"), Text("")),
      OrDefault(Field(fields, "latitude"), Number(0.0)),
      OrDefault(Field(fields, "longitude"), Number(0.0)),
      Text(env.now),
      OrDefault(Field(fields, "description"), Text("")) ]
  }

  /** `saveCheckIn`: appends exactly one row to `CheckIns`. The response
      echoes the raw name and coordinates (absent ones stay absent) but the
      defaulted description. A `null` body fails when its first field is
      read, after the tabs were created. */
  function SaveCheckIn(b: Book, data: Json, env: Env): (s: Step)
    ensures s.book.stats == EnsureSheets(b).stats
    ensures data.JsonNull? ==> s == Step(EnsureSheets(b), Failure(ReadError("null", "locationName")))
    ensures data.JsonObject? ==>
      var before := EnsureSheets(b).checkIns.value;
      && s.book.checkIns.Some?
      && |s.book.checkIns.value| == |before| + 1
      && s.book.checkIns.value[..|before|] == before
      && s.response == Success(Saved(env.uuid, Field(data.fields, "locationName"), Field(data.fields, "latitude"),
                                     Field(data.fields, "longitude"), env.now,
                                     if Truthy(Field(data.fields, "description")) then Field(data.fields, "description").value else JStr("")))
  {
    var e := EnsureSheets(b);
    match data
    case JsonNull => Step(e, Failure(ReadError("null", "locationName")))
    case JsonObject(f) =>
      var desc := Field(f, "description");
      var saved := Saved(env.uuid, Field(f, "locationName"), Field(f, "latitude"), Field(f, "longitude"),
                         env.now, if Truthy(desc) then desc.value else JStr(""));
      Step(e.(checkIns := Some(AppendRow(e.checkIns.value, CheckInRow(f, env)))), Success(saved))
  }

  /** Pairs each header cell with the cell below it in `row`. */
  function Zip(headers: Row, row: Row): (r: Record)
    requires |headers| == |row|
    ensures |r| == |headers|
    ensures forall j :: 0 <= j < |r| ==> r[j] == (headers[j], row[j])
  {
    seq(|headers|, j requires 0 <= j < |headers| => (headers[j], row[j]))
  }

  /** The objects `getCheckIns` builds, in sheet order: one per row below the
      header, keyed by the header row. */
  function SheetRecords(sh: Sheet): (recs: seq<Record>)
    ensures |recs| == |Values(sh)| - 1
    ensures forall k :: 0 <= k < |recs| ==> recs[k] == Zip(Values(sh)[0], Values(sh)[k + 1])
  {
    var data := Values(sh);
    seq(|data| - 1, k requires 0 <= k < |data| - 1 => Zip(data[0], data[k + 1]))
  }

  /** `getCheckIns`: every row below the header as an object, newest first. */
  function GetCheckIns(b: Book): (s: Step)
    ensures s.book == EnsureSheets(b)
    ensures s.response.Success? && s.response.data.CheckIns?
    ensures var rows := EnsureSheets(b).checkIns.value;
      |s.response.data.items| == if |rows| == 0 then 0 else |rows| - 1
  {
    var e := EnsureSheets(b);
    Step(e, Success(CheckIns(Reverse(SheetRecords(e.checkIns.value)))))
  }

  /** `handleRequest`: dispatches on the `action` parameter (absent reads as
      `''`). An unknown action fails without touching the spreadsheet; a
      `saveCheckIn` whose body is missing or not JSON fails before any tab is
      created. */
  function HandleRequest(b: Book, req: Request, env: Env): (s: Step)
    ensures s.response.Failure? ==> |s.response.error| > 0
    ensures var a := req.action.GetOr("");
      a !in {"getStats", "incrementVisit", "saveCheckIn", "getCheckIns"} ==> s == Step(b, Failure(UnknownAction))
    ensures s.response.Failure? <==>
      || req.action.GetOr("") !in {"getStats", "incrementVisit", "saveCheckIn", "getCheckIns"}
      || (req.action.GetOr("") == "saveCheckIn" && !(req.body.Parsed? && req.body.json.JsonObject?))
    ensures req.action.GetOr("") == "saveCheckIn" && !req.body.Parsed? ==> s.book == b
    ensures s.response.Success? ==> Ensured(s.book)
    ensures req.action == Some("getStats") ==> s == GetStats(b)
    ensures req.action == Some("incrementVisit") ==> s == IncrementVisitCount(b)
    ensures req.action == Some("getCheckIns") ==> s == GetCheckIns(b)
    ensures req.action == Some("saveCheckIn") && req.body.Parsed? ==> s == SaveCheckIn(b, req.body.json, env)
  {
    var action := req.action.GetOr("");
    if action == "getStats" then GetStats(b)
    else if action == "incrementVisit" then IncrementVisitCount(b)
    else if action == "saveCheckIn" then
      match req.body
      case NoPostData => Step(b, Failure(ReadError("undefined", "contents")))
      case Unparsable(msg) => Step(b, Failure("SyntaxError: " + msg))
      case Parsed(json) => SaveCheckIn(b, json, env)
    else if action == "getCheckIns" then GetCheckIns(b)
    else Step(b, Failure(UnknownAction))
  }
}
