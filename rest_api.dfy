/**
 * The HTTP layer between the query UI and the services behind it: the DAG
 * trigger forwarded to the scheduler, and the three warehouse endpoints.
 * The warehouse cursor is a function from statement text to result set; the
 * scheduler's reply is a parameter.
 */
module RestApi {
  import opened Wrappers
  import opened Strings
  import opened Dicts

  /** What an endpoint answers: a body, or an HTTP error status with its detail. */
  datatype Response<T> = Ok(body: T) | HttpError(status: nat, detail: string)

  // ------------------------------------------------------------------
  // Warehouse endpoints
  // ------------------------------------------------------------------

  /** One entry of `cursor.description`; its first element is the column name. */
  datatype ColumnDesc = ColumnDesc(name: string, typeCode: nat)

  /** What `fetchall()` and `description` give after a statement ran. */
  datatype ResultSet<V> = ResultSet(rows: seq<seq<V>>, description: seq<ColumnDesc>)

  datatype TableData<V> = TableData(columns: seq<string>, rows: seq<seq<V>>)

  const BlockedKeywords: seq<string> := ["DELETE", "DROP", "INSERT"]

  /**
   * The guard of `execute_query`: a case-sensitive substring test for any
   * blocked keyword, anywhere in the text.
   */
  predicate IsBlocked(query: string)
    ensures IsBlocked(query) <==> Contains(query, "DELETE") || Contains(query, "DROP") || Contains(query, "INSERT")
  {
    assert BlockedKeywords[0] == "DELETE" && BlockedKeywords[1] == "DROP" && BlockedKeywords[2] == "INSERT";
    exists k :: 0 <= k < |BlockedKeywords| && Contains(query, BlockedKeywords[k])
  }

  /** `[desc[0] for desc in cur.description]` */
  function ColumnNames(description: seq<ColumnDesc>): (r: seq<string>)
    ensures |r| == |description| && forall i :: 0 <= i < |r| ==> r[i] == description[i].name
  {
    seq(|description|, i requires 0 <= i < |description| => description[i].name)
  }

  /**
   * The result shaping of `execute_query`: one dictionary per row, in row
   * order, keyed by the column names the row has values for.
   */
  function ShapeResults<V>(rs: ResultSet<V>): (r: seq<map<string, V>>)
    ensures |r| == |rs.rows|
    ensures forall i :: 0 <= i < |r| ==>
      r[i].Keys == set j | 0 <= j < |rs.description| && j < |rs.rows[i]| :: rs.description[j].name
  {
    if |rs.rows| == 0 then []
    else seq(|rs.rows|, i requires 0 <= i < |rs.rows| => ZipDict(ColumnNames(rs.description), rs.rows[i]))
  }

  /**
   * `execute_query`: the body's "query" is checked against the blocklist before
   * it reaches the cursor. A body without a query fails the substring test on
   * `None`, which the framework answers with 500.
   */
  function ExecuteQuery<V>(query: Option<string>, execute: string -> ResultSet<V>): (r: Response<seq<map<string, V>>>)
    ensures query.None? ==> r.HttpError? && r.status == 500
    ensures query.Some? ==> (r.HttpError? <==> IsBlocked(query.value))
    ensures query.Some? && r.HttpError? ==> r.status == 400 && r.detail == "Query type not allowed"
    ensures r.Ok? ==> r.body == ShapeResults(execute(query.value))
  {
    match query
    case None => HttpError(500, "Internal Server Error")
    case Some(q) =>
      if IsBlocked(q) then HttpError(400, "Query type not allowed")
      else Ok(ShapeResults(execute(q)))
  }

  /** A refused query never reaches the warehouse: the answer is the same whatever the cursor would do. */
  lemma BlockedQueryNotExecuted<V>(q: string, execute1: string -> ResultSet<V>, execute2: string -> ResultSet<V>)
    requires IsBlocked(q)
    ensures ExecuteQuery(Some(q), execute1) == ExecuteQuery(Some(q), execute2)
  {
  }

  /** The keyword match is case-sensitive: a query with no capital 'D' and no capital 'I' (all-lowercase "delete from t", say) is let through. */
  lemma LowercaseKeywordsAllowed(q: string)
    requires 'D' !in q && 'I' !in q
    ensures !IsBlocked(q)
  {
    assert "DELETE"[0] == 'D' && "DROP"[0] == 'D' && "INSERT"[0] == 'I';
    MissingCharNotContained(q, "DELETE", 'D');
    MissingCharNotContained(q, "DROP", 'D');
    MissingCharNotContained(q, "INSERT", 'I');
  }

  /** The keyword match ignores word boundaries: a column named DROPDOWN is refused. */
  lemma KeywordInsideIdentifierBlocked(q: string)
    requires q == "SELECT DROPDOWN FROM T"
    ensures IsBlocked(q)
  {
    assert q[7..][..4] == "DROP";
  }

  /**
   * An accepted query answers one dictionary per row, in row order; each
   * pairs the column names with the row's values up to the shorter of the
   * two, and a repeated column name keeps its last value.
   */
  lemma ExecuteQueryResults<V>(q: string, execute: string -> ResultSet<V>)
    requires !IsBlocked(q)
    ensures var rs := execute(q);
      var names := ColumnNames(rs.description);
      && ExecuteQuery(Some(q), execute).Ok?
      && |ExecuteQuery(Some(q), execute).body| == |rs.rows|
      && forall i :: 0 <= i < |rs.rows| ==>
           var d := ExecuteQuery(Some(q), execute).body[i];
           && d.Keys == (set j | 0 <= j < |names| && j < |rs.rows[i]| :: names[j])
           && forall j :: 0 <= j < |names| && j < |rs.rows[i]|
                && (forall l :: j < l < |names| && l < |rs.rows[i]| ==> names[l] != names[j])
                ==> d[names[j]] == rs.rows[i][j]
  {
    var rs := execute(q);
    var names := ColumnNames(rs.description);
    forall i, j | 0 <= i < |rs.rows| && 0 <= j < |names| && j < |rs.rows[i]|
      && (forall l :: j < l < |names| && l < |rs.rows[i]| ==> names[l] != names[j])
      ensures ZipDict(names, rs.rows[i])[names[j]] == rs.rows[i][j]
    {
      ZipDictLast(names, rs.rows[i], j);
    }
  }

  const ShowTablesSql: string := "SHOW TABLES;"

  /**
   * `get_tables`: the second field of each row of `SHOW TABLES`, in order; a
   * row too short for that raises, which the framework answers with 500.
   */
  function GetTables<V>(execute: string -> ResultSet<V>): (r: Response<seq<V>>)
    ensures var rows := execute(ShowTablesSql).rows;
      && (r.Ok? <==> forall i :: 0 <= i < |rows| ==> |rows[i]| >= 2)
      && (r.Ok? ==> |r.body| == |rows| && forall i :: 0 <= i < |rows| ==> r.body[i] == rows[i][1])
      && (r.HttpError? ==> r.status == 500)
  {
    var rows := execute(ShowTablesSql).rows;
    if forall i :: 0 <= i < |rows| ==> |rows[i]| >= 2
    then Ok(seq(|rows|, i requires 0 <= i < |rows| => rows[i][1]))
    else HttpError(500, "Internal Server Error")
  }

  const SelectAllPrefix: string := "SELECT * FROM "

  /** The statement `get_table_data` runs: the table name is spliced in as given, between the select and the ';'. */
  function TableDataSql(tableName: string): (r: string)
    ensures IsPrefix(SelectAllPrefix, r) && |r| == |SelectAllPrefix| + |tableName| + 1
    ensures r[|SelectAllPrefix|..|r| - 1] == tableName && r[|r| - 1] == ';'
  {
    var r := SelectAllPrefix + tableName + ";";
    assert r[..|SelectAllPrefix|] == SelectAllPrefix;
    assert r[|SelectAllPrefix|..|r| - 1] == tableName;
    r
  }

  /** `get_table_data`: the column names from the description and the rows unchanged. */
  function GetTableData<V>(tableName: string, execute: string -> ResultSet<V>): (r: TableData<V>)
    ensures var rs := execute(TableDataSql(tableName));
      && r.rows == rs.rows
      && |r.columns| == |rs.description|
      && forall i :: 0 <= i < |rs.description| ==> r.columns[i] == rs.description[i].name
  {
    var rs := execute(TableDataSql(tableName));
    TableData(ColumnNames(rs.description), rs.rows)
  }

  /** The blocklist guards only `execute_query`: a table name carrying a DROP reaches the warehouse verbatim. */
  lemma TableNameNotGuarded(tableName: string)
    requires Contains(tableName, "DROP")
    ensures IsBlocked(TableDataSql(tableName))
  {
    var i :| 0 <= i <= |tableName| && IsPrefix("DROP", tableName[i..]);
    var s := TableDataSql(tableName);
    var n := |SelectAllPrefix|;
    assert s[n + i..][..4] == tableName[i..][..4] by {
      var mid := s[n..|s| - 1];
      assert forall k :: 0 <= k < 4 ==> s[n + i..][k] == mid[i..][k];
    }
    assert Contains(s, "DROP");
  }

  // ------------------------------------------------------------------
  // Triggering a DAG run
  // ------------------------------------------------------------------

  /** The clock reading `datetime.now()` supplies. */
  datatype Timestamp = Timestamp(year: nat, month: nat, day: nat, hour: nat, minute: nat, second: nat)

  /** A present-day reading: a four-digit year and in-range fields. */
  predicate ValidTimestamp(t: Timestamp) {
    && 1000 <= t.year <= 9999 && 1 <= t.month <= 12 && 1 <= t.day <= 31
    && t.hour < 24 && t.minute < 60 && t.second < 60
  }

  function Pow10(n: nat): nat {
    if n == 0 then 1 else 10 * Pow10(n - 1)
  }

  function DigitChar(d: nat): char
    requires d < 10
  {
    ('0' as int + d) as char
  }

  /** `n` in decimal, zero-padded to `width` digits. */
  function Digits(n: nat, width: nat): (s: string)
    ensures |s| == width && forall i :: 0 <= i < width ==> IsDigit(s[i])
    decreases width
  {
    if width == 0 then "" else Digits(n / 10, width - 1) + [DigitChar(n % 10)]
  }

  /** The number a string of decimal digits denotes. */
  function DigitsValue(s: string): nat
    requires forall i :: 0 <= i < |s| ==> IsDigit(s[i])
    decreases |s|
  {
    if |s| == 0 then 0
    else
      assert IsDigit(s[|s| - 1]);
      10 * DigitsValue(s[..|s| - 1]) + (s[|s| - 1] as int - '0' as int)
  }

  /** Reading back a zero-padded number gives the number. */
  lemma {:induction false} DigitsRoundTrip(n: nat, width: nat)
    requires n < Pow10(width)
    ensures DigitsValue(Digits(n, width)) == n
    decreases width
  {
    if width > 0 {
      DigitsRoundTrip(n / 10, width - 1);
      var s := Digits(n, width);
      assert s[..width - 1] == Digits(n / 10, width - 1);
    }
  }

  /** `strftime('%Y%m%d%H%M%S')`: fourteen decimal digits. */
  function FormatTimestamp(t: Timestamp): (s: string)
    ensures |s| == 14 && forall i :: 0 <= i < 14 ==> IsDigit(s[i])
  {
    Digits(t.year, 4) + Digits(t.month, 2) + Digits(t.day, 2)
      + Digits(t.hour, 2) + Digits(t.minute, 2) + Digits(t.second, 2)
  }

  /** The inverse of the fourteen-digit format. */
  function ParseTimestamp(s: string): Timestamp
    requires |s| == 14 && forall i :: 0 <= i < 14 ==> IsDigit(s[i])
  {
    Timestamp(DigitsValue(s[0..4]), DigitsValue(s[4..6]), DigitsValue(s[6..8]),
              DigitsValue(s[8..10]), DigitsValue(s[10..12]), DigitsValue(s[12..14]))
  }

  /** The run-id timestamp is fourteen digits that read back as the clock reading. */
  lemma FormatTimestampFields(t: Timestamp)
    ensures var s := FormatTimestamp(t);
      && |s| == 14 && (forall i :: 0 <= i < 14 ==> IsDigit(s[i]))
      && s[0..4] == Digits(t.year, 4) && s[4..6] == Digits(t.month, 2) && s[6..8] == Digits(t.day, 2)
      && s[8..10] == Digits(t.hour, 2) && s[10..12] == Digits(t.minute, 2) && s[12..14] == Digits(t.second, 2)
  {
    var y, mo, d := Digits(t.year, 4), Digits(t.month, 2), Digits(t.day, 2);
    var h, mi, se := Digits(t.hour, 2), Digits(t.minute, 2), Digits(t.second, 2);
    var s := y + mo + d + h + mi + se;
    assert s[0..4] == y;
    assert s[4..6] == mo;
    assert s[6..8] == d;
    assert s[8..10] == h;
    assert s[10..12] == mi;
    assert s[12..14] == se;
  }

  lemma TimestampRoundTrip(t: Timestamp)
    requires ValidTimestamp(t)
    ensures var s := FormatTimestamp(t);
      |s| == 14 && (forall i :: 0 <= i < 14 ==> IsDigit(s[i])) && ParseTimestamp(s) == t
  {
    FormatTimestampFields(t);
    assert Pow10(2) == 100 && Pow10(4) == 10000 by {
      assert Pow10(1) == 10;
      assert Pow10(3) == 1000;
    }
    DigitsRoundTrip(t.year, 4);
    DigitsRoundTrip(t.month, 2);
    DigitsRoundTrip(t.day, 2);
    DigitsRoundTrip(t.hour, 2);
    DigitsRoundTrip(t.minute, 2);
    DigitsRoundTrip(t.second, 2);
  }

  const RunIdPrefix: string := "triggered_via_fastapi_"

  /** The `dag_run_id` of a trigger made at time `now`: the fixed prefix, then fourteen digits. */
  function RunId(now: Timestamp): (r: string)
    ensures |r| == |RunIdPrefix| + 14 && IsPrefix(RunIdPrefix, r)
    ensures forall i :: |RunIdPrefix| <= i < |r| ==> IsDigit(r[i])
  {
    var r := RunIdPrefix + FormatTimestamp(now);
    assert r[..|RunIdPrefix|] == RunIdPrefix;
    assert forall i :: |RunIdPrefix| <= i < |r| ==> r[i] == FormatTimestamp(now)[i - |RunIdPrefix|];
    r
  }

  /** `TriggerDAGRequest`: `conf` is optional and defaults to `None`. */
  datatype TriggerDagRequest<C> = TriggerDagRequest(dagId: string, conf: Option<map<string, C>>)

  datatype DagRunPayload<C> = DagRunPayload(dagRunId: string, conf: map<string, C>)

  /** The POST `trigger_airflow_dag` sends; the credentials are left out. */
  datatype TriggerCall<C> = TriggerCall(url: string, headers: seq<(string, string)>, payload: DagRunPayload<C>)

  /** An unset environment variable is formatted by an f-string as "None". */
  function EnvText(v: Option<string>): string {
    match v
    case None => "None"
    case Some(s) => s
  }

  const DagsPath: string := "/api/v1/dags/"
  const DagRunsSuffix: string := "/dagRuns"

  /**
   * `f"{airflow_endpoint}/api/v1/dags/{dag_id}/dagRuns"`: the DAG id sits
   * between the DAG collection under the endpoint and the run collection.
   */
  function DagRunsUrl(endpoint: Option<string>, dagId: string): (r: string)
    ensures var base := EnvText(endpoint) + DagsPath;
      && IsPrefix(base, r) && EndsWith(r, DagRunsSuffix)
      && |r| == |base| + |dagId| + |DagRunsSuffix|
      && r[|base|..|base| + |dagId|] == dagId
  {
    var base := EnvText(endpoint) + DagsPath;
    var r := base + dagId + DagRunsSuffix;
    assert r[..|base|] == base;
    assert r[|base|..|base| + |dagId|] == dagId;
    assert r[|r| - |DagRunsSuffix|..] == DagRunsSuffix;
    r
  }

  const JsonHeaders: seq<(string, string)> := [("Content-Type", "application/json"), ("Accept", "application/json")]

  /**
   * `request_data.conf if request_data.conf else {}`: a given configuration is
   * sent as it is (an empty one is `{}` already), an unset one as `{}`.
   */
  function PayloadConf<C>(conf: Option<map<string, C>>): (r: map<string, C>)
    ensures conf.None? ==> r == map[]
    ensures conf.Some? ==> r == conf.value
  {
    if conf.Some? && |conf.value| == 0 then
      assert conf.value == map[] by {
        assert forall k :: k !in conf.value;
      }
      map[]
    else if conf.Some? && |conf.value| > 0 then conf.value else map[]
  }

  /**
   * The request `trigger_airflow_dag` builds from the endpoint, the request
   * body and the clock: JSON headers, a URL under the endpoint's DAG
   * collection, a run id made of the fixed prefix and the clock's digits, and
   * the request's configuration.
   */
  function BuildTriggerCall<C>(endpoint: Option<string>, request: TriggerDagRequest<C>, now: Timestamp): (r: TriggerCall<C>)
    ensures r.headers == JsonHeaders
    ensures IsPrefix(EnvText(endpoint) + DagsPath, r.url) && EndsWith(r.url, DagRunsSuffix)
    ensures IsPrefix(RunIdPrefix, r.payload.dagRunId) && |r.payload.dagRunId| == |RunIdPrefix| + 14
    ensures r.payload.conf == (match request.conf case None => map[] case Some(c) => c)
  {
    TriggerCall(DagRunsUrl(endpoint, request.dagId), JsonHeaders,
                DagRunPayload(RunId(now), PayloadConf(request.conf)))
  }

  /**
   * The call goes to the DAG's run collection under the configured endpoint;
   * its run id is the fixed prefix and the fourteen-digit clock reading, and
   * its configuration is the request's, with `{}` standing for an unset one.
   */
  lemma TriggerCallShape<C>(endpoint: Option<string>, request: TriggerDagRequest<C>, now: Timestamp)
    requires ValidTimestamp(now)
    ensures var call := BuildTriggerCall(endpoint, request, now);
      && call.url == EnvText(endpoint) + "/api/v1/dags/" + request.dagId + "/dagRuns"
      && IsPrefix(RunIdPrefix, call.payload.dagRunId) && |call.payload.dagRunId| == |RunIdPrefix| + 14
      && (forall i :: |RunIdPrefix| <= i < |call.payload.dagRunId| ==> IsDigit(call.payload.dagRunId[i]))
      && ParseTimestamp(call.payload.dagRunId[|RunIdPrefix|..]) == now
      && call.payload.conf == (match request.conf case None => map[] case Some(c) => c)
  {
    TimestampRoundTrip(now);
    var id := RunId(now);
    assert id[|RunIdPrefix|..] == FormatTimestamp(now);
  }

  datatype TriggerSuccess<J> = TriggerSuccess(message: string, details: J)

  /** The scheduler's answer: 200 and 201 succeed with its JSON; any other status is passed on with its text. */
  function TriggerResult<J>(status: nat, json: J, text: string): (r: Response<TriggerSuccess<J>>)
    ensures r.Ok? <==> status == 200 || status == 201
    ensures r.Ok? ==> r.body.details == json
    ensures r.HttpError? ==> r.status == status && r.detail == text
  {
    if status == 200 || status == 201 then Ok(TriggerSuccess("DAG triggered successfully", json))
    else HttpError(status, text)
  }
}
