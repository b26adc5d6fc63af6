/**
 * The statements the warehouse loader builds: the mapping from DataFrame
 * column types to warehouse types, the `CREATE OR REPLACE TABLE` text for a
 * CSV's columns, and the `CREATE ... IF NOT EXISTS` set-up statements. The
 * connection that runs them and the bulk load itself are not modelled.
 */
module SnowflakeTransfer {
  import opened Wrappers
  import opened Strings

  const DtypeMap: map<string, string> := map[
    "int64" := "NUMBER",
    "float64" := "FLOAT",
    "bool" := "BOOLEAN",
    "datetime64[ns]" := "TIMESTAMP_NTZ",
    "object" := "VARCHAR"]

  const SnowflakeTypes: set<string> := {"NUMBER", "FLOAT", "BOOLEAN", "TIMESTAMP_NTZ", "VARCHAR"}

  /** A warehouse type name: upper-case letters and underscores only. */
  predicate IsTypeName(t: string) {
    forall i :: 0 <= i < |t| ==> 'A' <= t[i] <= 'Z' || t[i] == '_'
  }

  /** `pandas_dtype_to_snowflake_sql_type`: the table's type, VARCHAR for any dtype it does not list. */
  function PandasDtypeToSnowflakeSqlType(dtype: string): (t: string)
    ensures t in SnowflakeTypes && IsTypeName(t)
    ensures dtype !in DtypeMap ==> t == "VARCHAR"
  {
    if dtype in DtypeMap then DtypeMap[dtype] else "VARCHAR"
  }

  /** The five listed dtypes. */
  lemma DtypeTable()
    ensures PandasDtypeToSnowflakeSqlType("int64") == "NUMBER"
    ensures PandasDtypeToSnowflakeSqlType("float64") == "FLOAT"
    ensures PandasDtypeToSnowflakeSqlType("bool") == "BOOLEAN"
    ensures PandasDtypeToSnowflakeSqlType("datetime64[ns]") == "TIMESTAMP_NTZ"
    ensures PandasDtypeToSnowflakeSqlType("object") == "VARCHAR"
  {
  }

  /** One `(col, dtype)` pair of `df.dtypes.items()`, the dtype by its string name. */
  datatype Column = Column(name: string, dtype: string)

  /**
   * `f'"{col.upper()}" {type}'`. A column definition is unambiguous: it reads
   * back as the upper-cased column name and the mapped type, whatever
   * characters the name holds.
   */
  function ColumnDefinition(c: Column): (d: string)
    ensures ParseColumnDefinition(d) == Some((Upper(c.name), PandasDtypeToSnowflakeSqlType(c.dtype)))
  {
    var t := PandasDtypeToSnowflakeSqlType(c.dtype);
    QuotedDefinitionParses(Upper(c.name), t);
    "\"" + Upper(c.name) + "\" " + t
  }

  /** A quoted name, a space and a type name read back as that name and type, whatever the name holds. */
  lemma QuotedDefinitionParses(u: string, t: string)
    requires IsTypeName(t)
    ensures ParseColumnDefinition("\"" + u + "\" " + t) == Some((u, t))
  {
    var d := "\"" + u + "\" " + t;
    var k := |u| + 2;
    assert d[k] == ' ';
    assert forall i :: k < i < |d| ==> d[i] == t[i - k - 1];
    var found := LastSpace(d);
    assert found.Some?;
    assert found.value == k;
    assert d[1..k - 1] == u;
    assert d[k + 1..] == t;
  }

  function ColumnDefinitions(cols: seq<Column>): seq<string> {
    seq(|cols|, i requires 0 <= i < |cols| => ColumnDefinition(cols[i]))
  }

  const CreateTablePrefix: string := "CREATE OR REPLACE TABLE "

  /**
   * The statement `create_table_from_df` runs: the table name as given, then
   * the column definitions joined by ", " between parentheses.
   */
  function CreateTableSql(tableName: string, cols: seq<Column>): (sql: string)
    ensures var head := CreateTablePrefix + tableName + " (";
      && |sql| == |head| + |Join(ColumnDefinitions(cols), ", ")| + 1
      && IsPrefix(head, sql) && EndsWith(sql, ")")
      && sql[|head|..|sql| - 1] == Join(ColumnDefinitions(cols), ", ")
  {
    var head := CreateTablePrefix + tableName + " (";
    var body := Join(ColumnDefinitions(cols), ", ");
    Surrounded(head, body, ")");
    head + body + ")"
  }

  /** The position of the last space, if any. */
  function LastSpace(d: string): (r: Option<nat>)
    ensures r.None? ==> forall i :: 0 <= i < |d| ==> d[i] != ' '
    ensures r.Some? ==> r.value < |d| && d[r.value] == ' '
    ensures r.Some? ==> forall i :: r.value < i < |d| ==> d[i] != ' '
    decreases |d|
  {
    if |d| == 0 then None
    else if d[|d| - 1] == ' ' then Some(|d| - 1)
    else LastSpace(d[..|d| - 1])
  }

  /** Reads a column definition back: the quoted name, and the type after the last space. */
  function ParseColumnDefinition(d: string): Option<(string, string)> {
    match LastSpace(d)
    case None => None
    case Some(k) =>
      if k >= 2 && d[0] == '"' && d[k - 1] == '"' then Some((d[1..k - 1], d[k + 1..])) else None
  }

  /**
   * The statement holds exactly one definition per column, in column order,
   * joined by ", ", between the table name and the closing parenthesis; each
   * definition reads back as its column's upper-cased name and mapped type.
   */
  lemma CreateTableShape(tableName: string, cols: seq<Column>)
    ensures var sql := CreateTableSql(tableName, cols);
      var head := "CREATE OR REPLACE TABLE " + tableName + " (";
      var defs := ColumnDefinitions(cols);
      && IsPrefix(head, sql) && EndsWith(sql, ")")
      && sql[|head|..|sql| - 1] == Join(defs, ", ")
      && |defs| == |cols|
      && forall i :: 0 <= i < |cols| ==>
           ParseColumnDefinition(defs[i]) == Some((Upper(cols[i].name), PandasDtypeToSnowflakeSqlType(cols[i].dtype)))
  {
    assert CreateTablePrefix == "CREATE OR REPLACE TABLE ";
  }

  /** `df.columns = [col.upper() for col in df.columns]` */
  function UpperColumns(cols: seq<Column>): seq<Column> {
    seq(|cols|, i requires 0 <= i < |cols| => Column(Upper(cols[i].name), cols[i].dtype))
  }

  /** What `upload_csv_to_snowflake` sends: the table statement and the table the rows are loaded into. */
  datatype UploadPlan = UploadPlan(createSql: string, loadTable: string, columns: seq<Column>)

  /**
   * `upload_csv_to_snowflake`: the columns are upper-cased and keep their
   * dtypes, the statement is the one built from the CSV's own names, and the
   * rows go to the upper-cased table name.
   */
  function UploadCsvToSnowflake(csvColumns: seq<Column>, tableName: string): (plan: UploadPlan)
    ensures plan.createSql == CreateTableSql(tableName, csvColumns)
    ensures plan.loadTable == Upper(tableName)
    ensures |plan.columns| == |csvColumns|
    ensures forall i :: 0 <= i < |csvColumns| ==>
      plan.columns[i] == Column(Upper(csvColumns[i].name), csvColumns[i].dtype)
  {
    var cols := UpperColumns(csvColumns);
    assert ColumnDefinitions(cols) == ColumnDefinitions(csvColumns) by {
      forall i | 0 <= i < |csvColumns| ensures ColumnDefinition(cols[i]) == ColumnDefinition(csvColumns[i]) {
        UpperIdempotent(csvColumns[i].name);
      }
    }
    UploadPlan(CreateTableSql(tableName, cols), Upper(tableName), cols)
  }

  /**
   * The upload upper-cases the column names before the statement is built, and
   * the statement upper-cases them again; since upper-casing is idempotent the
   * statement is the one built from the CSV's own names. The rows go to the
   * upper-cased table name, whose text equals the name in the statement
   * exactly when that name has no lower-case letter.
   */
  lemma UploadPlanShape(csvColumns: seq<Column>, tableName: string)
    ensures var plan := UploadCsvToSnowflake(csvColumns, tableName);
      && plan.createSql == CreateTableSql(tableName, csvColumns)
      && |plan.columns| == |csvColumns|
      && (forall i :: 0 <= i < |csvColumns| ==> plan.columns[i].name == Upper(csvColumns[i].name))
      && plan.loadTable == Upper(tableName)
      && (plan.loadTable == tableName <==> forall i :: 0 <= i < |tableName| ==> !('a' <= tableName[i] <= 'z'))
  {
    UpperFixedPoint(tableName);
  }

  /** The set-up statement shared by the three helpers: the guarded create of its object kind, followed by the name exactly as given. */
  function CreateIfNotExistsSql(kind: string, name: string): (sql: string)
    ensures var head := "CREATE " + kind + " IF NOT EXISTS ";
      IsPrefix(head, sql) && sql[|head|..] == name
  {
    var head := "CREATE " + kind + " IF NOT EXISTS ";
    Surrounded(head, name, "");
    assert head + name + "" == head + name;
    head + name
  }

  /** `create_warehouse_if_not_exists`: the guarded create of a warehouse named exactly as given. */
  function CreateWarehouseSql(name: string): (sql: string)
    ensures IsPrefix("CREATE WAREHOUSE IF NOT EXISTS ", sql) && sql[31..] == name
  {
    assert "CREATE " + "WAREHOUSE" + " IF NOT EXISTS " == "CREATE WAREHOUSE IF NOT EXISTS ";
    CreateIfNotExistsSql("WAREHOUSE", name)
  }

  /** `create_database_if_not_exists`: the guarded create of a database named exactly as given. */
  function CreateDatabaseSql(name: string): (sql: string)
    ensures IsPrefix("CREATE DATABASE IF NOT EXISTS ", sql) && sql[30..] == name
  {
    assert "CREATE " + "DATABASE" + " IF NOT EXISTS " == "CREATE DATABASE IF NOT EXISTS ";
    CreateIfNotExistsSql("DATABASE", name)
  }

  /** `create_schema_if_not_exists`: the guarded create of a schema named exactly as given. */
  function CreateSchemaSql(name: string): (sql: string)
    ensures IsPrefix("CREATE SCHEMA IF NOT EXISTS ", sql) && sql[28..] == name
  {
    assert "CREATE " + "SCHEMA" + " IF NOT EXISTS " == "CREATE SCHEMA IF NOT EXISTS ";
    CreateIfNotExistsSql("SCHEMA", name)
  }

}
