/** The table describe of src/database/describe.ts: the column metadata
    that MySQL's `DESCRIBE` returns, and the `GlobalDescribe` lookup with its
    process-wide cache. */
module Describe {
  import opened Wrappers
  import opened Errors

  /** A row of a `DESCRIBE` result, with the columns the model reads. */
  datatype DescribeRow = DescribeRow(Field: string, Type: string, Null: string)

  /** `FieldDescribe`: a column's name, its raw type and whether it admits NULL. */
  datatype FieldDescribe = FieldDescribe(name: string, columnType: string, nillable: bool)

  /** `TableDescribe`: a table name and its columns, in `DESCRIBE` order. */
  datatype TableDescribe = TableDescribe(table: string, fields: seq<FieldDescribe>)

  /** `new FieldDescribe(describeRow)` */
  function NewFieldDescribe(row: DescribeRow): (f: FieldDescribe)
    ensures f.name == row.Field && f.columnType == row.Type
    ensures f.nillable <==> row.Null == "YES"
  {
    FieldDescribe(row.Field, row.Type, row.Null == "YES")
  }

  /** The `DESCRIBE` row a field describe stands for: MySQL reports
      nullability as `YES` or `NO`. */
  function RowOf(f: FieldDescribe): DescribeRow {
    DescribeRow(f.name, f.columnType, if f.nillable then "YES" else "NO")
  }

  /** Nothing of a field describe is lost on its way through a row. */
  lemma FieldDescribeRoundTrip(f: FieldDescribe)
    ensures NewFieldDescribe(RowOf(f)) == f
  {
  }

  /** A row whose `Null` column is `YES` or `NO` is rebuilt exactly from its
      field describe; any other `Null` text reads as not nillable. */
  lemma RowRoundTrip(row: DescribeRow)
    ensures row.Null == "YES" || row.Null == "NO" ==> RowOf(NewFieldDescribe(row)) == row
    ensures row.Null != "YES" ==> !NewFieldDescribe(row).nillable
  {
  }

  /** `new TableDescribe(table, rows.map((fd) => new FieldDescribe(fd)))` */
  function DescribeFromRows(table: string, rows: seq<DescribeRow>): (d: TableDescribe)
    ensures d.table == table && |d.fields| == |rows|
    ensures forall i :: 0 <= i < |rows| ==> d.fields[i] == NewFieldDescribe(rows[i])
  {
    TableDescribe(table, seq(|rows|, i requires 0 <= i < |rows| => NewFieldDescribe(rows[i])))
  }

  /** The rows of a describe, read back from its fields. */
  function RowsOf(d: TableDescribe): seq<DescribeRow> {
    seq(|d.fields|, i requires 0 <= i < |d.fields| => RowOf(d.fields[i]))
  }

  /** A describe keeps its rows one-to-one and in order: reading its fields
      back gives the rows, when every `Null` column is `YES` or `NO`. */
  lemma DescribeKeepsRows(table: string, rows: seq<DescribeRow>)
    requires forall i :: 0 <= i < |rows| ==> rows[i].Null == "YES" || rows[i].Null == "NO"
    ensures RowsOf(DescribeFromRows(table, rows)) == rows
  {
    var d := DescribeFromRows(table, rows);
    forall i | 0 <= i < |rows|
      ensures RowsOf(d)[i] == rows[i]
    {
      RowRoundTrip(rows[i]);
    }
  }

  /** `GlobalDescribe`: a static cache from table name to describe. */
  class GlobalDescribe {
    var cache: map<string, TableDescribe>

    /** The cache starts empty (`cache = {}`). */
    constructor ()
      ensures cache == map[]
    {
      cache := map[];
    }

    /** `GlobalDescribe.get(table)`. `query` is what the `DESCRIBE` query
        would yield for `table`; `queried` tells whether it was issued. A
        hit answers from the cache; a miss builds the describe from the rows
        or passes the query's failure on. Nothing is ever stored: the method
        may not modify the cache. */
    method Get(table: string, query: Result<seq<DescribeRow>, QueryError>)
      returns (r: Result<TableDescribe, QueryError>, queried: bool)
      ensures queried <==> table !in cache
      ensures table in cache ==> r == Success(cache[table])
      ensures table !in cache && query.Success? ==> r == Success(DescribeFromRows(table, query.value))
      ensures table !in cache && query.Failure? ==> r == Failure(query.error)
    {
      if table in cache {
        return Success(cache[table]), false;
      }
      queried := true;
      match query
      case Failure(e) =>
        r := Failure(e);
      case Success(rows) =>
        r := Success(TableDescribe(table, seq(|rows|, i requires 0 <= i < |rows| => NewFieldDescribe(rows[i]))));
    }

    /** `get` as its cache and the design intend: a successful miss stores
        the describe it built, a failed one stores nothing. */
    method GetCached(table: string, query: Result<seq<DescribeRow>, QueryError>)
      returns (r: Result<TableDescribe, QueryError>, queried: bool)
      modifies this
      ensures queried <==> table !in old(cache)
      ensures table in old(cache) ==> r == Success(old(cache)[table]) && cache == old(cache)
      ensures table !in old(cache) && query.Success? ==>
                r == Success(DescribeFromRows(table, query.value))
                && cache == old(cache)[table := r.value]
      ensures table !in old(cache) && query.Failure? ==> r == Failure(query.error) && cache == old(cache)
    {
      r, queried := Get(table, query);
      if queried && r.Success? {
        cache := cache[table := r.value];
      }
    }
  }

  /** With `get` as written, a table that misses keeps missing: asking for
      it twice issues the `DESCRIBE` query twice. */
  method RepeatedGetQueriesTwice(g: GlobalDescribe, table: string, rows: seq<DescribeRow>)
    returns (queriedFirst: bool, queriedSecond: bool)
    requires table !in g.cache
    ensures queriedFirst && queriedSecond
  {
    var first, second;
    first, queriedFirst := g.Get(table, Success(rows));
    second, queriedSecond := g.Get(table, Success(rows));
  }

  /** With the cache written on a miss, the second request is answered from
      the cache with the describe of the first. */
  method RepeatedGetCachedQueriesOnce(g: GlobalDescribe, table: string, rows: seq<DescribeRow>, later: Result<seq<DescribeRow>, QueryError>)
    returns (first: Result<TableDescribe, QueryError>, second: Result<TableDescribe, QueryError>, queriedFirst: bool, queriedSecond: bool)
    requires table !in g.cache
    modifies g
    ensures queriedFirst && !queriedSecond
    ensures first == second == Success(DescribeFromRows(table, rows))
  {
    first, queriedFirst := g.GetCached(table, Success(rows));
    second, queriedSecond := g.GetCached(table, later);
  }
}
