/** src/models/describe.ts: the same `FieldDescribe` and `TableDescribe`
    classes as src/database/describe.ts (shared here), an exported
    `GlobalDescribe` record, and `TableDescribe.fetch`. */
module ModelsDescribe {
  import opened Wrappers
  import opened Errors
  import opened Describe

  /** The exported `GlobalDescribe` record: it starts empty and nothing in
      the file stores into it, so it is a constant. */
  const ModelsGlobalDescribe: map<string, TableDescribe> := map[]

  /** `TableDescribe.fetch(table)`; `query` is what the `DESCRIBE` query
      yields. The describe names the table asked for and has one field per
      row, in row order; a failed query is passed on. */
  function Fetch(table: string, query: Result<seq<DescribeRow>, QueryError>): (r: Result<TableDescribe, QueryError>)
    ensures query.Failure? ==> r == Failure(query.error)
    ensures query.Success? ==> r.Success? && r.value.table == table && |r.value.fields| == |query.value|
    ensures query.Success? ==> forall i :: 0 <= i < |query.value| ==>
              && r.value.fields[i].name == query.value[i].Field
              && r.value.fields[i].columnType == query.value[i].Type
              && (r.value.fields[i].nillable <==> query.value[i].Null == "YES")
  {
    match query
    case Failure(e) => Failure(e)
    case Success(rows) => Success(DescribeFromRows(table, rows))
  }

  /** `fetch` loses nothing of the rows but the spelling of a `Null` column
      that is neither `YES` nor `NO`. */
  lemma FetchKeepsRows(table: string, rows: seq<DescribeRow>)
    requires forall i :: 0 <= i < |rows| ==> rows[i].Null == "YES" || rows[i].Null == "NO"
    ensures Fetch(table, Success(rows)).Success?
    ensures RowsOf(Fetch(table, Success(rows)).value) == rows
  {
    DescribeKeepsRows(table, rows);
  }
}
