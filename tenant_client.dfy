/** The tenant-scoped database client (packages/db/src/client.ts). A row is a map from column name to
    value; every read and write the client issues is restricted to rows whose tenantId column holds
    the client's tenant. */
module TenantClient {
  import opened Wrappers

  type Row = map<string, string>

  const IdColumn: string := "id"
  const TenantColumn: string := "tenantId"
  const TenantIdRequired: string := "Tenant ID is required."
  /** What the query builder's `set` throws when it is given no value at all. */
  const NoValuesToSet: string := "No values to set"

  predicate InTenant(row: Row, tenantId: string) {
    TenantColumn in row && row[TenantColumn] == tenantId
  }

  /** `eq(table[key], value)` for every filter entry; a column the row lacks never matches. */
  predicate MatchesFilters(row: Row, filters: map<string, string>) {
    forall key :: key in filters ==> key in row && row[key] == filters[key]
  }

  /** The where-clause of update and delete: the given id within the tenant. */
  predicate Targets(row: Row, id: string, tenantId: string) {
    IdColumn in row && row[IdColumn] == id && InTenant(row, tenantId)
  }

  /** query: the tenant's rows matching every filter, in storage order. */
  function QueryRows(rows: seq<Row>, tenantId: string, filters: map<string, string>): (r: seq<Row>)
    ensures |r| <= |rows|
  {
    if |rows| == 0 then []
    else
      var rest := QueryRows(rows[1..], tenantId, filters);
      if InTenant(rows[0], tenantId) && MatchesFilters(rows[0], filters) then [rows[0]] + rest else rest
  }

  /** The query returns exactly the tenant's rows that match every filter; with no filters, all of the
      tenant's rows. */
  lemma {:induction false} QueryRowsExact(rows: seq<Row>, tenantId: string, filters: map<string, string>)
    ensures var r := QueryRows(rows, tenantId, filters);
            (forall row :: row in r ==> row in rows && InTenant(row, tenantId) && MatchesFilters(row, filters))
            && (forall row :: row in rows && InTenant(row, tenantId) && MatchesFilters(row, filters) ==> row in r)
    decreases |rows|
  {
    if |rows| > 0 {
      QueryRowsExact(rows[1..], tenantId, filters);
      var r := QueryRows(rows, tenantId, filters);
      forall row | row in rows && InTenant(row, tenantId) && MatchesFilters(row, filters)
        ensures row in r
      {
        if row != rows[0] {
          assert row in rows[1..];
        }
      }
    }
  }

  /** The filter distributes over concatenation. */
  lemma {:induction false} QueryRowsAppend(a: seq<Row>, b: seq<Row>, tenantId: string, filters: map<string, string>)
    ensures QueryRows(a + b, tenantId, filters) == QueryRows(a, tenantId, filters) + QueryRows(b, tenantId, filters)
    decreases |a|
  {
    if |a| == 0 {
      assert a + b == b;
    } else {
      var ab := a + b;
      assert ab[0] == a[0] && ab[1..] == a[1..] + b;
      QueryRowsAppend(a[1..], b, tenantId, filters);
      var keep := InTenant(a[0], tenantId) && MatchesFilters(a[0], filters);
      assert QueryRows(ab, tenantId, filters)
             == (if keep then [a[0]] else []) + QueryRows(a[1..] + b, tenantId, filters);
      assert QueryRows(a, tenantId, filters)
             == (if keep then [a[0]] else []) + QueryRows(a[1..], tenantId, filters);
    }
  }

  /** Rows of other tenants are invisible: adding them changes no query result. */
  lemma {:induction false} OtherTenantsInvisible(rows: seq<Row>, others: seq<Row>, tenantId: string,
                                                 filters: map<string, string>)
    requires forall row :: row in others ==> !InTenant(row, tenantId)
    ensures QueryRows(rows + others, tenantId, filters) == QueryRows(rows, tenantId, filters)
    decreases |others|
  {
    QueryRowsAppend(rows, others, tenantId, filters);
    NoneVisible(others, tenantId, filters);
  }

  lemma {:induction false} NoneVisible(rows: seq<Row>, tenantId: string, filters: map<string, string>)
    requires forall row :: row in rows ==> !InTenant(row, tenantId)
    ensures QueryRows(rows, tenantId, filters) == []
    decreases |rows|
  {
    if |rows| > 0 {
      assert rows[0] in rows;
      NoneVisible(rows[1..], tenantId, filters);
    }
  }

  /** The row insert writes: the data with tenantId overwritten by the client's tenant. */
  function Stamp(data: Row, tenantId: string): (row: Row)
    ensures InTenant(row, tenantId)
    ensures forall key :: key != TenantColumn ==> (key in row <==> key in data)
    ensures forall key :: key in data && key != TenantColumn ==> row[key] == data[key]
  {
    data[TenantColumn := tenantId]
  }

  /** update as written: `set(data)` on the rows with that id in the tenant. The data may itself
      carry a tenantId. */
  function UpdateRowsAsWritten(rows: seq<Row>, tenantId: string, id: string, data: Row): (r: seq<Row>)
    ensures |r| == |rows|
    ensures forall j :: 0 <= j < |rows| && !Targets(rows[j], id, tenantId) ==> r[j] == rows[j]
  {
    seq(|rows|, j requires 0 <= j < |rows| => if Targets(rows[j], id, tenantId) then rows[j] + data else rows[j])
  }

  /** An update through tenant "a"'s client moves a row into tenant "b", where "b"'s queries see it. */
  lemma UpdateAsWrittenLeaksAcrossTenants()
    ensures var rows := [map[IdColumn := "1", TenantColumn := "a"]];
            var r := UpdateRowsAsWritten(rows, "a", "1", map[TenantColumn := "b"]);
            |QueryRows(rows, "b", map[])| == 0 && |QueryRows(r, "b", map[])| == 1
            && |QueryRows(rows, "a", map[])| == 1 && |QueryRows(r, "a", map[])| == 0
  {
    var rows := [map[IdColumn := "1", TenantColumn := "a"]];
    var r := UpdateRowsAsWritten(rows, "a", "1", map[TenantColumn := "b"]);
    assert Targets(rows[0], "1", "a");
    assert r[0] == map[IdColumn := "1", TenantColumn := "b"];
    assert rows[1..] == [] && r[1..] == [];
  }

  /** update kept inside the tenant: the data's tenantId is ignored, as insert ignores it. */
  function UpdateRows(rows: seq<Row>, tenantId: string, id: string, data: Row): (r: seq<Row>)
    ensures |r| == |rows|
    ensures forall j :: 0 <= j < |rows| ==> (InTenant(r[j], tenantId) <==> InTenant(rows[j], tenantId))
    ensures forall j :: 0 <= j < |rows| && !Targets(rows[j], id, tenantId) ==> r[j] == rows[j]
    ensures forall j :: 0 <= j < |rows| && Targets(rows[j], id, tenantId) ==>
              forall key :: key in data && key != TenantColumn ==> key in r[j] && r[j][key] == data[key]
  {
    seq(|rows|, j requires 0 <= j < |rows| =>
      if Targets(rows[j], id, tenantId) then rows[j] + (data - {TenantColumn}) else rows[j])
  }

  /** The two updates differ only in the data's tenantId: without one, the update as written is
      the update kept inside the tenant. */
  lemma UpdateAsWrittenAgreesWithoutTenant(rows: seq<Row>, tenantId: string, id: string, data: Row)
    requires TenantColumn !in data
    ensures UpdateRowsAsWritten(rows, tenantId, id, data) == UpdateRows(rows, tenantId, id, data)
  {
    assert data - {TenantColumn} == data;
  }

  /** delete: remove the rows with that id in the tenant, keeping the rest in order. */
  function DeleteRows(rows: seq<Row>, tenantId: string, id: string): (r: seq<Row>)
    ensures |r| <= |rows|
    ensures forall row :: row in r ==> row in rows && !Targets(row, id, tenantId)
    ensures forall row :: row in rows && !Targets(row, id, tenantId) ==> row in r
  {
    if |rows| == 0 then []
    else
      var rest := DeleteRows(rows[1..], tenantId, id);
      if Targets(rows[0], id, tenantId) then rest else [rows[0]] + rest
  }

  /** Another tenant's queries see exactly the same rows after an update or a delete. */
  lemma {:induction false} WritesIsolated(rows: seq<Row>, tenantId: string, other: string, id: string, data: Row,
                                          filters: map<string, string>)
    requires other != tenantId
    ensures QueryRows(UpdateRows(rows, tenantId, id, data), other, filters) == QueryRows(rows, other, filters)
    ensures QueryRows(DeleteRows(rows, tenantId, id), other, filters) == QueryRows(rows, other, filters)
    decreases |rows|
  {
    if |rows| > 0 {
      WritesIsolated(rows[1..], tenantId, other, id, data, filters);
      var u := UpdateRows(rows, tenantId, id, data);
      assert u[1..] == UpdateRows(rows[1..], tenantId, id, data);
      if Targets(rows[0], id, tenantId) {
        assert !InTenant(u[0], other);
      } else {
        assert u[0] == rows[0];
      }
    }
  }

  /** A table the client reads and writes: its rows in storage order. */
  class Table {
    var rows: seq<Row>

    constructor (rows: seq<Row>)
      ensures this.rows == rows
    {
      this.rows := rows;
    }
  }

  /** TenantDrizzleClient: the tenant id is fixed at construction and scopes every call. */
  class TenantDrizzleClient {
    const tenantId: string

    /** The constructor proper; the throwing guard is `DbForTenant`. */
    constructor (tenantId: string)
      requires tenantId != ""
      ensures this.tenantId == tenantId
    {
      this.tenantId := tenantId;
    }

    function Query(table: Table, filters: map<string, string>): (r: seq<Row>)
      reads table
      ensures forall row :: row in r ==> row in table.rows && InTenant(row, tenantId) && MatchesFilters(row, filters)
      ensures forall row :: row in table.rows && InTenant(row, tenantId) && MatchesFilters(row, filters) ==> row in r
    {
      QueryRowsExact(table.rows, tenantId, filters);
      QueryRows(table.rows, tenantId, filters)
    }

    method Insert(table: Table, data: Row)
      modifies table
      ensures table.rows == old(table.rows) + [Stamp(data, tenantId)]
    {
      table.rows := table.rows + [data[TenantColumn := tenantId]];
    }

    /** update as written: `set(data)` within the tenant, so a tenantId in the data is written too;
        empty data makes `set` throw before anything is sent. */
    method Update(table: Table, id: string, data: Row) returns (r: Result<(), string>)
      modifies table
      ensures r.Err? <==> data == map[]
      ensures r.Err? ==> r.error == NoValuesToSet && table.rows == old(table.rows)
      ensures r.Ok? ==> table.rows == UpdateRowsAsWritten(old(table.rows), tenantId, id, data)
    {
      if data == map[] {
        return Err(NoValuesToSet);
      }
      table.rows := UpdateRowsAsWritten(table.rows, tenantId, id, data);
      return Ok(());
    }

    /** update kept inside the tenant, as `insert` is: the data's tenantId is dropped before `set`. */
    method UpdateIsolated(table: Table, id: string, data: Row) returns (r: Result<(), string>)
      modifies table
      ensures r.Err? <==> data - {TenantColumn} == map[]
      ensures r.Err? ==> r.error == NoValuesToSet && table.rows == old(table.rows)
      ensures r.Ok? ==> table.rows == UpdateRows(old(table.rows), tenantId, id, data)
    {
      if data - {TenantColumn} == map[] {
        return Err(NoValuesToSet);
      }
      table.rows := UpdateRows(table.rows, tenantId, id, data);
      return Ok(());
    }

    method Delete(table: Table, id: string)
      modifies table
      ensures table.rows == DeleteRows(old(table.rows), tenantId, id)
    {
      table.rows := DeleteRows(table.rows, tenantId, id);
    }
  }

  /** dbForTenant / `new TenantDrizzleClient`: an empty tenant id throws. */
  method DbForTenant(tenantId: string) returns (r: Result<TenantDrizzleClient, string>)
    ensures r.Err? <==> tenantId == ""
    ensures r.Err? ==> r.error == TenantIdRequired
    ensures r.Ok? ==> fresh(r.value) && r.value.tenantId == tenantId
  {
    if tenantId == "" {
      return Err(TenantIdRequired);
    }
    var client := new TenantDrizzleClient(tenantId);
    return Ok(client);
  }
}
