/** The user-scoped RLS demo service (apps/backend/src/modules/rls_demo/rlsDemo.service.ts) over the
    rls_example table: every read and write carries `userId = caller`, except the public-token read. */
module RlsDemoService {
  import opened Wrappers
  import opened OwnedRows
  import TenantClient

  /** The rls_example table; `owner` is the userId column. */
  class RlsExampleTable {
    var rows: seq<Example>

    ghost predicate Valid()
      reads this
    {
      UniqueIds(rows)
    }

    constructor ()
      ensures Valid() && rows == []
    {
      rows := [];
    }

    /** createRlsExample: insert the data under a freshly generated id (any id in the data is
        overridden) and return the row. The owner stored is the data's userId. */
    method CreateRlsExample(data: NewExample, userId: string, newId: string, now: Time) returns (created: Example)
      requires Valid()
      requires forall j :: 0 <= j < |rows| ==> rows[j].id != newId
      modifies this
      ensures Valid()
      ensures created == Created(data, newId, now)
      ensures rows == old(rows) + [created]
    {
      created := Example(newId, data.content, data.owner, data.publicToken, now, None);
      rows := rows + [created];
    }

    /** getRlsExamples: exactly the caller's rows. */
    function GetRlsExamples(userId: string): (r: seq<Example>)
      reads this
      ensures forall e :: e in r <==> e in rows && e.owner == userId
    {
      Owned(rows, userId)
    }

    /** getRlsExampleById: the caller's row with that id, or null for a missing or foreign id. */
    function GetRlsExampleById(id: string, userId: string): (r: Option<Example>)
      reads this
      ensures r.None? <==> forall j :: 0 <= j < |rows| ==> rows[j].id != id || rows[j].owner != userId
      ensures r.Some? ==> r.value in rows && r.value.id == id && r.value.owner == userId
    {
      FindOwned(rows, id, userId)
    }

    /** getRlsExampleByPublicToken: a row carrying the token, whoever owns it, or null. */
    function GetRlsExampleByPublicToken(publicToken: string): (r: Option<Example>)
      reads this
      ensures r.None? <==> forall j :: 0 <= j < |rows| ==> rows[j].publicToken != Some(publicToken)
      ensures r.Some? ==> r.value in rows && r.value.publicToken == Some(publicToken)
    {
      FindByPublicToken(rows, publicToken)
    }

    /** updateRlsExample: patch the caller's row with that id and return it; null and no change when
        the caller owns no such row. An empty patch throws in `set`, and the error is rethrown. */
    method UpdateRlsExample(id: string, userId: string, patch: Patch) returns (r: Result<Option<Example>, string>)
      requires Valid()
      modifies this
      ensures Valid()
      ensures r.Err? <==> EmptyPatch(patch)
      ensures r.Err? ==> r.error == TenantClient.NoValuesToSet && rows == old(rows)
      ensures r.Ok? ==> rows == UpdateOwned(old(rows), id, userId, patch)
                        && r.value == UpdatedRow(old(rows), id, userId, patch)
      ensures r.Ok? && r.value.None? ==> rows == old(rows)
    {
      if EmptyPatch(patch) {
        return Err(TenantClient.NoValuesToSet);
      }
      r := Ok(UpdatedRow(rows, id, userId, patch));
      UpdateKeepsUnique(rows, id, userId, patch);
      rows := UpdateOwned(rows, id, userId, patch);
    }

    /** deleteRlsExample: remove the caller's row with that id and return it; null and no change when
        the caller owns no such row. */
    method DeleteRlsExample(id: string, userId: string) returns (r: Option<Example>)
      requires Valid()
      modifies this
      ensures Valid()
      ensures rows == RemoveOwned(old(rows), id, userId)
      ensures r == FindOwned(old(rows), id, userId)
      ensures r.None? ==> rows == old(rows)
    {
      r := FindOwned(rows, id, userId);
      RemoveKeepsUnique(rows, id, userId);
      if r.None? {
        NothingToRemove(rows, id, userId);
      }
      rows := RemoveOwned(rows, id, userId);
    }

    /** One pass of streamRlsExamples. */
    method StreamRlsExamplesPass(userId: string, failure: Option<string>) returns (items: seq<StreamItem>)
      ensures failure.Some? ==> items == [ErrorItem(failure.value)]
      ensures failure.None? ==>
                |items| == |GetRlsExamples(userId)|
                && forall i :: 0 <= i < |items| ==> items[i] == ExampleItem(GetRlsExamples(userId)[i])
    {
      items := StreamPass(rows, userId, failure);
    }
  }

  /** `result[0] || null` of the select by public token: the first row carrying it. */
  function FindByPublicToken(rows: seq<Example>, publicToken: string): (r: Option<Example>)
    ensures r.None? <==> forall j :: 0 <= j < |rows| ==> rows[j].publicToken != Some(publicToken)
    ensures r.Some? ==> r.value in rows && r.value.publicToken == Some(publicToken)
  {
    if |rows| == 0 then None
    else if rows[0].publicToken == Some(publicToken) then Some(rows[0])
    else
      var r := FindByPublicToken(rows[1..], publicToken);
      assert forall j :: 1 <= j < |rows| ==> rows[j] == rows[1..][j - 1];
      r
  }
}
