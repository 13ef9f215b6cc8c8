/** The organization-scoped RLS demo service
    (apps/backend/src/modules/rls_org_demo/rlsOrgDemo.service.ts) over the rls_org_example table:
    every read and write carries `organizationId = …`. */
module RlsOrgDemoService {
  import opened Wrappers
  import opened OwnedRows
  import TenantClient

  /** The rls_org_example table; `owner` is the organizationId column. */
  class RlsOrgExampleTable {
    var rows: seq<Example>

    ghost predicate Valid()
      reads this
    {
      UniqueIds(rows)
    }

    constructor ()
      ensures Valid() && rows == []
    {
      rows := [];
    }

    /** createRlsOrgExample: insert under a freshly generated id that overrides any id in the data. */
    method CreateRlsOrgExample(data: NewExample, organizationId: string, newId: string, now: Time)
      returns (created: Example)
      requires Valid()
      requires forall j :: 0 <= j < |rows| ==> rows[j].id != newId
      modifies this
      ensures Valid()
      ensures created == Created(data, newId, now)
      ensures rows == old(rows) + [created]
    {
      created := Example(newId, data.content, data.owner, data.publicToken, now, None);
      rows := rows + [created];
    }

    /** getRlsOrgExamples: exactly the organization's rows. */
    function GetRlsOrgExamples(organizationId: string): (r: seq<Example>)
      reads this
      ensures forall e :: e in r <==> e in rows && e.owner == organizationId
    {
      Owned(rows, organizationId)
    }

    /** getRlsOrgExampleById: the organization's row with that id, or null. */
    function GetRlsOrgExampleById(id: string, organizationId: string): (r: Option<Example>)
      reads this
      ensures r.None? <==> forall j :: 0 <= j < |rows| ==> rows[j].id != id || rows[j].owner != organizationId
      ensures r.Some? ==> r.value in rows && r.value.id == id && r.value.owner == organizationId
    {
      FindOwned(rows, id, organizationId)
    }

    /** updateRlsOrgExample: patch the organization's row with that id; null and no change otherwise.
        An empty patch throws in `set`, and the error is rethrown. */
    method UpdateRlsOrgExample(id: string, organizationId: string, patch: Patch)
      returns (r: Result<Option<Example>, string>)
      requires Valid()
      modifies this
      ensures Valid()
      ensures r.Err? <==> EmptyPatch(patch)
      ensures r.Err? ==> r.error == TenantClient.NoValuesToSet && rows == old(rows)
      ensures r.Ok? ==> rows == UpdateOwned(old(rows), id, organizationId, patch)
                        && r.value == UpdatedRow(old(rows), id, organizationId, patch)
      ensures r.Ok? && r.value.None? ==> rows == old(rows)
    {
      if EmptyPatch(patch) {
        return Err(TenantClient.NoValuesToSet);
      }
      r := Ok(UpdatedRow(rows, id, organizationId, patch));
      UpdateKeepsUnique(rows, id, organizationId, patch);
      rows := UpdateOwned(rows, id, organizationId, patch);
    }

    /** deleteRlsOrgExample: remove the organization's row with that id; null and no change otherwise. */
    method DeleteRlsOrgExample(id: string, organizationId: string) returns (r: Option<Example>)
      requires Valid()
      modifies this
      ensures Valid()
      ensures rows == RemoveOwned(old(rows), id, organizationId)
      ensures r == FindOwned(old(rows), id, organizationId)
      ensures r.None? ==> rows == old(rows)
    {
      r := FindOwned(rows, id, organizationId);
      RemoveKeepsUnique(rows, id, organizationId);
      if r.None? {
        NothingToRemove(rows, id, organizationId);
      }
      rows := RemoveOwned(rows, id, organizationId);
    }

    /** One pass of streamRlsOrgExamples. */
    method StreamRlsOrgExamplesPass(organizationId: string, failure: Option<string>) returns (items: seq<StreamItem>)
      ensures failure.Some? ==> items == [ErrorItem(failure.value)]
      ensures failure.None? ==>
                |items| == |GetRlsOrgExamples(organizationId)|
                && forall i :: 0 <= i < |items| ==> items[i] == ExampleItem(GetRlsOrgExamples(organizationId)[i])
    {
      items := StreamPass(rows, organizationId, failure);
    }
  }
}
