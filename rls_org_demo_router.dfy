/** The organization-scoped RLS demo API (apps/backend/src/modules/rls_org_demo/rlsOrgDemo.router.ts):
    every procedure needs a signed-in user with an active organization, and that organization owns
    whatever it creates or touches. */
module RlsOrgDemoRouter {
  import opened Wrappers
  import opened OwnedRows
  import opened RlsOrgDemoService
  import RlsDemoRouter
  import TenantClient

  /** The caller's identity: the signed-in user and their active organization, either possibly absent. */
  datatype Auth = Auth(userId: Option<string>, orgId: Option<string>)

  const OrganizationIdRequired: string := "Organization ID required"
  const FailedToUpdate: string := "Failed to update RLS organization example"
  const FailedToDelete: string := "Failed to delete RLS organization example"

  /** getUserAndOrgId followed by `if (!orgId) throw …`: "Unauthorized" without a user, then
      "Organization ID required" without an organization. */
  function CallerOrg(auth: Auth): (r: Result<string, string>)
    ensures r.Ok? <==> auth.userId.Some? && auth.userId.value != "" && auth.orgId.Some? && auth.orgId.value != ""
    ensures r.Ok? ==> r.value == auth.orgId.value
    ensures r.Err? && auth.userId.Some? && auth.userId.value != "" ==> r.error == OrganizationIdRequired
    ensures (auth.userId.None? || auth.userId.value == "") ==> r == Err(RlsDemoRouter.Unauthorized)
  {
    match RlsDemoRouter.CallerId(auth.userId)
    case Err(e) => Err(e)
    case Ok(_) => if auth.orgId.None? || auth.orgId.value == "" then Err(OrganizationIdRequired) else Ok(auth.orgId.value)
  }

  /** create's input check and organization stamping. */
  function CreateRequest(auth: Auth, content: string, publicToken: Option<string>): (r: Result<NewExample, string>)
    ensures content == "" ==> r == Err(RlsDemoRouter.InvalidInput)
    ensures content != "" ==> (r.Ok? <==> CallerOrg(auth).Ok?)
    ensures content != "" && r.Err? ==> r.error == CallerOrg(auth).error
    ensures r.Ok? ==> r.value.owner == auth.orgId.value && r.value.content == content
                      && r.value.publicToken == publicToken && r.value.id.None?
  {
    if content == "" then Err(RlsDemoRouter.InvalidInput)
    else match CallerOrg(auth)
      case Err(e) => Err(e)
      case Ok(orgId) => Ok(NewExample(None, content, orgId, publicToken))
  }

  /** listForOrganization. */
  function ListForOrganization(table: RlsOrgExampleTable, auth: Auth): (r: Result<seq<Example>, string>)
    reads table
    ensures r.Err? <==> CallerOrg(auth).Err?
    ensures r.Err? ==> r.error == CallerOrg(auth).error
    ensures r.Ok? ==> forall e :: e in r.value <==> e in table.rows && e.owner == auth.orgId.value
  {
    match CallerOrg(auth)
    case Err(e) => Err(e)
    case Ok(orgId) => Ok(table.GetRlsOrgExamples(orgId))
  }

  /** getById: another organization's id is a null result. */
  function GetById(table: RlsOrgExampleTable, auth: Auth, id: string): (r: Result<Option<Example>, string>)
    reads table
    ensures r.Err? <==> CallerOrg(auth).Err?
    ensures r.Err? ==> r.error == CallerOrg(auth).error
    ensures r.Ok? ==> (r.value.None? <==> forall j :: 0 <= j < |table.rows| ==>
                                            table.rows[j].id != id || table.rows[j].owner != auth.orgId.value)
    ensures r.Ok? && r.value.Some? ==> r.value.value.id == id && r.value.value.owner == auth.orgId.value
  {
    match CallerOrg(auth)
    case Err(e) => Err(e)
    case Ok(orgId) => Ok(table.GetRlsOrgExampleById(id, orgId))
  }

  /** create: the stored row belongs to the caller's organization. */
  method Create(table: RlsOrgExampleTable, auth: Auth, content: string, publicToken: Option<string>,
                newId: string, now: Time) returns (r: Result<Example, string>)
    requires table.Valid()
    requires forall j :: 0 <= j < |table.rows| ==> table.rows[j].id != newId
    modifies table
    ensures table.Valid()
    ensures r.Err? <==> CreateRequest(auth, content, publicToken).Err?
    ensures r.Err? ==> r.error == CreateRequest(auth, content, publicToken).error && table.rows == old(table.rows)
    ensures r.Ok? ==> r.value.owner == auth.orgId.value && r.value.id == newId && r.value.content == content
                      && table.rows == old(table.rows) + [r.value]
  {
    match CreateRequest(auth, content, publicToken)
    case Err(e) =>
      return Err(e);
    case Ok(data) =>
      var created := table.CreateRlsOrgExample(data, data.owner, newId, now);
      return Ok(created);
  }

  /** update: only content and publicToken are forwarded, and an id-only input fails in `set`; no
      own-organization row is an error. */
  method Update(table: RlsOrgExampleTable, auth: Auth, id: string, content: Option<string>,
                publicToken: Option<string>) returns (r: Result<Example, string>)
    requires table.Valid()
    modifies table
    ensures table.Valid()
    ensures !RlsDemoRouter.ValidOptionalContent(content) ==>
              r == Err(RlsDemoRouter.InvalidInput) && table.rows == old(table.rows)
    ensures RlsDemoRouter.ValidOptionalContent(content) && CallerOrg(auth).Err? ==>
              r == Err(CallerOrg(auth).error) && table.rows == old(table.rows)
    ensures RlsDemoRouter.ValidOptionalContent(content) && CallerOrg(auth).Ok? && content.None? && publicToken.None? ==>
              r == Err(TenantClient.NoValuesToSet) && table.rows == old(table.rows)
    ensures RlsDemoRouter.ValidOptionalContent(content) && CallerOrg(auth).Ok? && (content.Some? || publicToken.Some?) ==>
              table.rows == UpdateOwned(old(table.rows), id, auth.orgId.value,
                                        RlsDemoRouter.UpdatePatch(content, publicToken))
              && (r.Ok? <==> FindOwned(old(table.rows), id, auth.orgId.value).Some?)
              && (r.Ok? ==> r.value.id == id && r.value.owner == auth.orgId.value)
              && (r.Err? ==> r.error == FailedToUpdate && table.rows == old(table.rows))
  {
    if !RlsDemoRouter.ValidOptionalContent(content) {
      return Err(RlsDemoRouter.InvalidInput);
    }
    var org := CallerOrg(auth);
    if org.Err? {
      return Err(org.error);
    }
    var result := table.UpdateRlsOrgExample(id, org.value, RlsDemoRouter.UpdatePatch(content, publicToken));
    if result.Err? {
      return Err(result.error);
    }
    if result.value.None? {
      return Err(FailedToUpdate);
    }
    return Ok(result.value.value);
  }

  /** delete: no own-organization row is an error. */
  method Delete(table: RlsOrgExampleTable, auth: Auth, id: string) returns (r: Result<Example, string>)
    requires table.Valid()
    modifies table
    ensures table.Valid()
    ensures CallerOrg(auth).Err? ==> r == Err(CallerOrg(auth).error) && table.rows == old(table.rows)
    ensures CallerOrg(auth).Ok? ==>
              table.rows == RemoveOwned(old(table.rows), id, auth.orgId.value)
              && (r.Ok? <==> FindOwned(old(table.rows), id, auth.orgId.value).Some?)
              && (r.Ok? ==> r.value.id == id && r.value.owner == auth.orgId.value)
              && (r.Err? ==> r.error == FailedToDelete && table.rows == old(table.rows))
  {
    var org := CallerOrg(auth);
    if org.Err? {
      return Err(org.error);
    }
    var result := table.DeleteRlsOrgExample(id, org.value);
    if result.None? {
      return Err(FailedToDelete);
    }
    return Ok(result.value);
  }

  /** Nothing reaches the table without an organization: every procedure then fails with the guard's
      error, whatever the input. */
  lemma NoOrganizationNoAccess(table: RlsOrgExampleTable, userId: string, id: string, content: string,
                               publicToken: Option<string>)
    requires userId != ""
    ensures var auth := Auth(Some(userId), None);
            ListForOrganization(table, auth) == Err(OrganizationIdRequired)
            && GetById(table, auth, id) == Err(OrganizationIdRequired)
            && (content != "" ==> CreateRequest(auth, content, publicToken) == Err(OrganizationIdRequired))
  {
  }
}
