/** The user-scoped RLS demo API (apps/backend/src/modules/rls_demo/rlsDemo.router.ts): input
    validation, the signed-in caller as owner, and a missing row turned into an error. The caller's
    identity is an input: the signed-in user id, absent for an anonymous request. */
module RlsDemoRouter {
  import opened Wrappers
  import opened OwnedRows
  import opened RlsDemoService
  import TenantClient

  const Unauthorized: string := "Unauthorized"
  /** The text of a rejected input is the validation library's; one fixed message stands for it. */
  const InvalidInput: string := "Invalid input"
  const FailedToUpdate: string := "Failed to update RLS example"
  const FailedToDelete: string := "Failed to delete RLS example"

  /** getUserId: the signed-in user's id; a missing or empty one throws "Unauthorized". */
  function CallerId(auth: Option<string>): (r: Result<string, string>)
    ensures r.Ok? <==> auth.Some? && auth.value != ""
    ensures r.Ok? ==> r.value == auth.value
    ensures r.Err? ==> r.error == Unauthorized
  {
    if auth.None? || auth.value == "" then Err(Unauthorized) else Ok(auth.value)
  }

  /** `content: z.string().min(1).optional()`. */
  predicate ValidOptionalContent(content: Option<string>) {
    content.None? || content.value != ""
  }

  /** create's input check and owner stamping: the data always names the caller as owner. */
  function CreateRequest(auth: Option<string>, content: string, publicToken: Option<string>)
    : (r: Result<NewExample, string>)
    ensures content == "" ==> r == Err(InvalidInput)
    ensures content != "" ==> (r.Ok? <==> CallerId(auth).Ok?)
    ensures content != "" && r.Err? ==> r.error == Unauthorized
    ensures r.Ok? ==> r.value.owner == auth.value && r.value.content == content
                      && r.value.publicToken == publicToken && r.value.id.None?
  {
    if content == "" then Err(InvalidInput)
    else match CallerId(auth)
      case Err(e) => Err(e)
      case Ok(userId) => Ok(NewExample(None, content, userId, publicToken))
  }

  /** update's `{ id, ...data }`: only content and publicToken reach the service, never the owner. */
  function UpdatePatch(content: Option<string>, publicToken: Option<string>): (patch: Patch)
    ensures patch.owner.None? && patch.content == content && patch.publicToken == publicToken
    ensures patch.updatedAt.None?
  {
    Patch(content, None, publicToken, None)
  }

  /** An update through the API keeps every row's id and owner, and leaves every other user's
      listing exactly as it was. */
  lemma RouterUpdateKeepsOwnership(rows: seq<Example>, id: string, userId: string, content: Option<string>,
                                   publicToken: Option<string>, other: string)
    requires other != userId
    ensures var r := UpdateOwned(rows, id, userId, UpdatePatch(content, publicToken));
            (forall j :: 0 <= j < |rows| ==> r[j].id == rows[j].id && r[j].owner == rows[j].owner)
            && Owned(r, other) == Owned(rows, other)
  {
    UpdateIsolated(rows, id, userId, UpdatePatch(content, publicToken), other);
  }

  /** listForUser. */
  function ListForUser(table: RlsExampleTable, auth: Option<string>): (r: Result<seq<Example>, string>)
    reads table
    ensures r.Err? <==> CallerId(auth).Err?
    ensures r.Err? ==> r.error == Unauthorized
    ensures r.Ok? ==> forall e :: e in r.value <==> e in table.rows && e.owner == auth.value
  {
    match CallerId(auth)
    case Err(e) => Err(e)
    case Ok(userId) => Ok(table.GetRlsExamples(userId))
  }

  /** getById: a missing or foreign id is a null result, not an error. */
  function GetById(table: RlsExampleTable, auth: Option<string>, id: string): (r: Result<Option<Example>, string>)
    reads table
    ensures r.Err? <==> CallerId(auth).Err?
    ensures r.Err? ==> r.error == Unauthorized
    ensures r.Ok? ==> (r.value.None? <==> forall j :: 0 <= j < |table.rows| ==>
                                            table.rows[j].id != id || table.rows[j].owner != auth.value)
    ensures r.Ok? && r.value.Some? ==> r.value.value.id == id && r.value.value.owner == auth.value
  {
    match CallerId(auth)
    case Err(e) => Err(e)
    case Ok(userId) => Ok(table.GetRlsExampleById(id, userId))
  }

  /** getByPublicToken: no sign-in needed. */
  function GetByPublicToken(table: RlsExampleTable, token: string): (r: Option<Example>)
    reads table
    ensures r.Some? ==> r.value in table.rows && r.value.publicToken == Some(token)
    ensures r.None? ==> forall j :: 0 <= j < |table.rows| ==> table.rows[j].publicToken != Some(token)
  {
    table.GetRlsExampleByPublicToken(token)
  }

  /** create: the stored row is owned by the caller. */
  method Create(table: RlsExampleTable, auth: Option<string>, content: string, publicToken: Option<string>,
                newId: string, now: Time) returns (r: Result<Example, string>)
    requires table.Valid()
    requires forall j :: 0 <= j < |table.rows| ==> table.rows[j].id != newId
    modifies table
    ensures table.Valid()
    ensures r.Err? <==> CreateRequest(auth, content, publicToken).Err?
    ensures r.Err? ==> r.error == CreateRequest(auth, content, publicToken).error && table.rows == old(table.rows)
    ensures r.Ok? ==> r.value.owner == auth.value && r.value.id == newId && r.value.content == content
                      && table.rows == old(table.rows) + [r.value]
  {
    match CreateRequest(auth, content, publicToken)
    case Err(e) =>
      return Err(e);
    case Ok(data) =>
      var created := table.CreateRlsExample(data, data.owner, newId, now);
      return Ok(created);
  }

  /** update: validation, then the caller, then the scoped update; an id-only input reaches `set`
      with no value and fails there, and no owned row is an error. */
  method Update(table: RlsExampleTable, auth: Option<string>, id: string, content: Option<string>,
                publicToken: Option<string>) returns (r: Result<Example, string>)
    requires table.Valid()
    modifies table
    ensures table.Valid()
    ensures !ValidOptionalContent(content) ==> r == Err(InvalidInput) && table.rows == old(table.rows)
    ensures ValidOptionalContent(content) && CallerId(auth).Err? ==>
              r == Err(Unauthorized) && table.rows == old(table.rows)
    ensures ValidOptionalContent(content) && CallerId(auth).Ok? && content.None? && publicToken.None? ==>
              r == Err(TenantClient.NoValuesToSet) && table.rows == old(table.rows)
    ensures ValidOptionalContent(content) && CallerId(auth).Ok? && (content.Some? || publicToken.Some?) ==>
              table.rows == UpdateOwned(old(table.rows), id, auth.value, UpdatePatch(content, publicToken))
              && (r.Ok? <==> FindOwned(old(table.rows), id, auth.value).Some?)
              && (r.Ok? ==> r.value.id == id && r.value.owner == auth.value)
              && (r.Err? ==> r.error == FailedToUpdate && table.rows == old(table.rows))
  {
    if !ValidOptionalContent(content) {
      return Err(InvalidInput);
    }
    var caller := CallerId(auth);
    if caller.Err? {
      return Err(caller.error);
    }
    var result := table.UpdateRlsExample(id, caller.value, UpdatePatch(content, publicToken));
    if result.Err? {
      return Err(result.error);
    }
    if result.value.None? {
      return Err(FailedToUpdate);
    }
    return Ok(result.value.value);
  }

  /** delete: the caller, then the scoped delete; no owned row is an error. */
  method Delete(table: RlsExampleTable, auth: Option<string>, id: string) returns (r: Result<Example, string>)
    requires table.Valid()
    modifies table
    ensures table.Valid()
    ensures CallerId(auth).Err? ==> r == Err(Unauthorized) && table.rows == old(table.rows)
    ensures CallerId(auth).Ok? ==>
              table.rows == RemoveOwned(old(table.rows), id, auth.value)
              && (r.Ok? <==> FindOwned(old(table.rows), id, auth.value).Some?)
              && (r.Ok? ==> r.value.id == id && r.value.owner == auth.value)
              && (r.Err? ==> r.error == FailedToDelete && table.rows == old(table.rows))
  {
    var caller := CallerId(auth);
    if caller.Err? {
      return Err(caller.error);
    }
    var result := table.DeleteRlsExample(id, caller.value);
    if result.None? {
      return Err(FailedToDelete);
    }
    return Ok(result.value);
  }
}
