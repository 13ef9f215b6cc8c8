/** The GraphQL resolvers over rls_example (apps/backend/src/modules/graphql_demo/rls_demo.ts). A
    resolver set is bound to one user id when it is created, and every resolver filters and writes by
    that id. A storage failure is the `fails` parameter; each resolver then throws its fixed message. */
module GraphqlRlsDemo {
  import opened Wrappers
  import opened OwnedRows
  import opened RlsDemoService

  const FailedToFetchAll: string := "Failed to fetch RLS examples"
  /** The no-transaction variant's message, spelled as in the source. */
  const FailedToFetchAllNoTransaction: string := "Failed to fetch RLS exmaples"
  const FailedToFetchOne: string := "Failed to fetch RLS example"
  const FailedToCreate: string := "Failed to create RLS example"
  const FailedToUpdate: string := "Failed to update RLS example"
  const FailedToDelete: string := "Failed to delete RLS example"

  /** createRlsExampleResolvers(userId). */
  class RlsExampleResolvers {
    const userId: string

    constructor (userId: string)
      ensures this.userId == userId
    {
      this.userId := userId;
    }

    /** getRlsExamples: the bound user's rows. */
    function GetRlsExamples(table: RlsExampleTable, fails: bool): (r: Result<seq<Example>, string>)
      reads table
      ensures fails ==> r == Err(FailedToFetchAll)
      ensures !fails ==> r.Ok? && forall e :: e in r.value <==> e in table.rows && e.owner == userId
    {
      if fails then Err(FailedToFetchAll) else Ok(Owned(table.rows, userId))
    }

    /** getRlsExamplesNoTransaction: the same filter outside a transaction. */
    function GetRlsExamplesNoTransaction(table: RlsExampleTable, fails: bool): (r: Result<seq<Example>, string>)
      reads table
      ensures fails ==> r == Err(FailedToFetchAllNoTransaction)
      ensures !fails ==> r.Ok? && forall e :: e in r.value <==> e in table.rows && e.owner == userId
    {
      if fails then Err(FailedToFetchAllNoTransaction) else Ok(Owned(table.rows, userId))
    }

    /** getRlsExample: null for a missing or foreign id. */
    function GetRlsExample(table: RlsExampleTable, id: string, fails: bool): (r: Result<Option<Example>, string>)
      reads table
      ensures fails ==> r == Err(FailedToFetchOne)
      ensures !fails ==> r.Ok? && (r.value.None? <==> forall j :: 0 <= j < |table.rows| ==>
                                                        !Targets(table.rows[j], id, userId))
      ensures !fails && r.value.Some? ==> r.value.value in table.rows && r.value.value.id == id
                                          && r.value.value.owner == userId
    {
      if fails then Err(FailedToFetchOne) else Ok(FindOwned(table.rows, id, userId))
    }

    /** createRlsExample: the new row always belongs to the bound user, whatever the input. */
    method CreateRlsExample(table: RlsExampleTable, content: string, newId: string, now: Time, fails: bool)
      returns (r: Result<Example, string>)
      requires table.Valid()
      requires forall j :: 0 <= j < |table.rows| ==> table.rows[j].id != newId
      modifies table
      ensures table.Valid()
      ensures fails ==> r == Err(FailedToCreate) && table.rows == old(table.rows)
      ensures !fails ==> r == Ok(Example(newId, content, userId, None, now, Some(now)))
                         && table.rows == old(table.rows) + [r.value]
    {
      if fails {
        return Err(FailedToCreate);
      }
      var example := Example(newId, content, userId, None, now, Some(now));
      table.rows := table.rows + [example];
      return Ok(example);
    }

    /** updateRlsExample: set content and updatedAt on the bound user's row; no such row is an error
        (the not-found error is caught and replaced by the generic message). */
    method UpdateRlsExample(table: RlsExampleTable, id: string, content: string, now: Time, fails: bool)
      returns (r: Result<Example, string>)
      requires table.Valid()
      modifies table
      ensures table.Valid()
      ensures fails ==> r == Err(FailedToUpdate) && table.rows == old(table.rows)
      ensures !fails ==> table.rows == UpdateOwned(old(table.rows), id, userId, ContentPatch(content, now))
      ensures !fails ==> (r.Ok? <==> FindOwned(old(table.rows), id, userId).Some?)
      ensures r.Ok? ==> r.value.id == id && r.value.owner == userId && r.value.content == content
      ensures r.Err? ==> r.error == FailedToUpdate && table.rows == old(table.rows)
    {
      if fails {
        return Err(FailedToUpdate);
      }
      var result := table.UpdateRlsExample(id, userId, ContentPatch(content, now));
      if result.Err? || result.value.None? {
        return Err(FailedToUpdate);
      }
      return Ok(result.value.value);
    }

    /** deleteRlsExample: true exactly when a row of the bound user was removed. */
    method DeleteRlsExample(table: RlsExampleTable, id: string, fails: bool) returns (r: Result<bool, string>)
      requires table.Valid()
      modifies table
      ensures table.Valid()
      ensures fails ==> r == Err(FailedToDelete) && table.rows == old(table.rows)
      ensures !fails ==> table.rows == RemoveOwned(old(table.rows), id, userId)
      ensures !fails ==> r == Ok(|table.rows| < |old(table.rows)|)
    {
      if fails {
        return Err(FailedToDelete);
      }
      RemoveShrinksIffTarget(table.rows, id, userId);
      var removed := table.DeleteRlsExample(id, userId);
      return Ok(removed.Some?);
    }

    /** One tick of rlsExampleUpdates: the bound user's first row, nothing when they have none, or the
        'error' sentinel carrying the bound user id when the read fails. */
    function RlsExampleUpdatesTick(table: RlsExampleTable, now: Time, fails: bool): (r: Option<Example>)
      reads table
      ensures fails ==> r == Some(ErrorSentinel(userId, now))
      ensures !fails ==> (r.None? <==> forall j :: 0 <= j < |table.rows| ==> table.rows[j].owner != userId)
      ensures !fails && r.Some? ==> r.value in table.rows && r.value.owner == userId
      ensures !fails && r.Some? ==> exists j :: FirstOwnedAt(table.rows, userId, j) && table.rows[j] == r.value
    {
      if fails then Some(ErrorSentinel(userId, now))
      else
        var owned := Owned(table.rows, userId);
        FirstOwnedIsFirst(table.rows, userId);
        if |owned| == 0 then None else Some(owned[0])
    }
  }

  /** `set({ content, updatedAt: new Date() })`. */
  function ContentPatch(content: string, now: Time): (patch: Patch)
    ensures patch.owner.None? && patch.content == Some(content) && patch.publicToken.None?
    ensures patch.updatedAt == Some(now)
  {
    Patch(Some(content), None, None, Some(now))
  }

  /** The record the subscription yields when a read fails. */
  function ErrorSentinel(userId: string, now: Time): (e: Example)
    ensures e.id == "error" && e.content == "Error occurred" && e.owner == userId && e.updatedAt.None?
  {
    Example("error", "Error occurred", userId, None, now, None)
  }

  /** The first of the owner's rows in table order: owned by them, with no row of theirs before it. */
  ghost predicate FirstOwnedAt(rows: seq<Example>, owner: string, j: int) {
    0 <= j < |rows| && rows[j].owner == owner && forall k :: 0 <= k < j ==> rows[k].owner != owner
  }

  /** `limit 1` of the owner's rows is the first of them in table order. */
  lemma {:induction false} FirstOwnedIsFirst(rows: seq<Example>, owner: string)
    ensures var owned := Owned(rows, owner);
            (|owned| == 0 <==> forall j :: 0 <= j < |rows| ==> rows[j].owner != owner)
            && (|owned| > 0 ==> exists j :: FirstOwnedAt(rows, owner, j) && rows[j] == owned[0])
    decreases |rows|
  {
    if |rows| > 0 {
      FirstOwnedIsFirst(rows[1..], owner);
      var owned := Owned(rows, owner);
      if rows[0].owner == owner {
        assert FirstOwnedAt(rows, owner, 0);
      } else {
        assert owned == Owned(rows[1..], owner);
        forall j | 0 <= j < |rows| && j > 0
          ensures rows[j] == rows[1..][j - 1]
        {
        }
        if |owned| > 0 {
          var j :| FirstOwnedAt(rows[1..], owner, j) && rows[1..][j] == owned[0];
          assert FirstOwnedAt(rows, owner, j + 1);
        }
      }
    }
  }
}
