/** The row model shared by the two RLS demo tables: rls_example rows are owned by a user, and
    rls_org_example rows by an organization. Every read and write of the demo services is scoped by
    an explicit `owner = …` where-clause; these are those filters and writes over a row sequence. */
module OwnedRows {
  import opened Wrappers

  type Time = int

  /** One row; `owner` is the userId column of rls_example or the organizationId column of
      rls_org_example. A null publicToken or updatedAt is `None`. */
  datatype Example = Example(id: string, content: string, owner: string, publicToken: Option<string>,
                             createdAt: Time, updatedAt: Option<Time>)

  /** The data handed to create; any id it carries is overridden. */
  datatype NewExample = NewExample(id: Option<string>, content: string, owner: string, publicToken: Option<string>)

  /** The columns an update's `set(data)` writes; an absent field keeps its column. */
  datatype Patch = Patch(content: Option<string>, owner: Option<string>, publicToken: Option<string>,
                         updatedAt: Option<Time>)

  /** A patch with no value at all, which the query builder's `set` refuses. */
  predicate EmptyPatch(patch: Patch) {
    patch.content.None? && patch.owner.None? && patch.publicToken.None? && patch.updatedAt.None?
  }

  /** What one pass of a stream yields. */
  datatype StreamItem = ExampleItem(data: Example) | ErrorItem(error: string)

  ghost predicate UniqueIds(rows: seq<Example>) {
    forall a, b :: 0 <= a < b < |rows| ==> rows[a].id != rows[b].id
  }

  /** `and(eq(id, …), eq(owner, …))`. */
  predicate Targets(e: Example, id: string, owner: string) {
    e.id == id && e.owner == owner
  }

  /** `select … where owner = …`: the owner's rows in table order. */
  function Owned(rows: seq<Example>, owner: string): (r: seq<Example>)
    ensures |r| <= |rows|
    ensures forall e :: e in r <==> e in rows && e.owner == owner
  {
    if |rows| == 0 then []
    else
      var rest := Owned(rows[1..], owner);
      assert forall e :: e in rows <==> e == rows[0] || e in rows[1..];
      if rows[0].owner == owner then [rows[0]] + rest else rest
  }

  /** `result[0] || null` of the scoped select by id: the first row with that id and owner. */
  function FindOwned(rows: seq<Example>, id: string, owner: string): (r: Option<Example>)
    ensures r.None? <==> forall j :: 0 <= j < |rows| ==> !Targets(rows[j], id, owner)
    ensures r.Some? ==> r.value in rows && Targets(r.value, id, owner)
  {
    if |rows| == 0 then None
    else if Targets(rows[0], id, owner) then Some(rows[0])
    else
      var r := FindOwned(rows[1..], id, owner);
      assert forall j :: 1 <= j < |rows| ==> rows[j] == rows[1..][j - 1];
      r
  }

  /** The row create inserts: the data with the freshly generated id. */
  function Created(data: NewExample, newId: string, now: Time): (e: Example)
    ensures e.id == newId
    ensures e.content == data.content && e.owner == data.owner && e.publicToken == data.publicToken
  {
    Example(newId, data.content, data.owner, data.publicToken, now, None)
  }

  /** `set(data)` on one row. */
  function ApplyPatch(e: Example, patch: Patch): (r: Example)
    ensures r.id == e.id && r.createdAt == e.createdAt
    ensures r.updatedAt == (if patch.updatedAt.Some? then patch.updatedAt else e.updatedAt)
    ensures r.content == (if patch.content.Some? then patch.content.value else e.content)
    ensures r.owner == (if patch.owner.Some? then patch.owner.value else e.owner)
    ensures r.publicToken == (if patch.publicToken.Some? then patch.publicToken else e.publicToken)
  {
    var e1 := if patch.content.Some? then e.(content := patch.content.value) else e;
    var e2 := if patch.owner.Some? then e1.(owner := patch.owner.value) else e1;
    var e3 := if patch.publicToken.Some? then e2.(publicToken := patch.publicToken) else e2;
    if patch.updatedAt.Some? then e3.(updatedAt := patch.updatedAt) else e3
  }

  /** The scoped update: every row with that id and owner is patched, the others are untouched. */
  function UpdateOwned(rows: seq<Example>, id: string, owner: string, patch: Patch): (r: seq<Example>)
    ensures |r| == |rows|
    ensures forall j :: 0 <= j < |rows| && !Targets(rows[j], id, owner) ==> r[j] == rows[j]
    ensures forall j :: 0 <= j < |rows| && Targets(rows[j], id, owner) ==> r[j] == ApplyPatch(rows[j], patch)
  {
    seq(|rows|, j requires 0 <= j < |rows| => if Targets(rows[j], id, owner) then ApplyPatch(rows[j], patch) else rows[j])
  }

  /** The scoped delete: the rows with that id and owner go, the others stay in order. */
  function RemoveOwned(rows: seq<Example>, id: string, owner: string): (r: seq<Example>)
    ensures |r| <= |rows|
    ensures forall e :: e in r <==> e in rows && !Targets(e, id, owner)
  {
    if |rows| == 0 then []
    else
      var rest := RemoveOwned(rows[1..], id, owner);
      assert forall e :: e in rows <==> e == rows[0] || e in rows[1..];
      if Targets(rows[0], id, owner) then rest else [rows[0]] + rest
  }

  /** With no target, delete removes nothing. */
  lemma {:induction false} NothingToRemove(rows: seq<Example>, id: string, owner: string)
    requires forall j :: 0 <= j < |rows| ==> !Targets(rows[j], id, owner)
    ensures RemoveOwned(rows, id, owner) == rows
    decreases |rows|
  {
    if |rows| > 0 {
      NothingToRemove(rows[1..], id, owner);
      assert [rows[0]] + rows[1..] == rows;
    }
  }

  /** Delete removes something exactly when the owner has a row with that id. */
  lemma {:induction false} RemoveShrinksIffTarget(rows: seq<Example>, id: string, owner: string)
    ensures |RemoveOwned(rows, id, owner)| < |rows| <==> FindOwned(rows, id, owner).Some?
    decreases |rows|
  {
    if |rows| > 0 {
      RemoveShrinksIffTarget(rows[1..], id, owner);
    }
  }

  /** Deleting through one owner leaves every other owner's listing exactly as it was. */
  lemma {:induction false} RemoveIsolated(rows: seq<Example>, id: string, owner: string, other: string)
    requires other != owner
    ensures Owned(RemoveOwned(rows, id, owner), other) == Owned(rows, other)
    decreases |rows|
  {
    if |rows| > 0 {
      RemoveIsolated(rows[1..], id, owner, other);
      var rest := RemoveOwned(rows[1..], id, owner);
      if !Targets(rows[0], id, owner) {
        assert ([rows[0]] + rest)[1..] == rest;
      }
    }
  }

  /** An update that leaves the owner column alone leaves every other owner's listing exactly as it
      was, and keeps ids unique. */
  lemma {:induction false} UpdateIsolated(rows: seq<Example>, id: string, owner: string, patch: Patch, other: string)
    requires other != owner && patch.owner.None?
    ensures Owned(UpdateOwned(rows, id, owner, patch), other) == Owned(rows, other)
    decreases |rows|
  {
    if |rows| > 0 {
      UpdateIsolated(rows[1..], id, owner, patch, other);
      var r := UpdateOwned(rows, id, owner, patch);
      assert r[1..] == UpdateOwned(rows[1..], id, owner, patch);
    }
  }

  /** Updates never change ids, so they keep them unique. */
  lemma UpdateKeepsUnique(rows: seq<Example>, id: string, owner: string, patch: Patch)
    requires UniqueIds(rows)
    ensures UniqueIds(UpdateOwned(rows, id, owner, patch))
  {
    var r := UpdateOwned(rows, id, owner, patch);
    forall a, b | 0 <= a < b < |r|
      ensures r[a].id != r[b].id
    {
      assert r[a].id == rows[a].id && r[b].id == rows[b].id;
    }
  }

  /** Deleting keeps ids unique. */
  lemma {:induction false} RemoveKeepsUnique(rows: seq<Example>, id: string, owner: string)
    requires UniqueIds(rows)
    ensures UniqueIds(RemoveOwned(rows, id, owner))
    decreases |rows|
  {
    if |rows| > 0 {
      RemoveKeepsUnique(rows[1..], id, owner);
      var rest := RemoveOwned(rows[1..], id, owner);
      forall e | e in rest
        ensures e.id != rows[0].id
      {
        var j :| 0 <= j < |rows[1..]| && rows[1..][j] == e;
        assert rows[j + 1] == e;
      }
    }
  }

  /** The row a scoped update returns (`result[0] || null`): the first target, patched. */
  function UpdatedRow(rows: seq<Example>, id: string, owner: string, patch: Patch): (r: Option<Example>)
    ensures r.None? <==> FindOwned(rows, id, owner).None?
    ensures r.Some? ==> r.value.id == id && exists j :: 0 <= j < |rows| && Targets(rows[j], id, owner)
                                                        && r.value == ApplyPatch(rows[j], patch)
  {
    var found := FindOwned(rows, id, owner);
    if found.None? then None
    else
      var j :| 0 <= j < |rows| && rows[j] == found.value;
      Some(ApplyPatch(found.value, patch))
  }

  /** One pass of a stream: the scoped listing, one 'example' item per row in order, or a single
      'error' item when the read fails (`failure` holds its message). */
  method StreamPass(rows: seq<Example>, owner: string, failure: Option<string>) returns (items: seq<StreamItem>)
    ensures failure.Some? ==> items == [ErrorItem(failure.value)]
    ensures failure.None? ==>
              var examples := Owned(rows, owner);
              |items| == |examples| && forall i :: 0 <= i < |items| ==> items[i] == ExampleItem(examples[i])
  {
    if failure.Some? {
      return [ErrorItem(failure.value)];
    }
    var examples := Owned(rows, owner);
    items := [];
    for i := 0 to |examples|
      invariant |items| == i
      invariant forall k :: 0 <= k < i ==> items[k] == ExampleItem(examples[k])
    {
      items := items + [ExampleItem(examples[i])];
    }
  }
}
