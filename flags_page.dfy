/** The flag administration page (apps/frontend/src/app/flags/page.tsx): the toggle-state helpers and
    the guards that decide which request, if any, a click issues. */
module FlagsPage {
  import opened Wrappers

  /** The three levels a flag can be set at. */
  datatype Level = Default | Organization | User

  /** The levels that carry an override (the `"organization" | "user"` parameters). */
  type OverrideLevel = l: Level | l != Default witness Organization

  /** One row of the flag-state query; a null override is `None`. */
  datatype FlagState = FlagState(id: string, name: string, description: string, defaultState: bool,
                                 organizationOverride: Option<bool>, userOverride: Option<bool>,
                                 effectiveState: bool)

  /** The two text inputs at the top of the page. */
  datatype PageInputs = PageInputs(organizationId: string, userId: string)

  /** Arguments of the flag-state query: an empty input is sent as undefined. */
  datatype StateQuery = StateQuery(organizationId: Option<string>, userId: Option<string>)

  /** Arguments of the setFlag mutation. */
  datatype SetFlagRequest = SetFlagRequest(flagId: string, enabled: bool, level: Level,
                                           organizationId: Option<string>, userId: Option<string>)

  /** Arguments of the removeOrganizationFlag and removeUserFlag mutations. */
  datatype RemoveRequest =
    | RemoveOrganizationFlag(flagId: string, organizationId: string)
    | RemoveUserFlag(flagId: string, userId: string)

  const NeedOrganizationId: string := "Please enter an organization ID first"
  const NeedUserId: string := "Please enter a user ID first"

  /** `s || undefined`. */
  function OrUndefined(s: string): (r: Option<string>)
    ensures r.None? <==> s == ""
    ensures r.Some? ==> r.value == s
  {
    if s == "" then None else Some(s)
  }

  /** The arguments of the flag-state query for the current inputs. */
  function FlagStateQuery(inputs: PageInputs): (q: StateQuery)
    ensures q.organizationId.None? <==> inputs.organizationId == ""
    ensures q.userId.None? <==> inputs.userId == ""
    ensures q.organizationId.Some? ==> q.organizationId.value == inputs.organizationId
    ensures q.userId.Some? ==> q.userId.value == inputs.userId
  {
    StateQuery(OrUndefined(inputs.organizationId), OrUndefined(inputs.userId))
  }

  /** getToggleState: the default state at the default level, else that level's override, with a
      null override shown as off. */
  function GetToggleState(state: FlagState, level: Level): (on: bool)
    ensures level == Default ==> on == state.defaultState
    ensures level == Organization ==> (on <==> state.organizationOverride == Some(true))
    ensures level == User ==> (on <==> state.userOverride == Some(true))
  {
    match level
    case Default => state.defaultState
    case Organization => if state.organizationOverride.Some? then state.organizationOverride.value else false
    case User => if state.userOverride.Some? then state.userOverride.value else false
  }

  /** hasOverride: the override at that level is not null. */
  function HasOverride(state: FlagState, level: OverrideLevel): (has: bool)
    ensures has <==> (if level == Organization then state.organizationOverride else state.userOverride).Some?
  {
    if level == Organization then state.organizationOverride != None else state.userOverride != None
  }

  /** A switch without an override is shown off; with one it shows the override's value. */
  lemma ToggleReflectsOverride(state: FlagState, level: OverrideLevel)
    ensures !HasOverride(state, level) ==> !GetToggleState(state, level)
    ensures HasOverride(state, level) ==>
              GetToggleState(state, level)
              == (if level == Organization then state.organizationOverride else state.userOverride).value
  {
  }

  /** handleFlagToggle: the request to issue, or the toast shown when the level's id is missing. */
  function HandleFlagToggle(inputs: PageInputs, flagId: string, level: Level, enabled: bool)
    : (r: Result<SetFlagRequest, string>)
    ensures r.Ok? ==> r.value.flagId == flagId && r.value.enabled == enabled && r.value.level == level
    ensures level == Default ==> r == Ok(SetFlagRequest(flagId, enabled, Default, None, None))
    ensures level == Organization ==>
              (r.Ok? <==> inputs.organizationId != "")
              && (r.Ok? ==> r.value.organizationId == Some(inputs.organizationId) && r.value.userId == None)
              && (r.Err? ==> r.error == NeedOrganizationId)
    ensures level == User ==>
              (r.Ok? <==> inputs.userId != "")
              && (r.Ok? ==> r.value.userId == Some(inputs.userId) && r.value.organizationId == None)
              && (r.Err? ==> r.error == NeedUserId)
  {
    match level
    case Default => Ok(SetFlagRequest(flagId, enabled, Default, None, None))
    case Organization =>
      if inputs.organizationId == "" then Err(NeedOrganizationId)
      else Ok(SetFlagRequest(flagId, enabled, Organization, Some(inputs.organizationId), None))
    case User =>
      if inputs.userId == "" then Err(NeedUserId)
      else Ok(SetFlagRequest(flagId, enabled, User, None, Some(inputs.userId)))
  }

  /** handleRemoveFlag: the removal for the level, carrying only that level's id, or the toast. */
  function HandleRemoveFlag(inputs: PageInputs, flagId: string, level: OverrideLevel): (r: Result<RemoveRequest, string>)
    ensures level == Organization ==>
              (r.Ok? <==> inputs.organizationId != "")
              && (r.Ok? ==> r.value == RemoveOrganizationFlag(flagId, inputs.organizationId))
              && (r.Err? ==> r.error == NeedOrganizationId)
    ensures level == User ==>
              (r.Ok? <==> inputs.userId != "")
              && (r.Ok? ==> r.value == RemoveUserFlag(flagId, inputs.userId))
              && (r.Err? ==> r.error == NeedUserId)
  {
    if level == Organization then
      if inputs.organizationId == "" then Err(NeedOrganizationId)
      else Ok(RemoveOrganizationFlag(flagId, inputs.organizationId))
    else
      if inputs.userId == "" then Err(NeedUserId)
      else Ok(RemoveUserFlag(flagId, inputs.userId))
  }

  /** The id a request for `level` needs, as the state query sees it. */
  function QueryIdFor(q: StateQuery, level: OverrideLevel): Option<string> {
    if level == Organization then q.organizationId else q.userId
  }

  /** A click at an override level issues a request exactly when the state query already carries that
      level's id, and the request carries the same id; toggling and removing share the guard. */
  lemma RequestsFollowQueryScope(inputs: PageInputs, flagId: string, level: OverrideLevel, enabled: bool)
    ensures var q := QueryIdFor(FlagStateQuery(inputs), level);
            var toggle := HandleFlagToggle(inputs, flagId, level, enabled);
            var remove := HandleRemoveFlag(inputs, flagId, level);
            (toggle.Ok? <==> q.Some?) && (remove.Ok? <==> q.Some?)
            && (toggle.Ok? ==> (if level == Organization then toggle.value.organizationId else toggle.value.userId) == q)
            && (remove.Ok? ==> (if level == Organization then remove.value.organizationId else remove.value.userId) == q.value)
  {
  }
}
