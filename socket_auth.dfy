/** Access tokens for socket connections (apps/backend/src/modules/auth/socket_auth.ts): the payload
    builder, the user-id precondition of `build`, and the membership checks on an unpacked token. */
module SocketAuth {
  import opened Wrappers

  /** The three optional id lists of a payload. */
  datatype ListField = Reports | ReportTemplates | Tenants

  /** `Partial<AccessibleResources>`: every field may be absent. */
  datatype Payload = Payload(userId: Option<string>, reportIds: Option<seq<string>>,
                             reportTemplateIds: Option<seq<string>>, tenantIds: Option<seq<string>>)

  /** `AccessibleResources`: a token's resources, with the user id required. */
  datatype AccessibleResources = AccessibleResources(userId: string, reportIds: Option<seq<string>>,
                                                     reportTemplateIds: Option<seq<string>>,
                                                     tenantIds: Option<seq<string>>)

  /** The claims `build` signs: the payload's resources, the issuer and the two times in seconds. */
  datatype TokenClaims = TokenClaims(resources: AccessibleResources, iss: string, iat: int, exp: int)

  /** One builder call. `Append` is withReport / withReportTemplate / withTenant, `Replace` is
      withReports / withReportTemplates / withTenants. */
  datatype BuilderCall = WithUserId(userId: string) | Append(field: ListField, id: string)
                       | Replace(field: ListField, ids: seq<string>)

  const Issuer: string := "sdr-access-token"
  const DefaultTtlSeconds: int := 86400
  const UserIdRequired: string := "user_id is required"

  const EmptyPayload: Payload := Payload(None, None, None, None)

  function GetList(p: Payload, field: ListField): Option<seq<string>> {
    match field
    case Reports => p.reportIds
    case ReportTemplates => p.reportTemplateIds
    case Tenants => p.tenantIds
  }

  function SetList(p: Payload, field: ListField, ids: seq<string>): Payload {
    match field
    case Reports => p.(reportIds := Some(ids))
    case ReportTemplates => p.(reportTemplateIds := Some(ids))
    case Tenants => p.(tenantIds := Some(ids))
  }

  /** The list as it stands, an absent one read as empty. */
  function ListOrEmpty(p: Payload, field: ListField): seq<string> {
    if GetList(p, field).Some? then GetList(p, field).value else []
  }

  /** The payload after one call. Each call touches only its own field: the user id, or one list. */
  function Step(p: Payload, call: BuilderCall): (r: Payload)
    ensures call.WithUserId? ==> r.userId == Some(call.userId)
    ensures !call.WithUserId? ==> r.userId == p.userId
    ensures forall f: ListField :: (call.WithUserId? || call.field != f) ==> GetList(r, f) == GetList(p, f)
    ensures call.Append? ==> GetList(r, call.field) == Some(ListOrEmpty(p, call.field) + [call.id])
    ensures call.Replace? ==> GetList(r, call.field) == Some(call.ids)
  {
    match call
    case WithUserId(u) => p.(userId := Some(u))
    case Append(f, id) => SetList(p, f, ListOrEmpty(p, f) + [id])
    case Replace(f, ids) => SetList(p, f, ids)
  }

  /** The payload after a chain of calls, in order. */
  function Run(p: Payload, calls: seq<BuilderCall>): Payload
    decreases |calls|
  {
    if |calls| == 0 then p else Run(Step(p, calls[0]), calls[1..])
  }

  /** Running two chains one after the other is running their concatenation. */
  lemma {:induction false} RunAppend(p: Payload, a: seq<BuilderCall>, b: seq<BuilderCall>)
    ensures Run(p, a + b) == Run(Run(p, a), b)
    decreases |a|
  {
    if |a| == 0 {
      assert a + b == b;
    } else {
      assert (a + b)[0] == a[0] && (a + b)[1..] == a[1..] + b;
      RunAppend(Step(p, a[0]), a[1..], b);
    }
  }

  /** `ids` pushed one at a time onto `field`. */
  function AppendCalls(field: ListField, ids: seq<string>): (calls: seq<BuilderCall>)
    ensures |calls| == |ids|
    ensures forall i :: 0 <= i < |ids| ==> calls[i] == Append(field, ids[i])
  {
    seq(|ids|, i requires 0 <= i < |ids| => Append(field, ids[i]))
  }

  /** k single-id calls leave the ids at the end of the list in call order, duplicates included,
      creating the list if it was absent; nothing else changes. */
  lemma {:induction false} AppendsKeepCallOrder(p: Payload, field: ListField, ids: seq<string>)
    requires |ids| > 0
    ensures var r := Run(p, AppendCalls(field, ids));
            GetList(r, field) == Some(ListOrEmpty(p, field) + ids)
            && r.userId == p.userId
            && forall f: ListField :: f != field ==> GetList(r, f) == GetList(p, f)
    decreases |ids|
  {
    var calls := AppendCalls(field, ids);
    var q := Step(p, calls[0]);
    assert calls[1..] == AppendCalls(field, ids[1..]);
    if |ids| > 1 {
      AppendsKeepCallOrder(q, field, ids[1..]);
      assert ListOrEmpty(q, field) + ids[1..] == ListOrEmpty(p, field) + ids;
    } else {
      assert calls[1..] == [];
      assert ids == [ids[0]];
    }
  }

  /** A replacing call discards everything earlier calls put in that list. */
  lemma ReplaceDiscardsEarlier(p: Payload, calls: seq<BuilderCall>, field: ListField, ids: seq<string>)
    ensures GetList(Run(p, calls + [Replace(field, ids)]), field) == Some(ids)
  {
    RunAppend(p, calls, [Replace(field, ids)]);
    assert [Replace(field, ids)][1..] == [];
  }

  /** Calls that do not set the user id keep it. */
  lemma {:induction false} RunKeepsUserId(p: Payload, calls: seq<BuilderCall>)
    requires forall i :: 0 <= i < |calls| ==> !calls[i].WithUserId?
    ensures Run(p, calls).userId == p.userId
    decreases |calls|
  {
    if |calls| > 0 {
      RunKeepsUserId(Step(p, calls[0]), calls[1..]);
    }
  }

  /** The last withUserId wins. */
  lemma LastUserIdWins(p: Payload, before: seq<BuilderCall>, userId: string, after: seq<BuilderCall>)
    requires forall i :: 0 <= i < |after| ==> !after[i].WithUserId?
    ensures Run(p, before + [WithUserId(userId)] + after).userId == Some(userId)
  {
    RunAppend(p, before + [WithUserId(userId)], after);
    RunAppend(p, before, [WithUserId(userId)]);
    assert [WithUserId(userId)][1..] == [];
    RunKeepsUserId(Run(p, before + [WithUserId(userId)]), after);
  }

  /** hasAccessToReport / hasAccessToReportTemplate / hasAccessToTenant: the list is present and
      contains the id; an absent list gives false. */
  function HasAccessTo(resources: AccessibleResources, field: ListField, id: string): (has: bool)
    ensures field == Reports ==> (has <==> resources.reportIds.Some? && id in resources.reportIds.value)
    ensures field == ReportTemplates ==>
              (has <==> resources.reportTemplateIds.Some? && id in resources.reportTemplateIds.value)
    ensures field == Tenants ==> (has <==> resources.tenantIds.Some? && id in resources.tenantIds.value)
  {
    var list := match field
      case Reports => resources.reportIds
      case ReportTemplates => resources.reportTemplateIds
      case Tenants => resources.tenantIds;
    if list.Some? then id in list.value else false
  }

  function HasAccessToReport(resources: AccessibleResources, reportId: string): bool {
    HasAccessTo(resources, Reports, reportId)
  }

  function HasAccessToReportTemplate(resources: AccessibleResources, reportTemplateId: string): bool {
    HasAccessTo(resources, ReportTemplates, reportTemplateId)
  }

  function HasAccessToTenant(resources: AccessibleResources, tenantId: string): bool {
    HasAccessTo(resources, Tenants, tenantId)
  }

  /** The builder object: a private payload that each `with…` call updates in place. */
  class AccessTokenBuilder {
    var payload: Payload

    constructor ()
      ensures payload == EmptyPayload
    {
      payload := EmptyPayload;
    }

    method WithUserId(userId: string)
      modifies this
      ensures payload == Step(old(payload), BuilderCall.WithUserId(userId))
    {
      payload := payload.(userId := Some(userId));
    }

    method WithReport(reportId: string)
      modifies this
      ensures payload == Step(old(payload), Append(Reports, reportId))
    {
      if payload.reportIds.None? {
        payload := payload.(reportIds := Some([]));
      }
      payload := payload.(reportIds := Some(payload.reportIds.value + [reportId]));
    }

    method WithReports(reportIds: seq<string>)
      modifies this
      ensures payload == Step(old(payload), Replace(Reports, reportIds))
    {
      payload := payload.(reportIds := Some(reportIds));
    }

    method WithReportTemplate(reportTemplateId: string)
      modifies this
      ensures payload == Step(old(payload), Append(ReportTemplates, reportTemplateId))
    {
      if payload.reportTemplateIds.None? {
        payload := payload.(reportTemplateIds := Some([]));
      }
      payload := payload.(reportTemplateIds := Some(payload.reportTemplateIds.value + [reportTemplateId]));
    }

    method WithReportTemplates(reportTemplateIds: seq<string>)
      modifies this
      ensures payload == Step(old(payload), Replace(ReportTemplates, reportTemplateIds))
    {
      payload := payload.(reportTemplateIds := Some(reportTemplateIds));
    }

    method WithTenant(tenantId: string)
      modifies this
      ensures payload == Step(old(payload), Append(Tenants, tenantId))
    {
      if payload.tenantIds.None? {
        payload := payload.(tenantIds := Some([]));
      }
      payload := payload.(tenantIds := Some(payload.tenantIds.value + [tenantId]));
    }

    method WithTenants(tenantIds: seq<string>)
      modifies this
      ensures payload == Step(old(payload), Replace(Tenants, tenantIds))
    {
      payload := payload.(tenantIds := Some(tenantIds));
    }

    /** build: fails before any signing unless a non-empty user id was set; otherwise the claims
        carry the payload's resources, the fixed issuer, and expire `ttlSeconds` after `nowSeconds`.
        `build()` without an argument is `Build(DefaultTtlSeconds, nowSeconds)`. */
    function Build(ttlSeconds: int, nowSeconds: int): (r: Result<TokenClaims, string>)
      reads this
      ensures r.Err? <==> payload.userId.None? || payload.userId.value == ""
      ensures r.Err? ==> r.error == UserIdRequired
      ensures r.Ok? ==> r.value.resources.userId == payload.userId.value
                        && r.value.resources.reportIds == payload.reportIds
                        && r.value.resources.reportTemplateIds == payload.reportTemplateIds
                        && r.value.resources.tenantIds == payload.tenantIds
                        && r.value.iss == Issuer && r.value.iat == nowSeconds
                        && r.value.exp == nowSeconds + ttlSeconds
    {
      if payload.userId.None? || payload.userId.value == "" then Err(UserIdRequired)
      else Ok(TokenClaims(AccessibleResources(payload.userId.value, payload.reportIds, payload.reportTemplateIds,
                                              payload.tenantIds),
                          Issuer, nowSeconds, nowSeconds + ttlSeconds))
    }
  }

  /** `build()` with the default ttl: a token that expires one day after it was issued. */
  lemma DefaultBuildExpiresInOneDay(b: AccessTokenBuilder, nowSeconds: int)
    ensures var r := b.Build(DefaultTtlSeconds, nowSeconds);
            r.Ok? ==> r.value.iat == nowSeconds && r.value.exp == nowSeconds + 24 * 60 * 60
  {
  }

  /** The resources a token built from `p` carries, when `build` succeeds. */
  function Resources(p: Payload): (r: Option<AccessibleResources>)
    ensures r.Some? <==> p.userId.Some? && p.userId.value != ""
    ensures r.Some? ==> forall f: ListField :: GetList(p, f) == match f
                          case Reports => r.value.reportIds
                          case ReportTemplates => r.value.reportTemplateIds
                          case Tenants => r.value.tenantIds
  {
    if p.userId.None? || p.userId.value == "" then None
    else Some(AccessibleResources(p.userId.value, p.reportIds, p.reportTemplateIds, p.tenantIds))
  }

  /** A token built after pushing `id` grants access to it, whatever later calls that leave the
      list alone do. */
  lemma PushedIdGrantsAccess(p: Payload, before: seq<BuilderCall>, field: ListField, id: string,
                             after: seq<BuilderCall>)
    requires forall i :: 0 <= i < |after| ==> after[i].WithUserId? || after[i].field != field
    requires Resources(Run(p, before + [Append(field, id)] + after)).Some?
    ensures HasAccessTo(Resources(Run(p, before + [Append(field, id)] + after)).value, field, id)
  {
    var mid := Run(p, before + [Append(field, id)]);
    RunAppend(p, before + [Append(field, id)], after);
    RunAppend(p, before, [Append(field, id)]);
    assert [Append(field, id)][1..] == [];
    RunKeepsList(mid, after, field);
    assert id in ListOrEmpty(Run(p, before), field) + [id];
  }

  /** Calls that touch other fields keep a list as it is. */
  lemma {:induction false} RunKeepsList(p: Payload, calls: seq<BuilderCall>, field: ListField)
    requires forall i :: 0 <= i < |calls| ==> calls[i].WithUserId? || calls[i].field != field
    ensures GetList(Run(p, calls), field) == GetList(p, field)
    decreases |calls|
  {
    if |calls| > 0 {
      RunKeepsList(Step(p, calls[0]), calls[1..], field);
    }
  }
}
