# mark-starter core, modelled in Dafny

This project models the rule-carrying core of the mark-starter monorepo, a Hono/tRPC backend with a
Next.js frontend over a Postgres database. Each core file becomes one Dafny module:

- **Feature flags.**
  - Resolution of a flag for a user: the user's override, else the flag's default, and false on any storage failure (`FeatureFlags`).
  - The admin upsert of an override (`FeatureFlags.FlagDb`).
  - The config-driven `applyFeatureFlags` / `resetFeatureFlags` tool (`ApplyFeatureFlags`).
  - The tRPC router that exposes the per-user flag map (`FeatureFlagsRouter`).
  - The React hooks that read the map (`UseFeatureFlags`).
  - The left navigation that hides gated items and marks the active link (`LeftNav`).
  - The flag administration page's toggle helpers and request guards (`FlagsPage`).
- **Scoped data access.**
  - The tenant-scoped Drizzle client (`TenantClient`).
  - The user-scoped and organization-scoped RLS demo services (`RlsDemoService`, `RlsOrgDemoService`, which share `OwnedRows`) and their routers (`RlsDemoRouter`, `RlsOrgDemoRouter`).
  - The user-bound GraphQL resolvers (`GraphqlRlsDemo`).
  - The report, template and section ownership checks (`AccessChecks`).
- **Socket access tokens.** The payload builder with its append and replace list semantics, and the `hasAccessTo*` membership checks (`SocketAuth`).
- **Job progress.** One tick of the BullMQ progress subscription, the polling loop around it, and the `listTasks` input bounds (`BullmqRouter`, with decimal rendering in `Decimal`).

How the model treats the outside world:

- **Tables** are sequences of rows in storage order.
- **Stateful objects** are Dafny classes whose methods update their fields. These are the override and flag tables, the RLS tables, the access-token builder, the tenant client's table and the GraphQL resolver object.
- **Inputs standing in for the outside world:**
  - Storage failures are boolean flags, a set of failing config positions, or an optional error message.
  - Fresh ids (`newId`, `crypto.randomUUID`) are parameters with a freshness precondition.
  - Clock readings are opaque `Time` values.
  - The authenticated caller (`userId`, `orgId`, either possibly absent) is a parameter.

## Model

| member | source | states |
|---|---|---|
| FeatureFlags.FindFlag | apps/backend/src/pkg/util/featureFlags.ts:13-22 | the `limit(1)` flag lookup yields the first flag with the name, or none exists |
| FeatureFlags.FindOverride | apps/backend/src/pkg/util/featureFlags.ts:25-39 | the override lookup yields the first (user, flag) override, or none exists |
| FeatureFlags.IsFlagEnabled | apps/backend/src/pkg/util/featureFlags.ts:10-48 | false on storage failure and for an unknown name; otherwise the user's override when there is one, else the flag's defaultState |
| FeatureFlags.OverrideMap | apps/backend/src/pkg/util/featureFlags.ts:73-75 | the `Map` of the user's overrides has exactly the overridden flag ids as keys, and the last override per flag wins |
| FeatureFlags.OverrideMapStep | apps/backend/src/pkg/util/featureFlags.ts:73-75 | appending one of the user's overrides sets its flag id to its state; another user's row changes nothing |
| FeatureFlags.GetUserFeatureFlags | apps/backend/src/pkg/util/featureFlags.ts:55-87 | `[]` on failure; otherwise one view per flag in table order with its name and description, enabled = override if present else default |
| FeatureFlags.ViewsToMap | apps/backend/src/pkg/util/featureFlags.ts:97 | the name→enabled map has exactly the views' names as keys, and the last view per name wins |
| FeatureFlags.ViewsToMapStep | apps/backend/src/pkg/util/featureFlags.ts:97 | appending one view adds its name with its state, overriding an earlier entry of that name |
| FeatureFlags.GetUserFeatureFlagsMap | apps/backend/src/pkg/util/featureFlags.ts:94-102 | empty map on failure; otherwise its keys are exactly the existing flag names |
| FeatureFlags.ViewMatchesIsFlagEnabled | apps/backend/src/pkg/util/featureFlags.ts:73-82 | with unique names and one override per pair, each batch entry equals the single-flag resolution |
| FeatureFlags.BatchAgreesWithSingle | apps/backend/src/pkg/util/featureFlags.ts:94-102 | `map.get(name) ?? false` equals `isFlagEnabled(user, name)` for every name, failure included |
| FeatureFlags.UpsertResolves | apps/backend/src/pkg/util/featureFlags.ts:131-162 | after the upsert, the first override for (user, flag) carries the new enabled value |
| FeatureFlags.UpsertLeavesOthers | apps/backend/src/pkg/util/featureFlags.ts:131-162 | the upsert adds at most one row, only for that pair, and leaves every other pair's row unchanged |
| FeatureFlags.UpsertKeepsUnique | apps/backend/src/pkg/util/featureFlags.ts:131-162 | unique override ids and at most one override per (user, flag) pair are preserved |
| FeatureFlags.FlagDb.SetUserFeatureFlag | apps/backend/src/pkg/util/featureFlags.ts:112-167 | success iff no failure and the flag exists; on failure nothing is written; on success the table is the upsert, the target user resolves to `enabled`, and other users' rows are unchanged |
| ApplyFeatureFlags.UpdateFlagById | apps/backend/src/tools/applyFeatureFlags.ts:58-65 | the update keeps every row's id and name, and rows with another id are unchanged |
| ApplyFeatureFlags.ApplyCountsBounded | apps/backend/src/tools/applyFeatureFlags.ts:27-97 | created + updated + errors ≤ number of config entries processed |
| ApplyFeatureFlags.ApplyKeepsIdentity | apps/backend/src/tools/applyFeatureFlags.ts:58-65 | no existing flag is removed, and each keeps its id and name |
| ApplyFeatureFlags.ApplyKeepsUnique | apps/backend/src/tools/applyFeatureFlags.ts:36-48 | unique ids and names are preserved, and new rows carry fresh generated ids |
| ApplyFeatureFlags.ApplyLeavesUnconfigured | apps/backend/src/tools/applyFeatureFlags.ts:27-77 | flags not named in the config are untouched |
| ApplyFeatureFlags.ApplyEstablishesConfig | apps/backend/src/tools/applyFeatureFlags.ts:36-68 | after an error-free run every configured name exists with the configured description and default |
| ApplyFeatureFlags.ApplyLeavesRow | apps/backend/src/tools/applyFeatureFlags.ts:27-77 | a single flag whose name no processed entry carries is unchanged after the run, given unique ids at every step |
| ApplyFeatureFlags.ApplyKeepsIds | apps/backend/src/tools/applyFeatureFlags.ts:36-48 | flag ids stay unique after any number of entries |
| ApplyFeatureFlags.ApplyEntryLeavesOthers | apps/backend/src/tools/applyFeatureFlags.ts:28-76 | one entry never changes a row with a different name, because the update is keyed by the matched row's unique id |
| ApplyFeatureFlags.ApplyEntryConfigures | apps/backend/src/tools/applyFeatureFlags.ts:36-68 | one entry that does not fail leaves a row carrying its name, description and default |
| ApplyFeatureFlags.ApplyEntryKeepsConfigured | apps/backend/src/tools/applyFeatureFlags.ts:28-76 | one entry keeps a differently named entry's configured row in place |
| ApplyFeatureFlags.ApplyEntryKeepsUnique | apps/backend/src/tools/applyFeatureFlags.ts:36-65 | one entry keeps ids and names unique and every row's id, and a row it adds carries the fresh id |
| ApplyFeatureFlags.ApplyOnConfiguredIsNoOp | apps/backend/src/tools/applyFeatureFlags.ts:54-71 | flags that already match are neither written nor counted |
| ApplyFeatureFlags.SecondRunIsNoOp | apps/backend/src/tools/applyFeatureFlags.ts:36-57 | a run after an error-free run creates and updates nothing and leaves the table as it was |
| ApplyFeatureFlags.ApplyFeatureFlags | apps/backend/src/tools/applyFeatureFlags.ts:20-98 | the loop leaves the table and summary (created, updated, errors, total = config length) that the per-entry specification gives, and keeps ids and names unique |
| ApplyFeatureFlags.ResetNeverCreates | apps/backend/src/tools/applyFeatureFlags.ts:133-154 | reset never adds or removes a flag and keeps ids and names |
| ApplyFeatureFlags.ResetCountsPresent | apps/backend/src/tools/applyFeatureFlags.ts:133-157 | reset + errors = configured names present in the snapshot (an absent name touches no storage and counts nothing); with no failure, reset equals that number and errors = 0 |
| ApplyFeatureFlags.ResetLeavesUnconfigured | apps/backend/src/tools/applyFeatureFlags.ts:133-154 | reset leaves flags not named in the config untouched |
| ApplyFeatureFlags.ResetFeatureFlags | apps/backend/src/tools/applyFeatureFlags.ts:124-158 | a failing initial list throws with no change; otherwise the table and {reset, errors} follow the per-entry specification (a name found in the snapshot is updated or, when that update fails, counted as an error; a missing name is skipped), and uniqueness is kept |
| ApplyFeatureFlags.ShippedConfigHasDistinctNames | apps/backend/src/tools/applyFeatureFlags.ts:6-12 | the shipped config is the single `dev_pages` entry, so its names are distinct |
| FeatureFlagsRouter.GetUserFlags | apps/backend/src/modules/featureFlags/featureFlags.router.ts:8-14 | the record is empty on failure, and otherwise has exactly the existing flag names as keys |
| FeatureFlagsRouter.IsFlagEnabled | apps/backend/src/modules/featureFlags/featureFlags.router.ts:16-23 | the map's value for a present name and false for an absent one, i.e. `getUserFlags()[n] ?? false` |
| FeatureFlagsRouter.GetUserFlagsResolves | apps/backend/src/modules/featureFlags/featureFlags.router.ts:8-14 | every record entry equals the single-flag resolution |
| FeatureFlagsRouter.RouteMatchesResolver | apps/backend/src/modules/featureFlags/featureFlags.router.ts:16-23 | the route agrees with `isFlagEnabled` of the flag utility for every name |
| UseFeatureFlags.UseFeatureFlags | apps/frontend/src/hooks/useFeatureFlags.ts:4-23 | flags default to `{}` before data arrives, and isLoading is passed through |
| UseFeatureFlags.IsFlagEnabled | apps/frontend/src/hooks/useFeatureFlags.ts:13-15 | the stored boolean for a present key, false for an absent one |
| UseFeatureFlags.UseFeatureFlag | apps/frontend/src/hooks/useFeatureFlags.ts:26-33 | isEnabled is false while no data has arrived and otherwise the map lookup; isLoading is unchanged |
| UseFeatureFlags.HookMatchesResolver | apps/frontend/src/hooks/useFeatureFlags.ts:26-33 | once the record has arrived, the hook agrees with the server-side resolution |
| LeftNav.VisibleItems | apps/frontend/src/components/layout/left_nav.tsx:109-112 | the result is an order-preserving subsequence; ungated items always appear, and gated ones appear iff their flag is enabled |
| LeftNav.IsActive | apps/frontend/src/components/layout/left_nav.tsx:167 | active iff the pathname equals href or continues it with "/" |
| LeftNav.ActivePathExamples | apps/frontend/src/components/layout/left_nav.tsx:167 | Home is active for "/" but not "/users"; "/users" covers "/users/42" but not "/users2" |
| LeftNav.ShippedTableGatesOnlyUsers | apps/frontend/src/components/layout/left_nav.tsx:33-72 | in the shipped table only "Users" is gated, by `dev_pages` |
| LeftNav.VisibleItemsAppend | apps/frontend/src/components/layout/left_nav.tsx:109-112 | the filter distributes over concatenation |
| LeftNav.UngatedAllVisible | apps/frontend/src/components/layout/left_nav.tsx:109-110 | a table without gated items is shown whole |
| LeftNav.ShippedTableVisibility | apps/frontend/src/components/layout/left_nav.tsx:33-112 | with `dev_pages` off the other five items remain in order; with it on, all six |
| LeftNav.RenderNav | apps/frontend/src/components/layout/left_nav.tsx:82-167 | while loading, only 7 placeholders; otherwise one link per visible item, in order, each flagged active per the path test |
| FlagsPage.OrUndefined | apps/frontend/src/app/flags/page.tsx:35-36 | `s \|\| undefined` is absent exactly for the empty string |
| FlagsPage.FlagStateQuery | apps/frontend/src/app/flags/page.tsx:33-38 | empty organization or user inputs are sent as undefined, others as typed |
| FlagsPage.GetToggleState | apps/frontend/src/app/flags/page.tsx:143-154 | default level: defaultState; other levels: that override, with null read as false |
| FlagsPage.HasOverride | apps/frontend/src/app/flags/page.tsx:156-158 | true iff the override at that level is non-null |
| FlagsPage.ToggleReflectsOverride | apps/frontend/src/app/flags/page.tsx:143-158 | with no override the toggle shows off; with one it shows the override's value |
| FlagsPage.HandleFlagToggle | apps/frontend/src/app/flags/page.tsx:89-119 | default level always requests (flagId, enabled, "default"); other levels request iff their id is non-empty and carry only that id; otherwise the level's toast message |
| FlagsPage.HandleRemoveFlag | apps/frontend/src/app/flags/page.tsx:121-141 | the same guard; the request carries only its own level's id |
| FlagsPage.RequestsFollowQueryScope | apps/frontend/src/app/flags/page.tsx:89-141 | a click at an override level issues a request iff the state query carries that level's id, and with the same id |
| SocketAuth.Step | apps/backend/src/modules/auth/socket_auth.ts:39-81 | withUserId overwrites the user id; each append or replace touches only its own list; append adds at the end, creating the list if absent; replace sets the list |
| SocketAuth.AppendsKeepCallOrder | apps/backend/src/modules/auth/socket_auth.ts:44-50 | k appends leave the earlier list followed by the ids in call order, duplicates kept, and nothing else changes |
| SocketAuth.ReplaceDiscardsEarlier | apps/backend/src/modules/auth/socket_auth.ts:52-55 | a replace discards every earlier change to that list |
| SocketAuth.LastUserIdWins | apps/backend/src/modules/auth/socket_auth.ts:39-42 | the last withUserId call decides the user id |
| SocketAuth.HasAccessTo | apps/backend/src/modules/auth/socket_auth.ts:147-157 | true iff the corresponding list is present and contains the id; an absent list gives false |
| SocketAuth.PushedIdGrantsAccess | apps/backend/src/modules/auth/socket_auth.ts:147-157 | an id appended to a list that later calls leave alone grants access in the built resources |
| SocketAuth.Resources | apps/backend/src/modules/auth/socket_auth.ts:5-11 | a payload yields resources iff its user id is set and non-empty, and carries the three lists unchanged |
| SocketAuth.AccessTokenBuilder.constructor | apps/backend/src/modules/auth/socket_auth.ts:37 | the payload starts empty |
| SocketAuth.AccessTokenBuilder.WithUserId | apps/backend/src/modules/auth/socket_auth.ts:39-42 | the payload after the call is one user-id step of the old one |
| SocketAuth.AccessTokenBuilder.WithReport | apps/backend/src/modules/auth/socket_auth.ts:44-50 | the payload after the call is one report append of the old one |
| SocketAuth.AccessTokenBuilder.WithReports | apps/backend/src/modules/auth/socket_auth.ts:52-55 | the payload after the call is one report-list replace of the old one |
| SocketAuth.AccessTokenBuilder.WithReportTemplate | apps/backend/src/modules/auth/socket_auth.ts:57-63 | one template append |
| SocketAuth.AccessTokenBuilder.WithReportTemplates | apps/backend/src/modules/auth/socket_auth.ts:65-68 | one template-list replace |
| SocketAuth.AccessTokenBuilder.WithTenant | apps/backend/src/modules/auth/socket_auth.ts:70-76 | one tenant append |
| SocketAuth.AccessTokenBuilder.WithTenants | apps/backend/src/modules/auth/socket_auth.ts:78-81 | one tenant-list replace |
| SocketAuth.AccessTokenBuilder.Build | apps/backend/src/modules/auth/socket_auth.ts:83-103 | fails with "user_id is required" iff no non-empty user id; otherwise the claims carry the payload, iss "sdr-access-token", iat = now, exp = now + ttl |
| SocketAuth.DefaultBuildExpiresInOneDay | apps/backend/src/modules/auth/socket_auth.ts:83-98 | `build()` without a ttl issues a token that expires 86400 seconds, one day, after it was issued |
| TenantClient.QueryRows | packages/db/src/client.ts:43-53 | the query never returns more rows than the table holds |
| TenantClient.QueryRowsExact | packages/db/src/client.ts:43-53 | the result is exactly the tenant's rows that match every filter pair |
| TenantClient.OtherTenantsInvisible | packages/db/src/client.ts:43-53 | rows of other tenants never change a query's result |
| TenantClient.NoneVisible | packages/db/src/client.ts:43-53 | a table with no row of the tenant queries as empty |
| TenantClient.Stamp | packages/db/src/client.ts:55-60 | the inserted row carries the client's tenantId whatever the data said, and the other columns as given |
| TenantClient.UpdateRowsAsWritten | packages/db/src/client.ts:62-71 | the update as written: only rows matching id and tenant change |
| TenantClient.UpdateAsWrittenLeaksAcrossTenants | packages/db/src/client.ts:62-71 | data carrying a tenantId moves a row out of the client's tenant into another |
| TenantClient.UpdateAsWrittenAgreesWithoutTenant | packages/db/src/client.ts:62-71 | for data without a tenantId the update as written and the corrected update are the same |
| TenantClient.UpdateRows | packages/db/src/client.ts:62-71 | corrected update: only rows matching id and tenant change, they take the data's columns, and every row stays in its tenant |
| TenantClient.DeleteRows | packages/db/src/client.ts:73-80 | exactly the rows matching id and tenant are removed |
| TenantClient.WritesIsolated | packages/db/src/client.ts:62-80 | update and delete leave every other tenant's query results unchanged |
| TenantClient.TenantDrizzleClient.constructor | packages/db/src/client.ts:24-41 | a client is built only for a non-empty tenant id, which it keeps as a constant |
| TenantClient.TenantDrizzleClient.Query | packages/db/src/client.ts:43-53 | exactly the client's tenant's rows that match every filter |
| TenantClient.TenantDrizzleClient.Insert | packages/db/src/client.ts:55-60 | appends the stamped row |
| TenantClient.TenantDrizzleClient.Update | packages/db/src/client.ts:62-71 | as written: empty data fails with "No values to set" and no change; otherwise `.set(data)` on the tenant's row with that id, a tenantId in the data included |
| TenantClient.TenantDrizzleClient.UpdateIsolated | packages/db/src/client.ts:55-71 | the corrected update: the data's tenantId is dropped as `insert` drops it, so the table becomes the tenant-preserving update; no remaining value fails with "No values to set" |
| TenantClient.TenantDrizzleClient.Delete | packages/db/src/client.ts:73-80 | the table becomes the old one without the targeted rows |
| TenantClient.DbForTenant | packages/db/src/client.ts:83-85 | fails with "Tenant ID is required." iff the id is empty, else a fresh client for that tenant |
| OwnedRows.Owned | apps/backend/src/modules/rls_demo/rlsDemo.service.ts:31-42 | exactly the owner's rows |
| OwnedRows.FindOwned | apps/backend/src/modules/rls_demo/rlsDemo.service.ts:44-56 | a row with that id and owner, or null when none exists |
| OwnedRows.Created | apps/backend/src/modules/rls_demo/rlsDemo.service.ts:15-29 | the stored row has the freshly generated id, overriding any supplied one, and the given fields |
| OwnedRows.ApplyPatch | apps/backend/src/modules/rls_demo/rlsDemo.service.ts:58-72 | `set(data)` changes exactly the fields the patch carries; id and createdAt are kept |
| OwnedRows.UpdateOwned | apps/backend/src/modules/rls_demo/rlsDemo.service.ts:58-72 | only rows with that id and owner are patched; all others are unchanged |
| OwnedRows.RemoveOwned | apps/backend/src/modules/rls_demo/rlsDemo.service.ts:74-87 | exactly the rows with that id and owner are removed |
| OwnedRows.NothingToRemove | apps/backend/src/modules/rls_demo/rlsDemo.service.ts:74-87 | a non-owned id removes nothing |
| OwnedRows.RemoveShrinksIffTarget | apps/backend/src/modules/rls_demo/rlsDemo.service.ts:74-87 | the table shrinks iff an owned row matched |
| OwnedRows.RemoveIsolated | apps/backend/src/modules/rls_demo/rlsDemo.service.ts:74-87 | other owners' rows are untouched by a delete |
| OwnedRows.UpdateIsolated | apps/backend/src/modules/rls_demo/rlsDemo.service.ts:58-72 | other owners' rows are untouched by an update that does not set the owner |
| OwnedRows.UpdateKeepsUnique | apps/backend/src/modules/rls_demo/rlsDemo.service.ts:58-72 | unique ids survive an update |
| OwnedRows.RemoveKeepsUnique | apps/backend/src/modules/rls_demo/rlsDemo.service.ts:74-87 | unique ids survive a delete |
| OwnedRows.UpdatedRow | apps/backend/src/modules/rls_demo/rlsDemo.service.ts:58-72 | `result[0] \|\| null`: null iff no owned row matched, else the patched row |
| OwnedRows.StreamPass | apps/backend/src/modules/rls_demo/rlsDemo.service.ts:103-139 | one pass yields the owner's rows in query order, each tagged example; a failed read yields one error item |
| RlsDemoService.RlsExampleTable.CreateRlsExample | apps/backend/src/modules/rls_demo/rlsDemo.service.ts:15-29 | appends the created row with the fresh id, keeping ids unique |
| RlsDemoService.RlsExampleTable.GetRlsExamples | apps/backend/src/modules/rls_demo/rlsDemo.service.ts:31-42 | exactly the caller's rows |
| RlsDemoService.RlsExampleTable.GetRlsExampleById | apps/backend/src/modules/rls_demo/rlsDemo.service.ts:44-56 | null iff the id is missing or owned by another user, else that row |
| RlsDemoService.RlsExampleTable.GetRlsExampleByPublicToken | apps/backend/src/modules/rls_demo/rlsDemo.service.ts:89-101 | a row with that public token, whatever its owner, or null iff none has it |
| RlsDemoService.RlsExampleTable.UpdateRlsExample | apps/backend/src/modules/rls_demo/rlsDemo.service.ts:58-72 | an empty patch fails with "No values to set" and no change; otherwise the table becomes the owned update, with null and no change when no owned row matched |
| RlsDemoService.RlsExampleTable.DeleteRlsExample | apps/backend/src/modules/rls_demo/rlsDemo.service.ts:74-87 | the table loses exactly the owned match; null with no change when there was none |
| RlsDemoService.RlsExampleTable.StreamRlsExamplesPass | apps/backend/src/modules/rls_demo/rlsDemo.service.ts:103-139 | one pass yields the caller's rows in order as example items, or one error item |
| RlsDemoService.FindByPublicToken | apps/backend/src/modules/rls_demo/rlsDemo.service.ts:89-101 | a row carrying the token, or none iff no row carries it |
| RlsOrgDemoService.RlsOrgExampleTable.CreateRlsOrgExample | apps/backend/src/modules/rls_org_demo/rlsOrgDemo.service.ts:14-28 | appends the created row with the fresh id, keeping ids unique |
| RlsOrgDemoService.RlsOrgExampleTable.GetRlsOrgExamples | apps/backend/src/modules/rls_org_demo/rlsOrgDemo.service.ts:30-41 | exactly the organization's rows |
| RlsOrgDemoService.RlsOrgExampleTable.GetRlsOrgExampleById | apps/backend/src/modules/rls_org_demo/rlsOrgDemo.service.ts:43-55 | null iff the id is missing or belongs to another organization |
| RlsOrgDemoService.RlsOrgExampleTable.UpdateRlsOrgExample | apps/backend/src/modules/rls_org_demo/rlsOrgDemo.service.ts:57-71 | an empty patch fails with "No values to set" and no change; otherwise the table becomes the own-org update, with null and no change when no own-org row matched |
| RlsOrgDemoService.RlsOrgExampleTable.DeleteRlsOrgExample | apps/backend/src/modules/rls_org_demo/rlsOrgDemo.service.ts:73-86 | the table loses exactly the own-org match; null with no change otherwise |
| RlsOrgDemoService.RlsOrgExampleTable.StreamRlsOrgExamplesPass | apps/backend/src/modules/rls_org_demo/rlsOrgDemo.service.ts:88-124 | one pass yields the organization's rows in order, or one error item |
| RlsDemoRouter.CallerId | apps/backend/src/pkg/middleware/clerk-auth.ts:21-27 | the caller's id when signed in, else "Unauthorized" |
| RlsDemoRouter.CreateRequest | apps/backend/src/modules/rls_demo/rlsDemo.router.ts:37-51 | empty content is rejected first; otherwise the data always names the caller as owner and carries no id |
| RlsDemoRouter.UpdatePatch | apps/backend/src/modules/rls_demo/rlsDemo.router.ts:54-67 | the forwarded data holds only content and publicToken |
| RlsDemoRouter.RouterUpdateKeepsOwnership | apps/backend/src/modules/rls_demo/rlsDemo.router.ts:54-67 | an update through the router changes no row's id or owner, and no other user's rows |
| RlsDemoRouter.ListForUser | apps/backend/src/modules/rls_demo/rlsDemo.router.ts:20-25 | "Unauthorized" without a caller, else exactly the caller's rows |
| RlsDemoRouter.GetById | apps/backend/src/modules/rls_demo/rlsDemo.router.ts:28-34 | null, not an error, for a missing or foreign id; the owned row otherwise |
| RlsDemoRouter.GetByPublicToken | apps/backend/src/modules/rls_demo/rlsDemo.router.ts:80-85 | without authentication: a row carrying the token, or null |
| RlsDemoRouter.Create | apps/backend/src/modules/rls_demo/rlsDemo.router.ts:37-51 | on success the stored row is owned by the caller and has the fresh id; on any error the table is unchanged |
| RlsDemoRouter.Update | apps/backend/src/modules/rls_demo/rlsDemo.router.ts:54-67 | empty content is rejected and a missing caller is unauthorized; an id-only input fails with "No values to set"; otherwise an owned update, with "Failed to update RLS example" and no change when nothing matched |
| RlsDemoRouter.Delete | apps/backend/src/modules/rls_demo/rlsDemo.router.ts:70-77 | an owned delete, with "Failed to delete RLS example" and no change when nothing matched |
| RlsOrgDemoRouter.CallerOrg | apps/backend/src/pkg/middleware/clerk-auth.ts:29-38 | "Unauthorized" without a user, "Organization ID required" without an organization, else the organization id |
| RlsOrgDemoRouter.CreateRequest | apps/backend/src/modules/rls_org_demo/rlsOrgDemo.router.ts:39-54 | empty content is rejected; otherwise the data is stamped with the caller's organization |
| RlsOrgDemoRouter.ListForOrganization | apps/backend/src/modules/rls_org_demo/rlsOrgDemo.router.ts:20-26 | fails before the service without an organization, else exactly its rows |
| RlsOrgDemoRouter.GetById | apps/backend/src/modules/rls_org_demo/rlsOrgDemo.router.ts:29-36 | fails without an organization; null for another organization's id |
| RlsOrgDemoRouter.Create | apps/backend/src/modules/rls_org_demo/rlsOrgDemo.router.ts:39-54 | the stored row belongs to the caller's organization; on error nothing is stored |
| RlsOrgDemoRouter.Update | apps/backend/src/modules/rls_org_demo/rlsOrgDemo.router.ts:57-71 | forwards only content and publicToken; an id-only input fails with "No values to set"; the error when no own-org row matched |
| RlsOrgDemoRouter.Delete | apps/backend/src/modules/rls_org_demo/rlsOrgDemo.router.ts:74-82 | own-org delete, or the error with no change |
| RlsOrgDemoRouter.NoOrganizationNoAccess | apps/backend/src/modules/rls_org_demo/rlsOrgDemo.router.ts:20-54 | a signed-in caller without an organization gets "Organization ID required" from list, getById and create |
| GraphqlRlsDemo.RlsExampleResolvers.constructor | apps/backend/src/modules/graphql_demo/rls_demo.ts:36 | the resolvers are bound to one user id |
| GraphqlRlsDemo.RlsExampleResolvers.GetRlsExamples | apps/backend/src/modules/graphql_demo/rls_demo.ts:38-52 | exactly the bound user's rows, or "Failed to fetch RLS examples" |
| GraphqlRlsDemo.RlsExampleResolvers.GetRlsExamplesNoTransaction | apps/backend/src/modules/graphql_demo/rls_demo.ts:54-66 | exactly the bound user's rows, or the misspelt "Failed to fetch RLS exmaples" |
| GraphqlRlsDemo.RlsExampleResolvers.GetRlsExample | apps/backend/src/modules/graphql_demo/rls_demo.ts:68-87 | null iff the id is missing or not owned, else the owned row |
| GraphqlRlsDemo.RlsExampleResolvers.CreateRlsExample | apps/backend/src/modules/graphql_demo/rls_demo.ts:90-112 | stores a row owned by the bound user with the fresh id, or fails with no change |
| GraphqlRlsDemo.RlsExampleResolvers.UpdateRlsExample | apps/backend/src/modules/graphql_demo/rls_demo.ts:114-135 | sets content and updatedAt on the owned row only; fails with no change when none matched |
| GraphqlRlsDemo.RlsExampleResolvers.DeleteRlsExample | apps/backend/src/modules/graphql_demo/rls_demo.ts:137-150 | true iff an owned row was removed; other rows are untouched |
| GraphqlRlsDemo.RlsExampleResolvers.RlsExampleUpdatesTick | apps/backend/src/modules/graphql_demo/rls_demo.ts:153-186 | nothing when the user has no rows, the first owned row otherwise, and the error sentinel on failure |
| GraphqlRlsDemo.ContentPatch | apps/backend/src/modules/graphql_demo/rls_demo.ts:119 | the update sets only content and updatedAt |
| GraphqlRlsDemo.ErrorSentinel | apps/backend/src/modules/graphql_demo/rls_demo.ts:177-183 | id "error", content "Error occurred", the bound user id, null updatedAt |
| GraphqlRlsDemo.FirstOwnedIsFirst | apps/backend/src/modules/graphql_demo/rls_demo.ts:161-174 | `limit(1)` of the owner's rows is empty iff the owner has none, else the first of them in table order |
| AccessChecks.UserAccessAllowed | apps/backend/src/modules/auth/access_checks.ts:6-19 | the report only when both id and owner match, else "Report not found or access denied" |
| AccessChecks.UserTemplateAccessAllowed | apps/backend/src/modules/auth/access_checks.ts:22-35 | the template only when owned by the user, else "Template not found or access denied" |
| AccessChecks.UserSectionAccessAllowed | apps/backend/src/modules/auth/access_checks.ts:38-52 | a (section, template) join row iff the section exists and its template is the user's, else "Section not found or access denied" |
| AccessChecks.DenialRevealsNothing | apps/backend/src/modules/auth/access_checks.ts:6-35 | a missing row and a foreign row give the same answer as an empty table |
| AccessChecks.SectionAccessInheritsTemplate | apps/backend/src/modules/auth/access_checks.ts:38-52 | with unique section ids, section access is allowed iff access to its template is |
| BullmqRouter.CountFinished | apps/backend/src/modules/bullmq/bullmq.router.ts:89-92 | finished count ≤ total; it equals the total iff every job is completed or failed, and is 0 iff none is |
| BullmqRouter.Statuses | apps/backend/src/modules/bullmq/bullmq.router.ts:84-86 | the status lookup succeeds iff the queue answers and knows every job, and then gives each job's state in request order |
| BullmqRouter.ProgressTick | apps/backend/src/modules/bullmq/bullmq.router.ts:82-118 | jobIds echoed; completed ≤ total = number of ids; message "<completed> of <total> tasks completed"; a failed round yields (0, 0, "Error checking progress") |
| BullmqRouter.StopsIffAllFinished | apps/backend/src/modules/bullmq/bullmq.router.ts:104-106 | polling stops iff the round succeeded, the list is non-empty and every job has completed or failed |
| BullmqRouter.NeverStopsOnEmptyOrError | apps/backend/src/modules/bullmq/bullmq.router.ts:104-118 | an empty list or a failed round never stops the loop |
| BullmqRouter.MessageShape | apps/backend/src/modules/bullmq/bullmq.router.ts:94 | the message is the completed count in decimal followed by a part that starts with a space and ends with the total in decimal and " tasks completed" |
| BullmqRouter.MessageDeterminesCounts | apps/backend/src/modules/bullmq/bullmq.router.ts:94 | different counts never give the same message |
| BullmqRouter.SubscribeToJobProgress | apps/backend/src/modules/bullmq/bullmq.router.ts:81-121 | one update per round, each the tick of that round; no update before the last stops; it ends early only right after a stopping tick |
| BullmqRouter.ParseListTasksInput | apps/backend/src/modules/bullmq/bullmq.router.ts:62-65 | defaults 20 and 0; accepted iff 1 ≤ limit ≤ 100 and offset ≥ 0; every violated bound is reported |
| BullmqRouter.ListTasksBounds | apps/backend/src/modules/bullmq/bullmq.router.ts:62-65 | omitting both fields gives (20, 0), and every accepted input lies within the bounds |
| Decimal.NatToStringRoundTrip | apps/backend/src/modules/bullmq/bullmq.router.ts:94 | reading the rendered digits back gives the count |
| Decimal.NatToStringInjective | apps/backend/src/modules/bullmq/bullmq.router.ts:94 | distinct counts render differently |

## Left out

- I/O and framework glue: Hono/tRPC servers, CORS, WebSocket, console logging, toasts and React rendering beyond the nav's item list and placeholder count.
- JWT signing and verification in `build` and `unpackAccessToken` are not modelled. The token is treated as opaque and `Build` returns the claims it would sign.
- Clerk authentication and `createRLSClient`: caller identity is an input. Postgres row-security policies are not part of this model; only the explicit where-clauses are.
- Storage failures in the RLS services and routers propagate as thrown errors and are not modelled. The GraphQL resolvers, feature flags, apply/reset tool and stream passes do model them.
- Timers, sleeps, abort signals and the endless loops of the stream functions and `rlsExampleUpdates` are not modelled. One pass or tick is modelled instead. `SubscribeToJobProgress` takes the rounds before the abort as a sequence.
- BullMQ and Redis (task.worker.ts, bullmq.service.ts): job states are inputs, and `addTask`, `getTaskStatus` payloads and `listTasks` paging are not modelled.
- FeatureFlagsRouter.GetUserFlags: the caller's user id is a string. The undefined id that an unauthenticated `auth?.userId` would pass is not modelled.
- BullmqRouter.ParseListTasksInput: JavaScript numbers are modelled as integers, so fractional limits and offsets, which zod's `number()` accepts, are not modelled. Zod's issue messages are reduced to one tag per violated bound.
- The organization-level flag backend (`getFlagState`, `setFlag`, `remove*Flag`) is not part of this model. The flags page is modelled only up to the requests it issues.
- The database schema is not part of this model. Only one column default is assumed: `OwnedRows.Created` stamps createdAt with the insert time and leaves updatedAt null. No other default is modelled, for example an automatic `updatedAt` on update. Otherwise the services store exactly what they are given.
- OwnedRows.ApplyPatch: `Patch` has no id or createdAt field, so an update that changes either is not modelled, although the services' `Partial<NewRlsExample>` accepts one. "id and createdAt are kept" holds because of that restriction; the routers and the resolver never send either field.
- OwnedRows.Created: createdAt = the insert time and a null updatedAt stand for the rls_example and rls_org_example column defaults. Those defaults are assumed, not read from a schema.
- WithReports (SocketAuth.AccessTokenBuilder.WithReports): the source stores the caller's array by reference, so the payload and the caller share it. A later `withReport` push changes the caller's array, and the caller's own changes before `build` reach the token. The model copies the list as a value and captures neither.
- WithReportTemplates (SocketAuth.AccessTokenBuilder.WithReportTemplates): the caller's array is shared in the same way as for `withReports`, and the value model does not capture that sharing.
- WithTenants (SocketAuth.AccessTokenBuilder.WithTenants): the caller's array is shared in the same way as for `withReports`, and the value model does not capture that sharing.
- UseFeatureFlags.IsFlagEnabled: flag names are treated as the record's own keys only. The source reads a plain object, so names such as "constructor", "toString" or "__proto__" return an inherited `Object.prototype` member, even from the default `{}`. The model returns false for them.
- The tenant client's rows are schema-less maps (TenantClient.Row). A filter key that is not a column builds `eq(undefined, value)` in the source; in the model it just matches no row. An update key that is not a column is ignored by the query builder; the model adds it to the row. Values that are `undefined`, which `set` skips, are not modelled.
- Row order after an insert is modelled as appending at the end of storage order; Postgres gives no such guarantee without `ORDER BY`.
- Ids and timestamps (`newId`, `crypto.randomUUID`, `new Date()`) are opaque parameters, and ISO date formatting is left out.

## Findings

| source | as written | input that shows it | evidently intended | confidence | as-written member | corrected member |
|---|---|---|---|---|---|---|
| packages/db/src/client.ts:62-71 | `update` passes `data` to `.set(data)` unchanged, so a `tenantId` inside it is written; `insert` overrides it (lines 55-60) | client for tenant "a", row {id "1", tenantId "a"}, `update(table, "1", {tenantId: "b"})` moves the row to tenant "b" | a tenant-scoped update keeps the row in the client's tenant, like `insert` does | medium, not executed | TenantClient.UpdateAsWrittenLeaksAcrossTenants | TenantClient.WritesIsolated |
