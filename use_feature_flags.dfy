/** The client hooks (apps/frontend/src/hooks/useFeatureFlags.ts) over the cached getUserFlags query. */
module UseFeatureFlags {
  import opened Wrappers
  import opened FeatureFlags
  import FeatureFlagsRouter

  /** The query's state: `data` is absent until a response arrives (or after an error). */
  datatype FlagsQuery = FlagsQuery(data: Option<map<string, bool>>, isLoading: bool)

  /** What useFeatureFlags returns, less `error` and the lookup closure. */
  datatype FeatureFlagsHook = FeatureFlagsHook(flags: map<string, bool>, isLoading: bool)

  /** What useFeatureFlag returns. */
  datatype FeatureFlagHook = FeatureFlagHook(isEnabled: bool, isLoading: bool)

  /** useFeatureFlags: absent data defaults to the empty record; the loading flag passes through. */
  function UseFeatureFlags(query: FlagsQuery): (hook: FeatureFlagsHook)
    ensures hook.isLoading == query.isLoading
    ensures query.data.None? ==> hook.flags == map[]
    ensures query.data.Some? ==> hook.flags == query.data.value
  {
    FeatureFlagsHook(if query.data.Some? then query.data.value else map[], query.isLoading)
  }

  /** The hook's isFlagEnabled: `flags[flagName] ?? false`. */
  function IsFlagEnabled(hook: FeatureFlagsHook, flagName: string): (enabled: bool)
    ensures flagName in hook.flags ==> enabled == hook.flags[flagName]
    ensures flagName !in hook.flags ==> !enabled
  {
    if flagName in hook.flags then hook.flags[flagName] else false
  }

  /** useFeatureFlag: one flag's state through useFeatureFlags. */
  function UseFeatureFlag(query: FlagsQuery, flagName: string): (r: FeatureFlagHook)
    ensures r.isLoading == query.isLoading
    ensures query.data.None? ==> !r.isEnabled
    ensures query.data.Some? ==> r.isEnabled == (flagName in query.data.value && query.data.value[flagName])
  {
    var hook := UseFeatureFlags(query);
    FeatureFlagHook(IsFlagEnabled(hook, flagName), hook.isLoading)
  }

  /** Once the query holds the API's record, the client reads exactly what the server resolver would
      answer for the same user: override, else default, else false. */
  lemma HookMatchesResolver(flags: seq<Flag>, overrides: seq<UserOverride>, userId: string, storageFails: bool,
                            isLoading: bool, flagName: string)
    requires UniqueNames(flags) && OnePerPair(overrides)
    ensures var query := FlagsQuery(Some(FeatureFlagsRouter.GetUserFlags(flags, overrides, userId, storageFails)),
                                    isLoading);
            UseFeatureFlag(query, flagName).isEnabled
            == FeatureFlags.IsFlagEnabled(flags, overrides, userId, flagName, storageFails)
  {
    FeatureFlagsRouter.RouteMatchesResolver(flags, overrides, userId, storageFails, flagName);
  }
}
