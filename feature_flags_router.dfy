/** The feature-flags API procedures (apps/backend/src/modules/featureFlags/featureFlags.router.ts):
    both read the caller's flag map from getUserFeatureFlagsMap. */
module FeatureFlagsRouter {
  import opened FeatureFlags

  /** getUserFlags: the caller's flag map turned into a plain record by `Object.fromEntries`. A record
      keyed by flag name is modelled as a `map` with the same keys and values. */
  function GetUserFlags(flags: seq<Flag>, overrides: seq<UserOverride>, userId: string, storageFails: bool)
    : (record: map<string, bool>)
    ensures storageFails ==> record == map[]
    ensures !storageFails ==> forall n :: n in record <==> !NoFlagNamed(flags, n)
  {
    GetUserFeatureFlagsMap(flags, overrides, userId, storageFails)
  }

  /** isFlagEnabled: `flagsMap.get(flagName) ?? false`. */
  function IsFlagEnabled(flags: seq<Flag>, overrides: seq<UserOverride>, userId: string, storageFails: bool,
                         flagName: string): (enabled: bool)
    ensures var record := GetUserFlags(flags, overrides, userId, storageFails);
            enabled == (flagName in record && record[flagName])
    ensures NoFlagNamed(flags, flagName) ==> !enabled
    ensures storageFails ==> !enabled
  {
    var flagsMap := GetUserFeatureFlagsMap(flags, overrides, userId, storageFails);
    if flagName in flagsMap then flagsMap[flagName] else false
  }

  /** Every value of the record is the flag's resolved state: the user's override, else its default. */
  lemma GetUserFlagsResolves(flags: seq<Flag>, overrides: seq<UserOverride>, userId: string, storageFails: bool)
    requires UniqueNames(flags) && OnePerPair(overrides)
    ensures var record := GetUserFlags(flags, overrides, userId, storageFails);
            forall n :: n in record ==> record[n] == FeatureFlags.IsFlagEnabled(flags, overrides, userId, n, storageFails)
  {
    var record := GetUserFlags(flags, overrides, userId, storageFails);
    forall n | n in record
      ensures record[n] == FeatureFlags.IsFlagEnabled(flags, overrides, userId, n, storageFails)
    {
      BatchAgreesWithSingle(flags, overrides, userId, storageFails, n);
    }
  }

  /** The API's isFlagEnabled gives the same answer as the single-flag resolver, failures included. */
  lemma RouteMatchesResolver(flags: seq<Flag>, overrides: seq<UserOverride>, userId: string, storageFails: bool,
                             flagName: string)
    requires UniqueNames(flags) && OnePerPair(overrides)
    ensures IsFlagEnabled(flags, overrides, userId, storageFails, flagName)
            == FeatureFlags.IsFlagEnabled(flags, overrides, userId, flagName, storageFails)
  {
    BatchAgreesWithSingle(flags, overrides, userId, storageFails, flagName);
  }
}
