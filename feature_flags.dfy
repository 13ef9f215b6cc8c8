/** Feature-flag resolution and per-user overrides, over an in-memory copy of the
    `featureFlags` and `userFeatureFlags` tables (apps/backend/src/pkg/util/featureFlags.ts). */
module FeatureFlags {
  import opened Wrappers

  /** An opaque timestamp (`new Date()`). */
  type Time = int

  /** A row of the flags table. */
  datatype Flag = Flag(id: string, name: string, description: string, defaultState: bool,
                       createdAt: Time, updatedAt: Time)

  /** A row of the user-override table. */
  datatype UserOverride = UserOverride(id: string, userId: string, featureFlagId: string, enabled: bool,
                                       createdAt: Time, updatedAt: Time)

  /** One entry of getUserFeatureFlags' answer. */
  datatype FlagView = FlagView(name: string, enabled: bool, description: string)

  // ---------------------------------------------------------------------------
  // Table invariants and search predicates

  ghost predicate UniqueFlagIds(flags: seq<Flag>) {
    forall a, b :: 0 <= a < b < |flags| ==> flags[a].id != flags[b].id
  }

  /** Flag names are unique (the table's uniqueness constraint on `name`). */
  ghost predicate UniqueNames(flags: seq<Flag>) {
    forall a, b :: 0 <= a < b < |flags| ==> flags[a].name != flags[b].name
  }

  ghost predicate UniqueOverrideIds(os: seq<UserOverride>) {
    forall a, b :: 0 <= a < b < |os| ==> os[a].id != os[b].id
  }

  predicate IsOverrideFor(o: UserOverride, userId: string, flagId: string) {
    o.userId == userId && o.featureFlagId == flagId
  }

  /** At most one override row per (user, flag) pair. */
  ghost predicate OnePerPair(os: seq<UserOverride>) {
    forall a, b :: 0 <= a < b < |os| ==>
      !(os[a].userId == os[b].userId && os[a].featureFlagId == os[b].featureFlagId)
  }

  /** `i` is the first row named `name`: the row a `where name = … limit 1` select returns. */
  ghost predicate FirstNamed(flags: seq<Flag>, name: string, i: int) {
    0 <= i < |flags| && flags[i].name == name && forall j :: 0 <= j < i ==> flags[j].name != name
  }

  ghost predicate NoFlagNamed(flags: seq<Flag>, name: string) {
    forall j :: 0 <= j < |flags| ==> flags[j].name != name
  }

  ghost predicate FirstOverride(os: seq<UserOverride>, userId: string, flagId: string, k: int) {
    0 <= k < |os| && IsOverrideFor(os[k], userId, flagId)
    && forall j :: 0 <= j < k ==> !IsOverrideFor(os[j], userId, flagId)
  }

  ghost predicate LastOverride(os: seq<UserOverride>, userId: string, flagId: string, k: int) {
    0 <= k < |os| && IsOverrideFor(os[k], userId, flagId)
    && forall j :: k < j < |os| ==> !IsOverrideFor(os[j], userId, flagId)
  }

  ghost predicate NoOverride(os: seq<UserOverride>, userId: string, flagId: string) {
    forall j :: 0 <= j < |os| ==> !IsOverrideFor(os[j], userId, flagId)
  }

  /** The position of the first flag named `name`, if any. */
  function FindFlag(flags: seq<Flag>, name: string): (r: Option<nat>)
    ensures r.Some? ==> FirstNamed(flags, name, r.value)
    ensures r.None? ==> NoFlagNamed(flags, name)
  {
    if |flags| == 0 then None
    else if flags[0].name == name then Some(0)
    else match FindFlag(flags[1..], name)
      case None => None
      case Some(i) => Some(i + 1)
  }

  /** The position of the first override of `userId` for `flagId`, if any. */
  function FindOverride(os: seq<UserOverride>, userId: string, flagId: string): (r: Option<nat>)
    ensures r.Some? ==> FirstOverride(os, userId, flagId, r.value)
    ensures r.None? ==> NoOverride(os, userId, flagId)
  {
    if |os| == 0 then None
    else if IsOverrideFor(os[0], userId, flagId) then Some(0)
    else match FindOverride(os[1..], userId, flagId)
      case None => None
      case Some(k) => Some(k + 1)
  }

  // ---------------------------------------------------------------------------
  // Resolution

  /** isFlagEnabled: the user's override if there is one, else the flag's default; false for an
      unknown flag and false whenever a storage read fails (`storageFails`). */
  function IsFlagEnabled(flags: seq<Flag>, overrides: seq<UserOverride>, userId: string, flagName: string,
                         storageFails: bool): (enabled: bool)
    ensures storageFails ==> !enabled
    ensures NoFlagNamed(flags, flagName) ==> !enabled
    ensures forall i, k ::
              (!storageFails && FirstNamed(flags, flagName, i) && FirstOverride(overrides, userId, flags[i].id, k))
              ==> enabled == overrides[k].enabled
    ensures forall i ::
              (!storageFails && FirstNamed(flags, flagName, i) && NoOverride(overrides, userId, flags[i].id))
              ==> enabled == flags[i].defaultState
  {
    if storageFails then false
    else match FindFlag(flags, flagName)
      case None => false
      case Some(i) =>
        match FindOverride(overrides, userId, flags[i].id)
        case Some(k) => overrides[k].enabled
        case None => flags[i].defaultState
  }

  /** The `userFlagMap` of getUserFeatureFlags: the user's overrides keyed by flag id. A JavaScript
      Map built from entries keeps the later of two entries with the same key. */
  function OverrideMap(os: seq<UserOverride>, userId: string): (m: map<string, bool>)
    ensures forall f :: f in m <==> !NoOverride(os, userId, f)
    ensures forall f, k :: LastOverride(os, userId, f, k) ==> f in m && m[f] == os[k].enabled
  {
    if |os| == 0 then map[]
    else
      var p, o := os[..|os| - 1], os[|os| - 1];
      assert os == p + [o];
      OverrideMapStep(p, o, userId, OverrideMap(p, userId));
      var m := OverrideMap(p, userId);
      if o.userId == userId then m[o.featureFlagId := o.enabled] else m
  }

  /** The inductive step of OverrideMap: the map of `prefix` updated with the row `o` appended. */
  lemma OverrideMapStep(prefix: seq<UserOverride>, o: UserOverride, userId: string, m: map<string, bool>)
    requires forall f :: f in m <==> !NoOverride(prefix, userId, f)
    requires forall f, k :: LastOverride(prefix, userId, f, k) ==> f in m && m[f] == prefix[k].enabled
    ensures var os, r := prefix + [o], if o.userId == userId then m[o.featureFlagId := o.enabled] else m;
            (forall f :: f in r <==> !NoOverride(os, userId, f))
            && forall f, k :: LastOverride(os, userId, f, k) ==> f in r && r[f] == os[k].enabled
  {
    var os, r := prefix + [o], if o.userId == userId then m[o.featureFlagId := o.enabled] else m;
    assert os[|prefix|] == o;
    forall f
      ensures f in r <==> !NoOverride(os, userId, f)
    {
      if !NoOverride(prefix, userId, f) {
        var j :| 0 <= j < |prefix| && IsOverrideFor(prefix[j], userId, f);
        assert os[j] == prefix[j];
      }
      if !NoOverride(os, userId, f) && !IsOverrideFor(o, userId, f) {
        var j :| 0 <= j < |os| && IsOverrideFor(os[j], userId, f);
        assert prefix[j] == os[j];
      }
    }
    forall f, k | LastOverride(os, userId, f, k)
      ensures f in r && r[f] == os[k].enabled
    {
      if k < |prefix| {
        forall j | k < j < |prefix|
          ensures !IsOverrideFor(prefix[j], userId, f)
        {
          assert os[j] == prefix[j];
        }
        assert LastOverride(prefix, userId, f, k);
      }
    }
  }

  /** getUserFeatureFlags: every flag, in table order, with its effective state; `[]` when a
      storage read fails. */
  function GetUserFeatureFlags(flags: seq<Flag>, overrides: seq<UserOverride>, userId: string,
                               storageFails: bool): (views: seq<FlagView>)
    ensures storageFails ==> views == []
    ensures !storageFails ==> |views| == |flags|
    ensures !storageFails ==> forall i :: 0 <= i < |flags| ==>
              views[i].name == flags[i].name && views[i].description == flags[i].description
    ensures !storageFails ==>
              forall i, k :: 0 <= i < |flags| && LastOverride(overrides, userId, flags[i].id, k)
                ==> views[i].enabled == overrides[k].enabled
    ensures !storageFails ==>
              forall i :: 0 <= i < |flags| && NoOverride(overrides, userId, flags[i].id)
                ==> views[i].enabled == flags[i].defaultState
  {
    if storageFails then []
    else
      var m := OverrideMap(overrides, userId);
      seq(|flags|, i requires 0 <= i < |flags| =>
        FlagView(flags[i].name,
                 if flags[i].id in m then m[flags[i].id] else flags[i].defaultState,
                 flags[i].description))
  }

  ghost predicate LastViewNamed(views: seq<FlagView>, name: string, i: int) {
    0 <= i < |views| && views[i].name == name && forall j :: i < j < |views| ==> views[j].name != name
  }

  /** `new Map(flags.map(flag => [flag.name, flag.enabled]))`: the later of two equal names wins. */
  function ViewsToMap(views: seq<FlagView>): (m: map<string, bool>)
    ensures forall n :: n in m <==> exists i :: 0 <= i < |views| && views[i].name == n
    ensures forall n, i :: LastViewNamed(views, n, i) ==> n in m && m[n] == views[i].enabled
  {
    if |views| == 0 then map[]
    else
      var prefix, v := views[..|views| - 1], views[|views| - 1];
      assert views == prefix + [v];
      ViewsToMapStep(prefix, v, ViewsToMap(prefix));
      ViewsToMap(prefix)[v.name := v.enabled]
  }

  /** The inductive step of ViewsToMap: the map of `prefix` updated with the view `v` appended. */
  lemma ViewsToMapStep(prefix: seq<FlagView>, v: FlagView, m: map<string, bool>)
    requires forall n :: n in m <==> exists i :: 0 <= i < |prefix| && prefix[i].name == n
    requires forall n, i :: LastViewNamed(prefix, n, i) ==> n in m && m[n] == prefix[i].enabled
    ensures var views, r := prefix + [v], m[v.name := v.enabled];
            (forall n :: n in r <==> exists i :: 0 <= i < |views| && views[i].name == n)
            && forall n, i :: LastViewNamed(views, n, i) ==> n in r && r[n] == views[i].enabled
  {
    var views, r := prefix + [v], m[v.name := v.enabled];
    forall n
      ensures n in r <==> exists i :: 0 <= i < |views| && views[i].name == n
    {
      if exists i :: 0 <= i < |views| && views[i].name == n {
        var i :| 0 <= i < |views| && views[i].name == n;
        if i < |prefix| {
          assert prefix[i].name == n;
        }
      }
      if n in r && n != v.name {
        var i :| 0 <= i < |prefix| && prefix[i].name == n;
        assert views[i].name == n;
      }
      if n == v.name {
        assert views[|prefix|].name == n;
      }
    }
    forall n, i | LastViewNamed(views, n, i)
      ensures n in r && r[n] == views[i].enabled
    {
      if i < |prefix| {
        assert views[|prefix|] == v;
        forall j | i < j < |prefix|
          ensures prefix[j].name != n
        {
          assert views[j] == prefix[j];
        }
        assert LastViewNamed(prefix, n, i);
      }
    }
  }

  /** getUserFeatureFlagsMap: flag name to effective state; the empty map when a read fails. */
  function GetUserFeatureFlagsMap(flags: seq<Flag>, overrides: seq<UserOverride>, userId: string,
                                  storageFails: bool): (m: map<string, bool>)
    ensures storageFails ==> m == map[]
    ensures !storageFails ==> forall n :: n in m <==> !NoFlagNamed(flags, n)
  {
    var views := GetUserFeatureFlags(flags, overrides, userId, storageFails);
    var m := ViewsToMap(views);
    assert !storageFails ==> forall n :: (exists i :: 0 <= i < |views| && views[i].name == n) <==> !NoFlagNamed(flags, n);
    m
  }

  /** Per flag, the batch read agrees with the single-flag read when names and (user, flag)
      overrides are unique. */
  lemma ViewMatchesIsFlagEnabled(flags: seq<Flag>, overrides: seq<UserOverride>, userId: string, i: int)
    requires UniqueNames(flags) && OnePerPair(overrides)
    requires 0 <= i < |flags|
    ensures GetUserFeatureFlags(flags, overrides, userId, false)[i].enabled
            == IsFlagEnabled(flags, overrides, userId, flags[i].name, false)
  {
    assert FirstNamed(flags, flags[i].name, i);
    var f := flags[i].id;
    match FindOverride(overrides, userId, f)
    case None =>
    case Some(k) =>
      assert LastOverride(overrides, userId, f, k);
  }

  /** Batch and single-flag paths agree: looking a name up in getUserFeatureFlagsMap with a
      `false` default gives exactly isFlagEnabled, failures included. */
  lemma BatchAgreesWithSingle(flags: seq<Flag>, overrides: seq<UserOverride>, userId: string,
                              storageFails: bool, name: string)
    requires UniqueNames(flags) && OnePerPair(overrides)
    ensures var m := GetUserFeatureFlagsMap(flags, overrides, userId, storageFails);
            (if name in m then m[name] else false) == IsFlagEnabled(flags, overrides, userId, name, storageFails)
  {
    if !storageFails {
      match FindFlag(flags, name)
      case None =>
      case Some(i) =>
        var views := GetUserFeatureFlags(flags, overrides, userId, false);
        assert LastViewNamed(views, name, i);
        ViewMatchesIsFlagEnabled(flags, overrides, userId, i);
    }
  }

  // ---------------------------------------------------------------------------
  // setUserFeatureFlag

  /** `update userFeatureFlags set enabled, updatedAt where id = …`. */
  function SetEnabledById(os: seq<UserOverride>, id: string, enabled: bool, now: Time): (r: seq<UserOverride>)
  {
    seq(|os|, j requires 0 <= j < |os| =>
      if os[j].id == id then os[j].(enabled := enabled, updatedAt := now) else os[j])
  }

  /** The override table after setUserFeatureFlag succeeds: update the existing (user, flag) row,
      else insert a new one with the fresh id `newId`. */
  function UpsertOverride(os: seq<UserOverride>, userId: string, flagId: string, enabled: bool,
                          newId: string, now: Time): seq<UserOverride>
  {
    match FindOverride(os, userId, flagId)
    case Some(k) => SetEnabledById(os, os[k].id, enabled, now)
    case None => os + [UserOverride(newId, userId, flagId, enabled, now, now)]
  }

  /** After the upsert the first (and, in a valid table, only) override of the pair holds `enabled`. */
  lemma UpsertResolves(os: seq<UserOverride>, userId: string, flagId: string, enabled: bool,
                       newId: string, now: Time)
    ensures var r := UpsertOverride(os, userId, flagId, enabled, newId, now);
            exists k :: FirstOverride(r, userId, flagId, k) && r[k].enabled == enabled
  {
    var r := UpsertOverride(os, userId, flagId, enabled, newId, now);
    match FindOverride(os, userId, flagId)
    case Some(k) =>
      assert forall j :: 0 <= j < |os| ==> (IsOverrideFor(r[j], userId, flagId) <==> IsOverrideFor(os[j], userId, flagId));
      assert FirstOverride(r, userId, flagId, k);
    case None =>
      assert FirstOverride(r, userId, flagId, |os|);
  }

  /** The upsert changes no row of another (user, flag) pair, and whatever it appends is for the pair. */
  lemma UpsertLeavesOthers(os: seq<UserOverride>, userId: string, flagId: string, enabled: bool,
                           newId: string, now: Time)
    requires UniqueOverrideIds(os)
    ensures var r := UpsertOverride(os, userId, flagId, enabled, newId, now);
            |os| <= |r| <= |os| + 1
            && (forall j :: 0 <= j < |os| && !IsOverrideFor(os[j], userId, flagId) ==> r[j] == os[j])
            && (forall j :: |os| <= j < |r| ==> IsOverrideFor(r[j], userId, flagId))
  {
    match FindOverride(os, userId, flagId)
    case Some(k) =>
      assert forall j :: 0 <= j < |os| && j != k ==> os[j].id != os[k].id;
    case None =>
  }

  /** The upsert keeps override ids unique and at most one override per (user, flag) pair. */
  lemma UpsertKeepsUnique(os: seq<UserOverride>, userId: string, flagId: string, enabled: bool,
                          newId: string, now: Time)
    requires UniqueOverrideIds(os) && OnePerPair(os)
    requires forall j :: 0 <= j < |os| ==> os[j].id != newId
    ensures var r := UpsertOverride(os, userId, flagId, enabled, newId, now);
            UniqueOverrideIds(r) && OnePerPair(r)
  {
    var r := UpsertOverride(os, userId, flagId, enabled, newId, now);
    match FindOverride(os, userId, flagId)
    case Some(k) =>
      assert forall j :: 0 <= j < |os| ==> r[j].id == os[j].id && r[j].userId == os[j].userId
                                           && r[j].featureFlagId == os[j].featureFlagId;
    case None =>
  }

  /** The flags database: the flags table and the user-override table. */
  class FlagDb {
    var flags: seq<Flag>
    var overrides: seq<UserOverride>

    /** Unique flag ids and names, unique override ids, one override per (user, flag). */
    ghost predicate Valid()
      reads this
    {
      UniqueFlagIds(flags) && UniqueNames(flags) && UniqueOverrideIds(overrides) && OnePerPair(overrides)
    }

    constructor ()
      ensures Valid() && flags == [] && overrides == []
    {
      flags := [];
      overrides := [];
    }

    /** setUserFeatureFlag: false, with nothing written, for an unknown flag or a storage failure;
        otherwise the upsert, after which the target user resolves to `enabled`. `adminUserId` is
        only logged by the source. */
    method SetUserFeatureFlag(adminUserId: string, targetUserId: string, flagName: string, enabled: bool,
                              newId: string, now: Time, storageFails: bool) returns (success: bool)
      requires Valid()
      requires forall j :: 0 <= j < |overrides| ==> overrides[j].id != newId
      modifies this`overrides
      ensures Valid()
      ensures success <==> !storageFails && !NoFlagNamed(flags, flagName)
      ensures !success ==> overrides == old(overrides)
      ensures success ==>
                FindFlag(flags, flagName).Some?
                && overrides == UpsertOverride(old(overrides), targetUserId,
                                               flags[FindFlag(flags, flagName).value].id, enabled, newId, now)
      ensures success ==> IsFlagEnabled(flags, overrides, targetUserId, flagName, false) == enabled
      ensures |old(overrides)| <= |overrides|
      ensures forall j :: 0 <= j < |old(overrides)| && old(overrides)[j].userId != targetUserId
                ==> overrides[j] == old(overrides)[j]
    {
      if storageFails {
        return false;
      }
      var found := FindFlag(flags, flagName);
      if found.None? {
        return false;
      }
      var flag := flags[found.value];
      UpsertResolves(overrides, targetUserId, flag.id, enabled, newId, now);
      UpsertLeavesOthers(overrides, targetUserId, flag.id, enabled, newId, now);
      UpsertKeepsUnique(overrides, targetUserId, flag.id, enabled, newId, now);
      var existing := FindOverride(overrides, targetUserId, flag.id);
      if existing.Some? {
        overrides := SetEnabledById(overrides, overrides[existing.value].id, enabled, now);
      } else {
        overrides := overrides + [UserOverride(newId, targetUserId, flag.id, enabled, now, now)];
      }
      success := true;
    }
  }
}
