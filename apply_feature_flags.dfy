/** The feature-flag administration script (apps/backend/src/tools/applyFeatureFlags.ts): reconcile a
    configuration list with the flags table, counting what was created, updated or failed. */
module ApplyFeatureFlags {
  import opened Wrappers
  import opened FeatureFlags

  /** One entry of the configuration list. */
  datatype FlagConfig = FlagConfig(name: string, description: string, defaultOn: bool)

  /** FEATURE_FLAGS_CONFIG as shipped. */
  const FeatureFlagsConfig: seq<FlagConfig> := [FlagConfig("dev_pages", "Enable dev pages", false)]

  /** What applyFeatureFlags returns. */
  datatype ApplySummary = ApplySummary(created: nat, updated: nat, errors: nat, total: nat)

  /** What resetFeatureFlags returns. */
  datatype ResetSummary = ResetSummary(reset: nat, errors: nat)

  /** The flags table and the three counters while applyFeatureFlags' loop runs. */
  datatype ApplyState = ApplyState(flags: seq<Flag>, created: nat, updated: nat, errors: nat)

  /** The flags table and the two counters while resetFeatureFlags' loop runs. */
  datatype ResetState = ResetState(flags: seq<Flag>, reset: nat, errors: nat)

  ghost predicate DistinctNames(config: seq<FlagConfig>) {
    forall a, b :: 0 <= a < b < |config| ==> config[a].name != config[b].name
  }

  ghost predicate DistinctIds(ids: seq<string>) {
    forall a, b :: 0 <= a < b < |ids| ==> ids[a] != ids[b]
  }

  /** None of `ids` is already the id of a flag. */
  ghost predicate FreshIds(ids: seq<string>, flags: seq<Flag>) {
    forall a, j :: 0 <= a < |ids| && 0 <= j < |flags| ==> ids[a] != flags[j].id
  }

  /** No entry of `failing` below `n`: a run of `n` entries without a storage error. */
  ghost predicate NoFailures(failing: set<nat>, n: nat) {
    forall i: nat :: i < n ==> i !in failing
  }

  /** Some flag carries `c`'s name, description and default state. */
  ghost predicate Configured(flags: seq<Flag>, c: FlagConfig) {
    exists i :: 0 <= i < |flags| && flags[i].name == c.name
                && flags[i].description == c.description && flags[i].defaultState == c.defaultOn
  }

  ghost predicate NamedInConfig(config: seq<FlagConfig>, name: string) {
    exists c :: c in config && c.name == name
  }

  /** Row `j` of `flags` kept its id, name and creation time in `flags'`. */
  ghost predicate SameIdentity(flags: seq<Flag>, flags': seq<Flag>, j: int)
    requires 0 <= j < |flags| && 0 <= j < |flags'|
  {
    flags'[j].id == flags[j].id && flags'[j].name == flags[j].name && flags'[j].createdAt == flags[j].createdAt
  }

  /** `update featureFlags set description, defaultState, updatedAt where id = …`. */
  function UpdateFlagById(flags: seq<Flag>, id: string, description: string, defaultState: bool,
                          now: Time): (r: seq<Flag>)
    ensures |r| == |flags|
    ensures forall j :: 0 <= j < |r| ==> SameIdentity(flags, r, j)
    ensures forall j :: 0 <= j < |r| && flags[j].id != id ==> r[j] == flags[j]
  {
    seq(|flags|, j requires 0 <= j < |flags| =>
      if flags[j].id == id
      then flags[j].(description := description, defaultState := defaultState, updatedAt := now)
      else flags[j])
  }

  // ---------------------------------------------------------------------------
  // applyFeatureFlags

  /** One pass of applyFeatureFlags' loop body for entry `c`: on a storage error count it and change
      nothing; else create the flag if its name is unknown, update it if its description or default
      differ, and otherwise leave it alone. */
  function ApplyEntry(s: ApplyState, c: FlagConfig, newId: string, fails: bool, now: Time): ApplyState
  {
    if fails then s.(errors := s.errors + 1)
    else match FindFlag(s.flags, c.name)
      case None =>
        s.(flags := s.flags + [Flag(newId, c.name, c.description, c.defaultOn, now, now)], created := s.created + 1)
      case Some(i) =>
        var existing := s.flags[i];
        if existing.description != c.description || existing.defaultState != c.defaultOn
        then s.(flags := UpdateFlagById(s.flags, existing.id, c.description, c.defaultOn, now),
                updated := s.updated + 1)
        else s
  }

  /** The state after the first `k` entries of `config`; entry `i` gets the fresh id `newIds[i]`
      and fails with a storage error when `i in failing`. */
  function ApplyUpTo(flags: seq<Flag>, config: seq<FlagConfig>, newIds: seq<string>, failing: set<nat>,
                     now: Time, k: nat): ApplyState
    requires k <= |config| == |newIds|
  {
    if k == 0 then ApplyState(flags, 0, 0, 0)
    else ApplyEntry(ApplyUpTo(flags, config, newIds, failing, now, k - 1), config[k - 1], newIds[k - 1],
                    k - 1 in failing, now)
  }

  /** Each entry bumps at most one counter: created + updated + errors never exceeds the entries seen. */
  lemma {:induction false} ApplyCountsBounded(flags: seq<Flag>, config: seq<FlagConfig>, newIds: seq<string>,
                                              failing: set<nat>, now: Time, k: nat)
    requires k <= |config| == |newIds|
    ensures var s := ApplyUpTo(flags, config, newIds, failing, now, k);
            s.created + s.updated + s.errors <= k
  {
    if k > 0 {
      ApplyCountsBounded(flags, config, newIds, failing, now, k - 1);
    }
  }

  /** Rows are never removed or reordered, and an update changes only description, default state and
      updatedAt: every existing row keeps its id, name and creation time. */
  lemma {:induction false} ApplyKeepsIdentity(flags: seq<Flag>, config: seq<FlagConfig>, newIds: seq<string>,
                                              failing: set<nat>, now: Time, k: nat)
    requires k <= |config| == |newIds|
    ensures var s := ApplyUpTo(flags, config, newIds, failing, now, k);
            |flags| <= |s.flags| && forall j :: 0 <= j < |flags| ==> SameIdentity(flags, s.flags, j)
  {
    if k > 0 {
      ApplyKeepsIdentity(flags, config, newIds, failing, now, k - 1);
      var p := ApplyUpTo(flags, config, newIds, failing, now, k - 1);
      var s := ApplyUpTo(flags, config, newIds, failing, now, k);
      ApplyEntryKeepsIdentity(p, config[k - 1], newIds[k - 1], k - 1 in failing, now);
      forall j | 0 <= j < |flags|
        ensures SameIdentity(flags, s.flags, j)
      {
        assert SameIdentity(flags, p.flags, j) && SameIdentity(p.flags, s.flags, j);
      }
    }
  }

  lemma ApplyEntryKeepsIdentity(s: ApplyState, c: FlagConfig, newId: string, fails: bool, now: Time)
    ensures var r := ApplyEntry(s, c, newId, fails, now);
            |s.flags| <= |r.flags| && forall j :: 0 <= j < |s.flags| ==> SameIdentity(s.flags, r.flags, j)
  {
    var r := ApplyEntry(s, c, newId, fails, now);
    if !fails {
      match FindFlag(s.flags, c.name)
      case None =>
        forall j | 0 <= j < |s.flags|
          ensures SameIdentity(s.flags, r.flags, j)
        {
          assert r.flags[j] == s.flags[j];
        }
      case Some(i) =>
    }
  }

  /** Applying keeps flag ids and names unique, provided the ids it draws are fresh and distinct;
      every id in the table is an old one or one of the ids drawn so far. */
  lemma {:induction false} ApplyKeepsUnique(flags: seq<Flag>, config: seq<FlagConfig>, newIds: seq<string>,
                                            failing: set<nat>, now: Time, k: nat)
    requires k <= |config| == |newIds|
    requires UniqueFlagIds(flags) && UniqueNames(flags)
    requires DistinctIds(newIds) && FreshIds(newIds, flags)
    ensures var s := ApplyUpTo(flags, config, newIds, failing, now, k);
            UniqueFlagIds(s.flags) && UniqueNames(s.flags)
            && forall j :: |flags| <= j < |s.flags| ==> s.flags[j].id in newIds[..k]
  {
    if k > 0 {
      ApplyKeepsUnique(flags, config, newIds, failing, now, k - 1);
      ApplyKeepsIdentity(flags, config, newIds, failing, now, k - 1);
      var p := ApplyUpTo(flags, config, newIds, failing, now, k - 1);
      var s := ApplyUpTo(flags, config, newIds, failing, now, k);
      var id := newIds[k - 1];
      forall j | 0 <= j < |p.flags|
        ensures p.flags[j].id != id
      {
        if j >= |flags| {
          assert p.flags[j].id in newIds[..k - 1];
          var a :| 0 <= a < k - 1 && newIds[a] == p.flags[j].id;
        } else {
          assert SameIdentity(flags, p.flags, j);
        }
      }
      ApplyEntryKeepsUnique(p, config[k - 1], id, k - 1 in failing, now);
      forall j | |flags| <= j < |s.flags|
        ensures s.flags[j].id in newIds[..k]
      {
        if j < |p.flags| {
          assert p.flags[j].id in newIds[..k - 1];
        } else {
          assert newIds[k - 1] == id;
        }
      }
    }
  }

  /** One entry keeps ids and names unique when its fresh id is not yet in the table; a row it adds
      carries that id. */
  lemma ApplyEntryKeepsUnique(s: ApplyState, c: FlagConfig, newId: string, fails: bool, now: Time)
    requires UniqueFlagIds(s.flags) && UniqueNames(s.flags)
    requires forall j :: 0 <= j < |s.flags| ==> s.flags[j].id != newId
    ensures var r := ApplyEntry(s, c, newId, fails, now);
            UniqueFlagIds(r.flags) && UniqueNames(r.flags) && |s.flags| <= |r.flags|
            && (forall j :: 0 <= j < |s.flags| ==> r.flags[j].id == s.flags[j].id)
            && forall j :: |s.flags| <= j < |r.flags| ==> r.flags[j].id == newId
  {
    if !fails {
      match FindFlag(s.flags, c.name)
      case None =>
      case Some(i) =>
    }
  }

  /** The part of ApplyKeepsUnique about ids alone. */
  lemma ApplyKeepsIds(flags: seq<Flag>, config: seq<FlagConfig>, newIds: seq<string>, failing: set<nat>,
                      now: Time, k: nat)
    requires k <= |config| == |newIds|
    requires UniqueFlagIds(flags) && UniqueNames(flags)
    requires DistinctIds(newIds) && FreshIds(newIds, flags)
    ensures UniqueFlagIds(ApplyUpTo(flags, config, newIds, failing, now, k).flags)
  {
    ApplyKeepsUnique(flags, config, newIds, failing, now, k);
  }

  /** Rows whose name is in no configuration entry are left exactly as they were. */
  lemma {:induction false} ApplyLeavesUnconfigured(flags: seq<Flag>, config: seq<FlagConfig>, newIds: seq<string>,
                                                   failing: set<nat>, now: Time, k: nat)
    requires k <= |config| == |newIds|
    requires UniqueFlagIds(flags) && UniqueNames(flags)
    requires DistinctIds(newIds) && FreshIds(newIds, flags)
    ensures var s := ApplyUpTo(flags, config, newIds, failing, now, k);
            |flags| <= |s.flags|
            && forall j :: 0 <= j < |flags| && !NamedInConfig(config[..k], flags[j].name) ==> s.flags[j] == flags[j]
  {
    ApplyKeepsIdentity(flags, config, newIds, failing, now, k);
    forall m | 0 <= m < k
      ensures UniqueFlagIds(ApplyUpTo(flags, config, newIds, failing, now, m).flags)
    {
      ApplyKeepsIds(flags, config, newIds, failing, now, m);
    }
    forall j | 0 <= j < |flags| && !NamedInConfig(config[..k], flags[j].name)
      ensures ApplyUpTo(flags, config, newIds, failing, now, k).flags[j] == flags[j]
    {
      forall a | 0 <= a < k
        ensures config[a].name != flags[j].name
      {
        assert config[a] in config[..k];
      }
      ApplyLeavesRow(flags, config, newIds, failing, now, k, j);
    }
  }

  /** ApplyLeavesUnconfigured for one row `j`. */
  lemma {:induction false} ApplyLeavesRow(flags: seq<Flag>, config: seq<FlagConfig>, newIds: seq<string>,
                                          failing: set<nat>, now: Time, k: nat, j: int)
    requires k <= |config| == |newIds|
    requires forall m :: 0 <= m < k ==> UniqueFlagIds(ApplyUpTo(flags, config, newIds, failing, now, m).flags)
    requires 0 <= j < |flags| && forall a :: 0 <= a < k ==> config[a].name != flags[j].name
    ensures var s := ApplyUpTo(flags, config, newIds, failing, now, k);
            j < |s.flags| && s.flags[j] == flags[j]
  {
    if k > 0 {
      ApplyLeavesRow(flags, config, newIds, failing, now, k - 1, j);
      var p := ApplyUpTo(flags, config, newIds, failing, now, k - 1);
      ApplyEntryLeavesOthers(p, config[k - 1], newIds[k - 1], k - 1 in failing, now, j);
    }
  }

  /** One entry never touches a row whose name is not the entry's. */
  lemma ApplyEntryLeavesOthers(s: ApplyState, c: FlagConfig, newId: string, fails: bool, now: Time, j: int)
    requires UniqueFlagIds(s.flags) && 0 <= j < |s.flags| && s.flags[j].name != c.name
    ensures var r := ApplyEntry(s, c, newId, fails, now);
            j < |r.flags| && r.flags[j] == s.flags[j]
  {
    if !fails {
      match FindFlag(s.flags, c.name)
      case None =>
      case Some(i) =>
        assert s.flags[i].id != s.flags[j].id;
    }
  }

  /** After an error-free run over distinct names, every entry seen so far is in the table with its
      configured description and default state. */
  lemma {:induction false} ApplyEstablishesConfig(flags: seq<Flag>, config: seq<FlagConfig>, newIds: seq<string>,
                                                  failing: set<nat>, now: Time, k: nat)
    requires k <= |config| == |newIds|
    requires UniqueFlagIds(flags) && UniqueNames(flags)
    requires DistinctIds(newIds) && FreshIds(newIds, flags)
    requires DistinctNames(config) && NoFailures(failing, k)
    ensures var s := ApplyUpTo(flags, config, newIds, failing, now, k);
            forall c :: c in config[..k] ==> Configured(s.flags, c)
  {
    if k > 0 {
      ApplyEstablishesConfig(flags, config, newIds, failing, now, k - 1);
      ApplyKeepsUnique(flags, config, newIds, failing, now, k - 1);
      var p := ApplyUpTo(flags, config, newIds, failing, now, k - 1);
      var c := config[k - 1];
      assert k - 1 !in failing;
      assert config[..k] == config[..k - 1] + [c];
      forall d | d in config[..k]
        ensures Configured(ApplyUpTo(flags, config, newIds, failing, now, k).flags, d)
      {
        if d == c {
          ApplyEntryConfigures(p, c, newIds[k - 1], now);
        } else {
          assert d in config[..k - 1];
          var a :| 0 <= a < k - 1 && config[a] == d;
          ApplyEntryKeepsConfigured(p, c, newIds[k - 1], false, now, d);
        }
      }
    }
  }

  /** An entry that does not fail leaves its flag in the table as configured. */
  lemma ApplyEntryConfigures(s: ApplyState, c: FlagConfig, newId: string, now: Time)
    ensures Configured(ApplyEntry(s, c, newId, false, now).flags, c)
  {
    var r := ApplyEntry(s, c, newId, false, now);
    match FindFlag(s.flags, c.name)
    case None =>
      assert r.flags[|s.flags|].name == c.name;
    case Some(i) =>
      assert r.flags[i].name == c.name;
  }

  /** An entry keeps every other entry's configuration in place. */
  lemma ApplyEntryKeepsConfigured(s: ApplyState, c: FlagConfig, newId: string, fails: bool, now: Time,
                                  d: FlagConfig)
    requires UniqueFlagIds(s.flags) && Configured(s.flags, d) && d.name != c.name
    ensures Configured(ApplyEntry(s, c, newId, fails, now).flags, d)
  {
    var j :| 0 <= j < |s.flags| && s.flags[j].name == d.name
             && s.flags[j].description == d.description && s.flags[j].defaultState == d.defaultOn;
    ApplyEntryLeavesOthers(s, c, newId, fails, now, j);
    assert ApplyEntry(s, c, newId, fails, now).flags[j] == s.flags[j];
  }

  /** A run over a table where every configured entry is already in place, with unique names,
      creates nothing, updates nothing and leaves the table as it was, whatever fails. */
  lemma {:induction false} ApplyOnConfiguredIsNoOp(flags: seq<Flag>, config: seq<FlagConfig>, newIds: seq<string>,
                                                   failing: set<nat>, now: Time, k: nat)
    requires k <= |config| == |newIds|
    requires UniqueNames(flags)
    requires forall c :: c in config ==> Configured(flags, c)
    ensures var s := ApplyUpTo(flags, config, newIds, failing, now, k);
            s.flags == flags && s.created == 0 && s.updated == 0
  {
    if k > 0 {
      ApplyOnConfiguredIsNoOp(flags, config, newIds, failing, now, k - 1);
      var c := config[k - 1];
      assert Configured(flags, c);
      if k - 1 !in failing {
        match FindFlag(flags, c.name)
        case None =>
        case Some(i) =>
      }
    }
  }

  /** Idempotence: right after an error-free run, a second run reports nothing created and nothing
      updated and leaves the table unchanged. */
  lemma SecondRunIsNoOp(flags: seq<Flag>, config: seq<FlagConfig>, newIds: seq<string>, failing: set<nat>,
                        now: Time, newIds2: seq<string>, failing2: set<nat>, now2: Time)
    requires |config| == |newIds| == |newIds2|
    requires UniqueFlagIds(flags) && UniqueNames(flags)
    requires DistinctIds(newIds) && FreshIds(newIds, flags)
    requires DistinctNames(config) && NoFailures(failing, |config|)
    ensures var first := ApplyUpTo(flags, config, newIds, failing, now, |config|);
            var second := ApplyUpTo(first.flags, config, newIds2, failing2, now2, |config|);
            second.created == 0 && second.updated == 0 && second.flags == first.flags
  {
    var first := ApplyUpTo(flags, config, newIds, failing, now, |config|);
    ApplyEstablishesConfig(flags, config, newIds, failing, now, |config|);
    ApplyKeepsUnique(flags, config, newIds, failing, now, |config|);
    assert config[..|config|] == config;
    ApplyOnConfiguredIsNoOp(first.flags, config, newIds2, failing2, now2, |config|);
  }

  /** applyFeatureFlags over `config` (FeatureFlagsConfig in the shipped script): a `for` loop that
      reads, inserts or updates one flag per entry and counts the outcome. */
  method ApplyFeatureFlags(db: FlagDb, config: seq<FlagConfig>, newIds: seq<string>, failing: set<nat>,
                           now: Time) returns (summary: ApplySummary)
    requires db.Valid()
    requires |newIds| == |config|
    requires DistinctIds(newIds) && FreshIds(newIds, db.flags)
    modifies db`flags
    ensures db.Valid()
    ensures var s := ApplyUpTo(old(db.flags), config, newIds, failing, now, |config|);
            db.flags == s.flags && summary == ApplySummary(s.created, s.updated, s.errors, |config|)
  {
    var createdCount, updatedCount, errorCount := 0, 0, 0;
    for i := 0 to |config|
      invariant var s := ApplyUpTo(old(db.flags), config, newIds, failing, now, i);
                db.flags == s.flags && createdCount == s.created && updatedCount == s.updated
                && errorCount == s.errors
    {
      var flagConfig := config[i];
      if i in failing {
        errorCount := errorCount + 1;
      } else {
        var existing := FindFlag(db.flags, flagConfig.name);
        if existing.None? {
          db.flags := db.flags + [Flag(newIds[i], flagConfig.name, flagConfig.description, flagConfig.defaultOn,
                                       now, now)];
          createdCount := createdCount + 1;
        } else {
          var flag := db.flags[existing.value];
          if flag.description != flagConfig.description || flag.defaultState != flagConfig.defaultOn {
            db.flags := UpdateFlagById(db.flags, flag.id, flagConfig.description, flagConfig.defaultOn, now);
            updatedCount := updatedCount + 1;
          }
        }
      }
    }
    ApplyKeepsUnique(old(db.flags), config, newIds, failing, now, |config|);
    summary := ApplySummary(createdCount, updatedCount, errorCount, |config|);
  }

  // ---------------------------------------------------------------------------
  // resetFeatureFlags

  /** One pass of resetFeatureFlags' loop body for entry `c`: look the name up in the snapshot read
      before the loop and, when found, overwrite description and default state. Only that update
      touches storage, so only an entry whose name is found can count an error (`fails`). */
  function ResetEntry(s: ResetState, snapshot: seq<Flag>, c: FlagConfig, fails: bool, now: Time): ResetState
  {
    match FindFlag(snapshot, c.name)
    case None => s
    case Some(i) =>
      if fails then s.(errors := s.errors + 1)
      else s.(flags := UpdateFlagById(s.flags, snapshot[i].id, c.description, c.defaultOn, now), reset := s.reset + 1)
  }

  /** The state after the first `k` entries, starting from the snapshot. */
  function ResetUpTo(snapshot: seq<Flag>, config: seq<FlagConfig>, failing: set<nat>, now: Time, k: nat): ResetState
    requires k <= |config|
  {
    if k == 0 then ResetState(snapshot, 0, 0)
    else ResetEntry(ResetUpTo(snapshot, config, failing, now, k - 1), snapshot, config[k - 1], k - 1 in failing, now)
  }

  /** How many entries of `config` name a flag of `flags`. */
  ghost function CountPresent(config: seq<FlagConfig>, flags: seq<Flag>): nat
  {
    if |config| == 0 then 0
    else CountPresent(config[..|config| - 1], flags) + (if NoFlagNamed(flags, config[|config| - 1].name) then 0 else 1)
  }

  /** Reset never creates or removes a flag and never changes an id, a name or a creation time. */
  lemma {:induction false} ResetNeverCreates(snapshot: seq<Flag>, config: seq<FlagConfig>, failing: set<nat>,
                                             now: Time, k: nat)
    requires k <= |config|
    ensures var s := ResetUpTo(snapshot, config, failing, now, k);
            |s.flags| == |snapshot| && forall j :: 0 <= j < |snapshot| ==> SameIdentity(snapshot, s.flags, j)
  {
    if k > 0 {
      ResetNeverCreates(snapshot, config, failing, now, k - 1);
      var p := ResetUpTo(snapshot, config, failing, now, k - 1);
      var s := ResetUpTo(snapshot, config, failing, now, k);
      forall j | 0 <= j < |snapshot|
        ensures SameIdentity(snapshot, s.flags, j)
      {
        assert SameIdentity(snapshot, p.flags, j);
        if k - 1 !in failing && FindFlag(snapshot, config[k - 1].name).Some? {
          assert SameIdentity(p.flags, s.flags, j);
        }
      }
    }
  }

  /** Every entry whose name is present is either reset or counted as an error, and no other entry is
      counted; without errors the reset count is that number. */
  lemma {:induction false} ResetCountsPresent(snapshot: seq<Flag>, config: seq<FlagConfig>, failing: set<nat>,
                                              now: Time, k: nat)
    requires k <= |config|
    ensures var s := ResetUpTo(snapshot, config, failing, now, k);
            s.reset + s.errors == CountPresent(config[..k], snapshot) && s.reset + s.errors <= k
            && (NoFailures(failing, k) ==> s.reset == CountPresent(config[..k], snapshot) && s.errors == 0)
  {
    if k > 0 {
      ResetCountsPresent(snapshot, config, failing, now, k - 1);
      assert config[..k][..k - 1] == config[..k - 1];
    }
  }

  /** Rows whose name is in no configuration entry are left exactly as they were. */
  lemma {:induction false} ResetLeavesUnconfigured(snapshot: seq<Flag>, config: seq<FlagConfig>, failing: set<nat>,
                                                   now: Time, k: nat)
    requires k <= |config|
    requires UniqueFlagIds(snapshot)
    ensures var s := ResetUpTo(snapshot, config, failing, now, k);
            |s.flags| == |snapshot|
            && forall j :: 0 <= j < |snapshot| && !NamedInConfig(config[..k], snapshot[j].name) ==> s.flags[j] == snapshot[j]
  {
    if k > 0 {
      ResetLeavesUnconfigured(snapshot, config, failing, now, k - 1);
      var c := config[k - 1];
      assert config[..k] == config[..k - 1] + [c];
      forall j | 0 <= j < |snapshot| && !NamedInConfig(config[..k], snapshot[j].name)
        ensures ResetUpTo(snapshot, config, failing, now, k).flags[j] == snapshot[j]
      {
        assert !NamedInConfig(config[..k - 1], snapshot[j].name);
        assert c in config[..k];
      }
    }
  }

  lemma IdentityKeepsUnique(flags: seq<Flag>, flags': seq<Flag>)
    requires |flags'| == |flags| && forall j :: 0 <= j < |flags| ==> SameIdentity(flags, flags', j)
    requires UniqueFlagIds(flags) && UniqueNames(flags)
    ensures UniqueFlagIds(flags') && UniqueNames(flags')
  {
    forall a, b | 0 <= a < b < |flags'|
      ensures flags'[a].id != flags'[b].id && flags'[a].name != flags'[b].name
    {
      assert SameIdentity(flags, flags', a) && SameIdentity(flags, flags', b);
    }
  }

  /** resetFeatureFlags over `config`: read the whole table once (a failure there propagates: `None`),
      then overwrite each configured flag that the snapshot holds. */
  method ResetFeatureFlags(db: FlagDb, config: seq<FlagConfig>, listFails: bool, failing: set<nat>, now: Time)
    returns (result: Option<ResetSummary>)
    requires db.Valid()
    modifies db`flags
    ensures db.Valid()
    ensures listFails ==> result == None && db.flags == old(db.flags)
    ensures !listFails ==>
              var s := ResetUpTo(old(db.flags), config, failing, now, |config|);
              db.flags == s.flags && result == Some(ResetSummary(s.reset, s.errors))
  {
    if listFails {
      return None;
    }
    var existingFlags := db.flags;
    var resetCount, errorCount := 0, 0;
    for i := 0 to |config|
      invariant var s := ResetUpTo(existingFlags, config, failing, now, i);
                db.flags == s.flags && resetCount == s.reset && errorCount == s.errors
    {
      var flagConfig := config[i];
      assert ResetUpTo(existingFlags, config, failing, now, i + 1)
          == ResetEntry(ResetUpTo(existingFlags, config, failing, now, i), existingFlags, flagConfig, i in failing, now);
      var existing := FindFlag(existingFlags, flagConfig.name);
      if existing.Some? {
        if i in failing {
          errorCount := errorCount + 1;
        } else {
          db.flags := UpdateFlagById(db.flags, existingFlags[existing.value].id, flagConfig.description,
                                     flagConfig.defaultOn, now);
          resetCount := resetCount + 1;
        }
      }
    }
    ResetNeverCreates(existingFlags, config, failing, now, |config|);
    IdentityKeepsUnique(existingFlags, db.flags);
    result := Some(ResetSummary(resetCount, errorCount));
  }

  /** The shipped configuration has distinct names, so the lemmas above apply to the shipped script. */
  lemma ShippedConfigHasDistinctNames()
    ensures DistinctNames(FeatureFlagsConfig) && |FeatureFlagsConfig| == 1
  {
  }
}
