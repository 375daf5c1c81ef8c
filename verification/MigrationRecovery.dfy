/** What the migration guarantees over any number of failing and interrupted runs. */
module MigrationRecovery {
  import opened KvStore
  import opened Migration

  ghost predicate AreRequested(recs: seq<Record>, req: Request) {
    forall r :: r in recs ==> RecordKey(r.key) && r.value == Requested(req, r.key)
  }

  /** Records that hold what is requested keep holding it. */
  ghost predicate KeepsRequested(c: Contents, c': Contents, req: Request) {
    forall k :: RecordKey(k) && k in c && c[k] == Requested(req, k) ==> k in c' && c'[k] == c[k]
  }

  lemma ReplaceOutcome(s: State, script: Script, rec: Record)
    requires Admissible(script)
    ensures var (s', res) := Replace(s, script, rec);
            && (s'.contents == s.contents || s'.contents == s.contents[rec.key := rec.value])
            && res <= SUCCESS && (res == SUCCESS ==> Holds(s'.contents, rec))
  {
  }

  lemma ReplaceEffect(s: State, script: Script, rec: Record, c0: Contents, req: Request)
    requires Admissible(script) && AreRequested([rec], req) && Underway(c0, s.contents, req)
    ensures var (s', res) := Replace(s, script, rec);
            && Underway(c0, s'.contents, req) && KeepsRequested(s.contents, s'.contents, req)
            && (MigrationFlag in s'.contents <==> MigrationFlag in s.contents)
            && res <= SUCCESS && (res == SUCCESS ==> Holds(s'.contents, rec))
  {
    hide Replace, Underway, KeepsRequested;
    ReplaceOutcome(s, script, rec);
    assert rec in [rec];
    RecordWritten(c0, s.contents, rec, req);
  }

  lemma RecordWritten(c0: Contents, c: Contents, rec: Record, req: Request)
    requires Underway(c0, c, req) && RecordKey(rec.key) && rec.value == Requested(req, rec.key)
    ensures var c' := c[rec.key := rec.value];
            Underway(c0, c', req) && KeepsRequested(c, c', req) && (MigrationFlag in c' <==> MigrationFlag in c)
    ensures KeepsRequested(c, c, req)
  {
  }

  lemma {:induction false} ReplaceAllEffect(s: State, script: Script, recs: seq<Record>, c0: Contents, req: Request)
    requires Admissible(script) && AreRequested(recs, req) && Underway(c0, s.contents, req)
    ensures var (s', res) := ReplaceAll(s, script, recs);
            && Underway(c0, s'.contents, req) && KeepsRequested(s.contents, s'.contents, req)
            && (MigrationFlag in s'.contents <==> MigrationFlag in s.contents)
            && res <= SUCCESS && (res == SUCCESS ==> forall r :: r in recs ==> Holds(s'.contents, r))
    decreases |recs|
  {
    if recs != [] {
      var (s1, res) := Replace(s, script, recs[0]);
      ReplaceEffect(s, script, recs[0], c0, req);
      ReplaceAllEffect(s1, script, recs[1..], c0, req);
      assert recs == [recs[0]] + recs[1..];
    }
  }

  /** LwM2M keys only disappear, and nothing else changes. */
  ghost predicate OnlyClears(c: Contents, c': Contents) {
    && (forall k :: k in c' ==> k in c && c'[k] == c[k])
    && (forall k :: k in c && !LwKey(k) ==> k in c')
  }

  /** None of these lookups reports "not found" of a key that the store holds at that moment. */
  predicate HonestLookups(s: State, script: Script, keys: seq<Key>)
    decreases |keys|
  {
    keys == [] ||
    if GetInfo(s, script, keys[0]).0 == ITEM_NOT_FOUND then
      keys[0] !in s.contents && HonestLookups(Tick(s), script, keys[1..])
    else HonestLookups(Remove(Tick(s), script, keys[0]).0, script, keys[1..])
  }

  /** The lookups that a run makes before removing the LwM2M keys are honest. */
  predicate HonestRun(s: State, script: Script, req: Request) {
    || GetInfo(s, script, MigrationFlag).0 == SUCCESS
    || HonestLookups(ReplaceAll(Tick(s), script, Records(req)).0, script, LW_KEYS)
  }

  predicate AllAbsent(c: Contents, keys: seq<Key>) {
    forall k :: k in keys ==> k !in c
  }

  /** Removing keys: nothing but LwM2M keys goes, and a zero result means that all of them are gone if and only if no
      lookup missed one. */
  lemma {:induction false} ClearEffect(s: State, script: Script, keys: seq<Key>, failed: int)
    requires Admissible(script) && failed <= SUCCESS && forall k :: k in keys ==> LwKey(k)
    requires forall i, j :: 0 <= i < j < |keys| ==> keys[i] != keys[j]
    ensures var (s', res) := Clear(s, script, keys, failed);
            && OnlyClears(s.contents, s'.contents)
            && (forall k :: k in s.contents && k !in keys ==> k in s'.contents)
            && res <= SUCCESS
            && (res == SUCCESS ==>
                  failed == SUCCESS && (AllAbsent(s'.contents, keys) <==> HonestLookups(s, script, keys)))
    decreases |keys|
  {
    if keys != [] {
      assert keys == [keys[0]] + keys[1..];
      if GetInfo(s, script, keys[0]).0 == ITEM_NOT_FOUND {
        ClearEffect(Tick(s), script, keys[1..], failed);
      } else {
        var (s1, res) := Remove(Tick(s), script, keys[0]);
        ClearEffect(s1, script, keys[1..], if res != SUCCESS then res else failed);
      }
    }
  }

  lemma LwKeysDistinct()
    ensures forall i, j :: 0 <= i < j < |LW_KEYS| ==> LW_KEYS[i] != LW_KEYS[j]
    ensures forall k :: k in LW_KEYS <==> LwKey(k)
  {
    assert LW_KEYS[0] in LW_KEYS && LW_KEYS[1] in LW_KEYS && LW_KEYS[2] in LW_KEYS && LW_KEYS[3] in LW_KEYS;
  }

  lemma RecordsAreRequested(req: Request)
    ensures AreRequested(Records(req), req)
  {
  }

  lemma ClearingStaysUnderway(c0: Contents, c: Contents, c': Contents, req: Request)
    requires Underway(c0, c, req) && OnlyClears(c, c')
    ensures Underway(c0, c', req)
  {
  }

  /** One run, with whatever failures and honest lookups: the store stays on the way from `c0` to its target, even if
      the flag was there already but could not be read, and a run that reports success leaves it set. */
  lemma RunEffect(s: State, script: Script, c0: Contents, req: Request)
    requires Admissible(script) && Underway(c0, s.contents, req)
    ensures var (s', status) := Run(s, script, req);
            && (HonestRun(s, script, req) ==> Underway(c0, s'.contents, req))
            && status <= SUCCESS && (status == SUCCESS ==> MigrationFlag in s'.contents)
  {
    var (s1, replaced) := ReplaceAll(Tick(s), script, Records(req));
    var (s2, cleared) := Clear(s1, script, LW_KEYS, SUCCESS);
    RunBody(Tick(s), script, c0, req);
    hide ReplaceAll, Clear, HonestLookups;
    if replaced + cleared == SUCCESS && HonestLookups(s1, script, LW_KEYS) {
      FlagStaysUnderway(c0, s2.contents, req);
    }
  }

  /** The replacements and removals of a run. */
  lemma RunBody(s: State, script: Script, c0: Contents, req: Request)
    requires Admissible(script) && Underway(c0, s.contents, req)
    ensures var (s1, replaced) := ReplaceAll(s, script, Records(req));
            var (s2, cleared) := Clear(s1, script, LW_KEYS, SUCCESS);
            && Underway(c0, s2.contents, req) && replaced <= SUCCESS && cleared <= SUCCESS
            && (MigrationFlag in s2.contents <==> MigrationFlag in s.contents)
            && (replaced + cleared == SUCCESS ==>
                  RecordsReplaced(s2.contents, req) && (NoLwKeys(s2.contents) <==> HonestLookups(s1, script, LW_KEYS)))
  {
    var (s1, replaced) := ReplaceAll(s, script, Records(req));
    var (s2, cleared) := Clear(s1, script, LW_KEYS, SUCCESS);
    hide ReplaceAll, Clear, HonestLookups, AreRequested, Underway, RecordsReplaced;
    RecordsAreRequested(req);
    LwKeysDistinct();
    ReplaceAllEffect(s, script, Records(req), c0, req);
    ClearEffect(s1, script, LW_KEYS, SUCCESS);
    ClearingStaysUnderway(c0, s1.contents, s2.contents, req);
    if replaced + cleared == SUCCESS {
      AllReplaced(s1.contents, s2.contents, req);
    }
  }

  lemma AllReplaced(c1: Contents, c2: Contents, req: Request)
    requires forall r :: r in Records(req) ==> Holds(c1, r)
    requires OnlyClears(c1, c2)
    ensures RecordsReplaced(c2, req)
  {
    var recs := Records(req);
    assert Holds(c1, recs[0]) && Holds(c1, recs[1]) && Holds(c1, recs[2]) && Holds(c1, recs[3]);
  }

  lemma FlagStaysUnderway(c0: Contents, c: Contents, req: Request)
    requires Underway(c0, c, req) && Complete(c, req)
    ensures Underway(c0, c[MigrationFlag := DONE], req)
  {
  }

  /** The done flag, whatever fails: at the moment a run sets it all four records hold the requested bytes, and all four
      LwM2M keys are absent if and only if no lookup of the run reported "not found" of one the store held. */
  lemma FlagIsSound(c: Contents, script: Script, req: Request)
    requires Admissible(script) && MigrationFlag !in c
    ensures var (s', status) := Run(State(c, 0), script, req);
            && (MigrationFlag in s'.contents ==>
                  && s'.contents[MigrationFlag] == [0] && RecordsReplaced(s'.contents, req)
                  && (NoLwKeys(s'.contents) <==> HonestRun(State(c, 0), script, req)))
            && (status == SUCCESS ==> MigrationFlag in s'.contents)
  {
    var s := Tick(State(c, 0));
    var (s1, replaced) := ReplaceAll(s, script, Records(req));
    var (s2, cleared) := Clear(s1, script, LW_KEYS, SUCCESS);
    RunEffect(State(c, 0), script, c, req);
    RunBody(s, script, c, req);
    hide ReplaceAll, Clear, HonestLookups, Underway, Complete, NoLwKeys, RecordsReplaced, Records;
    assert GetInfo(State(c, 0), script, MigrationFlag).0 != SUCCESS;
    if replaced + cleared == SUCCESS {
      SameButFlag(s2.contents, req);
    }
  }

  lemma SameButFlag(c: Contents, req: Request)
    ensures var c' := c[MigrationFlag := DONE];
            && (NoLwKeys(c') <==> NoLwKeys(c)) && (RecordsReplaced(c', req) <==> RecordsReplaced(c, req))
  {
    var c' := c[MigrationFlag := DONE];
    assert forall k :: LwKey(k) ==> (k in c' <==> k in c);
  }

  /** A store that fails with any code but "not found" makes honest lookups. */
  lemma {:induction false} TruthfulIsHonest(s: State, script: Script, keys: seq<Key>)
    requires Truthful(script)
    ensures HonestLookups(s, script, keys)
    decreases |keys|
  {
    if keys != [] {
      if GetInfo(s, script, keys[0]).0 == ITEM_NOT_FOUND {
        TruthfulIsHonest(Tick(s), script, keys[1..]);
      } else {
        TruthfulIsHonest(Remove(Tick(s), script, keys[0]).0, script, keys[1..]);
      }
    }
  }

  /** So does one that holds none of the keys. */
  lemma {:induction false} AbsentIsHonest(s: State, script: Script, keys: seq<Key>)
    requires AllAbsent(s.contents, keys)
    ensures HonestLookups(s, script, keys)
    decreases |keys|
  {
    if keys != [] {
      assert keys == [keys[0]] + keys[1..];
      if GetInfo(s, script, keys[0]).0 == ITEM_NOT_FOUND {
        AbsentIsHonest(Tick(s), script, keys[1..]);
      } else {
        AbsentIsHonest(Remove(Tick(s), script, keys[0]).0, script, keys[1..]);
      }
    }
  }

  lemma NoKeysHonest(s: State, script: Script, c0: Contents, req: Request)
    requires Admissible(script) && Underway(c0, s.contents, req) && NoLwKeys(c0)
    ensures HonestRun(s, script, req)
  {
    var s1 := ReplaceAll(Tick(s), script, Records(req)).0;
    RecordsAreRequested(req);
    LwKeysDistinct();
    ReplaceAllEffect(Tick(s), script, Records(req), c0, req);
    hide ReplaceAll, HonestLookups;
    assert NoLwKeys(s1.contents);
    AbsentIsHonest(s1, script, LW_KEYS);
  }

  /** A store that takes every write, but fails every lookup except the flag's with "not found". */
  function Forgetful(): Script {
    n => if n in {1, 3, 5, 7, 9, 10, 11, 12} then Fails(ITEM_NOT_FOUND, false) else Works
  }

  function AllSet(c: Contents, req: Request): Contents {
    c[BackupBootstrapUri := req.uri][WorkingBootstrapUri := req.uri]
      [BackupBootstrapCa := req.cert][WorkingBootstrapCa := req.cert]
  }

  lemma ForgetfulReplace(s: State, rec: Record)
    requires s.ops in {1, 3, 5, 7}
    ensures Replace(s, Forgetful(), rec) == (State(s.contents[rec.key := rec.value], s.ops + 2), SUCCESS)
  {
  }

  lemma ForgetfulClear(c: Contents)
    ensures Clear(State(c, 9), Forgetful(), LW_KEYS, SUCCESS) == (State(c, 13), SUCCESS)
  {
    assert Clear(State(c, 13), Forgetful(), LW_KEYS[4..], SUCCESS) == (State(c, 13), SUCCESS);
    assert LW_KEYS[3..][1..] == LW_KEYS[4..] && LW_KEYS[2..][1..] == LW_KEYS[3..];
    assert Clear(State(c, 11), Forgetful(), LW_KEYS[2..], SUCCESS) == (State(c, 13), SUCCESS);
    assert LW_KEYS[1..][1..] == LW_KEYS[2..];
  }

  /** Its lookups are answered with "not found", and so the run sets the flag and leaves the LwM2M keys as they were. */
  lemma ForgetfulRun(c: Contents, req: Request)
    requires MigrationFlag !in c
    ensures Run(State(c, 0), Forgetful(), req) == (State(AllSet(c, req)[MigrationFlag := DONE], 14), SUCCESS)
    ensures Admissible(Forgetful())
  {
    var recs := Records(req);
    var c1 := c[BackupBootstrapUri := req.uri];
    var c2 := c1[WorkingBootstrapUri := req.uri];
    var c3 := c2[BackupBootstrapCa := req.cert];
    ReplaceFour(State(c, 1), Forgetful(), recs);
    ForgetfulReplace(State(c, 1), recs[0]);
    ForgetfulReplace(State(c1, 3), recs[1]);
    ForgetfulReplace(State(c2, 5), recs[2]);
    ForgetfulReplace(State(c3, 7), recs[3]);
    ForgetfulClear(AllSet(c, req));
    hide Replace, ReplaceAll, Clear;
  }

  ghost predicate FlagMeansComplete(c: Contents, script: Script, req: Request) {
    var c' := Run(State(c, 0), script, req).0.contents;
    MigrationFlag in c' ==> Complete(c', req)
  }

  /** The flag means a complete migration, whatever fails and with whatever codes, if and only if the store holds no
      LwM2M key to begin with: with one, a lookup that fails with "not found" is enough to keep it. */
  lemma FlagIsSoundIff(c: Contents, req: Request)
    requires MigrationFlag !in c
    ensures (forall script: Script :: Admissible(script) ==> FlagMeansComplete(c, script, req)) <==> NoLwKeys(c)
  {
    hide Run, HonestRun;
    if NoLwKeys(c) {
      forall script: Script | Admissible(script)
        ensures FlagMeansComplete(c, script, req)
      {
        NoKeysHonest(State(c, 0), script, c, req);
        FlagIsSound(c, script, req);
      }
    } else {
      ForgetfulRun(c, req);
      var k :| LwKey(k) && k in c;
      assert k in AllSet(c, req)[MigrationFlag := DONE];
      assert !FlagMeansComplete(c, Forgetful(), req);
    }
  }

  /** A run that finds the flag writes and removes nothing, so credentials stored later survive it. */
  lemma FoundFlagChangesNothing(s: State, script: Script, req: Request)
    requires MigrationFlag in s.contents && script(s.ops).Works?
    ensures Run(s, script, req) == (Tick(s), SUCCESS)
  {
  }

  /** At its target a store no longer changes, whatever fails. */
  lemma {:induction false} ReplaceAtTarget(s: State, script: Script, recs: seq<Record>)
    requires forall r :: r in recs ==> Holds(s.contents, r)
    ensures ReplaceAll(s, script, recs).0.contents == s.contents
    decreases |recs|
  {
    if recs != [] {
      assert Holds(s.contents, recs[0]);
      assert s.contents[recs[0].key := recs[0].value] == s.contents;
      ReplaceAtTarget(Replace(s, script, recs[0]).0, script, recs[1..]);
    }
  }

  lemma {:induction false} ClearAtTarget(s: State, script: Script, keys: seq<Key>, failed: int)
    requires AllAbsent(s.contents, keys)
    ensures Clear(s, script, keys, failed).0.contents == s.contents
    decreases |keys|
  {
    if keys != [] {
      assert keys == [keys[0]] + keys[1..];
      assert s.contents - {keys[0]} == s.contents;
      if GetInfo(s, script, keys[0]).0 == ITEM_NOT_FOUND {
        ClearAtTarget(Tick(s), script, keys[1..], failed);
      } else {
        var (s1, res) := Remove(Tick(s), script, keys[0]);
        ClearAtTarget(s1, script, keys[1..], if res != SUCCESS then res else failed);
      }
    }
  }

  lemma TargetHolds(c: Contents, req: Request)
    requires Target(c, req) == c
    ensures forall r :: r in Records(req) ==> Holds(c, r)
    ensures AllAbsent(c, LW_KEYS) && c[MigrationFlag := DONE] == c
  {
    LwKeysDistinct();
    assert c[MigrationFlag := DONE] == c;
  }

  lemma RunAtTarget(c: Contents, script: Script, req: Request)
    requires Target(c, req) == c
    ensures Run(State(c, 0), script, req).0.contents == c
  {
    hide ReplaceAll, Clear, Target, Records, AllAbsent, Holds;
    var s := Tick(State(c, 0));
    TargetHolds(c, req);
    ReplaceAtTarget(s, script, Records(req));
    ClearAtTarget(ReplaceAll(s, script, Records(req)).0, script, LW_KEYS, SUCCESS);
  }

  /** A store whose lookups of the flag and of the records fail, and all else works. */
  function Blind(): Script {
    n => if n in {0, 1, 3, 5, 7} then Fails(INVALID_SIZE, false) else Works
  }

  lemma BlindReplace(s: State, rec: Record)
    requires s.ops in {1, 3, 5, 7}
    ensures Replace(s, Blind(), rec) == (State(s.contents[rec.key := rec.value], s.ops + 2), SUCCESS)
  {
  }

  lemma BlindReplaceAll(c: Contents, req: Request)
    ensures ReplaceAll(State(c, 1), Blind(), Records(req)) == (State(AllSet(c, req), 9), SUCCESS)
  {
    hide Replace, ReplaceAll, Blind;
    var recs := Records(req);
    var c1 := c[BackupBootstrapUri := req.uri];
    var c2 := c1[WorkingBootstrapUri := req.uri];
    var c3 := c2[BackupBootstrapCa := req.cert];
    ReplaceFour(State(c, 1), Blind(), recs);
    BlindReplace(State(c, 1), recs[0]);
    BlindReplace(State(c1, 3), recs[1]);
    BlindReplace(State(c2, 5), recs[2]);
    BlindReplace(State(c3, 7), recs[3]);
  }

  lemma ClearedTarget(c: Contents, req: Request)
    ensures (AllSet(c, req) - (set k | k in LW_KEYS))[MigrationFlag := DONE] == Target(c, req)
  {
    LwKeySet();
    var cleared := AllSet(c, req) - {LwServerUri, LwDeviceCert, LwServerCa, LwPrivateKey};
    assert cleared[MigrationFlag := DONE] == Target(c, req);
  }

  /** On it a run migrates any store, flagged or not. */
  lemma BlindRun(c: Contents, req: Request)
    ensures Admissible(Blind()) && Run(State(c, 0), Blind(), req).0.contents == Target(c, req)
  {
    hide Clear, ReplaceAll, Records, AllSet, Target;
    BlindReplaceAll(c, req);
    WorkingClear(State(AllSet(c, req), 9), Blind(), LW_KEYS);
    ClearedTarget(c, req);
  }

  /** Whether or not it has the flag, no run changes a store, whatever fails, if and only if the store is at its
      target: a run that cannot read the flag migrates once more, and removes credentials stored since. */
  lemma UnchangedIffAtTarget(c: Contents, req: Request)
    ensures (forall script: Script :: Admissible(script) ==> Run(State(c, 0), script, req).0.contents == c)
            <==> Target(c, req) == c
  {
    hide Run, Target, Blind;
    BlindRun(c, req);
    if Target(c, req) == c {
      forall script: Script | Admissible(script)
        ensures Run(State(c, 0), script, req).0.contents == c
      {
        RunAtTarget(c, script, req);
      }
    }
  }

  function Clean(): Script {
    n => Works
  }

  /** Power is lost after `n` operations: nothing after them takes effect. */
  function CutAt(n: nat): Script {
    i => if i < n then Works else Fails(INVALID_SIZE, false)
  }

  /** Every record already stored is short enough for the migration to compare it. */
  predicate Fits(c: Contents) {
    forall k :: RecordKey(k) && k in c ==> |c[k]| <= 1024
  }

  predicate FitsRequest(req: Request) {
    |req.uri| <= 1024 && |req.cert| <= 1024
  }

  function RecordFits(c: Contents, k: Key): bool {
    k in c ==> |c[k]| <= MAX_CONTENT_LEN
  }

  lemma CleanReplace(s: State, rec: Record)
    ensures var (s', res) := Replace(s, Clean(), rec);
            if RecordFits(s.contents, rec.key)
            then res == SUCCESS && s'.contents == s.contents[rec.key := rec.value]
            else res == INVALID_SIZE && s'.contents == s.contents
  {
    if rec.key in s.contents && s.contents[rec.key] == rec.value {
      assert s.contents == s.contents[rec.key := rec.value];
    }
  }

  /** The contents after replacing one record without failures. */
  function Put(c: Contents, rec: Record): Contents {
    if RecordFits(c, rec.key) then c[rec.key := rec.value] else c
  }

  function PutAll(c: Contents, req: Request): Contents {
    var recs := Records(req);
    Put(Put(Put(Put(c, recs[0]), recs[1]), recs[2]), recs[3])
  }

  function OneTooLong(c: Contents, k: Key): nat {
    if RecordFits(c, k) then 0 else 1
  }

  /** How many of the records are too long to compare. */
  function TooLong(c: Contents): nat {
    OneTooLong(c, BackupBootstrapUri) + OneTooLong(c, WorkingBootstrapUri)
    + OneTooLong(c, BackupBootstrapCa) + OneTooLong(c, WorkingBootstrapCa)
  }

  /** Without failures every record that fits is replaced; one that does not stays and is reported. */
  lemma CleanReplaceAll(s: State, req: Request)
    ensures var (s', res) := ReplaceAll(s, Clean(), Records(req));
            && s'.contents == PutAll(s.contents, req)
            && res == INVALID_SIZE * TooLong(s.contents) && (res == SUCCESS <==> Fits(s.contents))
  {
    hide Replace, ReplaceAll, Put, RecordFits, Fits;
    var recs := Records(req);
    ReplaceFour(s, Clean(), recs);
    var (s1, _) := Replace(s, Clean(), recs[0]);
    var (s2, _) := Replace(s1, Clean(), recs[1]);
    var (s3, _) := Replace(s2, Clean(), recs[2]);
    CleanPut(s, recs[0]);
    CleanPut(s1, recs[1]);
    CleanPut(s2, recs[2]);
    CleanPut(s3, recs[3]);
    LengthsKept(s.contents, recs[0]);
    LengthsKept(s1.contents, recs[1]);
    LengthsKept(s2.contents, recs[2]);
    FitsByKey(s.contents);
  }

  lemma CleanPut(s: State, rec: Record)
    ensures var (s', res) := Replace(s, Clean(), rec);
            s'.contents == Put(s.contents, rec) && res == INVALID_SIZE * OneTooLong(s.contents, rec.key)
  {
    CleanReplace(s, rec);
    hide Replace;
  }

  /** Replacing one record leaves the lengths of the others. */
  lemma LengthsKept(c: Contents, rec: Record)
    ensures forall k :: k != rec.key ==> RecordFits(Put(c, rec), k) == RecordFits(c, k)
  {
  }

  lemma FitsByKey(c: Contents)
    ensures Fits(c) <==> RecordFits(c, BackupBootstrapUri) && RecordFits(c, WorkingBootstrapUri)
                         && RecordFits(c, BackupBootstrapCa) && RecordFits(c, WorkingBootstrapCa)
  {
    assert RecordKey(BackupBootstrapUri) && RecordKey(WorkingBootstrapUri);
    assert RecordKey(BackupBootstrapCa) && RecordKey(WorkingBootstrapCa);
  }

  /** While all operations work, clearing removes exactly the keys. */
  lemma {:induction false} WorkingClear(s: State, script: Script, keys: seq<Key>)
    requires forall n :: n >= s.ops ==> script(n).Works?
    ensures var (s', res) := Clear(s, script, keys, SUCCESS);
            && res == SUCCESS && s'.contents == s.contents - (set k | k in keys) && s'.ops >= s.ops
    decreases |keys|
  {
    if keys != [] {
      assert keys == [keys[0]] + keys[1..];
      var s1 := if keys[0] in s.contents then Remove(Tick(s), script, keys[0]).0 else Tick(s);
      WorkingClear(s1, script, keys[1..]);
      assert (set k | k in keys) == {keys[0]} + (set k | k in keys[1..]);
    }
  }

  /** What a run without failures makes of a store: no LwM2M key is left, every record of at most 1024 bytes holds its
      new value, longer ones are as they were, and so is everything else but the flag. */
  ghost predicate CleanedUp(c: Contents, c': Contents, req: Request) {
    && NoLwKeys(c')
    && (forall k :: RecordKey(k) ==>
          k in c' && c'[k] == if k in c && |c[k]| > 1024 then c[k] else Requested(req, k))
    && (forall k :: !RecordKey(k) && !LwKey(k) && k != MigrationFlag ==>
          (k in c' <==> k in c) && (k in c' ==> c'[k] == c[k]))
  }

  /** A run without failures from a store without the flag. It always clears up; it sets the flag and succeeds exactly
      when the records the store holds all fit, and otherwise adds up one error for each that does not. */
  lemma CleanRun(s: State, req: Request)
    requires MigrationFlag !in s.contents
    ensures var (s', status) := Run(s, Clean(), req);
            && CleanedUp(s.contents, s'.contents, req)
            && (MigrationFlag in s'.contents <==> Fits(s.contents))
            && status == (if Fits(s.contents) then SUCCESS else INVALID_SIZE * TooLong(s.contents))
            && (status == SUCCESS <==> Fits(s.contents))
            && (Fits(s.contents) ==> s'.contents == Target(s.contents, req))
            && (!Fits(s.contents) ==> !Fits(s'.contents))
  {
    hide ReplaceAll, Clear, PutAll, CleanedUp, TooLong, Fits, Target, Records;
    var (s1, replaced) := ReplaceAll(Tick(s), Clean(), Records(req));
    var (s2, cleared) := Clear(s1, Clean(), LW_KEYS, SUCCESS);
    CleanReplaceAll(Tick(s), req);
    WorkingClear(s1, Clean(), LW_KEYS);
    LwKeySet();
    PutAllFits(s.contents, req);
    PutAllCleansUp(s.contents, req);
  }

  lemma PutAllCleansUp(c: Contents, req: Request)
    ensures var c' := PutAll(c, req) - {LwServerUri, LwDeviceCert, LwServerCa, LwPrivateKey};
            CleanedUp(c, c', req) && CleanedUp(c, c'[MigrationFlag := DONE], req)
  {
    hide PutAll;
    forall k
      ensures k in PutAll(c, req) <==> k in c || RecordKey(k)
      ensures k in PutAll(c, req) ==>
                PutAll(c, req)[k] ==
                if RecordKey(k) && !(k in c && |c[k]| > 1024) then Requested(req, k) else c[k]
    {
      PutAllAt(c, req, k);
    }
    KeysTakenOut(c, PutAll(c, req), req);
  }

  lemma KeysTakenOut(c: Contents, p: Contents, req: Request)
    requires forall k :: k in p <==> k in c || RecordKey(k)
    requires forall k :: k in p ==>
               p[k] == if RecordKey(k) && !(k in c && |c[k]| > 1024) then Requested(req, k) else c[k]
    ensures var c' := p - {LwServerUri, LwDeviceCert, LwServerCa, LwPrivateKey};
            CleanedUp(c, c', req) && CleanedUp(c, c'[MigrationFlag := DONE], req)
  {
    FlagAside(c, p - {LwServerUri, LwDeviceCert, LwServerCa, LwPrivateKey}, req);
  }

  lemma FlagAside(c: Contents, c': Contents, req: Request)
    ensures CleanedUp(c, c', req) ==> CleanedUp(c, c'[MigrationFlag := DONE], req)
  {
  }

  lemma PutAllAt(c: Contents, req: Request, k: Key)
    ensures k in PutAll(c, req) <==> k in c || RecordKey(k)
    ensures k in PutAll(c, req) ==>
              PutAll(c, req)[k] ==
              if RecordKey(k) && !(k in c && |c[k]| > 1024) then Requested(req, k) else c[k]
  {
    hide Put;
    var c1 := Put(c, Record(BackupBootstrapUri, req.uri));
    var c2 := Put(c1, Record(WorkingBootstrapUri, req.uri));
    var c3 := Put(c2, Record(BackupBootstrapCa, req.cert));
    PutAt(c, Record(BackupBootstrapUri, req.uri), k);
    PutAt(c1, Record(WorkingBootstrapUri, req.uri), k);
    PutAt(c2, Record(BackupBootstrapCa, req.cert), k);
    PutAt(c3, Record(WorkingBootstrapCa, req.cert), k);
  }

  lemma PutAt(c: Contents, rec: Record, k: Key)
    ensures k in Put(c, rec) <==> k in c || k == rec.key
    ensures k in Put(c, rec) ==>
              Put(c, rec)[k] == if k != rec.key || (k in c && |c[k]| > 1024) then c[k] else rec.value
  {
  }

  /** Whatever the replacements came to: if from the first key lookup on all operations work, no LwM2M key is left. */
  lemma KeysClearedAnyway(s: State, script: Script, req: Request)
    requires GetInfo(s, script, MigrationFlag).0 != SUCCESS
    requires forall n :: n >= ReplaceAll(Tick(s), script, Records(req)).0.ops ==> script(n).Works?
    ensures NoLwKeys(Run(s, script, req).0.contents)
  {
    hide ReplaceAll, Clear, Records;
    var s1 := ReplaceAll(Tick(s), script, Records(req)).0;
    WorkingClear(s1, script, LW_KEYS);
    LwKeysDistinct();
  }

  /** Whatever removals report: if each takes effect, and no lookup fails with "not found", all keys go. */
  lemma {:induction false} ClearedIfApplied(s: State, script: Script, keys: seq<Key>, failed: int)
    requires forall n :: n >= s.ops && script(n).Fails? ==> script(n).applied && script(n).code != ITEM_NOT_FOUND
    ensures var c := Clear(s, script, keys, failed).0.contents;
            AllAbsent(c, keys) && forall k :: k in c ==> k in s.contents
    decreases |keys|
  {
    if keys != [] {
      assert keys == [keys[0]] + keys[1..];
      if GetInfo(s, script, keys[0]).0 == ITEM_NOT_FOUND {
        ClearedIfApplied(Tick(s), script, keys[1..], failed);
      } else {
        var (s1, res) := Remove(Tick(s), script, keys[0]);
        ClearedIfApplied(s1, script, keys[1..], if res != SUCCESS then res else failed);
      }
    }
  }

  /** Of several failing removals, the last is reported. */
  lemma {:induction false} LastFailureReported(s: State, script: Script, keys: seq<Key>, k: Key, failed: int)
    ensures var (s1, failed1) := Clear(s, script, keys, failed);
            var last := Remove(Tick(s1), script, k).1;
            Clear(s, script, keys + [k], failed).1 ==
            if GetInfo(s1, script, k).0 == ITEM_NOT_FOUND || last == SUCCESS then failed1 else last
    decreases |keys|
  {
    if keys == [] {
      assert [] + [k] == [k];
    } else {
      assert (keys + [k])[1..] == keys[1..] + [k];
      if GetInfo(s, script, keys[0]).0 == ITEM_NOT_FOUND {
        LastFailureReported(Tick(s), script, keys[1..], k, failed);
      } else {
        var (s1, res) := Remove(Tick(s), script, keys[0]);
        LastFailureReported(s1, script, keys[1..], k, if res != SUCCESS then res else failed);
      }
    }
  }

  /** A record that already holds its value is looked up and read, but not written. */
  lemma HeldNotWritten(s: State, script: Script, rec: Record)
    requires Holds(s.contents, rec) && |rec.value| <= 1024 && script(s.ops).Works? && script(s.ops + 1).Works?
    ensures Replace(s, script, rec) == (State(s.contents, s.ops + 2), SUCCESS)
  {
  }

  lemma PutAllFits(c: Contents, req: Request)
    ensures var c' := PutAll(c, req) - {LwServerUri, LwDeviceCert, LwServerCa, LwPrivateKey};
            && (Fits(c) ==> c'[MigrationFlag := DONE] == Target(c, req))
            && (!Fits(c) ==> !Fits(c'))
            && (MigrationFlag in c' <==> MigrationFlag in c)
  {
    FitsByKey(c);
    FitsByKey(PutAll(c, req) - {LwServerUri, LwDeviceCert, LwServerCa, LwPrivateKey});
  }

  lemma LwKeySet()
    ensures (set k | k in LW_KEYS) == {LwServerUri, LwDeviceCert, LwServerCa, LwPrivateKey}
  {
    assert LW_KEYS[0] in LW_KEYS && LW_KEYS[1] in LW_KEYS && LW_KEYS[2] in LW_KEYS && LW_KEYS[3] in LW_KEYS;
  }

  /** The contents after any number of runs, each with its own failures. */
  ghost function After(c: Contents, req: Request, runs: seq<Script>): Contents
    decreases |runs|
  {
    if runs == [] then c else After(Run(State(c, 0), runs[0], req).0.contents, req, runs[1..])
  }

  ghost predicate AllAdmissible(runs: seq<Script>) {
    forall i :: 0 <= i < |runs| ==> Admissible(runs[i])
  }

  /** The runs make honest lookups, each in the store the ones before it have left. */
  ghost predicate HonestRuns(c: Contents, req: Request, runs: seq<Script>)
    decreases |runs|
  {
    runs == [] ||
    (HonestRun(State(c, 0), runs[0], req) && HonestRuns(Run(State(c, 0), runs[0], req).0.contents, req, runs[1..]))
  }

  function CleanRunContents(c: Contents, req: Request): Contents {
    Run(State(c, 0), Clean(), req).0.contents
  }

  lemma {:induction false} AfterIsUnderway(c0: Contents, c: Contents, req: Request, runs: seq<Script>)
    requires AllAdmissible(runs) && HonestRuns(c, req, runs) && Underway(c0, c, req)
    ensures Underway(c0, After(c, req, runs), req)
    decreases |runs|
  {
    if runs != [] {
      assert Admissible(runs[0]);
      RunEffect(State(c, 0), runs[0], c0, req);
      AfterIsUnderway(c0, Run(State(c, 0), runs[0], req).0.contents, req, runs[1..]);
    }
  }

  /** Every store on the way has the same target, and one with the flag is there. */
  lemma SameTarget(c0: Contents, c: Contents, req: Request)
    requires Underway(c0, c, req) && MigrationFlag !in c0
    ensures Target(c, req) == Target(c0, req)
    ensures MigrationFlag in c ==> c == Target(c0, req)
  {
    var t0, t := Target(c0, req), Target(c, req);
    forall k
      ensures k in t <==> k in t0
      ensures k in t ==> t[k] == t0[k]
      ensures MigrationFlag in c ==> (k in c <==> k in t0) && (k in c ==> c[k] == t0[k])
    {
      TargetAt(c0, req, k);
      TargetAt(c, req, k);
      hide Target;
    }
  }

  lemma TargetAt(c: Contents, req: Request, k: Key)
    ensures var t := Target(c, req);
            && (k in t <==> RecordKey(k) || k == MigrationFlag || (k in c && !LwKey(k)))
            && (k in t ==> t[k] == if RecordKey(k) then Requested(req, k)
                                   else if k == MigrationFlag then DONE else c[k])
  {
  }

  lemma UnderwayFits(c0: Contents, c: Contents, req: Request)
    requires Underway(c0, c, req) && Fits(c0) && FitsRequest(req)
    ensures Fits(c)
  {
  }

  lemma {:induction false} NoKeysHonestRuns(c0: Contents, c: Contents, req: Request, runs: seq<Script>)
    requires AllAdmissible(runs) && Underway(c0, c, req) && NoLwKeys(c0)
    ensures HonestRuns(c, req, runs)
    decreases |runs|
  {
    if runs != [] {
      assert Admissible(runs[0]);
      NoKeysHonest(State(c, 0), runs[0], c0, req);
      RunEffect(State(c, 0), runs[0], c0, req);
      NoKeysHonestRuns(c0, Run(State(c, 0), runs[0], req).0.contents, req, runs[1..]);
    }
  }

  /** Restart from any interruption converges: after any number of runs, each failing or cut short in any
      way, but with honest lookups, one run without failures gives exactly the store that a single
      undisturbed run would have given. */
  lemma Converges(c0: Contents, req: Request, runs: seq<Script>)
    requires MigrationFlag !in c0 && Fits(c0) && FitsRequest(req) && AllAdmissible(runs) && HonestRuns(c0, req, runs)
    ensures CleanRunContents(After(c0, req, runs), req) == CleanRunContents(c0, req) == Target(c0, req)
  {
    var c := After(c0, req, runs);
    AfterIsUnderway(c0, c0, req, runs);
    SameTarget(c0, c, req);
    UnderwayFits(c0, c, req);
    hide Target;
    CleanRun(State(c0, 0), req);
    if MigrationFlag in c {
      FoundFlagChangesNothing(State(c, 0), Clean(), req);
    } else {
      CleanRun(State(c, 0), req);
    }
  }

  lemma ReplaceUpTo(s: State, n: nat, rec: Record)
    requires Replace(s, Clean(), rec).0.ops <= n
    ensures Replace(s, CutAt(n), rec) == Replace(s, Clean(), rec)
    ensures s.ops <= Replace(s, Clean(), rec).0.ops
  {
  }

  lemma {:induction false} OpsGrow(s: State, recs: seq<Record>)
    ensures s.ops <= ReplaceAll(s, Clean(), recs).0.ops
    decreases |recs|
  {
    if recs != [] {
      var s1 := Replace(s, Clean(), recs[0]).0;
      ReplaceUpTo(s, s1.ops, recs[0]);
      OpsGrow(s1, recs[1..]);
    }
  }

  /** Up to the cut, a run goes as it would without it. */
  lemma {:induction false} ReplaceAllUpTo(s: State, n: nat, recs: seq<Record>)
    requires ReplaceAll(s, Clean(), recs).0.ops <= n
    ensures ReplaceAll(s, CutAt(n), recs) == ReplaceAll(s, Clean(), recs)
    decreases |recs|
  {
    if recs != [] {
      var s1 := Replace(s, Clean(), recs[0]).0;
      OpsGrow(s1, recs[1..]);
      ReplaceUpTo(s, n, recs[0]);
      ReplaceAllUpTo(s1, n, recs[1..]);
    }
  }

  /** Once all operations fail without effect, clearing changes nothing. */
  lemma {:induction false} ClearAfterCut(s: State, n: nat, keys: seq<Key>, failed: int)
    requires n <= s.ops
    ensures Clear(s, CutAt(n), keys, failed).0.contents == s.contents
    ensures n <= Clear(s, CutAt(n), keys, failed).0.ops
    decreases |keys|
  {
    if keys != [] {
      var (s1, res) := Remove(Tick(s), CutAt(n), keys[0]);
      ClearAfterCut(s1, n, keys[1..], if res != SUCCESS then res else failed);
    }
  }

  /** A run cut short right after the last record has been replaced leaves the records new and no flag. */
  lemma CutAfterRecords(c0: Contents, req: Request)
    requires MigrationFlag !in c0
    ensures var n := ReplaceAll(Tick(State(c0, 0)), Clean(), Records(req)).0.ops;
            Run(State(c0, 0), CutAt(n), req).0.contents == PutAll(c0, req)
  {
    var s := Tick(State(c0, 0));
    var (s1, _) := ReplaceAll(s, Clean(), Records(req));
    OpsGrow(s, Records(req));
    ReplaceAllUpTo(s, s1.ops, Records(req));
    CleanReplaceAll(s, req);
    ClearAfterCut(s1, s1.ops, LW_KEYS, SUCCESS);
    hide ReplaceAll, Clear, PutAll;
  }

  /** The contents after a number of runs without failures. */
  function CleanRuns(c: Contents, req: Request, runs: nat): Contents
    decreases runs
  {
    if runs == 0 then c else CleanRuns(CleanRunContents(c, req), req, runs - 1)
  }

  lemma {:induction false} StuckForever(c: Contents, req: Request, runs: nat)
    requires MigrationFlag !in c && !Fits(c)
    ensures MigrationFlag !in CleanRuns(c, req, runs)
    decreases runs
  {
    hide Run, Fits, Target;
    if runs > 0 {
      CleanRun(State(c, 0), req);
      StuckForever(CleanRunContents(c, req), req, runs - 1);
    }
  }

  ghost predicate ConvergesAfter(c0: Contents, req: Request, runs: seq<Script>) {
    CleanRunContents(After(c0, req, runs), req) == Target(c0, req)
  }

  /** With honest lookups, convergence holds exactly when the new values themselves fit the comparison buffer. If
      one does not, a run cut short after writing it leaves a record that no later run can get past: without
      failures, the flag is then never set, however often the migration is repeated. */
  lemma ConvergesIffRequestFits(c0: Contents, req: Request)
    requires MigrationFlag !in c0 && Fits(c0)
    ensures FitsRequest(req) <==>
              forall runs: seq<Script> :: AllAdmissible(runs) && HonestRuns(c0, req, runs) ==>
                                            ConvergesAfter(c0, req, runs)
    ensures !FitsRequest(req) ==>
              exists cut: Script :: Admissible(cut) &&
                forall later: nat :: MigrationFlag !in CleanRuns(After(c0, req, [cut]), req, later)
  {
    if FitsRequest(req) {
      forall runs: seq<Script> | AllAdmissible(runs) && HonestRuns(c0, req, runs)
        ensures ConvergesAfter(c0, req, runs)
      {
        Converges(c0, req, runs);
      }
    } else {
      var cut := OversizeCut(c0, req);
      assert !ConvergesAfter(c0, req, [cut]);
    }
  }

  /** With any failures at all, convergence holds exactly when, in addition, the store holds no LwM2M key that a lookup
      could miss. */
  lemma ConvergesAlwaysIff(c0: Contents, req: Request)
    requires MigrationFlag !in c0 && Fits(c0)
    ensures (FitsRequest(req) && NoLwKeys(c0)) <==>
              forall runs: seq<Script> :: AllAdmissible(runs) ==> ConvergesAfter(c0, req, runs)
  {
    hide HonestRuns, Run, CleanRunContents, Target;
    if !FitsRequest(req) {
      var cut := OversizeCut(c0, req);
      assert !ConvergesAfter(c0, req, [cut]);
    } else if !NoLwKeys(c0) {
      ForgottenForGood(c0, req);
    } else {
      forall runs: seq<Script> | AllAdmissible(runs)
        ensures ConvergesAfter(c0, req, runs)
      {
        NoKeysHonestRuns(c0, c0, req, runs);
        Converges(c0, req, runs);
      }
    }
  }

  /** After one run on a forgetful store, a clean run finds the flag and leaves the LwM2M keys for good. */
  lemma ForgottenForGood(c0: Contents, req: Request)
    requires MigrationFlag !in c0 && !NoLwKeys(c0)
    ensures AllAdmissible([Forgetful()]) && !ConvergesAfter(c0, req, [Forgetful()])
  {
    hide Run, Target, AllSet, Forgetful;
    var c := AllSet(c0, req)[MigrationFlag := DONE];
    ForgetfulRun(c0, req);
    AfterOne(c0, req, Forgetful());
    FoundFlagChangesNothing(State(c, 0), Clean(), req);
    assert CleanRunContents(c, req) == c;
    var k :| LwKey(k) && k in c0;
    TargetAt(c0, req, k);
    SetKeeps(c0, req, k);
  }

  lemma SetKeeps(c: Contents, req: Request, k: Key)
    requires k in c
    ensures k in AllSet(c, req)[MigrationFlag := DONE]
  {
  }

  lemma AfterOne(c: Contents, req: Request, script: Script)
    ensures After(c, req, [script]) == Run(State(c, 0), script, req).0.contents
  {
    hide Run;
    var c' := Run(State(c, 0), script, req).0.contents;
    assert After(c', req, [script][1..]) == c';
  }

  lemma TruthfulRun(c: Contents, req: Request, script: Script)
    requires Truthful(script)
    ensures HonestRuns(c, req, [script])
  {
    TruthfulIsHonest(ReplaceAll(Tick(State(c, 0)), script, Records(req)).0, script, LW_KEYS);
    hide Run, ReplaceAll, HonestLookups;
    assert HonestRuns(Run(State(c, 0), script, req).0.contents, req, [script][1..]);
  }

  /** The run that spoils a migration whose values do not fit. */
  lemma OversizeCut(c0: Contents, req: Request) returns (cut: Script)
    requires MigrationFlag !in c0 && Fits(c0) && !FitsRequest(req)
    ensures Admissible(cut) && AllAdmissible([cut]) && HonestRuns(c0, req, [cut])
    ensures forall later: nat :: MigrationFlag !in CleanRuns(After(c0, req, [cut]), req, later)
    ensures CleanRunContents(After(c0, req, [cut]), req) != Target(c0, req)
  {
    cut := CutAt(ReplaceAll(Tick(State(c0, 0)), Clean(), Records(req)).0.ops);
    CutAfterRecords(c0, req);
    AfterOne(c0, req, cut);
    TruthfulRun(c0, req, cut);
    var c := After(c0, req, [cut]);
    OversizeStays(c0, req);
    hide ReplaceAll, Run, After, PutAll, Fits, HonestRuns;
    forall later: nat
      ensures MigrationFlag !in CleanRuns(c, req, later)
    {
      StuckForever(c, req, later);
    }
    assert CleanRuns(c, req, 1) == CleanRunContents(c, req);
  }

  lemma OversizeStays(c0: Contents, req: Request)
    requires MigrationFlag !in c0 && Fits(c0) && !FitsRequest(req)
    ensures !Fits(PutAll(c0, req)) && MigrationFlag !in PutAll(c0, req)
  {
    FitsByKey(c0);
    FitsByKey(PutAll(c0, req));
  }
}
