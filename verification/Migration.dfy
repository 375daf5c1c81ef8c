/**
 migrate_kvstore: move a device to a new bootstrap server. Four records are replaced, four LwM2M keys are
 removed, and a flag is written when all of that has succeeded. Any operation may fail, and any run may be
 cut short, at any point.
 */
module Migration {
  import opened KvStore

  const MAX_CONTENT_LEN := 1024

  /** The value of the flag: the first byte of a zero status. */
  const DONE: Bytes := [0]

  const LW_KEYS: seq<Key> := [LwServerUri, LwDeviceCert, LwServerCa, LwPrivateKey]

  datatype Record = Record(key: Key, value: Bytes)

  /** The bytes to be stored for the bootstrap URI and the bootstrap CA certificate. */
  datatype Request = Request(uri: Bytes, cert: Bytes)

  function Records(req: Request): (recs: seq<Record>)
    ensures |recs| == 4
  {
    [Record(BackupBootstrapUri, req.uri), Record(WorkingBootstrapUri, req.uri),
     Record(BackupBootstrapCa, req.cert), Record(WorkingBootstrapCa, req.cert)]
  }

  class Migrator {
    const store: Store

    constructor (s: Store)
      ensures store == s
    {
      store := s;
    }

    /** kvstore_locate_and_replace. */
    method LocateAndReplace(rec: Record) returns (res: int)
      modifies store
      ensures (store.View(), res) == Replace(old(store.View()), store.script, rec)
    {
      var size;
      res, size := store.KvGetInfo(rec.key);
      if res == SUCCESS {
        if MAX_CONTENT_LEN < size {
          return INVALID_SIZE;
        }
        var value;
        res, value := store.KvGet(rec.key);
        if res != SUCCESS {
          return;
        }
        if value == rec.value {
          return SUCCESS;
        }
      }
      res := store.KvSet(rec.key, rec.value);
    }

    /** The four replacements, whatever each of them returns; their statuses are added up. */
    method ReplaceRecords(recs: seq<Record>) returns (status: int)
      requires |recs| == 4
      modifies store
      ensures (store.View(), status) == ReplaceAll(old(store.View()), store.script, recs)
    {
      ReplaceFour(store.View(), store.script, recs);
      hide Replace, ReplaceAll;
      status := LocateAndReplace(recs[0]);
      var res := LocateAndReplace(recs[1]);
      status := status + res;
      res := LocateAndReplace(recs[2]);
      status := status + res;
      res := LocateAndReplace(recs[3]);
      status := status + res;
    }

    /** kvstore_clear_LwM2M_info. */
    method ClearLwM2MInfo() returns (res: int)
      modifies store
      ensures (store.View(), res) == Clear(old(store.View()), store.script, LW_KEYS, SUCCESS)
    {
      var index := 0;
      var failed := SUCCESS;
      res := SUCCESS;
      while index < |LW_KEYS|
        invariant 0 <= index <= |LW_KEYS|
        invariant Clear(store.View(), store.script, LW_KEYS[index..], failed)
               == Clear(old(store.View()), store.script, LW_KEYS, SUCCESS)
        invariant failed == SUCCESS ==> res == SUCCESS
      {
        assert LW_KEYS[index..][1..] == LW_KEYS[index + 1..];
        var size;
        res, size := store.KvGetInfo(LW_KEYS[index]);
        if res == ITEM_NOT_FOUND {
          res := SUCCESS;
          index := index + 1;
          continue;
        }
        res := store.KvRemove(LW_KEYS[index]);
        if res != SUCCESS {
          failed := res;
        }
        index := index + 1;
      }
      if failed != SUCCESS {
        res := failed;
      }
    }

    /** migrate_kvstore. */
    method Migrate(req: Request) returns (status: int)
      modifies store
      ensures (store.View(), status) == Run(old(store.View()), store.script, req)
    {
      hide GetInfo, Set, Replace, Clear, ReplaceAll;
      var size;
      status, size := store.KvGetInfo(MigrationFlag);
      if status == SUCCESS {
        return;
      }
      var recs := Records(req);
      status := ReplaceRecords(recs);
      var res := ClearLwM2MInfo();
      status := status + res;
      if status != SUCCESS {
        return;
      }
      status := store.KvSet(MigrationFlag, DONE);
    }
  }

  /** Replacing one record: leave it if it already holds the value, refuse it if it is too long to compare. */
  function Replace(s: State, script: Script, rec: Record): (State, int) {
    var (info, size) := GetInfo(s, script, rec.key);
    if info != SUCCESS then Set(Tick(s), script, rec.key, rec.value)
    else if MAX_CONTENT_LEN < size then (Tick(s), INVALID_SIZE)
    else
      var (got, value) := Get(Tick(s), script, rec.key);
      if got != SUCCESS then (Tick(Tick(s)), got)
      else if value == rec.value then (Tick(Tick(s)), SUCCESS)
      else Set(Tick(Tick(s)), script, rec.key, rec.value)
  }

  function ReplaceAll(s: State, script: Script, recs: seq<Record>): (State, int)
    decreases |recs|
  {
    if recs == [] then (s, SUCCESS)
    else
      var (s1, res) := Replace(s, script, recs[0]);
      var (s2, rest) := ReplaceAll(s1, script, recs[1..]);
      (s2, res + rest)
  }

  lemma ReplaceFour(s: State, script: Script, recs: seq<Record>)
    requires |recs| == 4
    ensures var (s1, r1) := Replace(s, script, recs[0]);
            var (s2, r2) := Replace(s1, script, recs[1]);
            var (s3, r3) := Replace(s2, script, recs[2]);
            var (s4, r4) := Replace(s3, script, recs[3]);
            ReplaceAll(s, script, recs) == (s4, r1 + r2 + r3 + r4)
  {
    hide Replace;
    var (s1, r1) := Replace(s, script, recs[0]);
    var (s2, r2) := Replace(s1, script, recs[1]);
    var (s3, r3) := Replace(s2, script, recs[2]);
    var (s4, r4) := Replace(s3, script, recs[3]);
    assert recs[1..][1..] == recs[2..] && recs[2..][1..] == recs[3..] && recs[3..][1..] == [];
    assert ReplaceAll(s3, script, recs[3..]) == (s4, r4);
    assert ReplaceAll(s2, script, recs[2..]) == (s4, r3 + r4);
    assert ReplaceAll(s1, script, recs[1..]) == (s4, r2 + r3 + r4);
  }

  /** Removing keys one by one; `failed` is the last failure so far. */
  function Clear(s: State, script: Script, keys: seq<Key>, failed: int): (State, int)
    decreases |keys|
  {
    if keys == [] then (s, failed)
    else
      var (info, _) := GetInfo(s, script, keys[0]);
      if info == ITEM_NOT_FOUND then Clear(Tick(s), script, keys[1..], failed)
      else
        var (s1, res) := Remove(Tick(s), script, keys[0]);
        Clear(s1, script, keys[1..], if res != SUCCESS then res else failed)
  }

  /** A whole run. */
  function Run(s: State, script: Script, req: Request): (State, int) {
    var (found, _) := GetInfo(s, script, MigrationFlag);
    if found == SUCCESS then (Tick(s), found)
    else
      var (s1, replaced) := ReplaceAll(Tick(s), script, Records(req));
      var (s2, cleared) := Clear(s1, script, LW_KEYS, SUCCESS);
      if replaced + cleared != SUCCESS then (s2, replaced + cleared)
      else Set(s2, script, MigrationFlag, DONE)
  }

  predicate Holds(c: Contents, rec: Record) {
    rec.key in c && c[rec.key] == rec.value
  }

  /** The contents a migration of `c` is meant to end with. */
  function Target(c: Contents, req: Request): Contents {
    (c - {LwServerUri, LwDeviceCert, LwServerCa, LwPrivateKey})
      [BackupBootstrapUri := req.uri][WorkingBootstrapUri := req.uri]
      [BackupBootstrapCa := req.cert][WorkingBootstrapCa := req.cert][MigrationFlag := DONE]
  }

  predicate RecordKey(k: Key) {
    k in {BackupBootstrapUri, WorkingBootstrapUri, BackupBootstrapCa, WorkingBootstrapCa}
  }

  predicate LwKey(k: Key) {
    k in {LwServerUri, LwDeviceCert, LwServerCa, LwPrivateKey}
  }

  function Requested(req: Request, k: Key): Bytes
    requires RecordKey(k)
  {
    if k == BackupBootstrapUri || k == WorkingBootstrapUri then req.uri else req.cert
  }

  ghost predicate NoLwKeys(c: Contents) {
    forall k :: LwKey(k) ==> k !in c
  }

  ghost predicate RecordsReplaced(c: Contents, req: Request) {
    forall k :: RecordKey(k) ==> k in c && c[k] == Requested(req, k)
  }

  /** All four records hold the requested bytes and all four LwM2M keys are gone. */
  ghost predicate Complete(c: Contents, req: Request) {
    RecordsReplaced(c, req) && NoLwKeys(c)
  }

  /** Contents that runs of the migration can have made of `c0`, which has no flag: every record is old or
      new, LwM2M keys are old or gone, the flag appears only when everything is done, and nothing else
      has changed. */
  ghost predicate Underway(c0: Contents, c: Contents, req: Request) {
    && (forall k :: RecordKey(k) && k in c ==> c[k] == Requested(req, k) || (k in c0 && c[k] == c0[k]))
    && (forall k :: RecordKey(k) && k in c0 ==> k in c)
    && (forall k :: LwKey(k) && k in c ==> k in c0 && c[k] == c0[k])
    && (MigrationFlag in c ==> c[MigrationFlag] == DONE && Complete(c, req))
    && (forall k :: !RecordKey(k) && !LwKey(k) && k != MigrationFlag ==>
          (k in c <==> k in c0) && (k in c ==> c[k] == c0[k]))
  }
}
