/**
 The key-value store the migration works on, specified by contract: an operation either works, or fails
 with a negative code, in which case a write or removal may or may not have taken effect. Losing power
 after some operation is the case where every later one fails without effect.
 */
module KvStore {

  type Bytes = seq<bv8>

  /** The keys the migration touches, and all others. */
  datatype Key =
    | BackupBootstrapUri | WorkingBootstrapUri | BackupBootstrapCa | WorkingBootstrapCa
    | LwServerUri | LwDeviceCert | LwServerCa | LwPrivateKey
    | MigrationFlag
    | OtherKey(name: string)

  type Contents = map<Key, Bytes>

  const SUCCESS := 0
  const ITEM_NOT_FOUND := -1
  const INVALID_SIZE := -2

  datatype Outcome = Works | Fails(code: int, applied: bool)

  /** What happens to the n-th operation of a run. */
  type Script = nat -> Outcome

  /** Failures have negative codes; any code, and so even "not found" for a key that the store holds. */
  ghost predicate Admissible(script: Script) {
    forall n :: script(n).Fails? ==> script(n).code < 0
  }

  /** No operation fails with "not found". */
  ghost predicate Truthful(script: Script) {
    forall n :: script(n).Fails? ==> script(n).code != ITEM_NOT_FOUND
  }

  /** The store's contents and the number of operations made in this run. */
  datatype State = State(contents: Contents, ops: nat)

  function GetInfo(s: State, script: Script, key: Key): (int, nat) {
    match script(s.ops)
    case Works => if key in s.contents then (SUCCESS, |s.contents[key]|) else (ITEM_NOT_FOUND, 0)
    case Fails(code, _) => (code, 0)
  }

  function Get(s: State, script: Script, key: Key): (int, Bytes) {
    match script(s.ops)
    case Works => if key in s.contents then (SUCCESS, s.contents[key]) else (ITEM_NOT_FOUND, [])
    case Fails(code, _) => (code, [])
  }

  function Set(s: State, script: Script, key: Key, value: Bytes): (State, int) {
    var written := s.contents[key := value];
    match script(s.ops)
    case Works => (State(written, s.ops + 1), SUCCESS)
    case Fails(code, applied) => (State(if applied then written else s.contents, s.ops + 1), code)
  }

  function Remove(s: State, script: Script, key: Key): (State, int) {
    var removed := s.contents - {key};
    match script(s.ops)
    case Works => (State(removed, s.ops + 1), if key in s.contents then SUCCESS else ITEM_NOT_FOUND)
    case Fails(code, applied) => (State(if applied then removed else s.contents, s.ops + 1), code)
  }

  function Tick(s: State): State {
    s.(ops := s.ops + 1)
  }

  class Store {
    var contents: Contents
    var ops: nat
    const script: Script

    constructor (c: Contents, environment: Script)
      ensures contents == c && ops == 0 && script == environment
    {
      contents, ops, script := c, 0, environment;
    }

    function View(): State
      reads this
    {
      State(contents, ops)
    }

    method KvGetInfo(key: Key) returns (res: int, size: nat)
      modifies this`ops
      ensures View() == Tick(old(View())) && (res, size) == GetInfo(old(View()), script, key)
    {
      match script(ops) {
        case Works =>
          res, size := ITEM_NOT_FOUND, 0;
          if key in contents {
            res, size := SUCCESS, |contents[key]|;
          }
        case Fails(code, _) => res, size := code, 0;
      }
      ops := ops + 1;
    }

    method KvGet(key: Key) returns (res: int, value: Bytes)
      modifies this`ops
      ensures View() == Tick(old(View())) && (res, value) == Get(old(View()), script, key)
    {
      match script(ops) {
        case Works =>
          res, value := ITEM_NOT_FOUND, [];
          if key in contents {
            res, value := SUCCESS, contents[key];
          }
        case Fails(code, _) => res, value := code, [];
      }
      ops := ops + 1;
    }

    method KvSet(key: Key, value: Bytes) returns (res: int)
      modifies this
      ensures (View(), res) == Set(old(View()), script, key, value)
    {
      res := SUCCESS;
      var applied := true;
      match script(ops) {
        case Works =>
        case Fails(code, a) => res, applied := code, a;
      }
      if applied {
        contents := contents[key := value];
      }
      ops := ops + 1;
    }

    method KvRemove(key: Key) returns (res: int)
      modifies this
      ensures (View(), res) == Remove(old(View()), script, key)
    {
      res := if key in contents then SUCCESS else ITEM_NOT_FOUND;
      var applied := true;
      match script(ops) {
        case Works =>
        case Fails(code, a) => res, applied := code, a;
      }
      if applied {
        contents := contents - {key};
      }
      ops := ops + 1;
    }
  }
}
