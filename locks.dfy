/**
 * The lock manager: per-(project, path) mutual exclusion over the
 * ephemeral store. A lock lives under the key `lock:{projectId}:{filePath}`
 * with a TTL of ten minutes; acquisition is set-if-absent, and only the
 * current holder may release or refresh it.
 */
module Locks {
  import opened Wrappers
  import opened EphemeralStore

  /** Ten minutes, in milliseconds. */
  const LOCK_DURATION: int := 10 * 60 * 1000

  /** `Math.ceil(LOCK_DURATION / 1000)`: the TTL handed to the store, in seconds. */
  const LOCK_TTL: nat := (LOCK_DURATION + 999) / 1000

  datatype FileLock = FileLock(
    holder: string,
    holderName: string,
    acquiredAt: int,
    expiresAt: int,
    projectId: string,
    filePath: string)

  function LockKey(projectId: string, filePath: string): string {
    "lock:" + projectId + ":" + filePath
  }

  /** The KEYS pattern `lock:{projectId}:*`, as the prefix it matches. */
  function ProjectPrefix(projectId: string): string {
    "lock:" + projectId + ":"
  }

  /** The KEYS pattern `lock:*:*` used by the sweep. */
  predicate MatchesAnyLock(key: string) {
    "lock:" <= key && ':' in key[5..]
  }

  /** A project id as the database issues them: no ':' inside. */
  predicate PlainId(id: string) {
    ':' !in id
  }

  /** Every stored lock sits under the key built from its own project and path. */
  ghost predicate KeysAgree(s: Store<FileLock>) {
    forall k :: AgreesAt(s, k)
  }

  ghost predicate AgreesAt(s: Store<FileLock>, k: string) {
    k in s ==> k == LockKey(s[k].value.projectId, s[k].value.filePath)
  }

  lemma AgreesAfterWrite(s: Store<FileLock>, key: string, e: Entry<FileLock>)
    requires KeysAgree(s) && key == LockKey(e.value.projectId, e.value.filePath)
    ensures KeysAgree(s[key := e])
  {
    var s' := s[key := e];
    forall k ensures AgreesAt(s', k) {
      assert AgreesAt(s, k);
    }
  }

  lemma AgreesAfterDelete(s: Store<FileLock>, keys: set<string>)
    requires KeysAgree(s)
    ensures KeysAgree(s - keys)
  {
    forall k ensures AgreesAt(s - keys, k) {
      assert AgreesAt(s, k);
    }
  }

  /** The keys the sweep deletes: live, matching `lock:*:*`, and written without a TTL. */
  ghost function Unexpiring(s: Store<FileLock>, now: int): set<string> {
    set k | k in SweepKeys(s, now) && s[k].expiresAt.None?
  }

  /** KEYS `lock:*:*`: the live keys the sweep visits. */
  function SweepKeys(s: Store<FileLock>, now: int): set<string> {
    set k | k in Keys(s, "lock:", now) && MatchesAnyLock(k)
  }

  /** One step of the sweep: what TTL reports for the next visited key, and the bookkeeping after it. */
  lemma SweepStep(s0: Store<FileLock>, keys: set<string>, remaining: set<string>, deleted: set<string>, key: string, now: int)
    requires keys == SweepKeys(s0, now) && remaining <= keys && key in remaining
    requires deleted == Unexpiring(s0, now) - remaining
    ensures Ttl(s0 - deleted, key, now) != -2
    ensures Ttl(s0 - deleted, key, now) == -1 ==>
      && key !in deleted && |deleted + {key}| == |deleted| + 1
      && deleted + {key} == Unexpiring(s0, now) - (remaining - {key})
    ensures Ttl(s0 - deleted, key, now) != -1 ==> deleted == Unexpiring(s0, now) - (remaining - {key})
  {
  }

  /** Two live keys never hold the same lock, since a lock determines its key. */
  lemma DistinctKeysDistinctLocks(s: Store<FileLock>, k1: string, k2: string)
    requires KeysAgree(s) && k1 in s && k2 in s && k1 != k2
    ensures s[k1].value != s[k2].value
  {
    assert AgreesAt(s, k1) && AgreesAt(s, k2);
  }

  /** Collecting the lock of a key not yet visited extends the collection by exactly that lock, still without repeats. */
  lemma CollectStep(s: Store<FileLock>, done: set<string>, key: string, locks: seq<FileLock>)
    requires KeysAgree(s) && done <= s.Keys && key in s && key !in done
    requires (set l | l in locks) == ValuesAt(s, done)
    requires forall i, j :: 0 <= i < j < |locks| ==> locks[i] != locks[j]
    ensures (set l | l in locks + [s[key].value]) == ValuesAt(s, done + {key})
    ensures |done + {key}| == |done| + 1
    ensures forall i, j :: 0 <= i < j < |locks| + 1 ==> (locks + [s[key].value])[i] != (locks + [s[key].value])[j]
  {
    forall i | 0 <= i < |locks|
      ensures locks[i] != s[key].value
    {
      assert locks[i] in ValuesAt(s, done);
      var k' :| k' in done && s[k'].value == locks[i];
      DistinctKeysDistinctLocks(s, k', key);
    }
    ValuesAtAdd(s, done, key, locks);
  }

  /** Since a lock determines its key, a set of keys holds as many distinct locks as it has keys. */
  lemma {:induction false} LocksOfKeysCount(s: Store<FileLock>, keys: set<string>)
    requires KeysAgree(s) && keys <= s.Keys
    ensures |ValuesAt(s, keys)| == |keys|
    decreases keys
  {
    if keys != {} {
      var k :| k in keys;
      var rest := keys - {k};
      LocksOfKeysCount(s, rest);
      assert ValuesAt(s, keys) == ValuesAt(s, rest) + {s[k].value};
      if s[k].value in ValuesAt(s, rest) {
        var k' :| k' in rest && s[k'].value == s[k].value;
        DistinctKeysDistinctLocks(s, k', k);
      }
    }
  }

  /** The locks found under the live keys that start with `prefix`. */
  ghost function LocksUnder(s: Store<FileLock>, prefix: string, now: int): set<FileLock> {
    ValuesAt(s, Keys(s, prefix, now))
  }

  /** The store's TTL and the lock's own `expiresAt` describe the same instant. */
  lemma TtlMatchesDuration()
    ensures LOCK_TTL == 600 && LOCK_TTL * 1000 == LOCK_DURATION
  {
  }

  /** Every key of project `projectId` starts with its KEYS prefix. */
  lemma {:induction false} KeyHasProjectPrefix(projectId: string, filePath: string)
    ensures ProjectPrefix(projectId) <= LockKey(projectId, filePath)
    ensures MatchesAnyLock(LockKey(projectId, filePath))
  {
    var key := LockKey(projectId, filePath);
    assert key == ProjectPrefix(projectId) + filePath;
    assert key[5..] == projectId + ":" + filePath;
    assert key[5..][|projectId|] == ':';
  }

  /**
   * With ids that contain no ':', the prefix test of `lock:{p}:*` selects
   * exactly the keys of project `p`; with such ids a key names one lock.
   */
  lemma {:induction false} PrefixSelectsProject(p: string, q: string, f: string)
    requires PlainId(p) && PlainId(q)
    ensures ProjectPrefix(p) <= LockKey(q, f) <==> p == q
  {
    var key := LockKey(q, f);
    if p == q {
      KeyHasProjectPrefix(q, f);
    } else if ProjectPrefix(p) <= key {
      ColonAfterId(q, f);
      ColonAfterId(p, "");
      assert false;
    }
  }

  /** In `lock:{id}:{rest}` the character right after the id is the separator. */
  lemma ColonAfterId(id: string, rest: string)
    ensures |LockKey(id, rest)| > 5 + |id| && LockKey(id, rest)[5 + |id|] == ':'
    ensures forall i :: 0 <= i < |id| ==> LockKey(id, rest)[5 + i] == id[i]
  {
  }

  lemma {:induction false} LockKeyInjective(p: string, f: string, q: string, g: string)
    requires PlainId(p) && PlainId(q)
    requires LockKey(p, f) == LockKey(q, g)
    ensures p == q && f == g
  {
    KeyHasProjectPrefix(p, f);
    PrefixSelectsProject(q, p, f);
    assert LockKey(p, f)[|ProjectPrefix(p)|..] == f;
    assert LockKey(q, g)[|ProjectPrefix(q)|..] == g;
  }

  /** The live locks of project `projectId` that `userId` holds, by key. */
  ghost function HeldIn(s: Store<FileLock>, projectId: string, userId: string, now: int): set<string> {
    set k | k in s && Live(s, k, now) && s[k].value.holder == userId && s[k].value.projectId == projectId
  }

  /** The live keys matching `lock:{projectId}:*` whose lock `userId` holds. */
  ghost function HeldUnder(s: Store<FileLock>, projectId: string, userId: string, now: int): set<string> {
    set k | k in Keys(s, ProjectPrefix(projectId), now) && s[k].value.holder == userId
  }

  /** Every stored lock belongs to a project id without ':'. */
  ghost predicate PlainIds(s: Store<FileLock>) {
    forall k :: k in s ==> PlainId(s[k].value.projectId)
  }

  /**
   * The KEYS listing of a project finds every lock of that project; it finds
   * nothing else when project ids contain no ':'.
   */
  lemma HeldInIsHeldUnder(s: Store<FileLock>, projectId: string, userId: string, now: int)
    requires KeysAgree(s)
    ensures HeldIn(s, projectId, userId, now) <= HeldUnder(s, projectId, userId, now)
    ensures PlainId(projectId) && PlainIds(s) ==> HeldIn(s, projectId, userId, now) == HeldUnder(s, projectId, userId, now)
  {
    forall k | k in HeldIn(s, projectId, userId, now)
      ensures k in HeldUnder(s, projectId, userId, now)
    {
      assert AgreesAt(s, k);
      KeyHasProjectPrefix(projectId, s[k].value.filePath);
    }
    if PlainId(projectId) && PlainIds(s) {
      forall k | k in HeldUnder(s, projectId, userId, now)
        ensures k in HeldIn(s, projectId, userId, now)
      {
        assert AgreesAt(s, k);
        PrefixSelectsProject(projectId, s[k].value.projectId, s[k].value.filePath);
      }
    }
  }

  class LockManager {
    /** The locks in the ephemeral store, by key. */
    var store: Store<FileLock>

    ghost predicate Valid()
      reads this
    {
      KeysAgree(store)
    }

    constructor ()
      ensures Valid() && store == map[]
    {
      store := map[];
    }

    method AcquireLock(projectId: string, filePath: string, userId: string, userName: string, now: int)
      returns (lock: Option<FileLock>)
      requires Valid()
      modifies this
      ensures Valid()
      ensures Live(old(store), LockKey(projectId, filePath), now) ==> lock == None && store == old(store)
      ensures !Live(old(store), LockKey(projectId, filePath), now) ==>
        && lock == Some(FileLock(userId, userName, now, now + LOCK_DURATION, projectId, filePath))
        && store == old(store)[LockKey(projectId, filePath) := Entry(lock.value, Some(lock.value.expiresAt))]
    {
      var key := LockKey(projectId, filePath);
      var candidate := FileLock(userId, userName, now, now + LOCK_DURATION, projectId, filePath);
      var result := SetNx(store, key, candidate, LOCK_TTL, now);
      AgreesAfterWrite(store, key, Entry(candidate, Some(now + LOCK_TTL * 1000)));
      store := result.1;
      if result.0 {
        lock := Some(candidate);
      } else {
        lock := None;
      }
    }

    method ReleaseLock(projectId: string, filePath: string, userId: string, now: int) returns (released: bool)
      requires Valid()
      modifies this
      ensures Valid()
      ensures released <==> Live(old(store), LockKey(projectId, filePath), now)
                            && old(store)[LockKey(projectId, filePath)].value.holder == userId
      ensures released ==> store == old(store) - {LockKey(projectId, filePath)}
      ensures !released ==> store == old(store)
    {
      var key := LockKey(projectId, filePath);
      var lock := GetLock(projectId, filePath, now);
      if lock.None? || lock.value.holder != userId {
        return false;
      }
      AgreesAfterDelete(store, {key});
      store := Del(store, key);
      released := true;
    }

    method GetLock(projectId: string, filePath: string, now: int) returns (lock: Option<FileLock>)
      ensures lock.Some? <==> Live(store, LockKey(projectId, filePath), now)
      ensures lock.Some? ==> lock.value == store[LockKey(projectId, filePath)].value
    {
      lock := Get(store, LockKey(projectId, filePath), now);
    }

    method RefreshLock(projectId: string, filePath: string, userId: string, now: int) returns (refreshed: bool)
      requires Valid()
      modifies this
      ensures Valid()
      ensures refreshed <==> Live(old(store), LockKey(projectId, filePath), now)
                             && old(store)[LockKey(projectId, filePath)].value.holder == userId
      ensures refreshed ==>
        var held := old(store)[LockKey(projectId, filePath)].value;
        store == old(store)[LockKey(projectId, filePath) :=
                              Entry(held.(expiresAt := now + LOCK_DURATION), Some(now + LOCK_DURATION))]
      ensures !refreshed ==> store == old(store)
    {
      var lock := GetLock(projectId, filePath, now);
      if lock.None? || lock.value.holder != userId {
        return false;
      }
      var key := LockKey(projectId, filePath);
      var updatedLock := lock.value.(expiresAt := now + LOCK_DURATION);
      assert AgreesAt(store, key);
      AgreesAfterWrite(store, key, Entry(updatedLock, Some(now + LOCK_TTL * 1000)));
      store := SetEx(store, key, updatedLock, LOCK_TTL, now);
      refreshed := true;
    }

    method IsLocked(projectId: string, filePath: string, now: int) returns (locked: bool)
      ensures locked <==> Live(store, LockKey(projectId, filePath), now)
    {
      var lock := GetLock(projectId, filePath, now);
      locked := lock.Some?;
    }

    method IsLockedByUser(projectId: string, filePath: string, userId: string, now: int) returns (mine: bool)
      ensures mine <==> Live(store, LockKey(projectId, filePath), now)
                        && store[LockKey(projectId, filePath)].value.holder == userId
    {
      var lock := GetLock(projectId, filePath, now);
      mine := lock.Some? && lock.value.holder == userId;
    }

    /** Every live lock whose key starts with `lock:{projectId}:`, each once. */
    method GetAllProjectLocks(projectId: string, now: int) returns (locks: seq<FileLock>)
      requires Valid()
      ensures (set l | l in locks) == LocksUnder(store, ProjectPrefix(projectId), now)
      ensures |locks| == |Keys(store, ProjectPrefix(projectId), now)|
      ensures forall i, j :: 0 <= i < j < |locks| ==> locks[i] != locks[j]
    {
      var keys := Keys(store, ProjectPrefix(projectId), now);
      var remaining := keys;
      ghost var done: set<string> := {};
      locks := [];
      while remaining != {}
        invariant remaining <= keys && done == keys - remaining
        invariant (set l | l in locks) == ValuesAt(store, done)
        invariant |locks| == |done|
        invariant forall i, j :: 0 <= i < j < |locks| ==> locks[i] != locks[j]
        decreases remaining
      {
        var key :| key in remaining;
        var data := Get(store, key, now);
        if data.Some? {
          CollectStep(store, done, key, locks);
          locks := locks + [data.value];
        }
        remaining := remaining - {key};
        done := done + {key};
      }
    }

    method ForceReleaseLock(projectId: string, filePath: string)
      requires Valid()
      modifies this
      ensures Valid()
      ensures store == old(store) - {LockKey(projectId, filePath)}
    {
      AgreesAfterDelete(store, {LockKey(projectId, filePath)});
      store := Del(store, LockKey(projectId, filePath));
    }

    /**
     * The periodic sweep: among the live keys matching `lock:*:*`, deletes
     * those written without a TTL and counts them; a lock with a TTL is
     * never touched (the store's own expiry handles it).
     */
    method CleanupExpiredLocks(now: int) returns (cleaned: nat)
      requires Valid()
      modifies this
      ensures Valid()
      ensures store == old(store) - Unexpiring(old(store), now)
      ensures cleaned == |Unexpiring(old(store), now)|
    {
      ghost var s0 := store;
      ghost var target := Unexpiring(s0, now);
      var keys := SweepKeys(store, now);
      var remaining := keys;
      ghost var deleted: set<string> := {};
      var count := 0;
      while remaining != {}
        invariant remaining <= keys
        invariant deleted == target - remaining
        invariant store == s0 - deleted
        invariant count == |deleted|
        decreases remaining
      {
        var key :| key in remaining;
        var ttl := Ttl(store, key, now);
        SweepStep(s0, keys, remaining, deleted, key, now);
        // -2 means the key vanished between KEYS and TTL, which takes another
        // client in between: in this sequential model the branch is never taken.
        if ttl == -2 {
          count := count + 1;
        } else if ttl == -1 {
          DelAccumulates(s0, deleted, key);
          store := Del(store, key);
          deleted := deleted + {key};
          count := count + 1;
        }
        remaining := remaining - {key};
      }
      AgreesAfterDelete(s0, deleted);
      cleaned := count;
    }
  }
}
