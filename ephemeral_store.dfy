/**
 * The shared ephemeral key/value store (Redis) that the lock and presence
 * managers sit on, as a value: a map from key to a stored value and the
 * instant, in milliseconds, at which the key expires (`None` for a key
 * that was written without a TTL). The clock is an explicit `now`.
 * An expired entry may linger in the map, but every operation treats it
 * as absent, as Redis does.
 */
module EphemeralStore {
  import opened Wrappers

  datatype Entry<V> = Entry(value: V, expiresAt: Option<int>)

  type Store<V> = map<string, Entry<V>>

  /** The key holds a value that has not expired at `now`. */
  predicate Live<V>(s: Store<V>, key: string, now: int) {
    key in s && (s[key].expiresAt.None? || now < s[key].expiresAt.value)
  }

  /** GET: the live value under `key`, if any. */
  function Get<V>(s: Store<V>, key: string, now: int): Option<V> {
    if Live(s, key, now) then Some(s[key].value) else None
  }

  /** SETEX / SET ... EX: write `value` with a TTL of `seconds`. */
  function SetEx<V>(s: Store<V>, key: string, value: V, seconds: nat, now: int): Store<V> {
    s[key := Entry(value, Some(now + seconds * 1000))]
  }

  /** SET ... EX seconds NX: write only when no live value exists; reports whether it wrote. */
  function SetNx<V>(s: Store<V>, key: string, value: V, seconds: nat, now: int): (r: (bool, Store<V>))
    ensures r.0 <==> !Live(s, key, now)
    ensures r.0 ==> r.1 == SetEx(s, key, value, seconds, now)
    ensures !r.0 ==> r.1 == s
  {
    if Live(s, key, now) then (false, s) else (true, SetEx(s, key, value, seconds, now))
  }

  /** DEL. */
  function Del<V>(s: Store<V>, key: string): Store<V> {
    s - {key}
  }

  /** Deleting keys one by one is deleting them together. */
  lemma DelAccumulates<V>(s: Store<V>, deleted: set<string>, key: string)
    ensures Del(s - deleted, key) == s - (deleted + {key})
  {
  }

  /** KEYS with a pattern of the form `prefix*`: every live key that starts with `prefix`. */
  function Keys<V>(s: Store<V>, prefix: string, now: int): set<string> {
    set k | k in s && Live(s, k, now) && prefix <= k
  }

  /** The values stored under `keys`. */
  ghost function ValuesAt<V>(s: Store<V>, keys: set<string>): set<V>
    requires keys <= s.Keys
  {
    set k | k in keys :: s[k].value
  }

  /** Collecting the value of one more key: the values seen grow by that value, the keys seen by one. */
  lemma ValuesAtAdd<V>(s: Store<V>, keys: set<string>, key: string, values: seq<V>)
    requires keys <= s.Keys && key in s && key !in keys
    requires (set v | v in values) == ValuesAt(s, keys)
    ensures (set v | v in values + [s[key].value]) == ValuesAt(s, keys + {key})
    ensures |keys + {key}| == |keys| + 1
  {
    assert (set v | v in values + [s[key].value]) == (set v | v in values) + {s[key].value};
  }

  /**
   * One round of a KEYS-then-GET listing: the next key is still live, and
   * after collecting its value the values seen are those of the keys seen.
   */
  lemma ListingStep<V>(s: Store<V>, prefix: string, now: int, remaining: set<string>, done: set<string>,
                       key: string, values: seq<V>)
    requires remaining <= Keys(s, prefix, now) && done == Keys(s, prefix, now) - remaining && key in remaining
    requires (set v | v in values) == ValuesAt(s, done) && |values| == |done|
    ensures Get(s, key, now) == Some(s[key].value)
    ensures remaining - {key} <= Keys(s, prefix, now)
    ensures done + {key} == Keys(s, prefix, now) - (remaining - {key})
    ensures (set v | v in values + [s[key].value]) == ValuesAt(s, done + {key})
    ensures |values + [s[key].value]| == |done + {key}|
  {
    ValuesAtAdd(s, done, key, values);
  }

  /** TTL: -2 for a missing (or expired) key, -1 for a key without expiry, else the seconds left, rounded. */
  function Ttl<V>(s: Store<V>, key: string, now: int): (t: int)
    ensures t == -2 <==> !Live(s, key, now)
    ensures t == -1 <==> Live(s, key, now) && s[key].expiresAt.None?
  {
    if !Live(s, key, now) then -2
    else if s[key].expiresAt.None? then -1
    else (s[key].expiresAt.value - now + 500) / 1000
  }

  /** A value written with a TTL is readable until the TTL runs out and gone from then on. */
  lemma {:induction false} ExpiresAfterTtl<V>(s: Store<V>, key: string, value: V, seconds: nat, now: int, later: int)
    requires now <= later
    ensures later < now + seconds * 1000 ==> Get(SetEx(s, key, value, seconds, now), key, later) == Some(value)
    ensures later >= now + seconds * 1000 ==> Get(SetEx(s, key, value, seconds, now), key, later) == None
    ensures later >= now + seconds * 1000 ==> key !in Keys(SetEx(s, key, value, seconds, now), "", later)
  {
  }

  /** Set-if-absent is exclusive: while the first write is live, a second one on the same key fails and changes nothing. */
  lemma {:induction false} SetNxExclusive<V>(s: Store<V>, key: string, a: V, b: V, seconds: nat, now: int, later: int)
    requires seconds > 0 && now <= later < now + seconds * 1000
    requires SetNx(s, key, a, seconds, now).0
    ensures var s1 := SetNx(s, key, a, seconds, now).1;
      !SetNx(s1, key, b, seconds, later).0 && SetNx(s1, key, b, seconds, later).1 == s1
  {
  }
}
