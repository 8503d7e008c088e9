/**
 * The presence manager: one record per (project, user) under the key
 * `presence:{projectId}:{userId}` with a 60-second TTL, built by merging a
 * partial record onto the existing one, plus a process-wide, stable
 * assignment of a display colour to every user id.
 */
module Presence {
  import opened Wrappers
  import opened EphemeralStore

  /** Seconds a presence record lives without a heartbeat. */
  const PRESENCE_TTL: nat := 60

  /** The cursor colours, handed out in order of first sight. */
  const Palette: seq<string> := [
    "#FF6B6B", "#4ECDC4", "#45B7D1", "#FFA07A",
    "#98D8C8", "#F7DC6F", "#BB8FCE", "#85C1E2",
    "#52D7A6", "#FF9FF3", "#54A0FF", "#FF6348"
  ]

  datatype UserPresence = UserPresence(
    userId: string,
    userName: string,
    userAvatar: Option<string>,
    fileName: string,
    cursorLine: int,
    cursorColumn: int,
    isTyping: bool,
    lastUpdate: int,
    color: string)

  /**
   * `Partial<UserPresence> & { userId }` as updatePresence reads it: a field
   * that is absent, undefined or null is `None` (the source never reads the
   * partial `lastUpdate` or `color`).
   */
  datatype PresencePatch = PresencePatch(
    userId: string,
    userName: Option<string>,
    userAvatar: Option<string>,
    fileName: Option<string>,
    cursorLine: Option<int>,
    cursorColumn: Option<int>,
    isTyping: Option<bool>)

  /** A patch that names only the user. */
  function EmptyPatch(userId: string): PresencePatch {
    PresencePatch(userId, None, None, None, None, None, None)
  }

  function PresenceKey(projectId: string, userId: string): string {
    "presence:" + projectId + ":" + userId
  }

  /** The KEYS pattern `presence:{projectId}:*`, as the prefix it matches. */
  function ProjectPrefix(projectId: string): string {
    "presence:" + projectId + ":"
  }

  /** The KEYS pattern `presence:*:*` used by the sweep. */
  predicate MatchesAnyPresence(key: string) {
    "presence:" <= key && ':' in key[9..]
  }

  /** JavaScript's `a || b` on an optional string: `a` when it is present and non-empty. */
  function OrElse(a: Option<string>, b: string): string {
    if a.Some? && a.value != "" then a.value else b
  }

  /** A string the source's `||` treats as present. */
  predicate Truthy(a: Option<string>) {
    a.Some? && a.value != ""
  }

  /**
   * The record updatePresence writes: supplied fields win; a missing or
   * empty userName / fileName falls back to the existing record, then to
   * 'Anonymous' / ''; a missing (or null) avatar and cursor fall back to the
   * existing record, then to null / 0 / 0; isTyping is never inherited.
   */
  function Merge(existing: Option<UserPresence>, patch: PresencePatch, now: int, color: string): (r: UserPresence)
    ensures r.userId == patch.userId && r.lastUpdate == now && r.color == color
    ensures r.userName != ""
    ensures Truthy(patch.userName) ==> r.userName == patch.userName.value
    ensures !Truthy(patch.userName) && existing.Some? && existing.value.userName != "" ==>
              r.userName == existing.value.userName
    ensures !Truthy(patch.userName) && (existing.None? || existing.value.userName == "") ==> r.userName == "Anonymous"
    ensures Truthy(patch.fileName) ==> r.fileName == patch.fileName.value
    ensures !Truthy(patch.fileName) ==> r.fileName == (if existing.Some? then existing.value.fileName else "")
    ensures patch.userAvatar.Some? ==> r.userAvatar == patch.userAvatar
    ensures patch.userAvatar.None? ==> r.userAvatar == (if existing.Some? then existing.value.userAvatar else None)
    ensures patch.cursorLine.Some? ==> r.cursorLine == patch.cursorLine.value
    ensures patch.cursorLine.None? ==> r.cursorLine == (if existing.Some? then existing.value.cursorLine else 0)
    ensures patch.cursorColumn.Some? ==> r.cursorColumn == patch.cursorColumn.value
    ensures patch.cursorColumn.None? ==> r.cursorColumn == (if existing.Some? then existing.value.cursorColumn else 0)
    ensures r.isTyping <==> patch.isTyping == Some(true)
  {
    var old_ := existing;
    UserPresence(
      userId := patch.userId,
      userName := OrElse(patch.userName, OrElse(if old_.Some? then Some(old_.value.userName) else None, "Anonymous")),
      userAvatar := if patch.userAvatar.Some? then patch.userAvatar
                    else if old_.Some? then old_.value.userAvatar else None,
      fileName := OrElse(patch.fileName, OrElse(if old_.Some? then Some(old_.value.fileName) else None, "")),
      cursorLine := patch.cursorLine.GetOr(if old_.Some? then old_.value.cursorLine else 0),
      cursorColumn := patch.cursorColumn.GetOr(if old_.Some? then old_.value.cursorColumn else 0),
      isTyping := patch.isTyping.GetOr(false),
      lastUpdate := now,
      color := color)
  }

  /** Sending the same patch twice leaves the same record as sending it once (a repeated heartbeat is harmless). */
  lemma MergeIdempotent(existing: Option<UserPresence>, patch: PresencePatch, now: int, color: string)
    ensures Merge(Some(Merge(existing, patch, now, color)), patch, now, color) == Merge(existing, patch, now, color)
  {
  }

  /** A patch that names only the user keeps every field of a named record, except that typing stops and the time and colour are renewed. */
  lemma EmptyPatchKeeps(r: UserPresence, now: int, color: string)
    requires r.userName != ""
    ensures Merge(Some(r), EmptyPatch(r.userId), now, color) == r.(isTyping := false, lastUpdate := now, color := color)
  {
  }

  /** The colour for `userId` and the assignment table after the lookup (`getUserColor`). */
  function AssignColor(assignments: map<string, string>, userId: string): (r: (string, map<string, string>))
    ensures userId in assignments ==> r.0 == assignments[userId] && r.1 == assignments
    ensures userId !in assignments ==>
      r.0 == Palette[|assignments| % |Palette|] && r.1 == assignments[userId := r.0] && |r.1| == |assignments| + 1
  {
    if userId in assignments then (assignments[userId], assignments)
    else
      var color := Palette[|assignments| % |Palette|];
      (color, assignments[userId := color])
  }

  /** Every colour in the table comes from the palette. */
  ghost predicate PaletteOnly(assignments: map<string, string>) {
    forall u :: u in assignments ==> assignments[u] in Palette
  }

  /** The colours handed to `users`, one lookup after another, and the final table. */
  function AssignAll(assignments: map<string, string>, users: seq<string>): (r: (seq<string>, map<string, string>))
    ensures |r.0| == |users|
    decreases |users|
  {
    if users == [] then ([], assignments)
    else
      var (c, next) := AssignColor(assignments, users[0]);
      var (rest, final) := AssignAll(next, users[1..]);
      ([c] + rest, final)
  }

  /**
   * Colour assignment is stable and total over the palette: a user keeps
   * the colour it was first given, a user already in the table keeps its
   * old colour, nothing is ever reassigned, and every colour is a palette entry.
   */
  lemma {:induction false} AssignAllStable(assignments: map<string, string>, users: seq<string>)
    requires PaletteOnly(assignments)
    ensures var colors := AssignAll(assignments, users).0;
      var final := AssignAll(assignments, users).1;
      && PaletteOnly(final)
      && (forall u :: u in assignments ==> u in final && final[u] == assignments[u])
      && (forall i :: 0 <= i < |users| ==> users[i] in final && colors[i] == final[users[i]])
      && (forall i :: 0 <= i < |users| ==> colors[i] in Palette)
    decreases |users|
  {
    if users != [] {
      var (c, next) := AssignColor(assignments, users[0]);
      assert PaletteOnly(next);
      AssignAllStable(next, users[1..]);
      var (rest, final) := AssignAll(next, users[1..]);
      assert AssignAll(assignments, users) == ([c] + rest, final);
      forall i | 0 <= i < |users|
        ensures users[i] in final && ([c] + rest)[i] == final[users[i]]
      {
        if i > 0 {
          assert users[i] == users[1..][i - 1];
        }
      }
    }
  }

  /** Starting from an empty table, the k-th distinct user gets palette entry k mod 12. */
  lemma {:induction false} AssignAllCycles(assignments: map<string, string>, users: seq<string>)
    requires forall i, j :: 0 <= i < j < |users| ==> users[i] != users[j]
    requires forall i :: 0 <= i < |users| ==> users[i] !in assignments
    ensures forall i :: 0 <= i < |users| ==>
      AssignAll(assignments, users).0[i] == Palette[(|assignments| + i) % |Palette|]
    decreases |users|
  {
    if users != [] {
      var (c, next) := AssignColor(assignments, users[0]);
      forall i | 0 <= i < |users[1..]| ensures users[1..][i] !in next {
        assert users[1..][i] == users[i + 1];
      }
      AssignAllCycles(next, users[1..]);
      var (rest, final) := AssignAll(next, users[1..]);
      assert AssignAll(assignments, users).0 == [c] + rest;
    }
  }

  lemma PaletteDistinct()
    ensures |Palette| == 12
    ensures forall i, j :: 0 <= i < j < |Palette| ==> Palette[i] != Palette[j]
  {
  }

  class PresenceManager {
    /** The presence records in the ephemeral store, by key. */
    var store: Store<UserPresence>
    /** userId -> colour, kept for the life of the process. */
    var colorAssignments: map<string, string>

    ghost predicate Valid()
      reads this
    {
      PaletteOnly(colorAssignments)
    }

    constructor ()
      ensures Valid() && store == map[] && colorAssignments == map[]
    {
      store := map[];
      colorAssignments := map[];
    }

    method UpdatePresence(projectId: string, patch: PresencePatch, now: int) returns (presence: UserPresence)
      requires Valid()
      modifies this
      ensures Valid()
      ensures var key := PresenceKey(projectId, patch.userId);
        var picked := AssignColor(old(colorAssignments), patch.userId);
        && presence == Merge(Get(old(store), key, now), patch, now, picked.0)
        && colorAssignments == picked.1
        && store == old(store)[key := Entry(presence, Some(now + PRESENCE_TTL * 1000))]
      ensures presence.color in Palette
    {
      var key := PresenceKey(projectId, patch.userId);
      var existing := GetPresence(projectId, patch.userId, now);
      var color := GetUserColor(patch.userId);
      presence := Merge(existing, patch, now, color);
      store := SetEx(store, key, presence, PRESENCE_TTL, now);
    }

    method GetPresence(projectId: string, userId: string, now: int) returns (presence: Option<UserPresence>)
      ensures presence.Some? <==> Live(store, PresenceKey(projectId, userId), now)
      ensures presence.Some? ==> presence.value == store[PresenceKey(projectId, userId)].value
    {
      presence := Get(store, PresenceKey(projectId, userId), now);
    }

    /** Every live record whose key starts with `presence:{projectId}:`, one per key. */
    method GetProjectPresence(projectId: string, now: int) returns (presences: seq<UserPresence>)
      ensures (set p | p in presences) == ValuesAt(store, Keys(store, ProjectPrefix(projectId), now))
      ensures |presences| == |Keys(store, ProjectPrefix(projectId), now)|
    {
      var keys := Keys(store, ProjectPrefix(projectId), now);
      var remaining := keys;
      ghost var done: set<string> := {};
      presences := [];
      while remaining != {}
        invariant remaining <= keys && done == keys - remaining
        invariant (set p | p in presences) == ValuesAt(store, done)
        invariant |presences| == |done|
        decreases remaining
      {
        var key :| key in remaining;
        ListingStep(store, ProjectPrefix(projectId), now, remaining, done, key, presences);
        var data := Get(store, key, now);
        if data.Some? {
          presences := presences + [data.value];
        }
        remaining := remaining - {key};
        done := done + {key};
      }
    }

    method RemovePresence(projectId: string, userId: string)
      modifies this
      ensures store == old(store) - {PresenceKey(projectId, userId)}
      ensures colorAssignments == old(colorAssignments)
    {
      store := Del(store, PresenceKey(projectId, userId));
    }

    /** Marks the user as typing (or not) in `fileName`; a no-op for a user without a live record. */
    method SetTyping(projectId: string, userId: string, fileName: string, isTyping: bool, now: int)
      requires Valid()
      modifies this
      ensures Valid()
      ensures !Live(old(store), PresenceKey(projectId, userId), now) ==>
        store == old(store) && colorAssignments == old(colorAssignments)
      ensures Live(old(store), PresenceKey(projectId, userId), now) ==>
        var patch := PresencePatch(userId, None, None, Some(fileName), None, None, Some(isTyping));
        var picked := AssignColor(old(colorAssignments), userId);
        && colorAssignments == picked.1
        && store == old(store)[PresenceKey(projectId, userId) :=
             Entry(Merge(Get(old(store), PresenceKey(projectId, userId), now), patch, now, picked.0),
                   Some(now + PRESENCE_TTL * 1000))]
    {
      var existing := GetPresence(projectId, userId, now);
      if existing.Some? {
        var _ := UpdatePresence(projectId, PresencePatch(userId, None, None, Some(fileName), None, None, Some(isTyping)), now);
      }
    }

    /** Moves the user's cursor; a no-op for a user without a live record. Typing is reset. */
    method UpdateCursor(projectId: string, userId: string, fileName: string, line: int, column: int, now: int)
      requires Valid()
      modifies this
      ensures Valid()
      ensures !Live(old(store), PresenceKey(projectId, userId), now) ==>
        store == old(store) && colorAssignments == old(colorAssignments)
      ensures Live(old(store), PresenceKey(projectId, userId), now) ==>
        var patch := PresencePatch(userId, None, None, Some(fileName), Some(line), Some(column), None);
        var picked := AssignColor(old(colorAssignments), userId);
        && colorAssignments == picked.1
        && store == old(store)[PresenceKey(projectId, userId) :=
             Entry(Merge(Get(old(store), PresenceKey(projectId, userId), now), patch, now, picked.0),
                   Some(now + PRESENCE_TTL * 1000))]
        && !store[PresenceKey(projectId, userId)].value.isTyping
    {
      var existing := GetPresence(projectId, userId, now);
      if existing.Some? {
        var _ := UpdatePresence(projectId, PresencePatch(userId, None, None, Some(fileName), Some(line), Some(column), None), now);
      }
    }

    /** The colour of `userId`, assigning the next palette entry on first sight. */
    method GetUserColor(userId: string) returns (color: string)
      requires Valid()
      modifies this`colorAssignments
      ensures Valid()
      ensures (color, colorAssignments) == AssignColor(old(colorAssignments), userId)
      ensures color in Palette
    {
      if userId in colorAssignments {
        return colorAssignments[userId];
      }
      color := Palette[|colorAssignments| % |Palette|];
      colorAssignments := colorAssignments[userId := color];
    }

    /**
     * The periodic presence sweep counts the listed keys whose TTL reports
     * them missing; with no other client in between there are none, and it
     * changes nothing.
     */
    method CleanupStalePresence(now: int) returns (cleaned: nat)
      ensures cleaned == 0
    {
      var keys := set k | k in Keys(store, "presence:", now) && MatchesAnyPresence(k);
      var remaining := keys;
      var count := 0;
      while remaining != {}
        invariant remaining <= keys
        invariant count == 0
        decreases remaining
      {
        var key :| key in remaining;
        var ttl := Ttl(store, key, now);
        // -2 means the key vanished between KEYS and TTL, which takes another
        // client in between: in this sequential model the branch is never taken.
        if ttl == -2 {
          count := count + 1;
        }
        remaining := remaining - {key};
      }
      cleaned := count;
    }
  }
}
