/**
 * The session coordinator: one connection's event handlers. A connection
 * carries the authenticated user, the project it joined (set only after the
 * access check succeeds) and the rooms it is in; every handler works on the
 * shared lock, presence and document services and appends what it emits to
 * the outbox, tagged with its audience: the sender alone, the other members
 * of a room, or the whole room.
 */
module Socket {
  import opened Wrappers
  import opened EphemeralStore
  import Locks
  import Presence
  import Sync

  datatype Audience =
    | ToSender
    | ToOthers(room: string)
    | ToRoom(room: string)

  /** The holder details a failed lock request reports. */
  datatype LockHolder = LockHolder(id: string, name: string, expiresAt: int)

  datatype Event =
    | Error(message: string)
    | PresenceList(records: seq<Presence.UserPresence>)
    | UserJoined(userId: string, userName: string)
    | SyncUpdate(filePath: string, update: Sync.Bytes, sender: string)
    | SyncState(filePath: string, state: Sync.Bytes)
    | LockAcquired(filePath: string, userId: string, userName: string, expiresAt: int)
    | LockFailed(filePath: string, reason: string, holder: Option<LockHolder>)
    | LockReleased(filePath: string, userId: string, why: Option<string>)
    | PresenceUpdate(record: Presence.UserPresence)
    | UserTyping(userId: string, userName: string, fileName: string, isTyping: bool)
    | ChatMessage(userId: string, userName: string, message: string, timestamp: int)
    | UserLeft(userId: string, userName: string)

  datatype Emission = Emission(to: Audience, event: Event)

  /** A project row as the access check reads it. */
  datatype ProjectAccess = ProjectAccess(ownerId: string, collaborators: set<string>)

  const DisconnectReason := "User disconnected"
  const AlreadyLocked := "File is already locked"

  function Room(projectId: string): string {
    "project:" + projectId
  }

  /** The access check: the project exists and the user owns it or collaborates on it. */
  predicate HasAccess(projects: map<string, ProjectAccess>, projectId: string, userId: string) {
    projectId in projects && (projects[projectId].ownerId == userId || userId in projects[projectId].collaborators)
  }

  /** `user?.avatar || null`: a missing user, a missing avatar and an empty one all give null. */
  function AvatarOf(avatars: map<string, string>, userId: string): (avatar: Option<string>)
    ensures avatar.Some? <==> userId in avatars && avatars[userId] != ""
    ensures avatar.Some? ==> avatar.value == avatars[userId]
  {
    if userId in avatars && avatars[userId] != "" then Some(avatars[userId]) else None
  }

  /** The holder part of a lock:failed event: the current lock's holder, or null when there is none. */
  function HolderOf(lock: Option<Locks.FileLock>): (holder: Option<LockHolder>)
    ensures holder.Some? <==> lock.Some?
    ensures holder.Some? ==> holder.value == LockHolder(lock.value.holder, lock.value.holderName, lock.value.expiresAt)
  {
    if lock.Some? then Some(LockHolder(lock.value.holder, lock.value.holderName, lock.value.expiresAt)) else None
  }

  /** The lock:released notice disconnect cleanup sends for one lock. */
  function ReleaseNotice(room: string, userId: string, filePath: string): Emission {
    Emission(ToRoom(room), LockReleased(filePath, userId, Some(DisconnectReason)))
  }

  /** The notices disconnect cleanup sends while walking `listing`: one per lock the user holds, in order. */
  function ReleaseEvents(room: string, userId: string, listing: seq<Locks.FileLock>): seq<Emission>
    decreases |listing|
  {
    if listing == [] then []
    else
      var last := listing[|listing| - 1];
      ReleaseEvents(room, userId, listing[..|listing| - 1])
        + (if last.holder == userId then [ReleaseNotice(room, userId, last.filePath)] else [])
  }

  /** The notices are exactly those for the walked locks that the user holds. */
  lemma {:induction false} ReleaseEventsCover(room: string, userId: string, listing: seq<Locks.FileLock>)
    ensures EmissionSet(ReleaseEvents(room, userId, listing))
         == (set l | l in listing && l.holder == userId :: ReleaseNotice(room, userId, l.filePath))
    decreases |listing|
  {
    if listing != [] {
      var init := listing[..|listing| - 1];
      var last := listing[|listing| - 1];
      ReleaseEventsCover(room, userId, init);
      assert listing == init + [last];
      var tail := if last.holder == userId then [ReleaseNotice(room, userId, last.filePath)] else [];
      assert EmissionSet(ReleaseEvents(room, userId, init) + tail)
          == EmissionSet(ReleaseEvents(room, userId, init)) + EmissionSet(tail);
    }
  }

  /** Walking a listing without repeats sends one notice per walked lock that the user holds. */
  lemma {:induction false} ReleaseEventsCount(room: string, userId: string, listing: seq<Locks.FileLock>)
    requires forall i, j :: 0 <= i < j < |listing| ==> listing[i] != listing[j]
    ensures |ReleaseEvents(room, userId, listing)| == |set l | l in listing && l.holder == userId|
    decreases |listing|
  {
    if listing != [] {
      var init := listing[..|listing| - 1];
      var last := listing[|listing| - 1];
      ReleaseEventsCount(room, userId, init);
      assert listing == init + [last];
      var held := set l | l in init && l.holder == userId;
      assert last !in init;
      if last.holder == userId {
        assert (set l | l in listing && l.holder == userId) == held + {last};
      } else {
        assert (set l | l in listing && l.holder == userId) == held;
      }
    }
  }

  /** A listing of the project's live locks holds one lock per key of the project that the user holds. */
  lemma HeldListedCount(s: Store<Locks.FileLock>, projectId: string, userId: string,
                        listing: seq<Locks.FileLock>, now: int)
    requires Locks.KeysAgree(s)
    requires (set l | l in listing) == Locks.LocksUnder(s, Locks.ProjectPrefix(projectId), now)
    ensures |set l | l in listing && l.holder == userId| == |Locks.HeldUnder(s, projectId, userId, now)|
  {
    var held := Locks.HeldUnder(s, projectId, userId, now);
    assert (set l | l in listing && l.holder == userId) == ValuesAt(s, held) by {
      forall l | l in listing && l.holder == userId
        ensures l in ValuesAt(s, held)
      {
        assert l in Locks.LocksUnder(s, Locks.ProjectPrefix(projectId), now);
        var k :| k in Keys(s, Locks.ProjectPrefix(projectId), now) && s[k].value == l;
        assert k in held;
      }
      forall l | l in ValuesAt(s, held)
        ensures l in listing && l.holder == userId
      {
        var k :| k in held && s[k].value == l;
        assert l in Locks.LocksUnder(s, Locks.ProjectPrefix(projectId), now);
      }
    }
    Locks.LocksOfKeysCount(s, held);
  }

  /** The notices disconnect cleanup owes: one per listed lock of the project held by the user. */
  ghost function ReleaseNotices(store: Store<Locks.FileLock>, projectId: string, userId: string, now: int): set<Emission> {
    set l | l in Locks.LocksUnder(store, Locks.ProjectPrefix(projectId), now) && l.holder == userId
      :: ReleaseNotice(Room(projectId), userId, l.filePath)
  }

  /** The distinct emissions in `emissions`. */
  function EmissionSet(emissions: seq<Emission>): set<Emission> {
    set e | e in emissions
  }

  /** `s` is `s0` with some keys deleted and nothing else changed. */
  ghost predicate OnlyDeleted(s0: Store<Locks.FileLock>, s: Store<Locks.FileLock>) {
    s.Keys <= s0.Keys && forall k :: k in s ==> s[k] == s0[k]
  }

  /**
   * One step of disconnect cleanup: releasing the listed lock `l` under
   * `lock:{projectId}:{l.filePath}` deletes at most a key the user holds,
   * and deletes the key of `l` itself when `l` belongs to the project.
   */
  lemma DisconnectStep(s0: Store<Locks.FileLock>, s: Store<Locks.FileLock>, s': Store<Locks.FileLock>,
                       projectId: string, userId: string, l: Locks.FileLock, now: int)
    requires Locks.KeysAgree(s0) && OnlyDeleted(s0, s)
    requires l.holder != userId ==> s' == s
    requires l.holder == userId ==>
      var key := Locks.LockKey(projectId, l.filePath);
      var released := Live(s, key, now) && s[key].value.holder == userId;
      (released ==> s' == s - {key}) && (!released ==> s' == s)
    ensures OnlyDeleted(s0, s')
    ensures forall k :: k in s && k !in s' ==> k in Locks.HeldUnder(s0, projectId, userId, now)
    ensures forall k :: k in Locks.HeldIn(s0, projectId, userId, now) && s0[k].value == l ==> k !in s'
  {
    var key := Locks.LockKey(projectId, l.filePath);
    Locks.KeyHasProjectPrefix(projectId, l.filePath);
    forall k | k in Locks.HeldIn(s0, projectId, userId, now) && s0[k].value == l
      ensures k !in s'
    {
      assert Locks.AgreesAt(s0, k);
    }
  }

  /**
   * After releasing every listed lock: since the listing holds every lock of
   * the project, none the user held there survives; and when only keys the
   * user held under the project's prefix were deleted and ids are ':'-free,
   * the deleted keys are exactly the user's locks in the project.
   */
  lemma ListedCoversHeld(s0: Store<Locks.FileLock>, s: Store<Locks.FileLock>, projectId: string, userId: string,
                         listing: seq<Locks.FileLock>, now: int)
    requires Locks.KeysAgree(s0) && OnlyDeleted(s0, s)
    requires (set l | l in listing) == Locks.LocksUnder(s0, Locks.ProjectPrefix(projectId), now)
    requires forall k :: k in s0 && k !in s ==> k in Locks.HeldUnder(s0, projectId, userId, now)
    requires forall k :: k in Locks.HeldIn(s0, projectId, userId, now) && s0[k].value in listing ==> k !in s
    ensures Locks.HeldIn(s0, projectId, userId, now) !! s.Keys
    ensures Locks.PlainId(projectId) && Locks.PlainIds(s0) ==> s == s0 - Locks.HeldIn(s0, projectId, userId, now)
  {
    forall k | k in Locks.HeldIn(s0, projectId, userId, now)
      ensures k !in s
    {
      assert Locks.AgreesAt(s0, k);
      Locks.KeyHasProjectPrefix(projectId, s0[k].value.filePath);
      assert k in Keys(s0, Locks.ProjectPrefix(projectId), now);
      assert s0[k].value in Locks.LocksUnder(s0, Locks.ProjectPrefix(projectId), now);
    }
    Locks.HeldInIsHeldUnder(s0, projectId, userId, now);
  }

  class Connection {
    /** The authenticated identity, fixed by the handshake. */
    const userId: string
    const userName: string
    /** The shared services. */
    const locks: Locks.LockManager
    const presence: Presence.PresenceManager
    const sync: Sync.DocumentSync
    /** The project rows the access check reads, and the users' avatars. */
    const projects: map<string, ProjectAccess>
    const avatars: map<string, string>

    /** `socket.data.projectId`: set by a successful join. */
    var projectId: Option<string>
    var rooms: set<string>
    /** Everything emitted so far, in order. */
    var outbox: seq<Emission>

    ghost predicate Valid()
      reads this, locks, presence, sync
    {
      && locks.Valid() && presence.Valid() && sync.Valid()
      && (projectId.Some? ==> HasAccess(projects, projectId.value, userId) && Room(projectId.value) in rooms)
    }

    constructor (userId: string, userName: string, locks: Locks.LockManager, presence: Presence.PresenceManager,
                 sync: Sync.DocumentSync, projects: map<string, ProjectAccess>, avatars: map<string, string>)
      requires locks.Valid() && presence.Valid() && sync.Valid()
      ensures Valid()
      ensures this.userId == userId && this.userName == userName
      ensures this.locks == locks && this.presence == presence && this.sync == sync
      ensures this.projects == projects && this.avatars == avatars
      ensures projectId == None && rooms == {} && outbox == []
    {
      this.userId := userId;
      this.userName := userName;
      this.locks := locks;
      this.presence := presence;
      this.sync := sync;
      this.projects := projects;
      this.avatars := avatars;
      projectId := None;
      rooms := {};
      outbox := [];
    }

    /** project:join — enter the room only after the access check; a refusal goes to the sender alone. */
    method OnProjectJoin(projectId: string, now: int)
      requires Valid()
      modifies this
      ensures Valid()
      ensures !HasAccess(projects, projectId, userId) ==>
        && this.projectId == old(this.projectId) && rooms == old(rooms)
        && outbox == old(outbox) + [Emission(ToSender, Error("Access denied to project"))]
      ensures HasAccess(projects, projectId, userId) ==>
        && this.projectId == Some(projectId) && rooms == old(rooms) + {Room(projectId)}
        && |outbox| == |old(outbox)| + 2
        && outbox[..|old(outbox)|] == old(outbox)
        && outbox[|old(outbox)|].to == ToSender && outbox[|old(outbox)|].event.PresenceList?
        && outbox[|old(outbox)| + 1] == Emission(ToOthers(Room(projectId)), UserJoined(userId, userName))
      ensures HasAccess(projects, projectId, userId) ==>
        var listed := outbox[|old(outbox)|].event.records;
        (set r | r in listed) == ValuesAt(presence.store, Keys(presence.store, Presence.ProjectPrefix(projectId), now))
    {
      if !HasAccess(projects, projectId, userId) {
        outbox := outbox + [Emission(ToSender, Error("Access denied to project"))];
        return;
      }
      rooms := rooms + {Room(projectId)};
      this.projectId := Some(projectId);
      var listed := presence.GetProjectPresence(projectId, now);
      outbox := outbox + [Emission(ToSender, PresenceList(listed)), Emission(ToOthers(Room(projectId)), UserJoined(userId, userName))];
    }

    /** sync:update — apply the fragment and relay it to the others, whether or not it applied. */
    method OnSyncUpdate(projectId: string, filePath: string, update: Sync.Bytes)
      requires Valid()
      modifies this, sync
      ensures Valid()
      ensures this.projectId == old(this.projectId) && rooms == old(rooms)
      ensures outbox == old(outbox) + [Emission(ToOthers(Room(projectId)), SyncUpdate(filePath, update, userId))]
      ensures sync.database == old(sync.database)
      ensures var key := Sync.DocKey(projectId, filePath);
        var applies := key in old(sync.docs) && sync.apply(old(sync.docs)[key].text, update).Some?;
        && (!applies ==> sync.docs == old(sync.docs) && sync.timers == old(sync.timers))
        && (applies ==>
              && sync.docs == old(sync.docs)[key := old(sync.docs)[key].(text := sync.apply(old(sync.docs)[key].text, update).value)]
              && sync.timers == old(sync.timers)[key := old(sync.docs)[key].origin])
    {
      var _ := sync.ApplyUpdate(projectId, filePath, update);
      outbox := outbox + [Emission(ToOthers(Room(projectId)), SyncUpdate(filePath, update, userId))];
    }

    /** sync:request — open the document if needed and send its full state to the sender. */
    method OnSyncRequest(projectId: string, filePath: string)
      requires Valid()
      modifies this, sync
      ensures Valid()
      ensures this.projectId == old(this.projectId) && rooms == old(rooms)
      ensures sync.database == old(sync.database) && sync.timers == old(sync.timers)
      ensures Sync.DocKey(projectId, filePath) in old(sync.docs) ==> sync.docs == old(sync.docs)
      ensures Sync.DocKey(projectId, filePath) !in old(sync.docs) ==>
        sync.docs == old(sync.docs)[Sync.DocKey(projectId, filePath) :=
          Sync.OpenDoc(Sync.SeedText(sync.database, Sync.FileRef(projectId, filePath)), Sync.FileRef(projectId, filePath))]
      ensures Sync.DocKey(projectId, filePath) in sync.docs
      ensures outbox == old(outbox) + [Emission(ToSender, SyncState(filePath, sync.encode(sync.docs[Sync.DocKey(projectId, filePath)].text)))]
    {
      var _ := sync.GetOrCreateDocument(projectId, filePath);
      var state := sync.GetState(projectId, filePath);
      if state.Some? {
        outbox := outbox + [Emission(ToSender, SyncState(filePath, state.value))];
      }
    }

    /** file:lock — a granted lock is announced to the whole room; a refusal goes to the requester with the holder. */
    method OnFileLock(projectId: string, filePath: string, now: int)
      requires Valid()
      modifies this, locks
      ensures Valid()
      ensures this.projectId == old(this.projectId) && rooms == old(rooms)
      ensures Live(old(locks.store), Locks.LockKey(projectId, filePath), now) ==>
        && locks.store == old(locks.store)
        && outbox == old(outbox) + [Emission(ToSender, LockFailed(filePath, AlreadyLocked,
                                      HolderOf(Get(old(locks.store), Locks.LockKey(projectId, filePath), now))))]
      ensures !Live(old(locks.store), Locks.LockKey(projectId, filePath), now) ==>
        && locks.store == old(locks.store)[Locks.LockKey(projectId, filePath) :=
             Entry(Locks.FileLock(userId, userName, now, now + Locks.LOCK_DURATION, projectId, filePath),
                   Some(now + Locks.LOCK_DURATION))]
        && outbox == old(outbox) + [Emission(ToRoom(Room(projectId)),
                                      LockAcquired(filePath, userId, userName, now + Locks.LOCK_DURATION))]
    {
      var lock := locks.AcquireLock(projectId, filePath, userId, userName, now);
      if lock.Some? {
        outbox := outbox + [Emission(ToRoom(Room(projectId)), LockAcquired(filePath, userId, userName, lock.value.expiresAt))];
      } else {
        var existing := locks.GetLock(projectId, filePath, now);
        outbox := outbox + [Emission(ToSender, LockFailed(filePath, AlreadyLocked, HolderOf(existing)))];
      }
    }

    /** file:unlock — the room hears of a release only when this user held the lock. */
    method OnFileUnlock(projectId: string, filePath: string, now: int)
      requires Valid()
      modifies this, locks
      ensures Valid()
      ensures this.projectId == old(this.projectId) && rooms == old(rooms)
      ensures var key := Locks.LockKey(projectId, filePath);
        var held := Live(old(locks.store), key, now) && old(locks.store)[key].value.holder == userId;
        && (held ==>
              && locks.store == old(locks.store) - {key}
              && outbox == old(outbox) + [Emission(ToRoom(Room(projectId)), LockReleased(filePath, userId, None))])
        && (!held ==> locks.store == old(locks.store) && outbox == old(outbox))
    {
      var released := locks.ReleaseLock(projectId, filePath, userId, now);
      if released {
        outbox := outbox + [Emission(ToRoom(Room(projectId)), LockReleased(filePath, userId, None))];
      }
    }

    /** lock:refresh — extend this user's lock; nothing is emitted. */
    method OnLockRefresh(projectId: string, filePath: string, now: int)
      requires Valid()
      modifies locks
      ensures Valid()
      ensures var key := Locks.LockKey(projectId, filePath);
        var held := Live(old(locks.store), key, now) && old(locks.store)[key].value.holder == userId;
        && (held ==> locks.store == old(locks.store)[key := Entry(old(locks.store)[key].value.(expiresAt := now + Locks.LOCK_DURATION),
                                                                  Some(now + Locks.LOCK_DURATION))])
        && (!held ==> locks.store == old(locks.store))
    {
      var _ := locks.RefreshLock(projectId, filePath, userId, now);
    }

    /** presence:update — outside a project a no-op; inside, store a non-typing record and show it to the whole room. */
    method OnPresenceUpdate(fileName: string, cursorLine: int, cursorColumn: int, now: int)
      requires Valid()
      modifies this, presence
      ensures Valid()
      ensures projectId == old(projectId) && rooms == old(rooms)
      ensures projectId.None? ==>
        outbox == old(outbox) && presence.store == old(presence.store)
        && presence.colorAssignments == old(presence.colorAssignments)
      ensures projectId.Some? ==>
        var key := Presence.PresenceKey(projectId.value, userId);
        var patch := Presence.PresencePatch(userId, Some(userName), AvatarOf(avatars, userId), Some(fileName),
                                            Some(cursorLine), Some(cursorColumn), Some(false));
        var picked := Presence.AssignColor(old(presence.colorAssignments), userId);
        var record := Presence.Merge(Get(old(presence.store), key, now), patch, now, picked.0);
        && presence.store == old(presence.store)[key := Entry(record, Some(now + Presence.PRESENCE_TTL * 1000))]
        && presence.colorAssignments == picked.1
        && !record.isTyping && record.cursorLine == cursorLine && record.cursorColumn == cursorColumn
        && outbox == old(outbox) + [Emission(ToRoom(Room(projectId.value)), PresenceUpdate(record))]
    {
      if projectId.None? {
        return;
      }
      var p := projectId.value;
      var patch := Presence.PresencePatch(userId, Some(userName), AvatarOf(avatars, userId), Some(fileName),
                                          Some(cursorLine), Some(cursorColumn), Some(false));
      var record := presence.UpdatePresence(p, patch, now);
      outbox := outbox + [Emission(ToRoom(Room(p)), PresenceUpdate(record))];
    }

    /** user:typing — outside a project a no-op; inside, update the record and tell the others. */
    method OnUserTyping(fileName: string, isTyping: bool, now: int)
      requires Valid()
      modifies this, presence
      ensures Valid()
      ensures projectId == old(projectId) && rooms == old(rooms)
      ensures projectId.None? ==>
        outbox == old(outbox) && presence.store == old(presence.store)
        && presence.colorAssignments == old(presence.colorAssignments)
      ensures projectId.Some? ==>
        outbox == old(outbox) + [Emission(ToOthers(Room(projectId.value)), UserTyping(userId, userName, fileName, isTyping))]
      ensures projectId.Some? && !Live(old(presence.store), Presence.PresenceKey(projectId.value, userId), now) ==>
        presence.store == old(presence.store) && presence.colorAssignments == old(presence.colorAssignments)
      ensures projectId.Some? && Live(old(presence.store), Presence.PresenceKey(projectId.value, userId), now) ==>
        var key := Presence.PresenceKey(projectId.value, userId);
        var patch := Presence.PresencePatch(userId, None, None, Some(fileName), None, None, Some(isTyping));
        var picked := Presence.AssignColor(old(presence.colorAssignments), userId);
        && presence.colorAssignments == picked.1
        && presence.store == old(presence.store)[key :=
             Entry(Presence.Merge(Get(old(presence.store), key, now), patch, now, picked.0),
                   Some(now + Presence.PRESENCE_TTL * 1000))]
    {
      if projectId.None? {
        return;
      }
      var p := projectId.value;
      presence.SetTyping(p, userId, fileName, isTyping, now);
      outbox := outbox + [Emission(ToOthers(Room(p)), UserTyping(userId, userName, fileName, isTyping))];
    }

    /** chat:message — outside a project a no-op; inside, the whole room gets the message stamped with `now`. */
    method OnChatMessage(message: string, now: int)
      modifies this`outbox
      ensures projectId.None? ==> outbox == old(outbox)
      ensures projectId.Some? ==>
        outbox == old(outbox) + [Emission(ToRoom(Room(projectId.value)), ChatMessage(userId, userName, message, now))]
    {
      if projectId.None? {
        return;
      }
      outbox := outbox + [Emission(ToRoom(Room(projectId.value)), ChatMessage(userId, userName, message, now))];
    }

    /**
     * disconnect — outside a project nothing happens. Inside, the presence
     * record goes, the others hear that the user left, and every listed lock
     * of the project that the user holds is released and announced to the
     * room. Only the user's own keys are ever deleted, every lock the user
     * holds in the project is gone, and with ':'-free project ids these are
     * exactly the keys deleted.
     */
    method OnDisconnect(now: int)
      requires Valid()
      modifies this, locks, presence
      ensures Valid()
      ensures projectId == old(projectId) && rooms == old(rooms)
      ensures presence.colorAssignments == old(presence.colorAssignments)
      ensures projectId.None? ==>
        outbox == old(outbox) && locks.store == old(locks.store) && presence.store == old(presence.store)
      ensures projectId.Some? ==>
        var p := projectId.value;
        && presence.store == old(presence.store) - {Presence.PresenceKey(p, userId)}
        && OnlyDeleted(old(locks.store), locks.store)
        && (forall k :: k in old(locks.store) && k !in locks.store ==> k in Locks.HeldUnder(old(locks.store), p, userId, now))
        && Locks.HeldIn(old(locks.store), p, userId, now) !! locks.store.Keys
        && |outbox| > |old(outbox)|
        && outbox[..|old(outbox)| + 1] == old(outbox) + [Emission(ToOthers(Room(p)), UserLeft(userId, userName))]
        && EmissionSet(outbox[|old(outbox)| + 1..]) == ReleaseNotices(old(locks.store), p, userId, now)
        && |outbox| == |old(outbox)| + 1 + |Locks.HeldUnder(old(locks.store), p, userId, now)|
      ensures projectId.Some? && Locks.PlainId(projectId.value) && Locks.PlainIds(old(locks.store)) ==>
        locks.store == old(locks.store) - Locks.HeldIn(old(locks.store), projectId.value, userId, now)
    {
      if projectId.None? {
        return;
      }
      var p := projectId.value;
      presence.RemovePresence(p, userId);
      outbox := outbox + [Emission(ToOthers(Room(p)), UserLeft(userId, userName))];
      ghost var s0 := locks.store;
      var listing := locks.GetAllProjectLocks(p, now);
      ReleaseListed(p, listing, now);
      ReleaseEventsCover(Room(p), userId, listing);
      ReleaseEventsCount(Room(p), userId, listing);
      HeldListedCount(s0, p, userId, listing, now);
      assert outbox[|old(outbox)| + 1..] == ReleaseEvents(Room(p), userId, listing);
      ListedCoversHeld(s0, locks.store, p, userId, listing, now);
    }

    /** The loop of disconnect cleanup: release and announce each listed lock the user holds. */
    method ReleaseListed(p: string, listing: seq<Locks.FileLock>, now: int)
      requires locks.Valid()
      modifies this`outbox, locks
      ensures locks.Valid()
      ensures OnlyDeleted(old(locks.store), locks.store)
      ensures forall k :: k in old(locks.store) && k !in locks.store ==> k in Locks.HeldUnder(old(locks.store), p, userId, now)
      ensures forall k :: k in Locks.HeldIn(old(locks.store), p, userId, now) && old(locks.store)[k].value in listing ==> k !in locks.store
      ensures outbox == old(outbox) + ReleaseEvents(Room(p), userId, listing)
    {
      ghost var s0 := locks.store;
      var i := 0;
      while i < |listing|
        invariant 0 <= i <= |listing|
        invariant locks.Valid()
        invariant OnlyDeleted(s0, locks.store)
        invariant forall k :: k in s0 && k !in locks.store ==> k in Locks.HeldUnder(s0, p, userId, now)
        invariant forall k :: k in Locks.HeldIn(s0, p, userId, now) && s0[k].value in listing[..i] ==> k !in locks.store
        invariant outbox == old(outbox) + ReleaseEvents(Room(p), userId, listing[..i])
      {
        var l := listing[i];
        ghost var before := locks.store;
        if l.holder == userId {
          var _ := locks.ReleaseLock(p, l.filePath, userId, now);
          outbox := outbox + [ReleaseNotice(Room(p), userId, l.filePath)];
        }
        DisconnectStep(s0, before, locks.store, p, userId, l, now);
        assert listing[..i + 1] == listing[..i] + [l];
        assert listing[..i + 1][..i] == listing[..i];
        i := i + 1;
      }
      assert listing[..i] == listing;
    }
  }
}
