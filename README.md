# CodeCollab realtime collaboration engine: a Dafny model

This project models the core of CodeCollab's realtime collaboration engine.

The backend services:

- **Lock manager.** Per-(project, path) mutual exclusion over the shared ephemeral store.
  - Acquire is set-if-absent, with a ten-minute TTL.
  - Only the current holder may release or refresh a lock.
  - It also offers a forced release, a project-wide listing and a sweep.
- **Presence manager.**
  - One record per (project, user) with a 60-second TTL. Each record is built by merging a partial record onto the existing one.
  - A process-wide colour assignment that cycles through a 12-entry palette.
- **Document registry.**
  - Open replicas are seeded lazily from the database and updated by CRDT fragments.
  - They are written back by a per-key debounce timer or on close.
  - It also holds the extension-to-language table.
- **Session coordinator.** The per-connection socket handlers:
  - join with an access check;
  - sync, lock, presence and chat events, each emitted to a fixed audience;
  - the disconnect cleanup.

The frontend pieces:

- **Editor store.** Upserting, removing and updating tabs and users.
- **File explorer's tree builder.** It turns flat '/'-separated paths into a tree with one directory node per distinct prefix. The same module models the expand/collapse toggle.
- **Invite code generator.** Eight symbols from a 32-symbol alphabet, written `XXXX-XXXX`.

How the collaborators are modelled:

- **Ephemeral store (Redis).**
  - A map from key to (value, expiry instant). `ephemeral_store.dfy` holds it.
  - The clock is an explicit `now` in milliseconds.
  - An expired entry may linger in the map, but GET, KEYS and TTL treat it as absent.
  - A KEYS pattern `prefix*` is a prefix test.
- **CRDT library (Yjs).** Two parameters of the registry:
  - `apply` merges a fragment into a replica's text, or rejects it;
  - `encode` gives the full-state encoding.
- **Debounce timers.** A table from key to the file its callback persists. `Fire(key)` runs one callback.
- **Database.** The file rows the registry reads and upserts form a map. The project rows that the access check reads form a map too.
- **Socket emissions.** They are appended to an outbox. Each one is tagged with its audience: the sender, the other room members, or the whole room.

Layout:

- One module per source file: `locks.dfy`, `presence.dfy`, `sync.dfy`, `socket.dfy`, `editor_store.dfy`, `file_tree.dfy`, `invite_code.dfy`.
- Shared modules: `ephemeral_store.dfy`, `text.dfy` (splitting at the last separator) and `wrappers.dfy` (`Option`).
- The services that update their own state are classes whose fields the methods reassign: `LockManager`, `PresenceManager`, `DocumentSync` and `Connection`.
- The editor store's actions are functions from state to state.
- The tree builder and the invite code generator keep their loops as methods. Each method is proved equal to a recursive specification function, and the lemmas are about that function.

Two behaviours of the code are worth stating up front:

- **The lock sweep.** It deletes every live `lock:*:*` key that has no TTL, and reports how many it deleted.
- **`isTyping`.** A presence update that does not supply `isTyping` stores `false`. It does not keep the previous value.

## Model

| member | source | states |
|---|---|---|
| EphemeralStore.SetNx | backend/src/services/locks.ts:34-40 | set-if-absent writes exactly when the key has no live value, and otherwise leaves the store untouched |
| EphemeralStore.Ttl | backend/src/services/locks.ts:144-150 | TTL reports -2 exactly for a missing or expired key, and -1 exactly for a live key without expiry |
| EphemeralStore.ExpiresAfterTtl | backend/src/services/presence.ts:43-47 | a value written with a TTL is readable before the TTL runs out; afterwards it is gone from GET and KEYS |
| EphemeralStore.SetNxExclusive | backend/src/services/locks.ts:33-47 | while a first set-if-absent write is live, a second one on the same key fails and changes nothing |
| EphemeralStore.DelAccumulates | backend/src/services/locks.ts:143-151 | deleting keys one at a time equals deleting them together |
| Text.AfterLastIsLongestFreeSuffix | backend/src/services/sync.ts:124 | `split(c).pop()` is the longest suffix free of `c`, and is preceded by `c` or by nothing |
| Text.AfterLastSkips | backend/src/services/sync.ts:124 | whatever precedes the last separator is skipped |
| Locks.TtlMatchesDuration | backend/src/services/locks.ts:5 | the store TTL is 600 s, the same instant as the lock's own `expiresAt` of now + 600000 ms |
| Locks.KeyHasProjectPrefix | backend/src/services/locks.ts:23 | every lock key starts with its project's KEYS prefix and matches `lock:*:*` |
| Locks.PrefixSelectsProject | backend/src/services/locks.ts:111 | with ':'-free project ids, the prefix `lock:{p}:` selects exactly the keys of project p |
| Locks.LockKeyInjective | backend/src/services/locks.ts:23 | with ':'-free project ids, a lock key determines both the project and the path |
| Locks.DistinctKeysDistinctLocks | backend/src/services/locks.ts:23-31 | two keys never hold the same lock, because a lock determines its key |
| Locks.LocksOfKeysCount | backend/src/services/locks.ts:110-127 | a set of keys holds as many distinct locks as it has keys, because a lock determines its key |
| Locks.HeldInIsHeldUnder | backend/src/services/locks.ts:110-127 | the project listing finds every lock the user holds in the project; with ':'-free ids it finds nothing else |
| Locks.LockManager.constructor | backend/src/services/locks.ts:16 | a new manager starts with an empty store |
| Locks.LockManager.AcquireLock | backend/src/services/locks.ts:17-48 | with no live lock, it stores and returns a lock whose holder, name, project and path are the arguments, expiring at now + LOCK_DURATION; with a live lock, it returns null and leaves the store unchanged |
| Locks.LockManager.ReleaseLock | backend/src/services/locks.ts:50-62 | it returns true exactly when a live lock is held by the user, and then deletes that key; otherwise nothing changes |
| Locks.LockManager.GetLock | backend/src/services/locks.ts:64-76 | it returns the live lock under the key, and null when the key is absent or expired |
| Locks.LockManager.RefreshLock | backend/src/services/locks.ts:78-99 | for the holder, it sets `expiresAt` to now + LOCK_DURATION, keeps every other field, and renews the TTL; for anyone else, it returns false and changes nothing |
| Locks.LockManager.IsLocked | backend/src/services/locks.ts:101-103 | true exactly when a live lock exists |
| Locks.LockManager.IsLockedByUser | backend/src/services/locks.ts:105-108 | true exactly when a live lock exists and the user holds it |
| Locks.LockManager.GetAllProjectLocks | backend/src/services/locks.ts:110-127 | the result holds exactly the locks under the live keys starting with `lock:{projectId}:`, one per key, without repeats |
| Locks.LockManager.ForceReleaseLock | backend/src/services/locks.ts:129-133 | it deletes the key whoever holds it |
| Locks.LockManager.CleanupExpiredLocks | backend/src/services/locks.ts:136-158 | it deletes exactly the live `lock:*:*` keys without a TTL, counts them, and never touches a lock that has a TTL |
| Presence.Merge | backend/src/services/presence.ts:31-41 | supplied fields win. userName and fileName fall back (via `\|\|`) to the existing value, then to 'Anonymous' and ''. Avatar and cursor fall back (via `??`) to the existing value, then to null, 0 and 0. isTyping is never inherited. lastUpdate is now |
| Presence.MergeIdempotent | backend/src/services/presence.ts:25-50 | sending the same update twice leaves the same record as sending it once |
| Presence.EmptyPatchKeeps | backend/src/services/presence.ts:31-41 | an update naming only the user keeps every field of a named record, except that typing stops and the time and colour are renewed |
| Presence.AssignColor | backend/src/services/presence.ts:121-129 | a known user keeps its colour and the table is unchanged; a new user gets palette[count % 12], and the table grows by exactly that entry |
| Presence.AssignAllStable | backend/src/services/presence.ts:121-129 | over any run of lookups: no colour is ever reassigned, each lookup returns the table's final colour for that user, and every colour is a palette entry |
| Presence.AssignAllCycles | backend/src/services/presence.ts:121-129 | distinct new users receive consecutive palette entries, cycling modulo 12 |
| Presence.PaletteDistinct | backend/src/services/presence.ts:17-21 | the palette has 12 distinct colours |
| Presence.PresenceManager.constructor | backend/src/services/presence.ts:15-23 | a new manager has no records and no colour assignments |
| Presence.PresenceManager.UpdatePresence | backend/src/services/presence.ts:25-50 | it returns the merge of the update onto the live record, with the user's assigned colour, and stores that record under `presence:{p}:{u}` with a 60 s TTL |
| Presence.PresenceManager.GetPresence | backend/src/services/presence.ts:52-64 | it returns the live record, and null when the record is absent or expired |
| Presence.PresenceManager.GetProjectPresence | backend/src/services/presence.ts:66-82 | the result holds exactly the records under the live keys starting with `presence:{projectId}:`, one per key |
| Presence.PresenceManager.RemovePresence | backend/src/services/presence.ts:84-88 | it deletes exactly that user's record, after which GetPresence returns null |
| Presence.PresenceManager.SetTyping | backend/src/services/presence.ts:90-100 | a no-op without a live record; otherwise it merges the file name and the typing flag |
| Presence.PresenceManager.UpdateCursor | backend/src/services/presence.ts:102-119 | a no-op without a live record; otherwise it merges the file and cursor, and leaves isTyping false |
| Presence.PresenceManager.GetUserColor | backend/src/services/presence.ts:121-129 | it performs the AssignColor step on the table and returns a palette colour |
| Presence.PresenceManager.CleanupStalePresence | backend/src/services/presence.ts:131-150 | it changes no record and, run without other clients in between, counts none |
| Sync.ToLower | backend/src/services/sync.ts:124 | ASCII capitals become lower case and every other character is kept |
| Sync.ToLowerKeepsLower | backend/src/services/sync.ts:124 | a string without capitals is unchanged by lower-casing |
| Sync.DetectLanguage | backend/src/services/sync.ts:123-142 | the lower-cased text after the last '.' is looked up in the fixed table; a miss gives 'plaintext' |
| Sync.DetectLanguageAsWritten | backend/src/services/sync.ts:123-142 | the lookup as written agrees with DetectLanguage whenever it yields a string |
| Sync.DetectLanguageAsWrittenLeaks | backend/src/services/sync.ts:141 | `notes.constructor` yields the inherited Object constructor, not a language name |
| Sync.DetectLanguageAsWrittenLeaksProto | backend/src/services/sync.ts:141 | `data.__proto__` yields Object.prototype, not a language name |
| Sync.SeedText | backend/src/services/sync.ts:16-29 | a new replica holds the stored content when it is non-empty, and '' otherwise |
| Sync.Upsert | backend/src/services/sync.ts:103-115 | an existing row gets the new content and keeps its language; a missing row is created with both; other rows are untouched |
| Sync.FlushedContent | backend/src/services/sync.ts:70-77 | a flush writes the open replica's text, or '' when no replica is open |
| Sync.DocumentSync.constructor | backend/src/services/sync.ts:6-7 | a new registry has no replicas and no timers |
| Sync.DocumentSync.GetOrCreateDocument | backend/src/services/sync.ts:9-41 | when the key is already open, it returns the same replica and changes nothing; otherwise it seeds a replica from the database, and seeding schedules no flush |
| Sync.DocumentSync.ApplyUpdate | backend/src/services/sync.ts:43-59 | it returns true exactly when a replica is open and accepts the fragment; then the text is merged and the key's flush is rescheduled; otherwise nothing changes and no replica is created |
| Sync.DocumentSync.GetState | backend/src/services/sync.ts:61-68 | the encoding of the open replica, or null when none is open |
| Sync.DocumentSync.GetText | backend/src/services/sync.ts:70-77 | the open replica's text, or '' when none is open |
| Sync.DocumentSync.SchedulePersist | backend/src/services/sync.ts:82-97 | it cancels any pending flush of the key and schedules one for this file: at most one timer per key |
| Sync.DocumentSync.PersistToDatabase | backend/src/services/sync.ts:99-121 | it upserts the file's row with the current text and the detected language |
| Sync.DocumentSync.Fire | backend/src/services/sync.ts:91-94 | an elapsed timer persists the replica's text as it is at that moment, then drops the timer |
| Sync.DocumentSync.CloseDocument | backend/src/services/sync.ts:144-161 | it removes the key from both the replicas and the timers; it flushes only a replica that is open |
| Sync.DocumentSync.CloseDocumentAsWritten | backend/src/services/sync.ts:144-161 | it removes the key from both tables and always upserts, even when no replica is open |
| Sync.CloseAsWrittenErasesContent | backend/src/services/sync.ts:148 | closing a file that is not open, as written, replaces its stored content with '' |
| Sync.DocumentSync.GetActiveDocuments | backend/src/services/sync.ts:163-165 | the keys of the open replicas, each exactly once |
| Socket.AvatarOf | backend/src/socket.ts:229-236 | the avatar is null for a missing user, a missing avatar or an empty one |
| Socket.HolderOf | backend/src/socket.ts:170-179 | the lock:failed holder is the current lock's holder, name and expiry, or null |
| Socket.ReleaseEventsCover | backend/src/socket.ts:339-349 | the distinct notices sent are those for the walked locks that the user holds |
| Socket.ReleaseEventsCount | backend/src/socket.ts:339-349 | walking a listing without repeats sends exactly one notice per walked lock that the user holds |
| Socket.HeldListedCount | backend/src/socket.ts:339-341 | a listing of the project's live locks holds exactly one lock per key of the project that the user holds |
| Socket.DisconnectStep | backend/src/socket.ts:340-349 | one cleanup step deletes at most a key the user holds, and it deletes the walked lock's own key |
| Socket.ListedCoversHeld | backend/src/socket.ts:338-349 | after the walk, no lock the user held in the project survives; with ':'-free ids, exactly those keys were deleted |
| Socket.Connection.constructor | backend/src/socket.ts:52-54 | a new connection has no project, no rooms and an empty outbox |
| Socket.Connection.OnProjectJoin | backend/src/socket.ts:56-94 | without access, only the sender hears an error, and the project and rooms are unchanged; with access, the connection records the project, joins the room, sends the sender the room's presence list and tells the others |
| Socket.Connection.OnSyncUpdate | backend/src/socket.ts:97-119 | it applies the fragment, and relays it to the others whether or not it applied |
| Socket.Connection.OnSyncRequest | backend/src/socket.ts:122-144 | an open replica is kept as is; an unopened file gets a replica seeded from its stored content (or '') with every other replica and the timers untouched; the sender alone receives that replica's full-state encoding |
| Socket.Connection.OnFileLock | backend/src/socket.ts:147-185 | a granted lock stores the user's lock (name, acquiredAt now, expiresAt now + LOCK_DURATION, project, path) with a 600 s TTL, leaves every other key alone, and goes to the whole room, sender included; a refusal changes nothing and goes only to the requester, with the current holder |
| Socket.Connection.OnFileUnlock | backend/src/socket.ts:187-205 | lock:released goes to the room exactly when the user held the lock, and the key is deleted |
| Socket.Connection.OnLockRefresh | backend/src/socket.ts:207-217 | it extends only the user's own lock, and emits nothing |
| Socket.Connection.OnPresenceUpdate | backend/src/socket.ts:220-247 | a no-op without a project; otherwise it stores, with a 60 s TTL, the merge of the user's name, avatar, file and cursor with isTyping false onto the live record, with the user's assigned colour; every other key is kept, and the stored record goes to the whole room |
| Socket.Connection.OnUserTyping | backend/src/socket.ts:250-274 | a no-op without a project; otherwise it tells the others; it merges the file name and typing flag onto a live record with a 60 s TTL, and leaves the store alone when the user has no live record |
| Socket.Connection.OnChatMessage | backend/src/socket.ts:277-287 | a no-op without a project; otherwise the whole room gets the message stamped with now |
| Socket.Connection.OnDisconnect | backend/src/socket.ts:324-351 | without a project, nothing changes. With one: the presence record goes, user:left goes to the others first, only the user's own locks are deleted, every lock the user held in the project is gone, and exactly one lock:released notice is sent per key of the project that the user held |
| Socket.Connection.ReleaseListed | backend/src/socket.ts:339-349 | the cleanup loop releases and announces each listed lock the user holds, and deletes nothing else |
| EditorStore.Added | frontend/src/stores/editorStore.ts:44-47 | it appends exactly when the key is new, keeps the existing prefix, and keeps keys unique |
| EditorStore.Without | frontend/src/stores/editorStore.ts:49-52 | the survivors are exactly the entries with another key |
| EditorStore.Updated | frontend/src/stores/editorStore.ts:53-57 | entries with the key are patched; every other entry, the length and the order are kept |
| EditorStore.WithoutDistributes | frontend/src/stores/editorStore.ts:50 | filtering distributes over concatenation, so the survivors keep their order |
| EditorStore.WithoutKeepsUnique | frontend/src/stores/editorStore.ts:66 | filtering keeps keys unique |
| EditorStore.UpdatedKeepsKeys | frontend/src/stores/editorStore.ts:69-71 | a patch that keeps the key keeps keys unique |
| EditorStore.PatchTab | frontend/src/stores/editorStore.ts:55 | in `{ ...t, ...updates }` every field the update carries wins, and an empty update changes nothing |
| EditorStore.PatchUser | frontend/src/stores/editorStore.ts:70 | in `{ ...u, ...updates }` every field the update carries wins |
| EditorStore.SetActiveFile | frontend/src/stores/editorStore.ts:41 | it sets only the active file |
| EditorStore.SetProjectId | frontend/src/stores/editorStore.ts:75 | it sets only the project id |
| EditorStore.AddTab | frontend/src/stores/editorStore.ts:44-48 | an already-open path leaves the state unchanged; a new path is appended at the end; tab paths stay unique |
| EditorStore.RemoveTab | frontend/src/stores/editorStore.ts:49-52 | it drops exactly the tabs with the path; activeFile becomes null exactly when it was that path |
| EditorStore.UpdateTab | frontend/src/stores/editorStore.ts:53-57 | only tabs with the path change; length and order are kept |
| EditorStore.AddUser | frontend/src/stores/editorStore.ts:60-64 | never a second entry with the same user id; a new user is appended |
| EditorStore.RemoveUser | frontend/src/stores/editorStore.ts:65-67 | it removes exactly the entries with that user id |
| EditorStore.UpdateUser | frontend/src/stores/editorStore.ts:68-72 | it merges the update into the matching users only; length and order are kept |
| EditorStore.AddTabIdempotent | frontend/src/stores/editorStore.ts:44-47 | opening a tab twice is the same as opening it once |
| EditorStore.RemoveUndoesAddTab | frontend/src/stores/editorStore.ts:44-52 | closing a tab that was just opened at a new path gives back the previous tabs |
| EditorStore.RemoveTabKeepsOrder | frontend/src/stores/editorStore.ts:49-52 | closing keeps the remaining tabs in order, with unique paths |
| EditorStore.UpdateTabKeepsPaths | frontend/src/stores/editorStore.ts:53-57 | an update without a path keeps every tab's path, so paths stay unique |
| EditorStore.AddUserRoundTrip | frontend/src/stores/editorStore.ts:60-67 | adding a user twice equals adding once; removing a just-added new user gives back the list |
| EditorStore.RemoveUserKeepsOrder | frontend/src/stores/editorStore.ts:65-67 | removal keeps the other users in order, with unique ids |
| EditorStore.UpdateUserKeepsIds | frontend/src/stores/editorStore.ts:68-72 | an update without an id keeps user ids unique |
| FileTree.Segments | frontend/src/components/FileExplorer.tsx:95 | `split('/').filter(Boolean)` yields non-empty segments without '/' |
| FileTree.SegmentsSplit | frontend/src/components/FileExplorer.tsx:95 | the pieces of `a/b` are the pieces of `a` followed by those of `b`: every '/' separates, and empty pieces are dropped |
| FileTree.SegmentsFree | frontend/src/components/FileExplorer.tsx:95 | a non-empty '/'-free string is a single piece |
| FileTree.Descend | frontend/src/components/FileExplorer.tsx:111-128 | the inner loop always ends at a level that exists in the tree |
| FileTree.BuildFileTree | frontend/src/components/FileExplorer.tsx:90-141 | the builder's two loops compute the tree of the files added in list order |
| FileTree.DescendKeys | frontend/src/components/FileExplorer.tsx:111-128 | the inner loop registers exactly the directories it visits |
| FileTree.DescendLevel | frontend/src/components/FileExplorer.tsx:111-128 | the inner loop ends in the directory of the file's first n-1 segments |
| FileTree.PathsFromArePrefixes | frontend/src/components/FileExplorer.tsx:112 | each visited path is '/' followed by a proper prefix of the segments, joined with '/' |
| FileTree.AddFileShape | frontend/src/components/FileExplorer.tsx:94-137 | one file adds its leaf, plus one directory node per prefix not seen before, named after its last segment |
| FileTree.AddFileKeys | frontend/src/components/FileExplorer.tsx:114-125 | one file registers exactly the directories it needs |
| FileTree.BuildKeys | frontend/src/components/FileExplorer.tsx:92-127 | each directory is listed once, and the directories are exactly the distinct proper prefixes of the input paths |
| FileTree.BuildShape | frontend/src/components/FileExplorer.tsx:94-137 | the nodes are, with multiplicity, one leaf per input file (its path, language and last segment) plus one node per directory |
| FileTree.AddFilePlacesLeaf | frontend/src/components/FileExplorer.tsx:98-136 | a file with one segment (or none) goes to the root list; a deeper file is placed last in its parent directory's list |
| FileTree.Toggled | frontend/src/components/FileExplorer.tsx:20-28 | exactly the clicked directory flips membership |
| FileTree.ToggleDirectory | frontend/src/components/FileExplorer.tsx:20-28 | copy-then-add-or-delete computes Toggled |
| FileTree.ToggleTwice | frontend/src/components/FileExplorer.tsx:20-28 | clicking a directory twice restores the expanded set |
| InviteCode.GenerateInviteCode | backend/src/utils/inviteCode.ts:5-17 | the loop produces the four drawn symbols, a dash, then the last four |
| InviteCode.AlphabetDistinct | backend/src/utils/inviteCode.ts:6 | the alphabet has 32 symbols, none listed twice |
| InviteCode.AlphabetUnambiguous | backend/src/utils/inviteCode.ts:6 | none of 0, O, 1, I (nor '-') is a symbol |
| InviteCode.RenderLayout | backend/src/utils/inviteCode.ts:9-16 | the code has 9 characters, with '-' at index 4, the drawn symbols elsewhere, and no look-alike |
| InviteCode.IndexOf | backend/src/utils/inviteCode.ts:13 | the first position of a character, or none when it does not occur |
| InviteCode.ParseRender | backend/src/utils/inviteCode.ts:5-17 | reading a generated code gives back the draws it was made from |
| InviteCode.RenderParse | backend/src/utils/inviteCode.ts:5-17 | every string that reads as a code is the code of the draws it reads as |
| InviteCode.UnspellSpell | backend/src/utils/inviteCode.ts:13 | the symbol string of a run of draws reads back as that run |
| InviteCode.SpellUnspell | backend/src/utils/inviteCode.ts:13 | a string that reads as draws is the symbol string of those draws |

## Left out

- Store and database failures are not modelled. The try/catch paths that log and return null or false are absent: a failing Redis or Prisma call, and a malformed JSON value in the store. The model's store and database never fail.
- Console logging and the `updatedAt` timestamp of the file rows are left out.
- The CRDT's merge, encoding and convergence are not modelled. They belong to the library, so `apply` and `encode` are parameters.
  - A fragment the library accepts is taken to change the text, and therefore to schedule a flush.
- Iteration order is not modelled: the order of KEYS results and of a Map's keys. The listings are specified as sets, each key once, in an arbitrary order.
- KEYS glob patterns are modelled as prefix tests. A project id containing ':' can make `lock:{p}:*` match another project's keys. The model states "exactly the user's locks" only for ':'-free ids.
- Presence.PresenceManager.GetProjectPresence: states the set of records returned and their number (one per key), not their multiset. The two differ only when two keys hold equal records, which needs project or user ids containing ':'.
- Interleavings are not modelled. Examples are the check-then-delete in release and refresh, the await gap in document creation, and a key expiring between KEYS and TTL.
  - The TTL = -2 branches of both sweeps are therefore kept, but never taken.
  - Presence.PresenceManager.CleanupStalePresence: proved to count 0 only in this sequential model; with other clients in between, it can count keys that vanished.
- Real timers are not modelled. The 2-second delay is not, and neither is the periodic `setInterval` that drives the sweeps. A pending flush runs only when `Fire` is called for it.
- The clock (`Date.now()`) and the random draws (`Math.random()`) are inputs: `now` and `picks`.
- The socket handshake's authentication, the user lookup and the project lookup are inputs:
  - the identity is fixed per connection;
  - the avatars and the project rows are maps.
- Terminal sessions, the HTTP controllers, the React rendering and the socket/Yjs hooks are not part of this model.
- `toLowerCase` is modelled on ASCII letters only. Other characters are kept as they are.
- EditorStore.PatchTab and EditorStore.PatchUser: a patch either supplies a field or omits it. The model cannot express an update object that carries a field explicitly set to `undefined`, which `{ ...t, ...updates }` would copy over the existing value.
- FileTree.BuildFileTree: the builder's node objects are shared between the `directories` map and the child arrays. The model keeps the same information in a value, and does not capture that aliasing:
  - each directory's child list is stored under the directory's path;
  - the directories are kept in first-seen order;
  - the root list is kept separately.
- Sync.DocumentSync.PersistToDatabase: uses the corrected Sync.DetectLanguage for a new row's language, as does Sync.DocumentSync.Fire. As written, a file named like `notes.constructor` would send a function or an object as the language. The database client would plausibly reject that write, and the error would be caught and logged, so nothing would be written. That failed write is not modelled.

## Findings

| source | as written | input that shows it | evidently intended | confidence | as-written member | corrected member |
|---|---|---|---|---|---|---|
| backend/src/services/sync.ts:141 | `languageMap[ext \|\| ''] \|\| 'plaintext'` indexes a plain object, so a lower-case extension that names an inherited Object.prototype member returns that member | a file `notes.constructor` gets the Object constructor function as its language; `data.__proto__` gets Object.prototype. Persisting such a file then puts a non-string language in the row it creates | a table miss, including an inherited name, gives 'plaintext' | high for the lookup semantics; not executed | Sync.DetectLanguageAsWritten (shown by Sync.DetectLanguageAsWrittenLeaks and Sync.DetectLanguageAsWrittenLeaksProto) | Sync.DetectLanguage, used by Sync.DocumentSync.PersistToDatabase and Sync.DocumentSync.Fire |
| backend/src/services/sync.ts:148 | closeDocument persists before checking that a replica is open, and persisting with no replica writes the empty text | close a file that has stored content but was never opened (the test suite's cleanup does this) | flush only an open replica | low (only tests call closeDocument on an unopened file); not executed | Sync.DocumentSync.CloseDocumentAsWritten (shown by Sync.CloseAsWrittenErasesContent) | Sync.DocumentSync.CloseDocument |
