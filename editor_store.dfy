/**
 * The editor's client-side store: the active file, the open tabs, the users
 * present in the project and the project id. Every action computes the next
 * state from the previous one; tabs are keyed by path and users by user id,
 * and both lists share the same three list operations, written once here
 * over a key function.
 */
module EditorStore {
  import opened Wrappers

  datatype User = User(
    userId: string,
    userName: string,
    userAvatar: Option<string>,
    color: string,
    cursorLine: int,
    cursorColumn: int,
    fileName: string,
    isTyping: bool)

  datatype FileTab = FileTab(path: string, language: string, isLocked: bool, lockedBy: Option<string>)

  /** `Partial<FileTab>`: `None` is a key the update object does not carry; `lockedBy` may carry `undefined`. */
  datatype TabPatch = TabPatch(
    path: Option<string>,
    language: Option<string>,
    isLocked: Option<bool>,
    lockedBy: Option<Option<string>>)

  /** `Partial<User>`: `None` is a key the update object does not carry. */
  datatype UserPatch = UserPatch(
    userId: Option<string>,
    userName: Option<string>,
    userAvatar: Option<Option<string>>,
    color: Option<string>,
    cursorLine: Option<int>,
    cursorColumn: Option<int>,
    fileName: Option<string>,
    isTyping: Option<bool>)

  datatype EditorState = EditorState(
    activeFile: Option<string>,
    openTabs: seq<FileTab>,
    users: seq<User>,
    projectId: Option<string>)

  const Initial := EditorState(None, [], [], None)

  function TabPath(t: FileTab): string { t.path }
  function UserKey(u: User): string { u.userId }

  /** `xs.some(x => key(x) === k)`. */
  predicate HasKey<T>(xs: seq<T>, k: string, key: T -> string) {
    exists i :: 0 <= i < |xs| && key(xs[i]) == k
  }

  /** No two entries share a key. */
  predicate KeysUnique<T>(xs: seq<T>, key: T -> string) {
    forall i, j :: 0 <= i < j < |xs| ==> key(xs[i]) != key(xs[j])
  }

  /** Append `x` unless an entry with its key is already there. */
  function Added<T>(xs: seq<T>, x: T, key: T -> string): (r: seq<T>)
    ensures |xs| <= |r| <= |xs| + 1 && r[..|xs|] == xs
    ensures |r| == |xs| + 1 <==> !HasKey(xs, key(x), key)
    ensures |r| == |xs| + 1 ==> r[|xs|] == x
    ensures HasKey(r, key(x), key)
    ensures KeysUnique(xs, key) ==> KeysUnique(r, key)
  {
    if HasKey(xs, key(x), key) then xs else xs + [x]
  }

  /** `xs.filter(x => key(x) !== k)`. */
  function Without<T(!new)>(xs: seq<T>, k: string, key: T -> string): (r: seq<T>)
    ensures forall y :: y in r <==> y in xs && key(y) != k
    ensures |r| <= |xs|
    ensures !HasKey(xs, k, key) ==> r == xs
    ensures !HasKey(r, k, key)
    decreases |xs|
  {
    if xs == [] then []
    else if key(xs[0]) == k then Without(xs[1..], k, key)
    else [xs[0]] + Without(xs[1..], k, key)
  }

  /** `xs.map(x => key(x) === k ? f(x) : x)`. */
  function Updated<T>(xs: seq<T>, k: string, key: T -> string, f: T -> T): (r: seq<T>)
    ensures |r| == |xs|
    ensures forall i :: 0 <= i < |xs| && key(xs[i]) != k ==> r[i] == xs[i]
    ensures forall i :: 0 <= i < |xs| && key(xs[i]) == k ==> r[i] == f(xs[i])
  {
    seq(|xs|, i requires 0 <= i < |xs| => if key(xs[i]) == k then f(xs[i]) else xs[i])
  }

  /** Filtering distributes over concatenation: the survivors keep their relative order. */
  lemma {:induction false} WithoutDistributes<T(!new)>(a: seq<T>, b: seq<T>, k: string, key: T -> string)
    ensures Without(a + b, k, key) == Without(a, k, key) + Without(b, k, key)
    decreases |a|
  {
    if a != [] {
      assert (a + b)[1..] == a[1..] + b;
      WithoutDistributes(a[1..], b, k, key);
    } else {
      assert a + b == b;
    }
  }

  /** Filtering keeps keys unique. */
  lemma {:induction false} WithoutKeepsUnique<T(!new)>(xs: seq<T>, k: string, key: T -> string)
    requires KeysUnique(xs, key)
    ensures KeysUnique(Without(xs, k, key), key)
    decreases |xs|
  {
    if xs != [] {
      WithoutKeepsUnique(xs[1..], k, key);
      var rest := Without(xs[1..], k, key);
      forall y | y in rest ensures key(y) != key(xs[0]) {
        var j :| 0 <= j < |xs[1..]| && xs[1..][j] == y;
        assert xs[j + 1] == y;
      }
    }
  }

  /** An update that never changes a key keeps keys unique and leaves the set of keys alone. */
  lemma UpdatedKeepsKeys<T>(xs: seq<T>, k: string, key: T -> string, f: T -> T)
    requires forall y :: key(f(y)) == key(y)
    ensures forall i :: 0 <= i < |xs| ==> key(Updated(xs, k, key, f)[i]) == key(xs[i])
    ensures KeysUnique(xs, key) ==> KeysUnique(Updated(xs, k, key, f), key)
  {
  }

  /** `{ ...t, ...updates }` on a tab: every key the update carries wins. */
  function PatchTab(t: FileTab, p: TabPatch): (r: FileTab)
    ensures r.path == p.path.GetOr(t.path) && r.language == p.language.GetOr(t.language)
    ensures r.isLocked == p.isLocked.GetOr(t.isLocked) && r.lockedBy == p.lockedBy.GetOr(t.lockedBy)
    ensures p == TabPatch(None, None, None, None) ==> r == t
  {
    FileTab(p.path.GetOr(t.path), p.language.GetOr(t.language), p.isLocked.GetOr(t.isLocked), p.lockedBy.GetOr(t.lockedBy))
  }

  /** `{ ...u, ...updates }` on a user: every key the update carries wins. */
  function PatchUser(u: User, p: UserPatch): (r: User)
    ensures r.userId == p.userId.GetOr(u.userId) && r.userName == p.userName.GetOr(u.userName)
    ensures r.userAvatar == p.userAvatar.GetOr(u.userAvatar) && r.color == p.color.GetOr(u.color)
    ensures r.cursorLine == p.cursorLine.GetOr(u.cursorLine) && r.cursorColumn == p.cursorColumn.GetOr(u.cursorColumn)
    ensures r.fileName == p.fileName.GetOr(u.fileName) && r.isTyping == p.isTyping.GetOr(u.isTyping)
  {
    User(p.userId.GetOr(u.userId), p.userName.GetOr(u.userName), p.userAvatar.GetOr(u.userAvatar), p.color.GetOr(u.color),
         p.cursorLine.GetOr(u.cursorLine), p.cursorColumn.GetOr(u.cursorColumn), p.fileName.GetOr(u.fileName),
         p.isTyping.GetOr(u.isTyping))
  }

  function SetActiveFile(st: EditorState, path: Option<string>): (r: EditorState)
    ensures r.activeFile == path
    ensures r.openTabs == st.openTabs && r.users == st.users && r.projectId == st.projectId
  {
    st.(activeFile := path)
  }

  function SetProjectId(st: EditorState, id: string): (r: EditorState)
    ensures r.projectId == Some(id)
    ensures r.activeFile == st.activeFile && r.openTabs == st.openTabs && r.users == st.users
  {
    st.(projectId := Some(id))
  }

  /** Open a tab at the end, unless its path is already open; tab paths stay unique. */
  function AddTab(st: EditorState, tab: FileTab): (r: EditorState)
    ensures HasKey(st.openTabs, tab.path, TabPath) ==> r == st
    ensures !HasKey(st.openTabs, tab.path, TabPath) ==> r == st.(openTabs := st.openTabs + [tab])
    ensures KeysUnique(st.openTabs, TabPath) ==> KeysUnique(r.openTabs, TabPath)
  {
    st.(openTabs := Added(st.openTabs, tab, TabPath))
  }

  /** Close every tab with this path; the active file is cleared exactly when it was that path. */
  function RemoveTab(st: EditorState, path: string): (r: EditorState)
    ensures forall t :: t in r.openTabs <==> t in st.openTabs && t.path != path
    ensures !HasKey(r.openTabs, path, TabPath)
    ensures r.activeFile == (if st.activeFile == Some(path) then None else st.activeFile)
    ensures r.users == st.users && r.projectId == st.projectId
  {
    st.(openTabs := Without(st.openTabs, path, TabPath), activeFile := if st.activeFile == Some(path) then None else st.activeFile)
  }

  /** Patch the tabs with this path in place; length, order and every other tab are kept. */
  function UpdateTab(st: EditorState, path: string, updates: TabPatch): (r: EditorState)
    ensures |r.openTabs| == |st.openTabs|
    ensures forall i :: 0 <= i < |st.openTabs| ==>
      r.openTabs[i] == (if st.openTabs[i].path == path then PatchTab(st.openTabs[i], updates) else st.openTabs[i])
    ensures r.activeFile == st.activeFile && r.users == st.users && r.projectId == st.projectId
  {
    st.(openTabs := Updated(st.openTabs, path, TabPath, t => PatchTab(t, updates)))
  }

  /** Add a user at the end unless one with that id is present; user ids stay unique. */
  function AddUser(st: EditorState, user: User): (r: EditorState)
    ensures HasKey(st.users, user.userId, UserKey) ==> r == st
    ensures !HasKey(st.users, user.userId, UserKey) ==> r == st.(users := st.users + [user])
    ensures KeysUnique(st.users, UserKey) ==> KeysUnique(r.users, UserKey)
  {
    st.(users := Added(st.users, user, UserKey))
  }

  /** Drop exactly the users with this id. */
  function RemoveUser(st: EditorState, userId: string): (r: EditorState)
    ensures forall u :: u in r.users <==> u in st.users && u.userId != userId
    ensures r.activeFile == st.activeFile && r.openTabs == st.openTabs && r.projectId == st.projectId
  {
    st.(users := Without(st.users, userId, UserKey))
  }

  /** Merge the update into the users with this id; length, order and every other user are kept. */
  function UpdateUser(st: EditorState, userId: string, updates: UserPatch): (r: EditorState)
    ensures |r.users| == |st.users|
    ensures forall i :: 0 <= i < |st.users| ==>
      r.users[i] == (if st.users[i].userId == userId then PatchUser(st.users[i], updates) else st.users[i])
    ensures r.activeFile == st.activeFile && r.openTabs == st.openTabs && r.projectId == st.projectId
  {
    st.(users := Updated(st.users, userId, UserKey, u => PatchUser(u, updates)))
  }

  /** Opening a tab twice is the same as opening it once. */
  lemma AddTabIdempotent(st: EditorState, tab: FileTab)
    ensures AddTab(AddTab(st, tab), tab) == AddTab(st, tab)
  {
  }

  /** Closing a tab that was just opened (at a new path) gives back the previous tabs. */
  lemma RemoveUndoesAddTab(st: EditorState, tab: FileTab)
    requires !HasKey(st.openTabs, tab.path, TabPath)
    ensures RemoveTab(AddTab(st, tab), tab.path).openTabs == st.openTabs
  {
    WithoutDistributes(st.openTabs, [tab], tab.path, TabPath);
  }

  /** Closing tabs keeps the remaining tabs in their order and their paths unique. */
  lemma RemoveTabKeepsOrder(st: EditorState, path: string, before: seq<FileTab>, after: seq<FileTab>)
    requires st.openTabs == before + after
    ensures RemoveTab(st, path).openTabs == Without(before, path, TabPath) + Without(after, path, TabPath)
    ensures KeysUnique(st.openTabs, TabPath) ==> KeysUnique(RemoveTab(st, path).openTabs, TabPath)
  {
    WithoutDistributes(before, after, path, TabPath);
    if KeysUnique(st.openTabs, TabPath) {
      WithoutKeepsUnique(st.openTabs, path, TabPath);
    }
  }

  /** An update that leaves the path alone keeps tab paths unique. */
  lemma UpdateTabKeepsPaths(st: EditorState, path: string, updates: TabPatch)
    requires updates.path.None?
    ensures forall i :: 0 <= i < |st.openTabs| ==> UpdateTab(st, path, updates).openTabs[i].path == st.openTabs[i].path
    ensures KeysUnique(st.openTabs, TabPath) ==> KeysUnique(UpdateTab(st, path, updates).openTabs, TabPath)
  {
    UpdatedKeepsKeys(st.openTabs, path, TabPath, t => PatchTab(t, updates));
  }

  /** Adding a user twice is the same as adding once; removing a just-added new user gives back the list. */
  lemma AddUserRoundTrip(st: EditorState, user: User)
    ensures AddUser(AddUser(st, user), user) == AddUser(st, user)
    ensures !HasKey(st.users, user.userId, UserKey) ==> RemoveUser(AddUser(st, user), user.userId).users == st.users
  {
    WithoutDistributes(st.users, [user], user.userId, UserKey);
  }

  /** Removing users keeps the others in their order and user ids unique. */
  lemma RemoveUserKeepsOrder(st: EditorState, userId: string, before: seq<User>, after: seq<User>)
    requires st.users == before + after
    ensures RemoveUser(st, userId).users == Without(before, userId, UserKey) + Without(after, userId, UserKey)
    ensures KeysUnique(st.users, UserKey) ==> KeysUnique(RemoveUser(st, userId).users, UserKey)
  {
    WithoutDistributes(before, after, userId, UserKey);
    if KeysUnique(st.users, UserKey) {
      WithoutKeepsUnique(st.users, userId, UserKey);
    }
  }

  /** An update that leaves the id alone keeps user ids unique. */
  lemma UpdateUserKeepsIds(st: EditorState, userId: string, updates: UserPatch)
    requires updates.userId.None?
    ensures KeysUnique(st.users, UserKey) ==> KeysUnique(UpdateUser(st, userId, updates).users, UserKey)
  {
    UpdatedKeepsKeys(st.users, userId, UserKey, u => PatchUser(u, updates));
  }
}
