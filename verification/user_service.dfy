/** The user directory (`services/userService.ts`): one list stored under
    `treasure-hunt-users`, with validation on creation and update,
    archiving (soft delete), restore and permanent deletion. */
module UserService {
  import opened Wrappers
  import opened Types
  import opened Storage
  import opened Text
  import QuestService
  import QuestTree

  const DefaultAdmin: User := User(
    "admin", Admin, "admin.001", "Admin", "User", NationalId, "A001", Some("N/A"),
    PreferNotToSay, "123 System Lane", "555-0100", "admin@system.local",
    Some(175.0), Some(70.0), [], false)

  const DefaultAdventurer: User := User(
    "adventurer", Player, "adventurer.001", "Brave", "Adventurer", NationalId, "9001015000V", Some("34"),
    PreferNotToSay, "The Enchanted Forest", "555-0101", "adventurer@quest.local",
    Some(180.0), Some(75.0), [], false)

  const DefaultUsers: seq<User> := [DefaultAdmin, DefaultAdventurer]

  /** `getUsers()`: an absent list reads as empty. */
  function GetUsers(s: Store): seq<User> {
    s.users.GetOr([])
  }

  function SaveUsers(s: Store, users: seq<User>): Store {
    s.(users := Some(users))
  }

  // ---------------------------------------------------------------- migration

  function DefaultHeight(role: Role): real { if role == Admin then 175.0 else 180.0 }
  function DefaultWeight(role: Role): real { if role == Admin then 70.0 else 75.0 }

  predicate NeedsMigration(u: User) {
    u.height.None? || u.weight.None?
  }

  /** Fills a missing height or weight with the role's default. */
  function Migrate(u: User): (m: User)
    ensures m.(height := u.height, weight := u.weight) == u
    ensures m.height == (if u.height.Some? then u.height else Some(DefaultHeight(u.role)))
    ensures m.weight == (if u.weight.Some? then u.weight else Some(DefaultWeight(u.role)))
    ensures !NeedsMigration(m)
  {
    u.(height := Some(u.height.GetOr(DefaultHeight(u.role))),
       weight := Some(u.weight.GetOr(DefaultWeight(u.role))))
  }

  function MigrateAll(users: seq<User>): (ms: seq<User>)
    ensures |ms| == |users| && forall i :: 0 <= i < |users| ==> ms[i] == Migrate(users[i])
  {
    seq(|users|, i requires 0 <= i < |users| => Migrate(users[i]))
  }

  /** Seeds the two default users into an empty browser; otherwise fills
      missing heights and weights, writing only if something was filled. */
  function InitializeUsers(s: Store): (s': Store)
    ensures s' == s.(users := s'.users) && s'.users.Some?
    ensures s.users.None? ==> s'.users == Some(DefaultUsers)
    ensures s.users.Some? ==>
      && |s'.users.value| == |s.users.value|
      && forall i :: 0 <= i < |s.users.value| ==> s'.users.value[i] == Migrate(s.users.value[i])
    ensures s.users.Some? && (forall i :: 0 <= i < |s.users.value| ==> !NeedsMigration(s.users.value[i])) ==> s' == s
    ensures forall i :: 0 <= i < |s'.users.value| ==> !NeedsMigration(s'.users.value[i])
  {
    match s.users
    case None => SaveUsers(s, DefaultUsers)
    case Some(users) =>
      if exists i :: 0 <= i < |users| && NeedsMigration(users[i]) then SaveUsers(s, MigrateAll(users))
      else
        assert forall i :: 0 <= i < |users| ==> Migrate(users[i]) == users[i];
        s
  }

  lemma InitializeUsersIdempotent(s: Store)
    ensures InitializeUsers(InitializeUsers(s)) == InitializeUsers(s)
  {
  }

  // ---------------------------------------------------------------- creation

  datatype UserError =
    | EmptyUsername
    | MissingName
    | EmptyMasterKey
    | UsernameTaken
    | MasterKeyTaken
    | UserNotFound
    | MasterKeyTakenByOther

  /** The `message` of the source's failure replies. */
  function ErrorMessage(e: UserError): string {
    match e
    case EmptyUsername => "Username cannot be empty."
    case MissingName => "First and Last name are required."
    case EmptyMasterKey => "Master Key cannot be empty."
    case UsernameTaken => "Username already exists."
    case MasterKeyTaken => "Master Key already exists. Please edit it."
    case UserNotFound => "User not found."
    case MasterKeyTakenByOther => "Master Key already exists for another user."
  }

  /** The stored form of a new username. */
  function SanitizeUsername(name: string): string {
    ToLower(Trim(name))
  }

  /** No two directory entries share a username; `addUser` keeps this. */
  predicate DistinctNames(users: seq<User>) {
    forall i, j :: 0 <= i < j < |users| ==> users[i].username != users[j].username
  }

  predicate UsernameInUse(users: seq<User>, name: string) {
    exists i :: 0 <= i < |users| && users[i].username == name
  }

  predicate MasterKeyInUse(users: seq<User>, key: string) {
    exists i :: 0 <= i < |users| && users[i].masterKey == key
  }

  /** The checks of `addUser`, in the order the source makes them. */
  function CheckNewUser(users: seq<User>, data: User): (r: Outcome<UserError>)
    ensures r == Fail(EmptyUsername) <==> AllWhitespace(data.username)
    ensures r == Fail(MissingName) <==>
      !AllWhitespace(data.username) && (AllWhitespace(data.firstName) || AllWhitespace(data.lastName))
    ensures r == Fail(EmptyMasterKey) <==>
      && !AllWhitespace(data.username) && !AllWhitespace(data.firstName) && !AllWhitespace(data.lastName)
      && AllWhitespace(data.masterKey)
    ensures r == Fail(UsernameTaken) ==> UsernameInUse(users, SanitizeUsername(data.username))
    ensures r == Fail(MasterKeyTaken) ==>
      !UsernameInUse(users, SanitizeUsername(data.username)) && MasterKeyInUse(users, Trim(data.masterKey))
    ensures r.Pass? <==>
      && !AllWhitespace(data.username) && !AllWhitespace(data.firstName) && !AllWhitespace(data.lastName)
      && !AllWhitespace(data.masterKey)
      && !UsernameInUse(users, SanitizeUsername(data.username))
      && !MasterKeyInUse(users, Trim(data.masterKey))
    ensures r.Fail? ==> r.error in {EmptyUsername, MissingName, EmptyMasterKey, UsernameTaken, MasterKeyTaken}
  {
    CheckFields(users, data.username, data.firstName, data.lastName, Trim(data.masterKey))
  }

  /** The same checks, on the fields they read; only the trimmed master
      key is looked at. */
  function CheckFields(users: seq<User>, username: string, firstName: string, lastName: string, key: string)
    : Outcome<UserError>
  {
    if Trim(username) == "" then Fail(EmptyUsername)
    else if Trim(firstName) == "" || Trim(lastName) == "" then Fail(MissingName)
    else if key == "" then Fail(EmptyMasterKey)
    else if UsernameInUse(users, SanitizeUsername(username)) then Fail(UsernameTaken)
    else if MasterKeyInUse(users, key) then Fail(MasterKeyTaken)
    else Pass
  }

  /** The directory entry `addUser` appends: the submitted record with the
      sanitized username, role `user`, not archived, and the master key
      exactly as typed. */
  function NewUser(data: User): User {
    data.(username := SanitizeUsername(data.username), role := Player, isDeleted := false)
  }

  /** `addUser`: on success exactly one entry is appended and the new
      player gets a fresh quest state; on failure nothing changes. */
  function AddUser(s: Store, data: User): (r: (Store, Outcome<UserError>))
    ensures r.1 == CheckNewUser(GetUsers(s), data)
    ensures r.1.Fail? ==> r.0 == s
    ensures r.0 == s.(users := r.0.users, master := r.0.master, questStates := r.0.questStates)
    ensures r.1.Pass? ==>
      && GetUsers(r.0) == GetUsers(s) + [NewUser(data)]
      && r.0.users.Some?
      && (forall v :: v != SanitizeUsername(data.username) ==>
           QuestService.GetQuestState(r.0, v) == QuestService.GetQuestState(s, v))
    ensures r.1.Pass? ==>
      var st := QuestService.GetQuestState(r.0, SanitizeUsername(data.username));
      st.Some? && st.value.currentTaskIndex == 0 && QuestTree.NoProgress(st.value.quest.tasks)
    ensures r.1.Pass? ==>
      var st := QuestService.GetQuestState(r.0, SanitizeUsername(data.username));
      && r.0.master == Some(QuestService.TemplateAfterCreate(s))
      && st.Some? && QuestService.FreshFrom(st.value, QuestService.TemplateAfterCreate(s))
  {
    var check := CheckNewUser(GetUsers(s), data);
    if check.Fail? then (s, check) else (AppendUser(s, data), Pass)
  }

  /** The success branch of `addUser`: append the entry, then create the
      player's quest state. */
  function AppendUser(s: Store, data: User): (s': Store)
    ensures GetUsers(s') == GetUsers(s) + [NewUser(data)] && s'.users.Some?
    ensures s' == s.(users := s'.users, master := s'.master, questStates := s'.questStates)
    ensures forall v :: v != SanitizeUsername(data.username) ==>
      QuestService.GetQuestState(s', v) == QuestService.GetQuestState(s, v)
    ensures var st := QuestService.GetQuestState(s', SanitizeUsername(data.username));
      st.Some? && st.value.currentTaskIndex == 0 && QuestTree.NoProgress(st.value.quest.tasks)
    ensures var st := QuestService.GetQuestState(s', SanitizeUsername(data.username));
      && s'.master == Some(QuestService.TemplateAfterCreate(s))
      && st.Some? && QuestService.FreshFrom(st.value, QuestService.TemplateAfterCreate(s))
  {
    var s1 := SaveUsers(s, GetUsers(s) + [NewUser(data)]);
    var name := SanitizeUsername(data.username);
    var r := QuestService.CreateNewQuestState(s1, name);
    assert r.0.users == s1.users;
    assert forall v :: QuestService.GetQuestState(s1, v) == QuestService.GetQuestState(s, v);
    r.0
  }

  // ---------------------------------------------------------------- update and deletion

  /** `users.findIndex(u => u.username === name)`, with `|users|` for -1. */
  function FindUserIndex(users: seq<User>, name: string): (i: nat)
    ensures i <= |users|
    ensures i < |users| ==> users[i].username == name
    ensures forall k :: 0 <= k < i ==> users[k].username != name
  {
    if users == [] then 0
    else if users[0].username == name then 0
    else 1 + FindUserIndex(users[1..], name)
  }

  predicate KeyTakenByOther(users: seq<User>, name: string, key: string) {
    exists i :: 0 <= i < |users| && users[i].username != name && users[i].masterKey == key
  }

  /** `updateUser`: replaces the first entry named `name` wholesale, unless
      the name is unknown or another user already holds the trimmed key. */
  function UpdateUser(s: Store, name: string, updated: User): (r: (Store, Outcome<UserError>))
    ensures r.1 == Fail(UserNotFound) <==> !UsernameInUse(GetUsers(s), name)
    ensures r.1 == Fail(MasterKeyTakenByOther) <==>
      UsernameInUse(GetUsers(s), name) && KeyTakenByOther(GetUsers(s), name, Trim(updated.masterKey))
    ensures r.1.Pass? <==>
      UsernameInUse(GetUsers(s), name) && !KeyTakenByOther(GetUsers(s), name, Trim(updated.masterKey))
    ensures r.1.Fail? ==> r.0 == s
    ensures r.1.Pass? ==>
      var users := GetUsers(s);
      var i := FindUserIndex(users, name);
      && i < |users|
      && r.0 == SaveUsers(s, users[i := updated])
  {
    var users := GetUsers(s);
    var i := FindUserIndex(users, name);
    if i == |users| then (s, Fail(UserNotFound))
    else if KeyTakenByOther(users, name, Trim(updated.masterKey)) then (s, Fail(MasterKeyTakenByOther))
    else (SaveUsers(s, users[i := updated]), Pass)
  }

  /** `softDeleteUser`: archives the first entry with that name unless it is
      an administrator; an unknown name changes nothing. */
  function SoftDeleteUser(s: Store, name: string): (s': Store)
    ensures var users := GetUsers(s); var i := FindUserIndex(users, name);
      && (i == |users| || users[i].role == Admin ==> s' == s)
      && (i < |users| && users[i].role != Admin ==>
            s' == SaveUsers(s, users[i := users[i].(isDeleted := true)]))
  {
    var users := GetUsers(s);
    var i := FindUserIndex(users, name);
    if i == |users| || users[i].role == Admin then s
    else SaveUsers(s, users[i := users[i].(isDeleted := true)])
  }

  /** `restoreUser`: un-archives the first entry with that name, whatever
      its role. */
  function RestoreUser(s: Store, name: string): (s': Store)
    ensures var users := GetUsers(s); var i := FindUserIndex(users, name);
      && (i == |users| ==> s' == s)
      && (i < |users| ==> s' == SaveUsers(s, users[i := users[i].(isDeleted := false)]))
  {
    var users := GetUsers(s);
    var i := FindUserIndex(users, name);
    if i == |users| then s else SaveUsers(s, users[i := users[i].(isDeleted := false)])
  }

  /** Every entry whose name differs from `name`, in order. */
  function WithoutUsername(users: seq<User>, name: string): (r: seq<User>)
    ensures |r| <= |users|
    ensures forall u :: u in r <==> u in users && u.username != name
    ensures forall u :: multiset(r)[u] == if u.username == name then 0 else multiset(users)[u]
  {
    if users == [] then []
    else
      var rest := WithoutUsername(users[1..], name);
      assert users == [users[0]] + users[1..];
      assert multiset(users) == multiset([users[0]]) + multiset(users[1..]);
      if users[0].username == name then rest else [users[0]] + rest
  }

  /** The filter works piece by piece, so the kept entries keep their
      order. */
  lemma {:induction false} WithoutUsernameAppend(a: seq<User>, b: seq<User>, name: string)
    ensures WithoutUsername(a + b, name) == WithoutUsername(a, name) + WithoutUsername(b, name)
  {
    if a != [] {
      assert (a + b)[1..] == a[1..] + b;
      WithoutUsernameAppend(a[1..], b, name);
    } else {
      assert a + b == b;
    }
  }

  /** `permanentlyDeleteUser`: removes every entry with that name unless the
      first one is an administrator. The list is written even when nothing
      matched. */
  function PermanentlyDeleteUser(s: Store, name: string): (s': Store)
    ensures var users := GetUsers(s); var i := FindUserIndex(users, name);
      && (i < |users| && users[i].role == Admin ==> s' == s)
      && (i == |users| || users[i].role != Admin ==> s' == SaveUsers(s, WithoutUsername(users, name)))
  {
    var users := GetUsers(s);
    var i := FindUserIndex(users, name);
    if i < |users| && users[i].role == Admin then s
    else SaveUsers(s, WithoutUsername(users, name))
  }

  /** After a successful update the entry that was first under `name`
      is `updated`, every other entry is as it was, and when the name is
      kept a later lookup finds the same place. */
  lemma UpdateThenRead(s: Store, name: string, updated: User)
    requires UpdateUser(s, name, updated).1.Pass?
    ensures var users := GetUsers(s); var after := GetUsers(UpdateUser(s, name, updated).0);
      var i := FindUserIndex(users, name);
      && i < |users| && |after| == |users| && after[i] == updated
      && (forall k :: 0 <= k < |users| && k != i ==> after[k] == users[k])
      && (updated.username == name ==> FindUserIndex(after, name) == i)
  {
  }

  /** After a permanent deletion that was not refused, nobody of that
      name is left and every other entry is kept, as often as it was
      there. */
  lemma PermanentlyDeleteThenGone(s: Store, name: string)
    requires var users := GetUsers(s); var i := FindUserIndex(users, name);
      i == |users| || users[i].role != Admin
    ensures var after := GetUsers(PermanentlyDeleteUser(s, name));
      && !UsernameInUse(after, name)
      && forall u: User :: u.username != name ==> multiset(after)[u] == multiset(GetUsers(s))[u]
  {
  }

  /** Archiving changes exactly one flag of one entry, and never an
      administrator's. */
  lemma SoftDeleteFrame(s: Store, name: string)
    ensures var users := GetUsers(s); var after := GetUsers(SoftDeleteUser(s, name));
      && |after| == |users|
      && (forall k :: 0 <= k < |users| ==> after[k].(isDeleted := users[k].isDeleted) == users[k])
      && (forall k :: 0 <= k < |users| && after[k] != users[k] ==>
            k == FindUserIndex(users, name) && users[k].role == Player && after[k].isDeleted)
  {
  }

  /** Archiving then restoring an archived-able player gives back a
      non-archived entry with everything else unchanged. */
  lemma RestoreUndoesSoftDelete(s: Store, name: string)
    requires var users := GetUsers(s); var i := FindUserIndex(users, name);
      i < |users| && users[i].role == Player && !users[i].isDeleted
    ensures GetUsers(RestoreUser(SoftDeleteUser(s, name), name)) == GetUsers(s)
  {
    var users := GetUsers(s);
    var i := FindUserIndex(users, name);
    var mid := users[i := users[i].(isDeleted := true)];
    assert FindUserIndex(mid, name) == i by {
      FindUserIndexFrame(users, mid, name);
    }
    assert mid[i := mid[i].(isDeleted := false)] == users;
  }

  /** Entries with the same names in the same places have the same
      `findIndex`. */
  lemma {:induction false} FindUserIndexFrame(users: seq<User>, other: seq<User>, name: string)
    requires |other| == |users|
    requires forall k :: 0 <= k < |users| ==> other[k].username == users[k].username
    ensures FindUserIndex(other, name) == FindUserIndex(users, name)
  {
    if users != [] {
      FindUserIndexFrame(users[1..], other[1..], name);
    }
  }
}
