/** Sign-in by master key (`context/AuthContext.tsx`). The React state
    `user` is the value `current`; the mirror of it kept under
    `treasure-hunt-user` is `Store.sessionUser`. */
module Auth {
  import opened Wrappers
  import opened Types
  import opened Storage
  import opened Text
  import UserService

  /** `users.find(u => u.masterKey === key)` as an index, `|users|` for none. */
  function FindByKey(users: seq<User>, key: string): (i: nat)
    ensures i <= |users|
    ensures i < |users| ==> users[i].masterKey == key
    ensures forall k :: 0 <= k < i ==> users[k].masterKey != key
  {
    if users == [] then 0
    else if users[0].masterKey == key then 0
    else 1 + FindByKey(users[1..], key)
  }

  datatype LoginResult = LoginResult(store: Store, current: Option<User>, ok: bool)

  /** `login`: the first directory entry whose stored key equals the typed
      key without its surrounding whitespace becomes the signed-in user,
      archived or not. A key nobody holds changes nothing. */
  function Login(s: Store, current: Option<User>, key: string): (r: LoginResult)
    ensures r.ok <==> UserService.MasterKeyInUse(UserService.GetUsers(s), Trim(key))
    ensures r.ok ==>
      var users := UserService.GetUsers(s);
      var i := FindByKey(users, Trim(key));
      && i < |users|
      && r.current == Some(users[i])
      && r.store == s.(sessionUser := Some(users[i]))
    ensures !r.ok ==> r.store == s && r.current == current
  {
    var users := UserService.GetUsers(s);
    var i := FindByKey(users, Trim(key));
    if i < |users| then LoginResult(s.(sessionUser := Some(users[i])), Some(users[i]), true)
    else LoginResult(s, current, false)
  }

  /** `logout`: forgets the signed-in user in memory and in storage. */
  function Logout(s: Store): (r: (Store, Option<User>))
    ensures r.1.None? && r.0.sessionUser.None?
    ensures r.0 == s.(sessionUser := None)
  {
    (s.(sessionUser := None), None)
  }

  /** The provider's mount effect: seed or migrate the directory, then take
      the signed-in user from storage. */
  function Mount(s: Store): (r: (Store, Option<User>))
    ensures r.0 == UserService.InitializeUsers(s)
    ensures r.1 == s.sessionUser && r.0.sessionUser == s.sessionUser
  {
    var s1 := UserService.InitializeUsers(s);
    (s1, s1.sessionUser)
  }

  /** Signing in after signing out with the same key picks the same user. */
  lemma LogoutThenLogin(s: Store, current: Option<User>, key: string)
    ensures Login(Logout(s).0, None, key).ok == Login(s, current, key).ok
    ensures Login(s, current, key).ok ==> Login(Logout(s).0, None, key).current == Login(s, current, key).current
  {
  }

  /** An entry whose stored key has surrounding whitespace can never be
      chosen: the typed key is always trimmed before the comparison. */
  lemma PaddedKeyNeverMatches(s: Store, current: Option<User>, key: string, i: nat)
    requires i < |UserService.GetUsers(s)| && !Trimmed(UserService.GetUsers(s)[i].masterKey)
    ensures FindByKey(UserService.GetUsers(s), Trim(key)) != i
  {
  }

  /** Archiving a player does not lock them out: `login` does not look at
      `isDeleted`, and archiving changes nothing else. */
  lemma ArchivedPlayerCanStillLogIn(s: Store, name: string, current: Option<User>, key: string)
    requires Login(s, current, key).ok
    ensures Login(UserService.SoftDeleteUser(s, name), current, key).ok
  {
    var users := UserService.GetUsers(s);
    var i := FindByKey(users, Trim(key));
    UserService.SoftDeleteFrame(s, name);
    var after := UserService.GetUsers(UserService.SoftDeleteUser(s, name));
    assert after[i].masterKey == users[i].masterKey by {
      assert after[i].(isDeleted := users[i].isDeleted) == users[i];
    }
  }

  /** After a successful `updateUser` with an already trimmed key, signing
      in with that key selects the updated entry: entries before it have
      other names, so none of them holds the key. */
  lemma UpdateThenLogin(s: Store, name: string, updated: User, current: Option<User>)
    requires UserService.UpdateUser(s, name, updated).1.Pass? && Trimmed(updated.masterKey)
    ensures var r := Login(UserService.UpdateUser(s, name, updated).0, current, updated.masterKey);
      r.ok && r.current == Some(updated)
  {
    var users := UserService.GetUsers(s);
    var i := UserService.FindUserIndex(users, name);
    var after := UserService.GetUsers(UserService.UpdateUser(s, name, updated).0);
    UserService.UpdateThenRead(s, name, updated);
    forall k | 0 <= k < i ensures after[k].masterKey != updated.masterKey {
      assert after[k] == users[k] && users[k].username != name;
    }
    assert FindByKey(after, Trim(updated.masterKey)) == i;
  }

  /** After a permanent deletion that was not refused, no key signs in as
      a user of that name. */
  lemma DeletedUserCannotLogIn(s: Store, name: string, current: Option<User>, key: string)
    requires var users := UserService.GetUsers(s); var i := UserService.FindUserIndex(users, name);
      i == |users| || users[i].role != Admin
    ensures var r := Login(UserService.PermanentlyDeleteUser(s, name), current, key);
      r.ok ==> r.current.value.username != name
  {
    UserService.PermanentlyDeleteThenGone(s, name);
  }

  // ---------------------------------------------------------------- the lock-out

  /** `addUser` as written stores the master key exactly as typed. When it
      has surrounding whitespace the new entry can never sign in, whatever
      key is typed. */
  lemma AddUserPaddedKeyLocksOut(s: Store, data: User, current: Option<User>, key: string)
    requires UserService.AddUser(s, data).1.Pass? && !Trimmed(data.masterKey)
    ensures var s1 := UserService.AddUser(s, data).0;
      FindByKey(UserService.GetUsers(s1), Trim(key)) != |UserService.GetUsers(s)|
  {
    var s1 := UserService.AddUser(s, data).0;
    assert UserService.GetUsers(s1)[|UserService.GetUsers(s)|] == UserService.NewUser(data);
  }

  /** A concrete instance: a player "bob" created with the key " k1"
      passes every check of `addUser`, is stored with the leading space,
      and typing " k1" at the sign-in screen is refused. */
  lemma PaddedKeyExample(data: User)
    requires data.username == "bob" && data.firstName == "Bob" && data.lastName == "Stone"
    requires data.masterKey == " k1"
    ensures var r := UserService.AddUser(EmptyStore, data);
      && r.1.Pass?
      && !Login(r.0, None, data.masterKey).ok
  {
    PaddedKeyPassesChecks(data);
    assert !Trimmed(data.masterKey) by { assert IsWhitespace(data.masterKey[0]); }
    AddUserPaddedKeyLocksOut(EmptyStore, data, None, data.masterKey);
  }

  lemma PaddedKeyPassesChecks(data: User)
    requires data.username == "bob" && data.firstName == "Bob" && data.lastName == "Stone"
    requires data.masterKey == " k1"
    ensures UserService.CheckNewUser([], data).Pass?
  {
    assert !AllWhitespace(data.username) by { assert !IsWhitespace(data.username[0]); }
    assert !AllWhitespace(data.firstName) by { assert !IsWhitespace(data.firstName[0]); }
    assert !AllWhitespace(data.lastName) by { assert !IsWhitespace(data.lastName[0]); }
    assert !AllWhitespace(data.masterKey) by { assert !IsWhitespace(data.masterKey[1]); }
  }

  /** `addUser` with the key stored as it is compared: trimmed. */
  function AddUserTrimmedKey(s: Store, data: User): (r: (Store, Outcome<UserService.UserError>))
    ensures r.1 == UserService.CheckNewUser(UserService.GetUsers(s), data)
    ensures r.1.Fail? ==> r.0 == s
    ensures r.1.Pass? ==>
      UserService.GetUsers(r.0) == UserService.GetUsers(s) + [UserService.NewUser(data).(masterKey := Trim(data.masterKey))]
  {
    var fixed := data.(masterKey := Trim(data.masterKey));
    TrimmedKeySameCheck(UserService.GetUsers(s), data);
    UserService.AddUser(s, fixed)
  }

  /** The checks of `addUser` give the same verdict on the trimmed key. */
  lemma TrimmedKeySameCheck(users: seq<User>, data: User)
    ensures UserService.CheckNewUser(users, data.(masterKey := Trim(data.masterKey)))
      == UserService.CheckNewUser(users, data)
  {
    TrimIdempotent(data.masterKey);
  }

  /** With the trimmed key stored, the new user signs in with the key as
      typed at creation, and sign-in selects the new entry. */
  lemma AddUserTrimmedKeyCanLogIn(s: Store, data: User, current: Option<User>)
    requires AddUserTrimmedKey(s, data).1.Pass?
    ensures var s1 := AddUserTrimmedKey(s, data).0;
      var r := Login(s1, current, data.masterKey);
      && r.ok
      && r.current == Some(UserService.NewUser(data).(masterKey := Trim(data.masterKey)))
  {
    var users := UserService.GetUsers(s);
    var after := UserService.GetUsers(AddUserTrimmedKey(s, data).0);
    NewEntryFound(users, after, Trim(data.masterKey));
  }

  /** The first holder of a key nobody held before is the entry appended
      with it. */
  lemma NewEntryFound(users: seq<User>, after: seq<User>, key: string)
    requires |after| == |users| + 1 && after[..|users|] == users && after[|users|].masterKey == key
    requires !UserService.MasterKeyInUse(users, key)
    ensures FindByKey(after, key) == |users|
  {
    forall k | 0 <= k < |users| ensures after[k].masterKey != key {
      assert after[k] == users[k];
    }
  }
}
