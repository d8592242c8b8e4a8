/** The credential table (`AuthsTable`): account creation that writes a
    credential row and a user-directory row under one id, password and API-key
    authentication, the single-field updates, and deletion.

    The user directory is another table of the system whose code is not part
    of this model. It is represented by the sequence of rows it lists, in the
    order it lists them; its lookups return the first matching row, and the
    outcome of its own deletion routine is a parameter. */
module Auths {
  import opened Common

  /** A credential row; `password` holds the hash the caller computed. */
  datatype Auth = Auth(id: string, email: string, password: string, active: bool)

  datatype Date = Date(year: int, month: int, day: int)

  /** A user-directory row, restricted to the columns this core writes or reads. */
  datatype User = User(
    id: string,
    name: string,
    email: string,
    role: string,
    profileImageUrl: string,
    lastActiveAt: int,
    createdAt: int,
    updatedAt: int,
    oauthSub: Option<string>,
    userType: Option<string>,
    dateOfBirth: Option<Date>,
    phone: Option<string>,
    organizationId: Option<string>,
    apiKey: Option<string>)

  /** The arguments of `insert_new_auth`. */
  datatype Signup = Signup(
    email: string,
    password: string,
    name: string,
    profileImageUrl: string,
    role: string,
    oauthSub: Option<string>,
    dob: Option<string>,
    phone: Option<string>,
    userType: Option<string>,
    organizationId: Option<string>)

  /** The credential table keyed by account id, and the user directory. */
  datatype Store = Store(auths: map<string, Auth>, users: seq<User>)

  function UserIds(users: seq<User>): set<string> {
    set u | u in users :: u.id
  }

  /** The directory's primary key: no id on two rows. */
  predicate UniqueIds(users: seq<User>) {
    forall i, j :: 0 <= i < |users| && 0 <= j < |users| && users[i].id == users[j].id ==> i == j
  }

  predicate KeyedById(auths: map<string, Auth>) {
    forall k :: k in auths ==> auths[k].id == k
  }

  predicate WellFormed(st: Store) {
    KeyedById(st.auths) && UniqueIds(st.users)
  }

  /** Every credential has its directory row and every directory row its credential. */
  predicate Paired(st: Store) {
    st.auths.Keys == UserIds(st.users)
  }

  lemma UserIdsSnoc(users: seq<User>, u: User)
    ensures UserIds(users + [u]) == UserIds(users) + {u.id}
  {
    assert forall v :: v in users + [u] <==> v in users || v == u;
  }

  lemma UserIdsCons(u: User, users: seq<User>)
    ensures UserIds([u] + users) == {u.id} + UserIds(users)
  {
    assert forall v :: v in [u] + users <==> v == u || v in users;
  }

  lemma UniqueIdsSnoc(users: seq<User>, u: User)
    ensures UniqueIds(users) && u.id !in UserIds(users) ==> UniqueIds(users + [u])
  {
    if UniqueIds(users) && u.id !in UserIds(users) {
      var t := users + [u];
      assert forall k :: 0 <= k < |users| ==> users[k].id in UserIds(users);
      forall i, j | 0 <= i < |t| && 0 <= j < |t| && t[i].id == t[j].id
        ensures i == j
      {
        if i < |users| && j < |users| {
          assert t[i] == users[i] && t[j] == users[j];
        }
      }
    }
  }

  lemma UniqueIdsUncons(users: seq<User>)
    requires users != []
    ensures UniqueIds(users) ==> UniqueIds(users[1..]) && users[0].id !in UserIds(users[1..])
  {
    if UniqueIds(users) {
      var t := users[1..];
      forall i, j | 0 <= i < |t| && 0 <= j < |t| && t[i].id == t[j].id
        ensures i == j
      {
        assert t[i] == users[i + 1] && t[j] == users[j + 1];
      }
      forall k | 0 <= k < |t| ensures t[k].id != users[0].id {
        assert t[k] == users[k + 1];
      }
    }
  }

  lemma UniqueIdsCons(u: User, users: seq<User>)
    ensures UniqueIds(users) && u.id !in UserIds(users) ==> UniqueIds([u] + users)
  {
    if UniqueIds(users) && u.id !in UserIds(users) {
      var t := [u] + users;
      assert forall k :: 0 <= k < |users| ==> users[k].id in UserIds(users);
      forall i, j | 0 <= i < |t| && 0 <= j < |t| && t[i].id == t[j].id
        ensures i == j
      {
        if 0 < i && 0 < j {
          assert t[i] == users[i - 1] && t[j] == users[j - 1];
        }
      }
    }
  }

  /** The directory without the rows whose id is in `ids`, order kept. */
  function WithoutIds(users: seq<User>, ids: set<string>): (r: seq<User>)
    ensures forall u :: u in r <==> u in users && u.id !in ids
    ensures UserIds(r) == UserIds(users) - ids
    ensures UniqueIds(users) ==> UniqueIds(r)
  {
    if users == [] then []
    else
      var t := WithoutIds(users[1..], ids);
      assert users == [users[0]] + users[1..];
      UserIdsCons(users[0], users[1..]);
      UniqueIdsUncons(users);
      UniqueIdsCons(users[0], t);
      UserIdsCons(users[0], t);
      if users[0].id in ids then t else [users[0]] + t
  }

  /** The rows that survive a removal keep their relative order. */
  lemma {:induction false} WithoutIdsKeepsOrder(users: seq<User>, ids: set<string>)
    ensures IsSubsequence(WithoutIds(users, ids), users)
  {
    if users != [] {
      WithoutIdsKeepsOrder(users[1..], ids);
      var t := WithoutIds(users[1..], ids);
      if users[0].id !in ids {
        assert ([users[0]] + t)[1..] == t;
      } else if t != [] {
        assert t[0] in t;
      }
    }
  }

  /** Removing no ids changes nothing. */
  lemma {:induction false} WithoutNoIds(users: seq<User>)
    ensures WithoutIds(users, {}) == users
  {
    if users != [] {
      WithoutNoIds(users[1..]);
      assert users == [users[0]] + users[1..];
    }
  }

  /** Removing one id set and then another removes their union. */
  lemma {:induction false} WithoutIdsTwice(users: seq<User>, a: set<string>, b: set<string>)
    ensures WithoutIds(WithoutIds(users, a), b) == WithoutIds(users, a + b)
  {
    if users != [] {
      WithoutIdsTwice(users[1..], a, b);
      var t := WithoutIds(users[1..], a);
      if users[0].id !in a {
        assert WithoutIds(users, a) == [users[0]] + t;
        assert ([users[0]] + t)[1..] == t;
      }
    }
  }

  /** Index of the first directory row satisfying `p`. */
  function FindFirst(users: seq<User>, p: User -> bool): (r: Option<nat>)
    ensures r.Some? ==> r.value < |users| && p(users[r.value])
    ensures r.Some? ==> forall j :: 0 <= j < r.value ==> !p(users[j])
    ensures r.None? ==> forall j :: 0 <= j < |users| ==> !p(users[j])
  {
    if users == [] then None
    else if p(users[0]) then Some(0)
    else
      match FindFirst(users[1..], p)
      case None => None
      case Some(i) => Some(i + 1)
  }

  /** The directory's `get_user_by_email`: the first row with that e-mail. */
  function UserByEmail(users: seq<User>, email: string): Option<User> {
    match FindFirst(users, (u: User) => u.email == email)
    case None => None
    case Some(i) => Some(users[i])
  }

  /** The directory's `get_user_by_api_key`: the first row with that key. */
  function UserByApiKey(users: seq<User>, key: string): Option<User> {
    match FindFirst(users, (u: User) => u.apiKey == Some(key))
    case None => None
    case Some(i) => Some(users[i])
  }

  /** `insert_new_auth`: one credential row (active) and one directory row under
      the same fresh id, committed together. The id plays the part of `uuid4`;
      when it is already a key of either table the insert violates a primary
      key, the transaction does not commit and nothing is written. A date of
      birth that `parseDate` rejects is dropped, as the source drops it. */
  function InsertNewAuth(st: Store, a: Signup, now: int, freshId: string,
                         parseDate: string -> Option<Date>): (res: (Store, Option<User>))
    ensures res.1.Some? <==> freshId !in st.auths && freshId !in UserIds(st.users)
    ensures res.1.None? ==> res.0 == st
    ensures res.1.Some? ==>
      var u := res.1.value;
      && res.0.auths == st.auths[freshId := Auth(freshId, a.email, a.password, true)]
      && res.0.users == st.users + [u]
      && u.id == freshId && u.email == a.email && u.name == a.name && u.role == a.role
      && u.profileImageUrl == a.profileImageUrl
      && u.createdAt == now && u.updatedAt == now && u.lastActiveAt == now
      && u.oauthSub == a.oauthSub && u.userType == a.userType && u.apiKey.None?
      && u.phone == (if Truthy(a.phone) then a.phone else None)
      && u.organizationId == (if Truthy(a.organizationId) then a.organizationId else None)
      && u.dateOfBirth == (if Truthy(a.dob) then parseDate(a.dob.value) else None)
    ensures WellFormed(st) ==> WellFormed(res.0)
    ensures Paired(st) ==> Paired(res.0)
  {
    if freshId in st.auths || freshId in UserIds(st.users) then (st, None)
    else
      var dateOfBirth := if Truthy(a.dob) then parseDate(a.dob.value) else None;
      var u := User(
        freshId, a.name, a.email, a.role, a.profileImageUrl, now, now, now,
        a.oauthSub, a.userType, dateOfBirth,
        if Truthy(a.phone) then a.phone else None,
        if Truthy(a.organizationId) then a.organizationId else None,
        None);
      UserIdsSnoc(st.users, u);
      UniqueIdsSnoc(st.users, u);
      (Store(st.auths[freshId := Auth(freshId, a.email, a.password, true)], st.users + [u]), Some(u))
  }

  /** The credential check `authenticate_user` performs on a directory row:
      an active credential row with that id whose hash `verify` accepts. */
  predicate Accepts(st: Store, u: User, password: string, verify: (string, string) -> bool) {
    u.id in st.auths && st.auths[u.id].active && verify(password, st.auths[u.id].password)
  }

  /** `authenticate_user`: the first directory row with the e-mail, provided
      its credential is active and the password verifies; otherwise nothing,
      with no distinction between the three ways to fail. */
  function AuthenticateUser(st: Store, email: string, password: string,
                            verify: (string, string) -> bool): (r: Option<User>)
    ensures r.Some? ==> r.value in st.users && r.value.email == email
    ensures r.Some? ==> Accepts(st, r.value, password, verify)
    ensures (forall u :: u in st.users ==> u.email != email) ==> r.None?
    ensures forall i :: 0 <= i < |st.users| && st.users[i].email == email &&
                        (forall j :: 0 <= j < i ==> st.users[j].email != email) ==>
                        r == (if Accepts(st, st.users[i], password, verify) then Some(st.users[i]) else None)
  {
    match UserByEmail(st.users, email)
    case None => None
    case Some(u) => if Accepts(st, u, password, verify) then Some(u) else None
  }

  /** `authenticate_user_by_api_key`: an empty key fails before any lookup;
      otherwise the first directory row holding that key. */
  function AuthenticateUserByApiKey(st: Store, key: string): (r: Option<User>)
    ensures key == "" ==> r.None?
    ensures r.Some? ==> r.value in st.users && r.value.apiKey == Some(key)
    ensures key != "" && (exists u :: u in st.users && u.apiKey == Some(key)) ==> r.Some?
  {
    if key == "" then None else UserByApiKey(st.users, key)
  }

  /** `update_user_password_by_id`: rewrites the hash of the row with that id;
      true exactly when one row matched. */
  function UpdateUserPasswordById(st: Store, id: string, password: string): (res: (Store, bool))
    ensures res.1 <==> id in st.auths
    ensures res.0.users == st.users && res.0.auths.Keys == st.auths.Keys
    ensures res.1 ==> res.0.auths[id].password == password
    ensures res.1 ==> res.0.auths[id].email == st.auths[id].email && res.0.auths[id].active == st.auths[id].active
    ensures forall k :: k in st.auths && k != id ==> res.0.auths[k] == st.auths[k]
    ensures WellFormed(st) ==> WellFormed(res.0)
  {
    if id in st.auths then (st.(auths := st.auths[id := st.auths[id].(password := password)]), true)
    else (st, false)
  }

  /** `update_email_by_id`: rewrites the credential e-mail of the row with that
      id; true exactly when one row matched. The directory row is not touched. */
  function UpdateEmailById(st: Store, id: string, email: string): (res: (Store, bool))
    ensures res.1 <==> id in st.auths
    ensures res.0.users == st.users && res.0.auths.Keys == st.auths.Keys
    ensures res.1 ==> res.0.auths[id].email == email
    ensures forall k :: k in st.auths && k != id ==> res.0.auths[k] == st.auths[k]
    ensures forall k :: k in st.auths ==> res.0.auths[k].password == st.auths[k].password
    ensures forall k :: k in st.auths ==> res.0.auths[k].active == st.auths[k].active
    ensures WellFormed(st) ==> WellFormed(res.0)
  {
    if id in st.auths then (st.(auths := st.auths[id := st.auths[id].(email := email)]), true)
    else (st, false)
  }

  /** `delete_auth_by_id`: the directory row goes first; only when the
      directory reports success (`userDeleted`) is the credential row deleted.
      A failed directory deletion leaves both tables as they were. */
  function DeleteAuthById(st: Store, id: string, userDeleted: bool): (res: (Store, bool))
    ensures res.1 == userDeleted
    ensures !res.1 ==> res.0 == st
    ensures res.1 ==> res.0.auths == st.auths - {id}
    ensures res.1 ==> forall u :: u in res.0.users <==> u in st.users && u.id != id
    ensures res.1 ==> id !in UserIds(res.0.users)
    ensures WellFormed(st) ==> WellFormed(res.0)
    ensures Paired(st) ==> Paired(res.0)
  {
    if userDeleted then (Store(st.auths - {id}, WithoutIds(st.users, {id})), true)
    else (st, false)
  }

  /** A new account whose e-mail no earlier directory row holds can sign in
      with any password its stored hash verifies. */
  lemma SignupThenSignIn(st: Store, a: Signup, now: int, freshId: string,
                         parseDate: string -> Option<Date>, password: string,
                         verify: (string, string) -> bool)
    requires forall u :: u in st.users ==> u.email != a.email
    requires InsertNewAuth(st, a, now, freshId, parseDate).1.Some?
    requires verify(password, a.password)
    ensures var created := InsertNewAuth(st, a, now, freshId, parseDate);
            AuthenticateUser(created.0, a.email, password, verify) == created.1
  {
    var created := InsertNewAuth(st, a, now, freshId, parseDate);
    var users := created.0.users;
    var n := |st.users|;
    assert users[n] == created.1.value;
    assert forall j :: 0 <= j < n ==> users[j] == st.users[j];
  }

  /** After a password change, signing in checks the new hash. */
  lemma PasswordChangeTakesEffect(st: Store, id: string, hash: string, email: string, password: string,
                                  verify: (string, string) -> bool)
    requires id in st.auths
    ensures var changed := UpdateUserPasswordById(st, id, hash).0;
            var r := AuthenticateUser(changed, email, password, verify);
            r.Some? && r.value.id == id ==> verify(password, hash)
  {
  }

  /** Sign-in looks the e-mail up in the directory, not in the credential
      table, so changing a credential e-mail changes no sign-in outcome. */
  lemma EmailChangeKeepsSignIn(st: Store, id: string, newEmail: string, email: string, password: string,
                               verify: (string, string) -> bool)
    ensures AuthenticateUser(UpdateEmailById(st, id, newEmail).0, email, password, verify)
            == AuthenticateUser(st, email, password, verify)
  {
    var st' := UpdateEmailById(st, id, newEmail).0;
    assert forall u :: Accepts(st', u, password, verify) <==> Accepts(st, u, password, verify);
  }
}
