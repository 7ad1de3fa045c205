/** The store of local accounts: a map in memory and a file that holds some earlier state of it. */
module Users {
  import opened Common
  import opened Text
  import opened Lists
  import opened Keyed

  const ADMINISTRATOR := "administrator"
  const OPERATOR := "operator"
  const DASHBOARD := "dashboard"

  datatype User = User(name: string, fullName: string, hash: string, role: string, mustReset: bool, version: U64)

  datatype UserError =
    InvalidUsername | InvalidPassword | InvalidRole | InvalidFullName | HashFailed | EmptyHash | UserExists | UserNotFound |
    LastAdmin | SelfDelete | BadOldPassword | WriteFailed | EmptyFile

  /** Accounts under the lower-case form of their names. */
  type Accounts = map<string, User>

  predicate ValidRole(role: string) {
    role == ADMINISTRATOR || role == OPERATOR || role == DASHBOARD
  }

  predicate NameChar(c: char) {
    'a' <= c <= 'z' || 'A' <= c <= 'Z' || '0' <= c <= '9' || c == '.' || c == '_' || c == '-'
  }

  predicate ValidName(name: string) {
    2 <= |name| <= 64 && forall i :: 0 <= i < |name| ==> NameChar(name[i])
  }

  /** The key an account is looked up by. */
  function KeyOf(username: string): string {
    LowerAscii(Trim(GoSpace, username))
  }

  function NameKey(u: User): string {
    LowerAscii(u.name)
  }

  // ---- well-formed accounts ----

  predicate ValidUser(u: User) {
    ValidName(u.name) && ValidRole(u.role) && NotBlank(u.hash)
  }

  /** Each key is the lower-cased name of its account. */
  ghost predicate WellFormed(m: Accounts) {
    KeyedBy(NameKey, m) && forall k :: k in m ==> ValidUser(m[k])
  }

  function Admins(m: Accounts): set<string> {
    set k | k in m && m[k].role == ADMINISTRATOR
  }

  /** Adds an account unless it is invalid or its name is taken. */
  function AddUser(m: Accounts, u: User): Result<Accounts, UserError> {
    var name := Trim(GoSpace, u.name);
    if !ValidName(name) then Failure(InvalidUsername)
    else if !ValidRole(u.role) then Failure(InvalidRole)
    else if Trim(GoSpace, u.hash) == "" then Failure(EmptyHash)
    else if LowerAscii(name) in m then Failure(UserExists)
    else Success(m[LowerAscii(name) := u.(name := name)])
  }

  lemma ValidNameIsTrimmed(name: string)
    requires ValidName(name)
    ensures Trim(GoSpace, name) == name
  {
    assert NameChar(name[0]) && NameChar(name[|name| - 1]);
    assert Trimmed(GoSpace, name);
  }

  lemma AddKeepsWellFormed(m: Accounts, u: User)
    requires WellFormed(m) && AddUser(m, u).Success?
    ensures WellFormed(AddUser(m, u).value) && Admins(m) <= Admins(AddUser(m, u).value)
  {
    TrimBlank(u.hash);
    hide ValidName, Trim, LowerAscii, ValidRole, NotBlank;
  }

  // ---- loading a file ----

  function LoadAll(users: seq<User>): Result<Accounts, UserError> {
    if users == [] then Success(map[])
    else match LoadAll(users[..|users| - 1])
      case Failure(e) => Failure(e)
      case Success(m) => AddUser(m, users[|users| - 1])
  }

  /** An empty file is refused, like one with an invalid or repeated account. */
  function LoadUsersFile(users: seq<User>): Result<Accounts, UserError> {
    match LoadAll(users)
    case Failure(e) => Failure(e)
    case Success(m) => if |m| == 0 then Failure(EmptyFile) else Success(m)
  }

  /** Valid accounts with distinct names load as they are, whatever their order. */
  lemma {:induction false} ValidUsersLoad(users: seq<User>)
    requires DistinctKeys(NameKey, users) && forall i :: 0 <= i < |users| ==> ValidUser(users[i])
    ensures LoadAll(users) == Success(IndexBy(NameKey, users))
  {
    hide ValidName, Trim, LowerAscii, ValidRole, NotBlank;
    if users != [] {
      var init, last := users[..|users| - 1], users[|users| - 1];
      TrimBlank(last.hash);
      assert forall i :: 0 <= i < |init| ==> init[i] == users[i];
      ValidUsersLoad(init);
      IndexFacts(NameKey, init);
      ValidNameIsTrimmed(last.name);
      FreshKey(NameKey, init, NameKey(last));
      assert last.(name := last.name) == last;
    }
  }

  // ---- operations ----

  /**
   * What callers ask for. What is decided outside the store is part of the request:
   * whether the password and the full name are acceptable, whether the old password
   * matched, and the new hash, which is absent when hashing failed.
   */
  datatype Request =
    | Create(username: string, passwordOk: bool, role: string, fullName: Option<string>, hash: Option<string>, mustReset: bool)
    | SetRole(username: string, role: string)
    | SetFullName(username: string, fullName: Option<string>)
    | ResetPassword(username: string, passwordOk: bool, hash: Option<string>, mustReset: bool)
    | ChangePassword(username: string, passwordOk: bool, oldMatches: bool, hash: Option<string>)
    | BumpSessionVersion(username: string)
    | Delete(username: string, actor: string)

  function NextVersion(v: U64): U64 {
    Wrap64(v + 1)
  }

  function NewUser(r: Request): User
    requires r.Create?
  {
    User(Trim(GoSpace, r.username), r.fullName.GetOr(""), r.hash.GetOr(""), r.role, r.mustReset, 0)
  }

  /** The accounts in memory before the file is written, or why the request is refused. */
  function Proposed(m: Accounts, r: Request): Result<Accounts, UserError> {
    if r.Create? then
      if !r.passwordOk then Failure(InvalidPassword)
      else if !ValidRole(r.role) then Failure(InvalidRole)
      else if r.fullName.None? then Failure(InvalidFullName)
      else if r.hash.None? then Failure(HashFailed)
      else AddUser(m, NewUser(r))
    else if r.Delete? then
      if KeyOf(r.username) == KeyOf(r.actor) then Failure(SelfDelete)
      else if KeyOf(r.username) !in m then Failure(UserNotFound)
      else if m[KeyOf(r.username)].role == ADMINISTRATOR && |Admins(m)| <= 1 then Failure(LastAdmin)
      else Success(m - {KeyOf(r.username)})
    else
      var change := Changed(m, r);
      if change.Failure? then Failure(change.error) else Success(m[KeyOf(r.username) := change.value])
  }

  /** The changed account, for requests that change one in place. */
  function Changed(m: Accounts, r: Request): Result<User, UserError>
    requires !r.Create? && !r.Delete?
    ensures Changed(m, r).Success? ==> KeyOf(r.username) in m
  {
    var k := KeyOf(r.username);
    if r.SetRole? then
      if !ValidRole(r.role) then Failure(InvalidRole)
      else if k !in m then Failure(UserNotFound)
      else if m[k].role == ADMINISTRATOR && r.role != ADMINISTRATOR && |Admins(m)| <= 1 then Failure(LastAdmin)
      else Success(m[k].(role := r.role))
    else if r.SetFullName? then
      if r.fullName.None? then Failure(InvalidFullName)
      else if k !in m then Failure(UserNotFound)
      else Success(m[k].(fullName := r.fullName.value))
    else if r.ResetPassword? then
      if !r.passwordOk then Failure(InvalidPassword)
      else if r.hash.None? then Failure(HashFailed)
      else if k !in m then Failure(UserNotFound)
      else Success(m[k].(hash := r.hash.value, mustReset := r.mustReset, version := NextVersion(m[k].version)))
    else if r.ChangePassword? then
      if !r.passwordOk then Failure(InvalidPassword)
      else if k !in m then Failure(UserNotFound)
      else if !r.oldMatches then Failure(BadOldPassword)
      else if r.hash.None? then Failure(HashFailed)
      else Success(m[k].(hash := r.hash.value, mustReset := false, version := NextVersion(m[k].version)))
    else
      if k !in m then Failure(UserNotFound) else Success(m[k].(version := NextVersion(m[k].version)))
  }

  /** Memory and file. */
  datatype Store = Store(mem: Accounts, file: Accounts)

  /** Creating and deleting are taken back when the file cannot be written; other changes stay in memory. */
  function Step(s: Store, r: Request, durable: bool, written: bool): Store {
    var p := Proposed(s.mem, r);
    if p.Failure? then s
    else if !durable then s.(mem := p.value)
    else if written then Store(p.value, p.value)
    else if r.Create? || r.Delete? then s
    else s.(mem := p.value)
  }

  /** New hashes come from the password library and are never blank. */
  predicate HashOk(r: Request) {
    ((r.ResetPassword? || r.ChangePassword?) && r.hash.Some?) ==> NotBlank(r.hash.value)
  }

  function ByName(): (User, User) -> bool {
    (a: User, b: User) => TextLess(NameKey(a), NameKey(b))
  }

  lemma ByNameIsWeakOrder()
    ensures WeakOrder(ByName())
  {
    hide LowerAscii, TextLess;
    var less := ByName();
    forall a, b | less(a, b)
      ensures !less(b, a)
    {
      TextLessAsym(NameKey(a), NameKey(b));
    }
    forall a, b, c | !less(b, a) && !less(c, b)
      ensures !less(c, a)
    {
      TextLessTrans(NameKey(a), NameKey(b), NameKey(c));
    }
  }

  /** Accounts in a file that does not load count as none. */
  function InFile(users: seq<User>): Accounts {
    LoadAll(users).GetOrElse(map[])
  }

  lemma {:induction false} LoadedIsWellFormed(users: seq<User>)
    requires LoadAll(users).Success?
    ensures WellFormed(LoadAll(users).value)
  {
    hide AddUser, WellFormed;
    if users == [] {
      assert WellFormed(map[]) by { NoneWellFormed(); }
    } else {
      LoadedIsWellFormed(users[..|users| - 1]);
      AddKeepsWellFormed(LoadAll(users[..|users| - 1]).value, users[|users| - 1]);
    }
  }

  lemma NoneWellFormed()
    ensures WellFormed(map[])
  {
  }

  lemma ChangeKeepsWellFormed(m: Accounts, k: string, u: User)
    requires WellFormed(m) && k in m && u.name == m[k].name && ValidRole(u.role) && NotBlank(u.hash)
    ensures WellFormed(m[k := u])
  {
    hide ValidName, Trim, LowerAscii, ValidRole;
  }

  /** Whatever is proposed is well-formed again. */
  lemma ProposedIsWellFormed(m: Accounts, r: Request)
    requires WellFormed(m) && Proposed(m, r).Success? && HashOk(r)
    ensures WellFormed(Proposed(m, r).value)
  {
    hide Trim, LowerAscii, ValidName, AddUser, ValidRole, Admins, NextVersion, KeyOf;
    if r.Create? {
      AddKeepsWellFormed(m, NewUser(r));
    } else if !r.Delete? {
      var k := KeyOf(r.username);
      assert ValidUser(m[k]);
      ChangeKeepsWellFormed(m, k, Changed(m, r).value);
    }
  }

  /** What the caller is told. */
  function Outcome(s: Store, r: Request, durable: bool, written: bool): Option<UserError> {
    var p := Proposed(s.mem, r);
    if p.Failure? then Some(p.error) else if durable && !written then Some(WriteFailed) else None
  }

  /** A request made its step and was answered. */
  predicate Done(before: Store, after: Store, r: Request, durable: bool, written: bool, err: Option<UserError>) {
    after == Step(before, r, durable, written) && err == Outcome(before, r, durable, written)
  }

  // ---- the store ----

  class UserStore {
    var byLower: Accounts
    const path: string
    var file: seq<User>

    ghost predicate Valid()
      reads this
    {
      WellFormed(byLower) && LoadAll(file).Success?
    }

    ghost function State(): Store
      reads this
    {
      Store(byLower, InFile(file))
    }

    /** Takes accounts just loaded from the file. */
    constructor (path: string, m: Accounts, users: seq<User>)
      requires WellFormed(m) && LoadAll(users) == Success(m)
      ensures Valid() && State() == Store(m, m) && this.path == path
    {
      hide LoadAll, WellFormed;
      this.path := path;
      byLower := m;
      file := users;
    }

    /** Writes all accounts, sorted by name; written says whether the file system plays along. */
    method Persist(written: bool) returns (ok: bool)
      requires Valid()
      modifies this`file
      ensures Valid() && ok == (path == "" || written)
      ensures State() == if path != "" && written then Store(byLower, byLower) else old(State())
    {
      hide ValidUser, LoadAll;
      if path == "" {
        return true;
      }
      var users := ValuesOf(NameKey, byLower);
      ByNameIsWeakOrder();
      var sorted := SortSlice(users, ByName());
      IndexIgnoresOrder(NameKey, users, sorted);
      IndexFacts(NameKey, sorted);
      ValidUsersLoad(sorted);
      if !written {
        return false;
      }
      file := sorted;
      ok := true;
    }

    /** The administrators, counted. */
    method AdminCount() returns (n: nat)
      ensures n == |Admins(byLower)|
    {
      n := 0;
      var todo := byLower.Keys;
      ghost var found: set<string> := {};
      while todo != {}
        invariant todo <= byLower.Keys && n == |found|
        invariant found == set k | k in byLower.Keys - todo && byLower[k].role == ADMINISTRATOR
      {
        var k :| k in todo;
        if byLower[k].role == ADMINISTRATOR {
          n := n + 1;
          found := found + {k};
        }
        todo := todo - {k};
      }
      assert found == Admins(byLower);
    }

    /** Installs changed accounts that stay in memory even when they cannot be written. */
    method Commit(m: Accounts, written: bool) returns (err: Option<UserError>)
      requires Valid() && WellFormed(m)
      modifies this
      ensures Valid()
      ensures State() == if path != "" && written then Store(m, m) else old(State()).(mem := m)
      ensures err == if path != "" && !written then Some(WriteFailed) else None
    {
      hide WellFormed, LoadAll;
      byLower := m;
      var ok := Persist(written);
      err := if ok then None else Some(WriteFailed);
    }

    method Create(username: string, passwordOk: bool, role: string, fullName: Option<string>, hash: Option<string>,
                  mustReset: bool, written: bool)
      returns (err: Option<UserError>)
      requires Valid()
      modifies this
      ensures Valid() && Done(old(State()), State(), Request.Create(username, passwordOk, role, fullName, hash, mustReset), path != "", written, err)
    {
      hide WellFormed, LoadAll, AddUser, ValidRole, Trim;
      if !passwordOk {
        return Some(InvalidPassword);
      }
      if !ValidRole(role) {
        return Some(InvalidRole);
      }
      if fullName.None? {
        return Some(InvalidFullName);
      }
      if hash.None? {
        return Some(HashFailed);
      }
      var u := User(Trim(GoSpace, username), fullName.value, hash.value, role, mustReset, 0);
      var added := AddUser(byLower, u);
      if added.Failure? {
        return Some(added.error);
      }
      AddKeepsWellFormed(byLower, u);
      AddedThenRemoved(byLower, u, username);
      err := Commit(added.value, written);
      if err.Some? {
        byLower := byLower - {LowerAscii(u.name)};
      }
    }

    method SetRole(username: string, role: string, written: bool) returns (err: Option<UserError>)
      requires Valid()
      modifies this
      ensures Valid() && Done(old(State()), State(), Request.SetRole(username, role), path != "", written, err)
    {
      hide WellFormed, LoadAll, ValidRole, KeyOf, Admins;
      if !ValidRole(role) {
        return Some(InvalidRole);
      }
      var k := KeyOf(username);
      if k !in byLower {
        return Some(UserNotFound);
      }
      if byLower[k].role == ADMINISTRATOR && role != ADMINISTRATOR {
        var n := AdminCount();
        if n <= 1 {
          return Some(LastAdmin);
        }
      }
      ProposedIsWellFormed(byLower, Request.SetRole(username, role));
      err := Commit(byLower[k := byLower[k].(role := role)], written);
    }

    method SetFullName(username: string, fullName: Option<string>, written: bool) returns (err: Option<UserError>)
      requires Valid()
      modifies this
      ensures Valid() && Done(old(State()), State(), Request.SetFullName(username, fullName), path != "", written, err)
    {
      hide WellFormed, LoadAll, KeyOf;
      if fullName.None? {
        return Some(InvalidFullName);
      }
      var k := KeyOf(username);
      if k !in byLower {
        return Some(UserNotFound);
      }
      ProposedIsWellFormed(byLower, Request.SetFullName(username, fullName));
      err := Commit(byLower[k := byLower[k].(fullName := fullName.value)], written);
    }

    method ResetPassword(username: string, passwordOk: bool, hash: Option<string>, mustReset: bool, written: bool)
      returns (err: Option<UserError>)
      requires Valid() && HashOk(Request.ResetPassword(username, passwordOk, hash, mustReset))
      modifies this
      ensures Valid() && Done(old(State()), State(), Request.ResetPassword(username, passwordOk, hash, mustReset), path != "", written, err)
    {
      hide WellFormed, LoadAll, KeyOf, HashOk, NextVersion;
      if !passwordOk {
        return Some(InvalidPassword);
      }
      if hash.None? {
        return Some(HashFailed);
      }
      var k := KeyOf(username);
      if k !in byLower {
        return Some(UserNotFound);
      }
      ProposedIsWellFormed(byLower, Request.ResetPassword(username, passwordOk, hash, mustReset));
      var u := byLower[k].(hash := hash.value, mustReset := mustReset, version := NextVersion(byLower[k].version));
      err := Commit(byLower[k := u], written);
    }

    method ChangePassword(username: string, passwordOk: bool, oldMatches: bool, hash: Option<string>, written: bool)
      returns (err: Option<UserError>)
      requires Valid() && HashOk(Request.ChangePassword(username, passwordOk, oldMatches, hash))
      modifies this
      ensures Valid() && Done(old(State()), State(), Request.ChangePassword(username, passwordOk, oldMatches, hash), path != "", written, err)
    {
      hide WellFormed, LoadAll, KeyOf, HashOk, NextVersion;
      if !passwordOk {
        return Some(InvalidPassword);
      }
      var k := KeyOf(username);
      if k !in byLower {
        return Some(UserNotFound);
      }
      if !oldMatches {
        return Some(BadOldPassword);
      }
      if hash.None? {
        return Some(HashFailed);
      }
      ProposedIsWellFormed(byLower, Request.ChangePassword(username, passwordOk, oldMatches, hash));
      var u := byLower[k].(hash := hash.value, mustReset := false, version := NextVersion(byLower[k].version));
      err := Commit(byLower[k := u], written);
    }

    method BumpSessionVersion(username: string, written: bool) returns (err: Option<UserError>)
      requires Valid()
      modifies this
      ensures Valid() && Done(old(State()), State(), Request.BumpSessionVersion(username), path != "", written, err)
    {
      hide WellFormed, LoadAll, KeyOf, NextVersion;
      var k := KeyOf(username);
      if k !in byLower {
        return Some(UserNotFound);
      }
      ProposedIsWellFormed(byLower, Request.BumpSessionVersion(username));
      err := Commit(byLower[k := byLower[k].(version := NextVersion(byLower[k].version))], written);
    }

    method Delete(username: string, actor: string, written: bool) returns (err: Option<UserError>)
      requires Valid()
      modifies this
      ensures Valid() && Done(old(State()), State(), Request.Delete(username, actor), path != "", written, err)
    {
      hide WellFormed, LoadAll, KeyOf, Admins;
      var k, actorKey := KeyOf(username), KeyOf(actor);
      if k == actorKey {
        return Some(SelfDelete);
      }
      if k !in byLower {
        return Some(UserNotFound);
      }
      var u := byLower[k];
      if u.role == ADMINISTRATOR {
        var n := AdminCount();
        if n <= 1 {
          return Some(LastAdmin);
        }
      }
      ProposedIsWellFormed(byLower, Request.Delete(username, actor));
      var before := byLower;
      err := Commit(byLower - {k}, written);
      if err.Some? {
        byLower := byLower[k := u];
        assert byLower == before;
      }
    }
  }

  /** Opens an existing users file; an invalid, repeated or missing account refuses it. */
  method OpenUsersFile(path: string, users: seq<User>) returns (r: Result<UserStore, UserError>)
    ensures r.Success? <==> LoadUsersFile(users).Success?
    ensures r.Success? ==> fresh(r.value) && r.value.Valid() && r.value.path == path
    ensures r.Success? ==> r.value.State() == Store(LoadUsersFile(users).value, LoadUsersFile(users).value)
    ensures r.Failure? ==> r.error == LoadUsersFile(users).error
  {
    hide AddUser, WellFormed;
    var m: Accounts := map[];
    var i := 0;
    assert users[..0] == [];
    while i < |users|
      invariant i <= |users| && LoadAll(users[..i]) == Success(m)
    {
      assert users[..i + 1][..i] == users[..i];
      var added := AddUser(m, users[i]);
      if added.Failure? {
        LoadFails(users, i + 1);
        return Failure(added.error);
      }
      m := added.value;
      i := i + 1;
    }
    assert users[..i] == users;
    if |m| == 0 {
      return Failure(EmptyFile);
    }
    LoadedIsWellFormed(users);
    var store := new UserStore(path, m, users);
    r := Success(store);
  }

  /** The first error stops the loading. */
  lemma {:induction false} LoadFails(users: seq<User>, i: nat)
    requires i <= |users| && LoadAll(users[..i]).Failure?
    ensures LoadAll(users) == LoadAll(users[..i])
    decreases |users|
  {
    hide AddUser;
    if i == |users| {
      assert users[..i] == users;
    } else {
      assert users[..|users| - 1][..i] == users[..i];
      LoadFails(users[..|users| - 1], i);
    }
  }

  /** Taking a new account back restores the accounts. */
  lemma AddedThenRemoved(m: Accounts, u: User, username: string)
    requires u.name == Trim(GoSpace, username) && AddUser(m, u).Success?
    ensures AddUser(m, u).value - {LowerAscii(u.name)} == m
  {
    hide LowerAscii, Trim, ValidName, ValidRole, GoSpace;
    assert Trim(GoSpace, u.name) == u.name;
  }
}
