/** What every run of the account store keeps. */
module UserLaws {
  import opened Common
  import opened Text
  import opened Users

  // ---- runs ----

  /** A request together with the outcome of writing the file, or a new start from the file. */
  datatype Act = Ask(r: Request, written: bool) | Restart

  function Next(s: Store, a: Act, durable: bool): Store {
    match a
    case Ask(r, written) => Step(s, r, durable, written)
    case Restart => if durable then s.(mem := s.file) else s
  }

  function After(s: Store, run: seq<Act>, durable: bool): Store
    decreases |run|
  {
    if run == [] then s else After(Next(s, run[0], durable), run[1..], durable)
  }

  predicate HashesOk(run: seq<Act>) {
    forall i :: 0 <= i < |run| && run[i].Ask? ==> HashOk(run[i].r)
  }

  // ---- the last administrator ----

  /** Well-formed accounts with an administrator among them. */
  ghost predicate Governed(m: Accounts) {
    WellFormed(m) && Admins(m) != {}
  }

  lemma OnlyOne(s: set<string>, k: string)
    requires k in s
    ensures |s| <= 1 <==> s == {k}
  {
    assert s == {k} + (s - {k});
  }

  lemma AdminsAfterChange(m: Accounts, k: string, u: User)
    ensures Admins(m[k := u]) == if u.role == ADMINISTRATOR then Admins(m) + {k} else Admins(m) - {k}
  {
  }

  lemma AdminsAfterDelete(m: Accounts, k: string)
    ensures Admins(m - {k}) == Admins(m) - {k}
  {
  }

  /** The last administrator's role is not changed away. */
  lemma LastAdminKeepsRole(m: Accounts, r: Request)
    requires !r.Create? && !r.Delete? && Changed(m, r).Success?
    requires Admins(m) == {KeyOf(r.username)} && m[KeyOf(r.username)].role == ADMINISTRATOR
    ensures Changed(m, r).value.role == ADMINISTRATOR
  {
    hide KeyOf, ValidRole, NextVersion, Admins;
  }

  lemma ChangeKeepsAdmin(m: Accounts, r: Request)
    requires Admins(m) != {} && !r.Create? && !r.Delete? && Changed(m, r).Success?
    ensures Admins(m[KeyOf(r.username) := Changed(m, r).value]) != {}
  {
    hide KeyOf, Admins, Changed;
    var k := KeyOf(r.username);
    AdminsAfterChange(m, k, Changed(m, r).value);
    AdminsHas(m, k);
    if Admins(m) == {k} {
      LastAdminKeepsRole(m, r);
    } else {
      assert exists a :: a in Admins(m) && a != k;
    }
  }

  lemma DeleteKeepsAdmin(m: Accounts, r: Request)
    requires Admins(m) != {} && r.Delete? && Proposed(m, r).Success?
    ensures Admins(Proposed(m, r).value) != {}
  {
    hide KeyOf, Admins;
    var k := KeyOf(r.username);
    AdminsAfterDelete(m, k);
    AdminsHas(m, k);
    if k in Admins(m) { OnlyOne(Admins(m), k); }
    assert Admins(m) != {k};
    assert exists a :: a in Admins(m) && a != k;
  }

  lemma ProposedKeepsAdmin(m: Accounts, r: Request)
    requires Governed(m) && Proposed(m, r).Success? && HashOk(r)
    ensures Governed(Proposed(m, r).value)
  {
    hide NewUser, AddUser, KeyOf, WellFormed, HashOk, Admins, Changed, Proposed;
    ProposedIsWellFormed(m, r);
    if r.Create? {
      CreateKeepsAdmin(m, r);
    } else if r.Delete? {
      DeleteKeepsAdmin(m, r);
    } else {
      ChangedIsProposed(m, r);
      ChangeKeepsAdmin(m, r);
    }
  }

  lemma ChangedIsProposed(m: Accounts, r: Request)
    requires !r.Create? && !r.Delete? && Proposed(m, r).Success?
    ensures Changed(m, r).Success? && Proposed(m, r).value == m[KeyOf(r.username) := Changed(m, r).value]
  {
    hide KeyOf, Changed;
  }

  lemma CreateKeepsAdmin(m: Accounts, r: Request)
    requires WellFormed(m) && Admins(m) != {} && r.Create? && Proposed(m, r).Success?
    ensures Admins(Proposed(m, r).value) != {}
  {
    hide NewUser, AddUser, WellFormed, Admins, ValidRole;
    AddKeepsWellFormed(m, NewUser(r));
  }

  lemma AdminsHas(m: Accounts, k: string)
    ensures k in Admins(m) <==> k in m && m[k].role == ADMINISTRATOR
  {
  }

  /** One act keeps an administrator in memory and, when there is one, in the file. */
  lemma NextKeepsAdmin(s: Store, a: Act, durable: bool)
    requires Governed(s.mem) && (durable ==> Governed(s.file)) && (a.Ask? ==> HashOk(a.r))
    ensures Governed(Next(s, a, durable).mem) && (durable ==> Governed(Next(s, a, durable).file))
  {
    hide Governed, Proposed, HashOk;
    if a.Ask? && Proposed(s.mem, a.r).Success? {
      ProposedKeepsAdmin(s.mem, a.r);
    }
  }

  /**
   * Whatever is asked, written or lost, and however often the store starts again from
   * its file: memory, and the file if there is one, keep an administrator and stay well-formed.
   */
  lemma {:induction false} LastAdminRemains(s: Store, run: seq<Act>, durable: bool)
    requires Governed(s.mem) && (durable ==> Governed(s.file)) && HashesOk(run)
    ensures Governed(After(s, run, durable).mem) && (durable ==> Governed(After(s, run, durable).file))
    decreases |run|
  {
    hide Governed, Next, HashOk;
    if run != [] {
      NextKeepsAdmin(s, run[0], durable);
      LastAdminRemains(Next(s, run[0], durable), run[1..], durable);
    }
  }

  /** A file with an administrator always loads again, to the accounts it was written from. */
  lemma GovernedFileLoads(users: seq<User>)
    requires LoadAll(users).Success? && Governed(LoadAll(users).value)
    ensures LoadUsersFile(users) == Success(LoadAll(users).value)
  {
    hide LoadAll;
    var m := LoadAll(users).value;
    var k :| k in Admins(m);
    assert k in m;
  }

  /** A role change is refused for the last administrator's sake exactly when it would leave none. */
  lemma SetRoleRefusal(m: Accounts, username: string, role: string)
    requires Admins(m) != {} && ValidRole(role) && KeyOf(username) in m
    ensures Proposed(m, SetRole(username, role)) == Failure(LastAdmin) <==>
      Admins(m[KeyOf(username) := m[KeyOf(username)].(role := role)]) == {}
  {
    hide KeyOf, ValidRole, Admins;
    var k := KeyOf(username);
    AdminsAfterChange(m, k, m[k].(role := role));
    AdminsHas(m, k);
    if k in Admins(m) { OnlyOne(Admins(m), k); }
  }

  lemma DeleteRefusal(m: Accounts, username: string, actor: string)
    requires Admins(m) != {} && KeyOf(username) in m && KeyOf(username) != KeyOf(actor)
    ensures Proposed(m, Delete(username, actor)) == Failure(LastAdmin) <==> Admins(m - {KeyOf(username)}) == {}
  {
    hide KeyOf, Admins;
    var k := KeyOf(username);
    AdminsAfterDelete(m, k);
    AdminsHas(m, k);
    if k in Admins(m) { OnlyOne(Admins(m), k); }
  }

  // ---- session versions ----

  predicate Bumps(r: Request) {
    r.BumpSessionVersion? || r.ResetPassword? || r.ChangePassword?
  }

  /** How many bumps take the version to v, counting modulo 2^64. */
  function Distance(version: U64, v: U64): nat {
    if version <= v then v - version else v + TWO64 - version
  }

  lemma OneNearer(version: U64, v: U64)
    ensures Distance(NextVersion(version), v) == if version == v then TWO64 - 1 else Distance(version, v) - 1
  {
  }

  /** The act makes an account under this key that was not there. */
  predicate Recreates(s: Store, a: Act, durable: bool, k: string) {
    a.Ask? && a.r.Create? && k !in s.mem && k in Next(s, a, durable).mem
  }

  predicate NeverRecreated(s: Store, run: seq<Act>, durable: bool, k: string)
    decreases |run|
  {
    run == [] || (!Recreates(s, run[0], durable, k) && NeverRecreated(Next(s, run[0], durable), run[1..], durable, k))
  }

  predicate NoRestart(run: seq<Act>) {
    forall i :: 0 <= i < |run| ==> run[i].Ask?
  }

  predicate Fits(m: Accounts, k: string, v: U64) {
    k in m && m[k].version == v
  }

  /**
   * More than n acts are needed before stamp v of k can fit: one for each bump, and
   * one for a new start when the version of the file is used.
   */
  predicate OutOfReach(s: Store, durable: bool, restarts: bool, k: string, v: U64, n: nat) {
    (k in s.mem ==> n < Distance(s.mem[k].version, v)) &&
    (durable && restarts && k in s.file ==> n < Distance(s.file[k].version, v) + 1)
  }

  lemma NextVersionOf(s: Store, a: Act, durable: bool, k: string)
    requires a.Ask? && k in s.mem && k in Next(s, a, durable).mem
    ensures Next(s, a, durable).mem[k].version ==
      if Bumps(a.r) && KeyOf(a.r.username) == k && Proposed(s.mem, a.r).Success? then NextVersion(s.mem[k].version)
      else s.mem[k].version
  {
    hide NextVersion, Trim, LowerAscii, ValidName, ValidRole, KeyOf, Admins;
  }

  /** What one request does to the two copies: no account appears but by being made, and the file is kept or becomes memory. */
  lemma AskedCopies(s: Store, a: Act, durable: bool, k: string)
    requires a.Ask? && !Recreates(s, a, durable, k)
    ensures var t := Next(s, a, durable); (k in t.mem ==> k in s.mem) && (t.file == s.file || t.file == t.mem)
  {
    hide NextVersion, Trim, LowerAscii, ValidName, ValidRole, KeyOf, Admins;
  }

  lemma NextComesNearer(s: Store, a: Act, durable: bool, restarts: bool, k: string, v: U64, n: nat)
    requires OutOfReach(s, durable, restarts, k, v, n + 1) && !Recreates(s, a, durable, k) && (a.Restart? ==> restarts)
    ensures OutOfReach(Next(s, a, durable), durable, restarts, k, v, n)
  {
    if a.Ask? {
      AskedCopies(s, a, durable, k);
      if k in Next(s, a, durable).mem {
        NextVersionOf(s, a, durable, k);
        OneNearer(s.mem[k].version, v);
        hide Next, Recreates, Distance, NextVersion;
      }
    }
  }

  /** A stamp that is out of reach does not fit after so many acts in which the account is not made anew. */
  lemma {:induction false} StaleStampNeverFits(s: Store, run: seq<Act>, durable: bool, restarts: bool, k: string, v: U64)
    requires OutOfReach(s, durable, restarts, k, v, |run|) && (restarts || NoRestart(run))
    requires NeverRecreated(s, run, durable, k)
    ensures !Fits(After(s, run, durable).mem, k, v)
    decreases |run|
  {
    hide Next, Recreates;
    if run != [] {
      hide OutOfReach;
      NextComesNearer(s, run[0], durable, restarts, k, v, |run| - 1);
      StaleStampNeverFits(Next(s, run[0], durable), run[1..], durable, restarts, k, v);
    }
  }

  /** The key of a stored account's name is its own key. */
  lemma KeyOfName(m: Accounts, k: string)
    requires WellFormed(m) && k in m
    ensures KeyOf(m[k].name) == k
  {
    hide Trim, LowerAscii, ValidName, ValidRole, NotBlank;
    assert ValidUser(m[k]);
    ValidNameIsTrimmed(m[k].name);
    assert NameKey(m[k]) == k;
  }

  lemma BumpStep(s: Store, name: string, durable: bool)
    requires KeyOf(name) in s.mem
    ensures Next(s, Ask(BumpSessionVersion(name), false), durable) ==
      s.(mem := s.mem[KeyOf(name) := s.mem[KeyOf(name)].(version := NextVersion(s.mem[KeyOf(name)].version))])
  {
    hide KeyOf;
  }

  /** Bumping an account as often as its distance says makes the stamp fit. */
  lemma {:induction false} BumpsReach(s: Store, durable: bool, k: string, name: string, v: U64) returns (run: seq<Act>)
    requires k in s.mem && KeyOf(name) == k
    ensures NoRestart(run) && |run| == Distance(s.mem[k].version, v)
    ensures NeverRecreated(s, run, durable, k) && Fits(After(s, run, durable).mem, k, v)
    decreases Distance(s.mem[k].version, v)
  {
    run := [];
    if s.mem[k].version != v {
      var bump := Ask(BumpSessionVersion(name), false);
      BumpStep(s, name, durable);
      OneNearer(s.mem[k].version, v);
      hide Next, KeyOf, NextVersion;
      var rest := BumpsReach(Next(s, bump, durable), durable, k, name, v);
      run := [bump] + rest;
      assert run[1..] == rest;
    }
  }

  /** The run that starts again from the file and bumps from there. */
  lemma RestartReaches(s: Store, k: string, name: string, v: U64) returns (run: seq<Act>)
    requires k in s.file && KeyOf(name) == k
    ensures |run| == Distance(s.file[k].version, v) + 1
    ensures NeverRecreated(s, run, true, k) && Fits(After(s, run, true).mem, k, v)
  {
    var rest := BumpsReach(s.(mem := s.file), true, k, name, v);
    run := [Restart] + rest;
    assert run[1..] == rest && Next(s, Restart, true) == s.(mem := s.file);
  }

  /**
   * No run of at most n acts in which the account is not made anew makes the stamp fit
   * exactly when the versions in memory and in the file are far enough from it.
   */
  lemma StaleExactly(s: Store, durable: bool, restarts: bool, k: string, v: U64, n: nat)
    requires WellFormed(s.mem) && WellFormed(s.file)
    ensures OutOfReach(s, durable, restarts, k, v, n) <==>
      forall run :: |run| <= n && (restarts || NoRestart(run)) && NeverRecreated(s, run, durable, k) ==>
        !Fits(After(s, run, durable).mem, k, v)
  {
    hide Fits, After, NeverRecreated, WellFormed, KeyOf, Distance, NoRestart;
    if OutOfReach(s, durable, restarts, k, v, n) {
      forall run | |run| <= n && (restarts || NoRestart(run)) && NeverRecreated(s, run, durable, k)
        ensures !Fits(After(s, run, durable).mem, k, v)
      {
        StaleStampNeverFits(s, run, durable, restarts, k, v);
      }
    } else if k in s.mem && Distance(s.mem[k].version, v) <= n {
      KeyOfName(s.mem, k);
      var run := BumpsReach(s, durable, k, s.mem[k].name, v);
      assert |run| <= n;
    } else {
      KeyOfName(s.file, k);
      var run := RestartReaches(s, k, s.file[k].name, v);
      assert |run| <= n;
    }
  }

  /** A bump, a reset or a change of password puts the old stamp as far off as can be; in the file as well when it was written. */
  lemma BumpGetsAhead(s: Store, r: Request, durable: bool, written: bool)
    requires Bumps(r) && Proposed(s.mem, r).Success?
    ensures KeyOf(r.username) in s.mem
    ensures var k := KeyOf(r.username); var v := s.mem[k].version; var t := Step(s, r, durable, written);
      k in t.mem && Distance(t.mem[k].version, v) == TWO64 - 1 &&
      OutOfReach(t, durable, durable && written, k, v, TWO64 - 2)
  {
    hide KeyOf, Trim;
    OneNearer(s.mem[KeyOf(r.username)].version, s.mem[KeyOf(r.username)].version);
  }

  /** A bump that could not be written is undone by the next start: memory is what the file held. */
  lemma UnwrittenBumpIsUndone(s: Store, username: string)
    requires KeyOf(username) in s.mem
    ensures var run := [Ask(BumpSessionVersion(username), false), Restart]; After(s, run, true) == Store(s.file, s.file)
  {
    hide KeyOf;
    var run := [Ask(BumpSessionVersion(username), false), Restart];
    BumpStep(s, username, true);
    hide Next;
    assert run[1..] == [Restart] && run[1..][1..] == [];
    assert Next(Next(s, run[0], true), Restart, true) == Store(s.file, s.file) by {
      RestartStep(Next(s, run[0], true));
    }
    assert After(s, run, true) == After(Next(s, run[0], true), run[1..], true);
  }

  lemma RestartStep(s: Store)
    ensures Next(s, Restart, true) == Store(s.file, s.file)
  {
  }

  // ---- exactly which stamps fit ----

  /** How often the version of k is bumped along a run. */
  function BumpCount(s: Store, run: seq<Act>, durable: bool, k: string): nat
    decreases |run|
  {
    if run == [] then 0
    else
      var a := run[0];
      (if a.Ask? && Bumps(a.r) && KeyOf(a.r.username) == k && Proposed(s.mem, a.r).Success? then 1 else 0) +
      BumpCount(Next(s, a, durable), run[1..], durable, k)
  }

  /** The account is there all along. */
  predicate StaysThere(s: Store, run: seq<Act>, durable: bool, k: string)
    decreases |run|
  {
    k in s.mem && (run == [] || StaysThere(Next(s, run[0], durable), run[1..], durable, k))
  }

  lemma {:induction false} VersionCountsBumps(s: Store, run: seq<Act>, durable: bool, k: string)
    requires StaysThere(s, run, durable, k) && forall i :: 0 <= i < |run| ==> run[i].Ask?
    ensures k in After(s, run, durable).mem
    ensures After(s, run, durable).mem[k].version == Wrap64(s.mem[k].version + BumpCount(s, run, durable, k))
    decreases |run|
  {
    hide Next, Proposed, KeyOf;
    if run == [] {
      assert Wrap64(s.mem[k].version) == s.mem[k].version;
    } else {
      VersionCountsBumps(Next(s, run[0], durable), run[1..], durable, k);
      assert k in Next(s, run[0], durable).mem;
      NextVersionOf(s, run[0], durable, k);
      hide Wrap64;
      WrapNext(s.mem[k].version, BumpCount(Next(s, run[0], durable), run[1..], durable, k));
    }
  }

  lemma WrapNext(v: U64, n: nat)
    ensures Wrap64(NextVersion(v) + n) == Wrap64(v + 1 + n)
  {
  }

  /** While the account stays there, a stamp taken now fits later exactly when the bumps in between are a multiple of 2^64. */
  lemma StampFitsExactly(s: Store, run: seq<Act>, durable: bool, k: string)
    requires StaysThere(s, run, durable, k) && forall i :: 0 <= i < |run| ==> run[i].Ask?
    ensures k in After(s, run, durable).mem
    ensures After(s, run, durable).mem[k].version == s.mem[k].version <==> BumpCount(s, run, durable, k) % TWO64 == 0
  {
    hide After, BumpCount, Wrap64, Next, Proposed;
    VersionCountsBumps(s, run, durable, k);
    WrapReturns(s.mem[k].version, BumpCount(s, run, durable, k));
  }

  lemma WrapReturns(v: U64, n: nat)
    ensures Wrap64(v + n) == v <==> n % TWO64 == 0
  {
    var q, r := n / TWO64, n % TWO64;
    assert n == TWO64 * q + r;
    assert (v + n) % TWO64 == (v + r) % TWO64;
    if v + r < TWO64 {
      assert (v + r) % TWO64 == v + r;
    } else {
      assert (v + r) % TWO64 == v + r - TWO64;
    }
  }

  // ---- what each request changes ----

  /** Letters, digits, dots, underscores and hyphens, 2 to 64 of them. */
  predicate GoodName(name: string) {
    2 <= |name| <= 64 &&
    forall i :: 0 <= i < |name| ==>
      'a' <= name[i] <= 'z' || 'A' <= name[i] <= 'Z' || '0' <= name[i] <= '9' || name[i] in "._-"
  }

  predicate KnownRole(role: string) {
    role in ["administrator", "operator", "dashboard"]
  }

  /** The request takes the last administrator away. */
  predicate EndsAdmins(m: Accounts, r: Request) {
    var k := KeyOf(r.username);
    k in m && m[k].role == "administrator" && |Admins(m)| <= 1 && (r.Delete? || (r.SetRole? && r.role != "administrator"))
  }

  /** Which requests are accepted. */
  lemma AcceptedExactly(m: Accounts, r: Request)
    ensures Proposed(m, r).Success? <==>
      (if r.Create?
       then GoodName(Trim(GoSpace, r.username)) && KeyOf(r.username) !in m && KnownRole(r.role) && r.fullName.Some? &&
         r.hash.Some? && Trim(GoSpace, r.hash.value) != ""
       else KeyOf(r.username) in m && !EndsAdmins(m, r)) &&
      (r.Create? || r.ResetPassword? || r.ChangePassword? ==> r.passwordOk && r.hash.Some?) &&
      (r.ChangePassword? ==> r.oldMatches) &&
      (r.SetRole? ==> KnownRole(r.role)) &&
      (r.SetFullName? ==> r.fullName.Some?) &&
      (r.Delete? ==> KeyOf(r.username) != KeyOf(r.actor))
  {
    hide Trim, LowerAscii, Admins;
    if r.Create? {
      TrimAgain(r.username);
      NameExactly(Trim(GoSpace, r.username));
      hide ValidName, GoodName, KnownRole, ValidRole;
      RoleExactly(r.role);
    } else if r.SetRole? {
      RoleExactly(r.role);
      hide KeyOf, ValidRole, KnownRole;
    } else {
      hide KeyOf;
    }
  }

  lemma TrimAgain(name: string)
    ensures Trim(GoSpace, Trim(GoSpace, name)) == Trim(GoSpace, name)
  {
  }

  lemma NameExactly(name: string)
    ensures ValidName(name) <==> GoodName(name)
  {
    forall c: char
      ensures NameChar(c) <==> 'a' <= c <= 'z' || 'A' <= c <= 'Z' || '0' <= c <= '9' || c in "._-"
    {
    }
    hide NameChar;
  }

  lemma RoleExactly(role: string)
    ensures ValidRole(role) <==> KnownRole(role)
  {
  }

  /** Whose account the request is about. */
  predicate About(r: Request, k: string) {
    KeyOf(r.username) == k
  }

  /**
   * What an accepted request leaves of an account that was there: all of it, unless the
   * request is about it; then a deletion removes it, and every other request changes just
   * the fields it is for.
   */
  lemma FieldsExactly(m: Accounts, r: Request, k: string)
    requires Proposed(m, r).Success? && k in m
    ensures var after := Proposed(m, r).value;
      (k !in after <==> r.Delete? && About(r, k)) &&
      (k in after ==>
        after[k].name == m[k].name &&
        after[k].fullName == (if r.SetFullName? && About(r, k) then r.fullName.value else m[k].fullName) &&
        after[k].role == (if r.SetRole? && About(r, k) then r.role else m[k].role) &&
        after[k].hash == (if (r.ResetPassword? || r.ChangePassword?) && About(r, k) then r.hash.value else m[k].hash) &&
        after[k].mustReset ==
          (if r.ResetPassword? && About(r, k) then r.mustReset else if r.ChangePassword? && About(r, k) then false else m[k].mustReset) &&
        after[k].version == (if Bumps(r) && About(r, k) then Wrap64(m[k].version + 1) else m[k].version))
  {
    hide Trim, LowerAscii, ValidName, ValidRole, Admins, Wrap64;
    if r.Create? {
      CreatedExactly(m, r);
      hide AddUser, NewUser;
    } else {
      hide KeyOf;
    }
  }

  /** An accepted creation adds one account under the lower-cased name, with what was asked for and version 0. */
  lemma CreatedExactly(m: Accounts, r: Request)
    requires r.Create? && Proposed(m, r).Success?
    ensures KeyOf(r.username) !in m && r.fullName.Some? && r.hash.Some?
    ensures Proposed(m, r).value == m[KeyOf(r.username) :=
      User(Trim(GoSpace, r.username), r.fullName.value, r.hash.value, r.role, r.mustReset, 0)]
  {
    TrimAgain(r.username);
    hide Trim, LowerAscii, ValidName, ValidRole;
  }

  /** No account appears but by being created. */
  lemma NobodyElseAppears(m: Accounts, r: Request, k: string)
    requires Proposed(m, r).Success? && k !in m && k in Proposed(m, r).value
    ensures r.Create? && About(r, k)
  {
    if r.Create? {
      CreatedExactly(m, r);
    }
    hide KeyOf, AddUser, NewUser;
  }

  // ---- which refusal comes first ----

  /** What is asked of a request, in order, each with the refusal it leads to when it fails. */
  function Demands(m: Accounts, r: Request): seq<(bool, UserError)> {
    var k := KeyOf(r.username);
    match r
    case Create(username, passwordOk, role, fullName, hash, _) =>
      [(passwordOk, InvalidPassword), (KnownRole(role), InvalidRole), (fullName.Some?, InvalidFullName), (hash.Some?, HashFailed),
       (GoodName(Trim(GoSpace, username)), InvalidUsername), (Trim(GoSpace, hash.GetOr("")) != "", EmptyHash), (k !in m, UserExists)]
    case SetRole(_, role) => [(KnownRole(role), InvalidRole), (k in m, UserNotFound), (!EndsAdmins(m, r), LastAdmin)]
    case SetFullName(_, fullName) => [(fullName.Some?, InvalidFullName), (k in m, UserNotFound)]
    case ResetPassword(_, passwordOk, hash, _) => [(passwordOk, InvalidPassword), (hash.Some?, HashFailed), (k in m, UserNotFound)]
    case ChangePassword(_, passwordOk, oldMatches, hash) =>
      [(passwordOk, InvalidPassword), (k in m, UserNotFound), (oldMatches, BadOldPassword), (hash.Some?, HashFailed)]
    case BumpSessionVersion(_) => [(k in m, UserNotFound)]
    case Delete(_, actor) => [(k != KeyOf(actor), SelfDelete), (k in m, UserNotFound), (!EndsAdmins(m, r), LastAdmin)]
  }

  function FirstFailed(demands: seq<(bool, UserError)>): Option<UserError> {
    if demands == [] then None else if !demands[0].0 then Some(demands[0].1) else FirstFailed(demands[1..])
  }

  lemma FailedFirst(met: bool, e: UserError, more: seq<(bool, UserError)>)
    ensures FirstFailed([(met, e)] + more) == if met then FirstFailed(more) else Some(e)
  {
    assert ([(met, e)] + more)[1..] == more;
  }

  /** A request is refused for the first demand it fails, and accepted when it fails none. */
  lemma RefusedForTheFirst(m: Accounts, r: Request)
    ensures match FirstFailed(Demands(m, r))
      case None => Proposed(m, r).Success?
      case Some(e) => Proposed(m, r) == Failure(e)
  {
    if r.Create? {
      CreateRefused(m, r);
    } else if r.SetRole? || r.Delete? {
      AdminRefused(m, r);
    } else {
      OtherRefused(m, r);
    }
  }

  lemma CreateRefused(m: Accounts, r: Request)
    requires r.Create?
    ensures match FirstFailed(Demands(m, r))
      case None => Proposed(m, r).Success?
      case Some(e) => Proposed(m, r) == Failure(e)
  {
    hide FirstFailed, Demands, Proposed, KnownRole, GoodName, Trim, KeyOf;
    DemandsOfCreate(m, r);
    AnswerOfCreate(m, r);
  }

  lemma DemandsOfCreate(m: Accounts, r: Request)
    requires r.Create?
    ensures FirstFailed(Demands(m, r)) ==
      if !r.passwordOk then Some(InvalidPassword)
      else if !KnownRole(r.role) then Some(InvalidRole)
      else if r.fullName.None? then Some(InvalidFullName)
      else if r.hash.None? then Some(HashFailed)
      else if !GoodName(Trim(GoSpace, r.username)) then Some(InvalidUsername)
      else if Trim(GoSpace, r.hash.value) == "" then Some(EmptyHash)
      else if KeyOf(r.username) in m then Some(UserExists)
      else None
  {
    hide Trim, LowerAscii, GoodName, KnownRole, KeyOf, FirstFailed;
    var d := Demands(m, r);
    var d6 := [d[6]] + [];
    var d5 := [d[5]] + d6;
    var d4 := [d[4]] + d5;
    var d3 := [d[3]] + d4;
    var d2 := [d[2]] + d3;
    var d1 := [d[1]] + d2;
    assert d == [d[0]] + d1;
    NothingFailed();
    FailedFirst(d[6].0, d[6].1, []);
    FailedFirst(d[5].0, d[5].1, d6);
    FailedFirst(d[4].0, d[4].1, d5);
    FailedFirst(d[3].0, d[3].1, d4);
    FailedFirst(d[2].0, d[2].1, d3);
    FailedFirst(d[1].0, d[1].1, d2);
    FailedFirst(d[0].0, d[0].1, d1);
  }

  lemma AnswerOfCreate(m: Accounts, r: Request)
    requires r.Create?
    ensures (if Proposed(m, r).Failure? then Some(Proposed(m, r).error) else None) ==
      if !r.passwordOk then Some(InvalidPassword)
      else if !KnownRole(r.role) then Some(InvalidRole)
      else if r.fullName.None? then Some(InvalidFullName)
      else if r.hash.None? then Some(HashFailed)
      else if !GoodName(Trim(GoSpace, r.username)) then Some(InvalidUsername)
      else if Trim(GoSpace, r.hash.value) == "" then Some(EmptyHash)
      else if KeyOf(r.username) in m then Some(UserExists)
      else None
  {
    hide Trim, LowerAscii, GoodName, KnownRole, ValidRole, AddUser;
    RoleExactly(r.role);
    if r.hash.Some? && KnownRole(r.role) {
      AnswerOfAdd(m, NewUser(r));
      TrimAgain(r.username);
    }
  }

  lemma AnswerOfAdd(m: Accounts, u: User)
    requires KnownRole(u.role)
    ensures (if AddUser(m, u).Failure? then Some(AddUser(m, u).error) else None) ==
      if !GoodName(Trim(GoSpace, u.name)) then Some(InvalidUsername)
      else if Trim(GoSpace, u.hash) == "" then Some(EmptyHash)
      else if LowerAscii(Trim(GoSpace, u.name)) in m then Some(UserExists)
      else None
  {
    NameExactly(Trim(GoSpace, u.name));
    RoleExactly(u.role);
    hide Trim, LowerAscii, ValidName, GoodName, KnownRole, ValidRole;
  }

  lemma NothingFailed()
    ensures FirstFailed([]) == None
  {
  }

  lemma AdminRefused(m: Accounts, r: Request)
    requires r.SetRole? || r.Delete?
    ensures match FirstFailed(Demands(m, r))
      case None => Proposed(m, r).Success?
      case Some(e) => Proposed(m, r) == Failure(e)
  {
    hide FirstFailed, Demands, Proposed, KnownRole, KeyOf, EndsAdmins;
    DemandsOfAdmin(m, r);
    AnswerOfAdmin(m, r);
  }

  lemma DemandsOfAdmin(m: Accounts, r: Request)
    requires r.SetRole? || r.Delete?
    ensures FirstFailed(Demands(m, r)) ==
      if r.SetRole? && !KnownRole(r.role) then Some(InvalidRole)
      else if r.Delete? && KeyOf(r.username) == KeyOf(r.actor) then Some(SelfDelete)
      else if KeyOf(r.username) !in m then Some(UserNotFound)
      else if EndsAdmins(m, r) then Some(LastAdmin)
      else None
  {
    hide KeyOf, KnownRole, FirstFailed, EndsAdmins;
    var d := Demands(m, r);
    assert d == [d[0]] + ([d[1]] + ([d[2]] + []));
    NothingFailed();
    FailedFirst(d[2].0, d[2].1, []);
    FailedFirst(d[1].0, d[1].1, [d[2]] + []);
    FailedFirst(d[0].0, d[0].1, [d[1]] + ([d[2]] + []));
  }

  lemma AnswerOfAdmin(m: Accounts, r: Request)
    requires r.SetRole? || r.Delete?
    ensures (if Proposed(m, r).Failure? then Some(Proposed(m, r).error) else None) ==
      if r.SetRole? && !KnownRole(r.role) then Some(InvalidRole)
      else if r.Delete? && KeyOf(r.username) == KeyOf(r.actor) then Some(SelfDelete)
      else if KeyOf(r.username) !in m then Some(UserNotFound)
      else if EndsAdmins(m, r) then Some(LastAdmin)
      else None
  {
    if r.SetRole? {
      RoleExactly(r.role);
    }
    hide KeyOf, KnownRole, ValidRole, Admins;
  }

  lemma OtherRefused(m: Accounts, r: Request)
    requires !r.Create? && !r.SetRole? && !r.Delete?
    ensures match FirstFailed(Demands(m, r))
      case None => Proposed(m, r).Success?
      case Some(e) => Proposed(m, r) == Failure(e)
  {
    hide KeyOf, FirstFailed, NextVersion;
    var d := Demands(m, r);
    NothingFailed();
    forall met, e, more: seq<(bool, UserError)>
      ensures FirstFailed([(met, e)] + more) == if met then FirstFailed(more) else Some(e)
    {
      FailedFirst(met, e, more);
    }
    if r.BumpSessionVersion? {
      assert d == [d[0]] + [];
    } else if r.SetFullName? {
      assert d == [d[0]] + ([d[1]] + []);
    } else if r.ResetPassword? {
      assert d == [d[0]] + ([d[1]] + ([d[2]] + []));
    } else {
      assert d == [d[0]] + ([d[1]] + ([d[2]] + ([d[3]] + [])));
    }
  }

  // ---- failed writes ----

  /**
   * What is left when the file cannot be written: the file as it was, and memory as it was
   * for a creation or a deletion, but changed for every other accepted request. When it is
   * written, both hold the change; without a file memory does; a refusal changes nothing.
   */
  lemma WritesExactly(s: Store, r: Request, durable: bool, written: bool)
    ensures var t := Step(s, r, durable, written);
      if Proposed(s.mem, r).Failure? then t == s
      else
        (durable && written ==> t.mem == t.file == Proposed(s.mem, r).value) &&
        (!(durable && written) ==> t.file == s.file) &&
        (durable && !written && (r.Create? || r.Delete?) ==> t.mem == s.mem) &&
        (!durable || !(r.Create? || r.Delete?) ==> t.mem == Proposed(s.mem, r).value)
  {
    hide Proposed;
  }

  // ---- which files load ----

  /** An account as a file must hold it, names trimmed. */
  predicate GoodAccount(u: User) {
    GoodName(Trim(GoSpace, u.name)) && KnownRole(u.role) && Trim(GoSpace, u.hash) != ""
  }

  ghost predicate AllGood(users: seq<User>) {
    (forall i :: 0 <= i < |users| ==> GoodAccount(users[i])) &&
    forall i, j :: 0 <= i < j < |users| ==> KeyOf(users[i].name) != KeyOf(users[j].name)
  }

  lemma AddExactly(m: Accounts, u: User)
    ensures AddUser(m, u).Success? <==> GoodAccount(u) && KeyOf(u.name) !in m
    ensures AddUser(m, u).Success? ==> AddUser(m, u).value == m[KeyOf(u.name) := u.(name := Trim(GoSpace, u.name))]
  {
    NameExactly(Trim(GoSpace, u.name));
    RoleExactly(u.role);
    hide Trim, LowerAscii, ValidName, GoodName, KnownRole, ValidRole;
  }

  lemma {:induction false} LoadAllExactly(users: seq<User>)
    ensures LoadAll(users).Success? <==> AllGood(users)
    ensures LoadAll(users).Success? ==>
      LoadAll(users).value.Keys == set i | 0 <= i < |users| :: KeyOf(users[i].name)
  {
    hide GoodAccount, KeyOf, AddUser;
    if users != [] {
      var init, last := users[..|users| - 1], users[|users| - 1];
      LoadAllExactly(init);
      assert users == init + [last];
      AllGoodMore(init, last);
      if LoadAll(init).Success? {
        AddExactly(LoadAll(init).value, last);
      }
    }
  }

  lemma AllGoodMore(init: seq<User>, last: User)
    ensures AllGood(init + [last]) <==>
      AllGood(init) && GoodAccount(last) && KeyOf(last.name) !in set i | 0 <= i < |init| :: KeyOf(init[i].name)
    ensures (set i | 0 <= i < |init + [last]| :: KeyOf((init + [last])[i].name)) ==
      (set i | 0 <= i < |init| :: KeyOf(init[i].name)) + {KeyOf(last.name)}
  {
    hide GoodAccount, KeyOf;
    var users := init + [last];
    assert users[|init|] == last;
    assert forall i :: 0 <= i < |init| ==> users[i] == init[i];
  }

  /** A file loads exactly when it holds at least one account, all of them good, no two under one key. */
  lemma FilesThatLoad(users: seq<User>)
    ensures LoadUsersFile(users).Success? <==> users != [] && AllGood(users)
  {
    hide AllGood, LoadAll, KeyOf;
    LoadAllExactly(users);
    if LoadAll(users).Success? {
      var keys := set i | 0 <= i < |users| :: KeyOf(users[i].name);
      if users != [] {
        assert KeyOf(users[0].name) in keys;
        assert |LoadAll(users).value| == |LoadAll(users).value.Keys|;
      } else {
        assert keys == {};
        assert |LoadAll(users).value| == |LoadAll(users).value.Keys|;
      }
    }
    if users == [] {
      NothingIsGood();
    }
  }

  lemma NothingIsGood()
    ensures AllGood([]) && LoadAll([]).Success?
  {
  }

  // ---- keys ----

  /** The same letter, in upper or lower case. */
  predicate SameFolded(a: char, b: char) {
    a == b || ('A' <= a <= 'Z' && b as int == a as int + 32) || ('A' <= b <= 'Z' && a as int == b as int + 32)
  }

  lemma {:induction false} LowerAt(s: string, k: nat)
    requires k < |s|
    ensures LowerAscii(s)[k] == LowerAsciiChar(s[k])
  {
    if k > 0 {
      LowerAt(s[1..], k - 1);
    }
  }

  /** Two names mean the same account exactly when they differ at most in surrounding white space and in case. */
  lemma KeysExactly(a: string, b: string)
    ensures KeyOf(a) == KeyOf(b) <==>
      var x, y := Trim(GoSpace, a), Trim(GoSpace, b); |x| == |y| && forall k :: 0 <= k < |x| ==> SameFolded(x[k], y[k])
  {
    var x, y := Trim(GoSpace, a), Trim(GoSpace, b);
    hide Trim;
    forall k | 0 <= k < |x|
      ensures LowerAscii(x)[k] == LowerAsciiChar(x[k])
    {
      LowerAt(x, k);
    }
    forall k | 0 <= k < |y|
      ensures LowerAscii(y)[k] == LowerAsciiChar(y[k])
    {
      LowerAt(y, k);
    }
    hide LowerAscii;
    forall c: char, d: char
      ensures LowerAsciiChar(c) == LowerAsciiChar(d) <==> SameFolded(c, d)
    {
    }
    hide LowerAsciiChar, SameFolded;
    if |x| == |y| && forall k :: 0 <= k < |x| ==> SameFolded(x[k], y[k]) {
      forall k | 0 <= k < |x|
        ensures LowerAscii(x)[k] == LowerAscii(y)[k]
      {
      }
      assert LowerAscii(x) == LowerAscii(y);
    }
  }
}
