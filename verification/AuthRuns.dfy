/** Runs over both stores: what is revoked stays out. */
module AuthRuns {
  import opened Common
  import opened Text
  import opened Users
  import opened UserLaws
  import opened Sessions

  datatype System = System(users: Store, sessions: Registry)

  /** Everything that happens to the two stores; written is the outcome of a file write, now the clock. */
  datatype Event =
    | Account(act: Act)
    | Register(rec: Record, now: int, written: bool)
    | Has(sid: string, now: int)
    | Touch(sid: string, now: int, written: bool)
    | Revoke(sid: string, written: bool)
    | RevokeUser(username: string, written: bool)
    | Check(sess: Session, now: int, written: bool)
    | Reload(now: int)

  /** The registry after an event; durable says whether the stores have files. */
  function NextSessions(s: System, e: Event, durable: bool): Registry {
    match e
    case Account(_) => s.sessions
    case Register(rec, now, written) => Registered(s.sessions, rec, now, durable, written)
    case Has(sid, now) => if Trim(GoSpace, sid) == "" then s.sessions else Prune(s.sessions, now)
    case Touch(sid, now, written) => Touched(s.sessions, sid, now, durable, written)
    case Revoke(sid, written) => Revoked(s.sessions, sid, durable, written)
    case RevokeUser(username, written) => UserRevoked(s.sessions, username, durable, written)
    case Check(sess, now, written) => Checked(s.users.mem, s.sessions, sess, now, durable, written)
    case Reload(now) =>
      if durable then Registry(FromFile(s.sessions.file, now), map[], s.sessions.file) else s.sessions
  }

  function NextSystem(s: System, e: Event, durable: bool): System {
    System(if e.Account? then UserLaws.Next(s.users, e.act, durable) else s.users, NextSessions(s, e, durable))
  }

  function AfterAll(s: System, run: seq<Event>, durable: bool): System
    decreases |run|
  {
    if run == [] then s else AfterAll(NextSystem(s, run[0], durable), run[1..], durable)
  }

  // ---- revoked sessions ----

  /** The session id is nowhere: not registered, and, if starts from the file matter, not in the file. */
  predicate Gone(s: System, sid: string, reloads: bool) {
    GoneFrom(s.sessions, sid, reloads)
  }

  predicate GoneFrom(g: Registry, sid: string, reloads: bool) {
    sid !in g.byID && (reloads ==> sid !in g.file)
  }

  predicate RegistersAnew(e: Event, sid: string) {
    e.Register? && e.rec.id == sid
  }

  lemma RegisteredStaysGone(g: Registry, rec: Record, now: int, durable: bool, written: bool, sid: string, reloads: bool)
    requires GoneFrom(g, sid, reloads) && rec.id != sid
    ensures GoneFrom(Registered(g, rec, now, durable, written), sid, reloads)
  {
    hide Trim, Expired, Matching, LowerAscii, KeyOf;
  }

  lemma TouchedStaysGone(g: Registry, id: string, now: int, durable: bool, written: bool, sid: string, reloads: bool)
    requires GoneFrom(g, sid, reloads)
    ensures GoneFrom(Touched(g, id, now, durable, written), sid, reloads)
  {
    hide Trim, Expired, Matching, LowerAscii, KeyOf;
  }

  lemma RevokedStaysGone(g: Registry, id: string, durable: bool, written: bool, sid: string, reloads: bool)
    requires GoneFrom(g, sid, reloads)
    ensures GoneFrom(Revoked(g, id, durable, written), sid, reloads)
  {
    hide Trim, Expired, Matching, LowerAscii, KeyOf;
  }

  lemma UserRevokedStaysGone(g: Registry, username: string, durable: bool, written: bool, sid: string, reloads: bool)
    requires GoneFrom(g, sid, reloads)
    ensures GoneFrom(UserRevoked(g, username, durable, written), sid, reloads)
  {
    hide Trim, Expired, Matching, LowerAscii, KeyOf;
  }

  lemma PrunedStaysGone(g: Registry, now: int, sid: string, reloads: bool)
    requires GoneFrom(g, sid, reloads)
    ensures GoneFrom(Prune(g, now), sid, reloads)
  {
    hide Trim, Expired, Matching, LowerAscii, KeyOf;
  }

  lemma CheckedStaysGone(m: Accounts, g: Registry, sess: Session, now: int, durable: bool, written: bool, sid: string, reloads: bool)
    requires GoneFrom(g, sid, reloads)
    ensures GoneFrom(Checked(m, g, sess, now, durable, written), sid, reloads)
  {
    hide Trim, Live, Listed, Touched, Prune, GoneFrom;
    PrunedStaysGone(g, now, sid, reloads);
    TouchedStaysGone(Prune(g, now), sess.sid, now, durable, written, sid, reloads);
  }

  lemma ReloadedIsGone(g: Registry, now: int, sid: string)
    requires GoneFrom(g, sid, true)
    ensures GoneFrom(Registry(FromFile(g.file, now), map[], g.file), sid, true)
  {
    hide LastUnexpired;
  }

  lemma NextStaysGone(s: System, e: Event, durable: bool, sid: string, reloads: bool)
    requires Gone(s, sid, reloads) && !RegistersAnew(e, sid) && (e.Reload? ==> reloads)
    ensures Gone(NextSystem(s, e, durable), sid, reloads)
  {
    hide Registered, Touched, Revoked, UserRevoked, Prune, Checked, Trim, FromFile, GoneFrom, UserLaws.Next;
    var g := s.sessions;
    match e
    case Account(_) =>
    case Reload(now) => ReloadedIsGone(g, now, sid);
    case Register(rec, now, written) => RegisteredStaysGone(g, rec, now, durable, written, sid, reloads);
    case Has(id, now) => PrunedStaysGone(g, now, sid, reloads);
    case Touch(id, now, written) => TouchedStaysGone(g, id, now, durable, written, sid, reloads);
    case Revoke(id, written) => RevokedStaysGone(g, id, durable, written, sid, reloads);
    case RevokeUser(username, written) => UserRevokedStaysGone(g, username, durable, written, sid, reloads);
    case Check(sess, now, written) => CheckedStaysGone(s.users.mem, g, sess, now, durable, written, sid, reloads);
  }

  predicate NeverRegistered(run: seq<Event>, sid: string) {
    forall i :: 0 <= i < |run| ==> !RegistersAnew(run[i], sid)
  }

  lemma {:induction false} StaysGone(s: System, run: seq<Event>, durable: bool, sid: string, reloads: bool)
    requires Gone(s, sid, reloads) && NeverRegistered(run, sid)
    requires !reloads ==> forall i :: 0 <= i < |run| ==> !run[i].Reload?
    ensures Gone(AfterAll(s, run, durable), sid, reloads)
    decreases |run|
  {
    hide Gone, NextSystem, RegistersAnew;
    if run != [] {
      NextStaysGone(s, run[0], durable, sid, reloads);
      StaysGone(NextSystem(s, run[0], durable), run[1..], durable, sid, reloads);
    }
  }

  /**
   * A session id that is gone never passes the check again in any run that does not
   * register it anew, whatever the session, the clock and the accounts are.
   */
  lemma GoneNeverPasses(s: System, run: seq<Event>, durable: bool, sess: Session, now: int, reloads: bool)
    requires Gone(s, Trim(GoSpace, sess.sid), reloads) && NeverRegistered(run, Trim(GoSpace, sess.sid))
    requires !reloads ==> forall i :: 0 <= i < |run| ==> !run[i].Reload?
    ensures var t := AfterAll(s, run, durable); !Passes(t.users.mem, t.sessions.byID, sess, now)
  {
    hide Trim, Live, Expired, AfterAll, NeverRegistered;
    StaysGone(s, run, durable, Trim(GoSpace, sess.sid), reloads);
  }

  /** Revoke makes a session gone, from the file as well when it is written. */
  lemma RevokeMakesGone(s: System, sid: string, durable: bool, written: bool)
    requires Trim(GoSpace, sid) in s.sessions.byID && Trim(GoSpace, sid) != ""
    ensures Gone(NextSystem(s, Revoke(sid, written), durable), Trim(GoSpace, sid), durable && written)
  {
    hide Trim;
  }

  /** RevokeUser makes all sessions of the user gone, and no others. */
  lemma RevokeUserMakesGone(s: System, username: string, durable: bool, written: bool, id: string)
    requires Trim(GoSpace, username) != "" && id in s.sessions.byID
    ensures LowerAscii(s.sessions.byID[id].username) == KeyOf(username) ==>
      Gone(NextSystem(s, RevokeUser(username, written), durable), id, durable && written)
    ensures LowerAscii(s.sessions.byID[id].username) != KeyOf(username) ==>
      id in NextSystem(s, RevokeUser(username, written), durable).sessions.byID
  {
    hide Trim, LowerAscii, KeyOf;
    assert id in SessionsOf(s.sessions.byID, username) <==> LowerAscii(s.sessions.byID[id].username) == KeyOf(username);
  }

  /**
   * With files, an id stays out of every run that does not register it anew exactly
   * when neither memory nor file holds it: a revocation that could not be written is
   * undone by the next start.
   */
  lemma GoneExactly(s: System, sid: string)
    ensures Gone(s, sid, true) <==>
      forall run :: NeverRegistered(run, sid) ==> sid !in AfterAll(s, run, true).sessions.byID
  {
    if Gone(s, sid, true) {
      forall run | NeverRegistered(run, sid)
        ensures sid !in AfterAll(s, run, true).sessions.byID
      {
        StaysGone(s, run, true, sid, true);
      }
    } else if sid in s.sessions.byID {
      assert AfterAll(s, [], true) == s && NeverRegistered([], sid);
    } else {
      var copies := s.sessions.file[sid];
      var now := copies[|copies| - 1].expires;
      var run := [Reload(now)];
      assert run[1..] == [];
      assert AfterAll(s, run, true) == NextSystem(s, run[0], true);
      assert NeverRegistered(run, sid);
    }
  }

  /** A revocation that could not be written is undone by the next start while the session lasts. */
  lemma UnwrittenRevokeIsUndone(s: System, sid: string, now: int)
    requires sid in s.sessions.byID && s.sessions.file == OneEach(s.sessions.byID) && Trim(GoSpace, sid) == sid != ""
    requires !Expired(s.sessions.byID[sid], now)
    ensures sid !in AfterAll(s, [Revoke(sid, false)], true).sessions.byID
    ensures var after := AfterAll(s, [Revoke(sid, false), Reload(now)], true).sessions.byID;
      sid in after && after[sid] == s.sessions.byID[sid]
  {
    hide Trim, NextSystem, FromFile, OneEach, AfterAll, Expired;
    FirstEvent(s, Revoke(sid, false), [], true);
    FirstEvent(s, Revoke(sid, false), [Reload(now)], true);
    assert [Revoke(sid, false)] + [] == [Revoke(sid, false)];
    assert [Revoke(sid, false)] + [Reload(now)] == [Revoke(sid, false), Reload(now)];
    var t := NextSystem(s, Revoke(sid, false), true);
    FirstEvent(t, Reload(now), [], true);
    assert [Reload(now)] + [] == [Reload(now)];
    UnwrittenRevoke(s, sid);
    ReloadedAgain(t, s.sessions.byID, sid, now);
  }

  lemma FirstEvent(s: System, e: Event, rest: seq<Event>, durable: bool)
    ensures AfterAll(s, [e] + rest, durable) == AfterAll(NextSystem(s, e, durable), rest, durable)
    ensures rest == [] ==> AfterAll(s, [e] + rest, durable) == NextSystem(s, e, durable)
  {
    hide NextSystem;
    assert ([e] + rest)[1..] == rest;
  }

  lemma UnwrittenRevoke(s: System, sid: string)
    requires sid in s.sessions.byID && Trim(GoSpace, sid) == sid != ""
    ensures var t := NextSystem(s, Revoke(sid, false), true); sid !in t.sessions.byID && t.sessions.file == s.sessions.file
  {
    hide Trim;
  }

  lemma ReloadedAgain(t: System, byID: Records, sid: string, now: int)
    requires sid in byID && t.sessions.file == OneEach(byID) && !Expired(byID[sid], now)
    ensures var after := NextSystem(t, Reload(now), true).sessions.byID; sid in after && after[sid] == byID[sid]
  {
    hide Expired;
    assert [byID[sid]][|[byID[sid]]| - 1] == byID[sid];
  }

  // ---- stale stamps ----

  /** The account acts of a run. */
  function Acts(run: seq<Event>): seq<Act> {
    if run == [] then []
    else if run[0].Account? then [run[0].act] + Acts(run[1..]) else Acts(run[1..])
  }

  lemma {:induction false} ActsAlone(s: System, run: seq<Event>, durable: bool)
    ensures AfterAll(s, run, durable).users == After(s.users, Acts(run), durable)
    ensures |Acts(run)| <= |run|
    decreases |run|
  {
    hide UserLaws.Next, NextSessions;
    if run != [] {
      ActsAlone(NextSystem(s, run[0], durable), run[1..], durable);
      if run[0].Account? {
        assert Acts(run)[1..] == Acts(run[1..]);
      }
    }
  }

  /**
   * A session whose stamp is out of reach of its account never passes in so many
   * events of both stores in which the account is not made anew.
   */
  lemma StaleSessionNeverPasses(s: System, run: seq<Event>, durable: bool, restarts: bool, sess: Session, now: int)
    requires OutOfReach(s.users, durable, restarts, KeyOf(sess.username), sess.version, |Acts(run)|)
    requires restarts || NoRestart(Acts(run))
    requires NeverRecreated(s.users, Acts(run), durable, KeyOf(sess.username))
    ensures var t := AfterAll(s, run, durable); !Passes(t.users.mem, t.sessions.byID, sess, now)
  {
    hide KeyOf, Trim, After, AfterAll, Acts, NeverRecreated, Pruned, OutOfReach;
    ActsAlone(s, run, durable);
    StaleStampNeverFits(s.users, Acts(run), durable, restarts, KeyOf(sess.username), sess.version);
  }

  // ---- the role a session has ----

  /** What a check of both stores answers. */
  function Answer(s: System, sess: Session, now: int): Option<Session> {
    if Passes(s.users.mem, s.sessions.byID, sess, now) then Live(s.users.mem, sess) else None
  }

  /** The account has this role in memory, and in the file as well if new starts matter. */
  predicate HasRole(users: Store, k: string, role: string, restarts: bool) {
    k in users.mem && users.mem[k].role == role && (restarts ==> k in users.file && users.file[k].role == role)
  }

  /** The act is no deletion and no change of role of this account, and no new start unless those matter. */
  predicate LeavesRole(a: Act, k: string, restarts: bool) {
    match a
    case Restart => restarts
    case Ask(r, _) => !((r.SetRole? || r.Delete?) && KeyOf(r.username) == k)
  }

  lemma ProposedLeavesRole(m: Accounts, r: Request, k: string)
    requires k in m && Proposed(m, r).Success? && !((r.SetRole? || r.Delete?) && KeyOf(r.username) == k)
    ensures k in Proposed(m, r).value && Proposed(m, r).value[k].role == m[k].role
  {
    hide KeyOf, Trim, LowerAscii, ValidName, ValidRole, Admins, NextVersion;
  }

  lemma ActLeavesRole(users: Store, a: Act, durable: bool, k: string, role: string, restarts: bool)
    requires HasRole(users, k, role, restarts) && LeavesRole(a, k, restarts)
    ensures HasRole(UserLaws.Next(users, a, durable), k, role, restarts)
  {
    hide Proposed, KeyOf;
    if a.Ask? && Proposed(users.mem, a.r).Success? {
      ProposedLeavesRole(users.mem, a.r, k);
    }
  }

  lemma {:induction false} RunLeavesRole(users: Store, run: seq<Act>, durable: bool, k: string, role: string, restarts: bool)
    requires HasRole(users, k, role, restarts) && forall i :: 0 <= i < |run| ==> LeavesRole(run[i], k, restarts)
    ensures HasRole(After(users, run, durable), k, role, restarts)
    decreases |run|
  {
    hide HasRole, LeavesRole, UserLaws.Next;
    if run != [] {
      ActLeavesRole(users, run[0], durable, k, role, restarts);
      RunLeavesRole(UserLaws.Next(users, run[0], durable), run[1..], durable, k, role, restarts);
    }
  }

  /** An accepted change of role is there at once, and in the file when it was written. */
  lemma RoleIsSet(users: Store, username: string, role: string, durable: bool, written: bool)
    requires Proposed(users.mem, SetRole(username, role)).Success?
    ensures HasRole(Step(users, SetRole(username, role), durable, written), KeyOf(username), role, durable && written)
  {
    hide KeyOf, ValidRole, Admins;
  }

  /**
   * After an accepted change of role, every check that passes answers the new role, in any
   * run of both stores that does not delete the account or change its role again, new
   * starts included when the change was written: also for sessions issued before.
   */
  lemma NewRoleHolds(s: System, username: string, role: string, durable: bool, written: bool, run: seq<Event>, sess: Session, now: int)
    requires Proposed(s.users.mem, SetRole(username, role)).Success?
    requires KeyOf(sess.username) == KeyOf(username)
    requires forall i :: 0 <= i < |Acts(run)| ==> LeavesRole(Acts(run)[i], KeyOf(username), durable && written)
    ensures var t := AfterAll(NextSystem(s, Account(Ask(SetRole(username, role), written)), durable), run, durable);
      Answer(t, sess, now).Some? ==> Answer(t, sess, now).value == sess.(role := role)
  {
    hide KeyOf, Trim, After, AfterAll, Acts, Pruned, HasRole, LeavesRole, Proposed, Live, Listed, Step;
    var t := NextSystem(s, Account(Ask(SetRole(username, role), written)), durable);
    RoleIsSet(s.users, username, role, durable, written);
    ActsAlone(t, run, durable);
    RunLeavesRole(t.users, Acts(run), durable, KeyOf(username), role, durable && written);
    LastRole(AfterAll(t, run, durable), username, role, durable && written, sess, now);
  }

  lemma LastRole(t: System, username: string, role: string, restarts: bool, sess: Session, now: int)
    requires HasRole(t.users, KeyOf(username), role, restarts) && KeyOf(sess.username) == KeyOf(username)
    ensures Answer(t, sess, now).Some? ==> Answer(t, sess, now).value == sess.(role := role)
  {
    hide KeyOf, Listed, Live;
    LiveExactly(t.users.mem, sess);
  }
}
