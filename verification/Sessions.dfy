/** The registry of cookie sessions, and the check of a session against both stores. */
module Sessions {
  import opened Common
  import opened Text
  import opened Lists
  import opened Keyed
  import opened Users

  /** Times are nanoseconds; the zero time means none. */
  const ZERO_TIME: int := 0
  const TOUCH_MIN: int := 60_000_000_000
  const NEVER_EXPIRES: int := -1

  datatype Record = Record(id: string, username: string, role: string, created: int, expires: int, lastSeen: int)

  function RecordId(rec: Record): string {
    rec.id
  }

  predicate Expired(rec: Record, now: int) {
    rec.expires != ZERO_TIME && rec.expires < now
  }

  type Records = map<string, Record>

  function Pruned(byID: Records, now: int): Records {
    map id | id in byID && !Expired(byID[id], now) :: byID[id]
  }

  function ExpiredAt(now: int): Record -> bool {
    (rec: Record) => Expired(rec, now)
  }

  function BelongsTo(key: string): Record -> bool {
    (rec: Record) => LowerAscii(rec.username) == key
  }

  /** The ids of the records p holds of. */
  function Matching(byID: Records, p: Record -> bool): set<string> {
    set id | id in byID && p(byID[id])
  }

  /** The records of a file under their ids, in order; a file edited by hand may hold one id several times. */
  type File = f: map<string, seq<Record>> | forall id :: id in f ==> f[id] != []

  /** The file the registry writes: each session once. */
  function OneEach(byID: Records): File {
    map id | id in byID :: [byID[id]]
  }

  /** The record that stays when all records of an id are read in order. */
  function LastUnexpired(copies: seq<Record>, now: int): Option<Record> {
    if copies == [] then None
    else if !Expired(copies[|copies| - 1], now) then Some(copies[|copies| - 1])
    else LastUnexpired(copies[..|copies| - 1], now)
  }

  /** The sessions a start from the file has. */
  function FromFile(file: File, now: int): Records {
    map id | id in file && LastUnexpired(file[id], now).Some? :: LastUnexpired(file[id], now).value
  }

  /** Registered sessions, when each was last touched, and the records of the file. */
  datatype Registry = Registry(byID: Records, lastTouch: map<string, int>, file: File)

  function Forget(g: Registry, ids: set<string>): Registry {
    g.(byID := g.byID - ids, lastTouch := g.lastTouch - ids)
  }

  function Prune(g: Registry, now: int): Registry {
    Forget(g, Matching(g.byID, ExpiredAt(now)))
  }

  /** What the file holds after an attempt to write it. */
  function Saved(g: Registry, durable: bool, written: bool): Registry {
    if durable && written then g.(file := OneEach(g.byID)) else g
  }

  function Registered(g: Registry, rec: Record, now: int, durable: bool, written: bool): Registry {
    if Trim(GoSpace, rec.id) == "" then g
    else
      var r := rec.(created := if rec.created == ZERO_TIME then now else rec.created,
                    lastSeen := if rec.lastSeen == ZERO_TIME then now else rec.lastSeen);
      var h := Prune(g, now);
      Saved(h.(byID := h.byID[r.id := r]), durable, written)
  }

  function Touched(g: Registry, sid: string, now: int, durable: bool, written: bool): Registry {
    var id := Trim(GoSpace, sid);
    if id == "" || id !in g.byID || (id in g.lastTouch && now - g.lastTouch[id] < TOUCH_MIN) then g
    else
      Saved(g.(byID := g.byID[id := g.byID[id].(lastSeen := now)], lastTouch := g.lastTouch[id := now]), durable, written)
  }

  function Revoked(g: Registry, sid: string, durable: bool, written: bool): Registry {
    var id := Trim(GoSpace, sid);
    if id == "" || id !in g.byID then g else Saved(Forget(g, {id}), durable, written)
  }

  /** The sessions of a user, names compared without regard to case. */
  function SessionsOf(byID: Records, username: string): set<string> {
    Matching(byID, BelongsTo(KeyOf(username)))
  }

  function UserRevoked(g: Registry, username: string, durable: bool, written: bool): Registry {
    var ids := SessionsOf(g.byID, username);
    if Trim(GoSpace, username) == "" || ids == {} then g else Saved(Forget(g, ids), durable, written)
  }

  lemma RegisterKeepsIdentified(m: Records, r: Record)
    requires Identified(m) && Trim(GoSpace, r.id) != ""
    ensures Identified(m[r.id := r])
  {
    hide Trim;
  }

  lemma ForgetKeepsIdentified(m: Records, ids: set<string>)
    requires Identified(m)
    ensures Identified(m - ids)
  {
    hide Trim;
  }

  // ---- reading the file ----

  /** A record without id, or expired, is passed over. */
  function Loaded(items: seq<Record>, now: int): Records {
    if items == [] then map[]
    else
      var rest, rec := Loaded(items[..|items| - 1], now), items[|items| - 1];
      if Trim(GoSpace, rec.id) == "" || Expired(rec, now) then rest else rest[rec.id := rec]
  }

  function AddCopy(file: File, rec: Record): File {
    file[rec.id := (if rec.id in file then file[rec.id] else []) + [rec]]
  }

  /** A list of records as a file, records without id left out. */
  function Copies(items: seq<Record>): File {
    if items == [] then map[]
    else
      var rest, rec := Copies(items[..|items| - 1]), items[|items| - 1];
      if Trim(GoSpace, rec.id) == "" then rest else AddCopy(rest, rec)
  }

  lemma LastOfMore(copies: seq<Record>, rec: Record, now: int)
    ensures LastUnexpired(copies + [rec], now) == if Expired(rec, now) then LastUnexpired(copies, now) else Some(rec)
  {
    assert (copies + [rec])[..|copies|] == copies;
  }

  lemma FromMore(file: File, rec: Record, now: int)
    ensures FromFile(AddCopy(file, rec), now) ==
      if Expired(rec, now) then FromFile(file, now) else FromFile(file, now)[rec.id := rec]
  {
    hide Expired;
    var copies := if rec.id in file then file[rec.id] else [];
    LastOfMore(copies, rec, now);
    hide LastUnexpired;
    assert LastUnexpired([], now) == None by { NoneOfNone(now); }
  }

  lemma NoneOfNone(now: int)
    ensures LastUnexpired([], now) == None
  {
  }

  /** Reading a file in order finds the last unexpired record of each id. */
  lemma {:induction false} LoadedFromFile(items: seq<Record>, now: int)
    ensures Loaded(items, now) == FromFile(Copies(items), now)
  {
    hide Trim, Expired, FromFile, AddCopy;
    if items == [] {
      NothingInFile(now);
    } else {
      LoadedFromFile(items[..|items| - 1], now);
      FromMore(Copies(items[..|items| - 1]), items[|items| - 1], now);
    }
  }

  lemma NothingInFile(now: int)
    ensures FromFile(map[], now) == map[] && OneEach(map[]) == map[]
  {
  }

  lemma OneMoreEach(m: Records, rec: Record)
    requires rec.id !in m
    ensures AddCopy(OneEach(m), rec) == OneEach(m[rec.id := rec])
  {
    assert [] + [rec] == [rec];
  }

  lemma {:induction false} WrittenCopies(items: seq<Record>)
    requires AsWritten(items)
    ensures Copies(items) == OneEach(IndexBy(RecordId, items))
  {
    hide Trim, OneEach, AddCopy;
    if items == [] {
      NothingInFile(0);
    } else {
      var init, last := items[..|items| - 1], items[|items| - 1];
      assert forall i :: 0 <= i < |init| ==> init[i] == items[i];
      WrittenCopies(init);
      FreshKey(RecordId, init, last.id);
      OneMoreEach(IndexBy(RecordId, init), last);
    }
  }

  ghost predicate Identified(m: Records) {
    KeyedBy(RecordId, m) && forall id :: id in m ==> Trim(GoSpace, id) != ""
  }

  /** The registry writes each id once, and no blank one. */
  ghost predicate AsWritten(items: seq<Record>) {
    DistinctKeys(RecordId, items) && forall i :: 0 <= i < |items| ==> Trim(GoSpace, items[i].id) != ""
  }

  lemma {:induction false} LoadedIsIdentified(items: seq<Record>, now: int)
    ensures Identified(Loaded(items, now))
  {
    hide Trim, Expired;
    if items != [] {
      LoadedIsIdentified(items[..|items| - 1], now);
    }
  }

  /** A written file loads to the sessions it was written from, less the expired ones. */
  lemma {:induction false} WrittenFileLoads(items: seq<Record>, now: int)
    requires AsWritten(items)
    ensures Loaded(items, now) == Pruned(IndexBy(RecordId, items), now)
  {
    hide Trim, Expired;
    if items != [] {
      var init, last := items[..|items| - 1], items[|items| - 1];
      assert forall i :: 0 <= i < |init| ==> init[i] == items[i];
      WrittenFileLoads(init, now);
      FreshKey(RecordId, init, last.id);
    }
  }

  method LoadRecords(items: seq<Record>, now: int) returns (m: Records)
    ensures m == Loaded(items, now)
  {
    hide Trim;
    m := map[];
    var i := 0;
    assert items[..0] == [];
    while i < |items|
      invariant i <= |items| && m == Loaded(items[..i], now)
    {
      assert items[..i + 1][..i] == items[..i];
      var rec := items[i];
      if Trim(GoSpace, rec.id) != "" {
        if !(rec.expires != ZERO_TIME && rec.expires < now) {
          m := m[rec.id := rec];
        }
      }
      i := i + 1;
    }
    assert items[..i] == items;
  }

  function Newer(): (Record, Record) -> bool {
    (a: Record, b: Record) => a.created > b.created
  }

  /** What has been removed when todo is still to be looked at. */
  function Removed(byID: Records, p: Record -> bool, todo: set<string>): set<string> {
    Matching(byID, p) - todo
  }

  lemma RemovedNext(byID: Records, p: Record -> bool, todo: set<string>, id: string)
    requires id in byID && id in todo
    ensures Removed(byID, p, todo - {id}) == if p(byID[id]) then Removed(byID, p, todo) + {id} else Removed(byID, p, todo)
    ensures id !in Removed(byID, p, todo)
  {
  }

  lemma RemoveOneMore<T>(m: map<string, T>, gone: set<string>, id: string)
    ensures m - gone - {id} == m - (gone + {id})
  {
  }

  lemma RemovedBounds(byID: Records, p: Record -> bool)
    ensures Removed(byID, p, byID.Keys) == {} && Removed(byID, p, {}) == Matching(byID, p)
  {
  }

  /** Goes through the records and removes those p holds of, counting them. */
  method RemoveWhere(byID: Records, lastTouch: map<string, int>, p: Record -> bool)
    returns (kept: Records, touched: map<string, int>, n: nat)
    ensures kept == byID - Matching(byID, p) && touched == lastTouch - Matching(byID, p) && n == |Matching(byID, p)|
  {
    hide Removed, Matching;
    kept, touched, n := byID, lastTouch, 0;
    RemovedBounds(byID, p);
    var todo := byID.Keys;
    assert byID - {} == byID && lastTouch - {} == lastTouch;
    while todo != {}
      invariant todo <= byID.Keys && n == |Removed(byID, p, todo)|
      invariant kept == byID - Removed(byID, p, todo) && touched == lastTouch - Removed(byID, p, todo)
    {
      var id :| id in todo;
      RemovedNext(byID, p, todo, id);
      if p(byID[id]) {
        RemoveOneMore(byID, Removed(byID, p, todo), id);
        RemoveOneMore(lastTouch, Removed(byID, p, todo), id);
        kept := kept - {id};
        touched := touched - {id};
        n := n + 1;
      }
      todo := todo - {id};
    }
  }

  /** The records of the registry, in any order, are what it may write. */
  lemma SortedIsWritten(byID: Records, items: seq<Record>, sorted: seq<Record>)
    requires Identified(byID) && DistinctKeys(RecordId, items) && IndexBy(RecordId, items) == byID
    requires multiset(sorted) == multiset(items)
    ensures AsWritten(sorted) && Copies(sorted) == OneEach(byID)
  {
    hide Trim, Copies, OneEach;
    IndexIgnoresOrder(RecordId, items, sorted);
    IndexFacts(RecordId, sorted);
    WrittenCopies(sorted);
  }

  class SessionRegistry {
    var byID: Records
    var lastTouch: map<string, int>
    const path: string
    var file: seq<Record>

    ghost predicate Valid()
      reads this
    {
      Identified(byID)
    }

    ghost function State(): Registry
      reads this
    {
      Registry(byID, lastTouch, Copies(file))
    }

    /** Loads sessions.json; a missing file is an empty one, and a registry without path starts empty. */
    constructor (path: string, items: seq<Record>, now: int)
      ensures Valid() && this.path == Trim(GoSpace, path) && file == items
      ensures State() == Registry(if this.path == "" then map[] else FromFile(Copies(items), now), map[], Copies(items))
      ensures this.path != "" && AsWritten(items) ==> byID == Pruned(IndexBy(RecordId, items), now)
    {
      hide Trim, Loaded, AsWritten, IndexBy, Copies, FromFile;
      this.path := Trim(GoSpace, path);
      byID, lastTouch, file := map[], map[], items;
      new;
      if this.path == "" {
        return;
      }
      byID := LoadRecords(items, now);
      LoadedIsIdentified(items, now);
      LoadedFromFile(items, now);
      if AsWritten(items) {
        WrittenFileLoads(items, now);
      }
    }

    method Persist(written: bool) returns (ok: bool)
      requires Valid()
      modifies this`file
      ensures Valid() && State() == Saved(old(State()), path != "", written) && ok == (path == "" || written)
      ensures path != "" && written ==> AsWritten(file)
    {
      hide Trim;
      if path == "" {
        return true;
      }
      var items := ValuesOf(RecordId, byID);
      var sorted := SortSlice(items, Newer());
      SortedIsWritten(byID, items, sorted);
      hide IndexBy, AsWritten, DistinctKeys, Copies, OneEach, Identified;
      if !written {
        return false;
      }
      file := sorted;
      ok := true;
    }

    method PruneExpired(now: int)
      requires Valid()
      modifies this`byID, this`lastTouch
      ensures Valid() && State() == Prune(old(State()), now)
    {
      var n;
      byID, lastTouch, n := RemoveWhere(byID, lastTouch, ExpiredAt(now));
      ForgetKeepsIdentified(old(byID), Matching(old(byID), ExpiredAt(now)));
      hide Matching, Identified;
    }

    method Register(rec: Record, now: int, written: bool) returns (ok: bool)
      requires Valid()
      modifies this
      ensures Valid() && State() == Registered(old(State()), rec, now, path != "", written)
      ensures ok == (Trim(GoSpace, rec.id) == "" || path == "" || written)
    {
      hide Trim, Prune, IndexBy, DistinctKeys, Saved, Identified;
      if Trim(GoSpace, rec.id) == "" {
        return true;
      }
      var r := rec;
      if r.created == ZERO_TIME {
        r := r.(created := now);
      }
      if r.lastSeen == ZERO_TIME {
        r := r.(lastSeen := now);
      }
      PruneExpired(now);
      RegisterKeepsIdentified(byID, r);
      byID := byID[r.id := r];
      ok := Persist(written);
    }

    method Has(sid: string, now: int) returns (found: bool)
      requires Valid()
      modifies this
      ensures Valid() && State() == if Trim(GoSpace, sid) == "" then old(State()) else Prune(old(State()), now)
      ensures found <==> Trim(GoSpace, sid) != "" && Trim(GoSpace, sid) in Pruned(old(byID), now)
      ensures found <==> Trim(GoSpace, sid) != "" && Unexpired(old(byID), Trim(GoSpace, sid), now)
    {
      hide Trim;
      var id := Trim(GoSpace, sid);
      if id == "" {
        return false;
      }
      PruneExpired(now);
      found := id in byID;
    }

    method Touch(sid: string, now: int, written: bool)
      requires Valid()
      modifies this
      ensures Valid() && State() == Touched(old(State()), sid, now, path != "", written)
    {
      hide Trim;
      var id := Trim(GoSpace, sid);
      if id == "" || id !in byID {
        return;
      }
      if id in lastTouch && now - lastTouch[id] < TOUCH_MIN {
        return;
      }
      byID := byID[id := byID[id].(lastSeen := now)];
      lastTouch := lastTouch[id := now];
      var ok := Persist(written);
    }

    method Revoke(sid: string, written: bool) returns (existed: bool, ok: bool)
      requires Valid()
      modifies this
      ensures Valid() && State() == Revoked(old(State()), sid, path != "", written)
      ensures existed <==> Trim(GoSpace, sid) != "" && Trim(GoSpace, sid) in old(byID)
      ensures ok <==> !existed || path == "" || written
    {
      hide Trim;
      var id := Trim(GoSpace, sid);
      if id == "" || id !in byID {
        return false, true;
      }
      byID := byID - {id};
      lastTouch := lastTouch - {id};
      ok := Persist(written);
      existed := true;
    }

    method RevokeUser(username: string, written: bool) returns (n: nat, ok: bool)
      requires Valid()
      modifies this
      ensures Valid() && State() == UserRevoked(old(State()), username, path != "", written)
      ensures n == if Trim(GoSpace, username) == "" then 0 else |SessionsOf(old(byID), username)|
      ensures ok <==> n == 0 || path == "" || written
    {
      hide Trim, LowerAscii, Saved, IndexBy, DistinctKeys, Identified;
      n, ok := 0, true;
      if Trim(GoSpace, username) == "" {
        return;
      }
      byID, lastTouch, n := RemoveWhere(byID, lastTouch, BelongsTo(KeyOf(username)));
      ForgetKeepsIdentified(old(byID), SessionsOf(old(byID), username));
      if n == 0 {
        assert SessionsOf(old(byID), username) == {};
        assert byID == old(byID) && lastTouch == old(lastTouch);
        return;
      }
      ok := Persist(written);
    }
  }

  // ---- the live check ----

  datatype Session = Session(username: string, role: string, expires: int, version: U64, sid: string)

  predicate HasPersistentSession(role: string) {
    role == DASHBOARD
  }

  /** The session with the account's current role, if its stamp is the account's version. */
  function Live(m: Accounts, sess: Session): Option<Session> {
    var k := KeyOf(sess.username);
    if k !in m || m[k].version != sess.version then None
    else if sess.expires == NEVER_EXPIRES && !HasPersistentSession(m[k].role) then None
    else Some(sess.(role := m[k].role))
  }

  /**
   * The session still fits: its account is there with the version of the session's stamp,
   * and a session that never expires belongs to a dashboard.
   */
  predicate Fitting(m: Accounts, sess: Session) {
    KeyOf(sess.username) in m && m[KeyOf(sess.username)].version == sess.version &&
    (sess.expires == NEVER_EXPIRES ==> m[KeyOf(sess.username)].role == "dashboard")
  }

  /** A session that fits comes back with the role its account has now, and as it was otherwise. */
  lemma LiveExactly(m: Accounts, sess: Session)
    ensures Live(m, sess).Some? <==> Fitting(m, sess)
    ensures Fitting(m, sess) ==> Live(m, sess) == Some(sess.(role := m[KeyOf(sess.username)].role))
  {
    hide KeyOf;
  }

  /** Without a user store the session is taken as it is; with one it is taken when it fits, with its account's role. */
  method LiveSession(users: UserStore?, sess: Session) returns (live: Option<Session>)
    ensures users == null ==> live == Some(sess)
    ensures users != null ==> (live.Some? <==> Fitting(users.byLower, sess))
    ensures users != null && live.Some? ==> live.value == sess.(role := users.byLower[KeyOf(sess.username)].role)
  {
    if users == null {
      return Some(sess);
    }
    hide KeyOf;
    var k := KeyOf(sess.username);
    if k !in users.byLower {
      return None;
    }
    var role, version := users.byLower[k].role, users.byLower[k].version;
    if sess.version != version {
      return None;
    }
    var s := sess.(role := role, version := version);
    if s.expires == NEVER_EXPIRES && !HasPersistentSession(s.role) {
      return None;
    }
    live := Some(s);
  }

  /** The registry lists the session's id, trimmed, and it has not expired. */
  predicate Listed(byID: Records, sess: Session, now: int) {
    Trim(GoSpace, sess.sid) != "" && Trim(GoSpace, sess.sid) in Pruned(byID, now)
  }

  /** The check of both stores passes this session. */
  predicate Passes(m: Accounts, byID: Records, sess: Session, now: int) {
    Live(m, sess).Some? && Listed(byID, sess, now)
  }

  /** Looking for a session's id in the registry: expired sessions go, and one that is found is touched. */
  function LookedFor(g: Registry, sess: Session, now: int, durable: bool, written: bool): Registry {
    if Trim(GoSpace, sess.sid) == "" then g
    else if Listed(g.byID, sess, now) then Touched(Prune(g, now), sess.sid, now, durable, written)
    else Prune(g, now)
  }

  /** What a check does to the registry; sessions that are not live are not looked for. */
  function Checked(m: Accounts, g: Registry, sess: Session, now: int, durable: bool, written: bool): Registry {
    if Live(m, sess).None? then g else LookedFor(g, sess, now, durable, written)
  }

  /** The trimmed id is registered, and its session has no expiry or has not reached it. */
  predicate Unexpired(byID: Records, sid: string, now: int) {
    sid in byID && (byID[sid].expires == ZERO_TIME || now <= byID[sid].expires)
  }

  lemma ListedExactly(byID: Records, sess: Session, now: int)
    ensures Listed(byID, sess, now) <==> Trim(GoSpace, sess.sid) != "" && Unexpired(byID, Trim(GoSpace, sess.sid), now)
  {
    hide Trim;
  }

  /**
   * A session passes exactly when it fits its account and its id is registered and not
   * expired, either test left out when its store is missing; it has its account's role.
   */
  method LiveSessionChecked(users: UserStore?, registry: SessionRegistry?, sess: Session, now: int, written: bool)
    returns (live: Option<Session>)
    requires registry != null ==> registry.Valid()
    modifies registry
    ensures registry != null ==> registry.Valid()
    ensures live.Some? <==>
      (users != null ==> Fitting(users.byLower, sess)) &&
      (registry != null ==> Trim(GoSpace, sess.sid) != "" && Unexpired(old(registry.byID), Trim(GoSpace, sess.sid), now))
    ensures live.Some? ==> live.value == if users == null then sess else sess.(role := users.byLower[KeyOf(sess.username)].role)
    ensures users != null && registry != null ==>
      registry.State() == Checked(users.byLower, old(registry.State()), sess, now, registry.path != "", written)
    ensures users == null && registry != null ==>
      registry.State() == LookedFor(old(registry.State()), sess, now, registry.path != "", written)
  {
    hide Trim, Live, Touched, Prune, Pruned, Fitting, Unexpired, KeyOf;
    if users != null {
      LiveExactly(users.byLower, sess);
    }
    live := LiveSession(users, sess);
    if registry != null {
      ListedExactly(registry.byID, sess, now);
    }
    if live.None? || registry == null {
      return;
    }
    if Trim(GoSpace, sess.sid) == "" {
      return None;
    }
    var found := registry.Has(sess.sid, now);
    if !found {
      return None;
    }
    registry.Touch(sess.sid, now, written);
  }

  // ---- what registering, touching and pruning mean for single records ----

  /** Sessions that are removed leave no touch time behind, so that a session registered later is touched at once. */
  lemma RemovedLeaveNoTouch(g: Registry, sid: string, username: string, now: int, durable: bool, written: bool, id: string)
    ensures id in g.byID && id !in Prune(g, now).byID ==> id !in Prune(g, now).lastTouch
    ensures id in g.byID && id !in Revoked(g, sid, durable, written).byID ==> id !in Revoked(g, sid, durable, written).lastTouch
    ensures id in g.byID && id !in UserRevoked(g, username, durable, written).byID ==>
      id !in UserRevoked(g, username, durable, written).lastTouch
  {
    hide Trim, Expired, LowerAscii, KeyOf, OneEach;
  }

  /** Pruning keeps exactly the sessions without expiry and those that have not reached it, as they were. */
  lemma PruneExactly(g: Registry, now: int, id: string)
    ensures id in Prune(g, now).byID <==> Unexpired(g.byID, id, now)
    ensures id in Prune(g, now).byID ==> Prune(g, now).byID[id] == g.byID[id]
  {
  }

  /**
   * After registering, the id has the given record, times that were missing filled in with
   * now; every other id is there exactly when its session was and has not expired.
   */
  lemma RegisterExactly(g: Registry, rec: Record, now: int, durable: bool, written: bool, id: string)
    requires Trim(GoSpace, rec.id) != ""
    ensures var h := Registered(g, rec, now, durable, written).byID;
      if id == rec.id then
        id in h && h[id].id == id && h[id].username == rec.username && h[id].role == rec.role && h[id].expires == rec.expires &&
        (h[id].created == if rec.created == ZERO_TIME then now else rec.created) &&
        (h[id].lastSeen == if rec.lastSeen == ZERO_TIME then now else rec.lastSeen)
      else (id in h <==> Unexpired(g.byID, id, now)) && (id in h ==> h[id] == g.byID[id])
  {
    hide Trim;
    PruneExactly(g, now, id);
  }

  /**
   * Touching notes the time of a registered session, unless it did so less than a minute
   * before; nothing else changes, and a second touch within the minute changes nothing at all.
   */
  lemma TouchExactly(g: Registry, sid: string, now: int, durable: bool, written: bool)
    ensures var id, h := Trim(GoSpace, sid), Touched(g, sid, now, durable, written);
      h.byID.Keys == g.byID.Keys &&
      (forall other :: other in g.byID && other != id ==> h.byID[other] == g.byID[other]) &&
      (id in g.byID && id != "" ==>
        h.byID[id] == g.byID[id].(lastSeen :=
          if id in g.lastTouch && now - g.lastTouch[id] < 60_000_000_000 then g.byID[id].lastSeen else now))
    ensures var h := Touched(g, sid, now, durable, written);
      forall later, again :: now <= later < now + 60_000_000_000 && Trim(GoSpace, sid) in h.lastTouch && h.lastTouch[Trim(GoSpace, sid)] == now ==>
        Touched(h, sid, later, durable, again) == h
  {
    hide Trim, OneEach;
  }
}
