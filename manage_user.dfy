/** The user-management handlers of ManageUserController: deleting one user
    or several with every folder, file and activity log they own, the
    partial update of a user, and email verification. */
module ManageUser {
  import opened Common
  import opened Schema

  // ---------------------------------------------------------------------
  // Specification functions

  /** The folders not created by any of the users `doomed`. */
  function FoldersNotBy(fs: map<FolderId, Folder>, doomed: set<UserId>): (r: map<FolderId, Folder>)
    ensures ParentsPrecede(fs) ==> ParentsPrecede(r)
  {
    map k | k in fs && fs[k].creator !in doomed :: fs[k]
  }

  /** The files not uploaded by any of the users `doomed`. */
  function FilesNotBy(files: map<FileId, FileRow>, doomed: set<UserId>): map<FileId, FileRow> {
    map f | f in files && files[f].uploader !in doomed :: files[f]
  }

  /** The activity logs not written for any of the users `doomed`. */
  function LogsNotBy(logs: map<LogId, ActivityLog>, doomed: set<UserId>): map<LogId, ActivityLog> {
    map l | l in logs && logs[l].user !in doomed :: logs[l]
  }

  /** The tables without the users `doomed` and without every folder they
      created, every file they uploaded and every log row of theirs. */
  function RemoveOwned(t: Tables, doomed: set<UserId>): (r: Tables)
    ensures ParentsPrecede(t.folders) ==> ParentsPrecede(r.folders)
  {
    t.(users := t.users - doomed,
       folders := FoldersNotBy(t.folders, doomed),
       files := FilesNotBy(t.files, doomed),
       logs := LogsNotBy(t.logs, doomed))
  }

  /** The array_filter step of bulkDelete: the requested ids, in order,
      without the acting user's. */
  function ExcludeActing(ids: seq<UserId>, actor: UserId): (r: seq<UserId>)
    ensures forall u :: u in r <==> u in ids && u != actor
    ensures |r| <= |ids|
    decreases |ids|
  {
    if ids == [] then []
    else
      assert ids == [ids[0]] + ids[1..];
      (if ids[0] == actor then [] else [ids[0]]) + ExcludeActing(ids[1..], actor)
  }

  /** The users bulkDelete removes for the requested ids. */
  function Targets(ids: seq<UserId>, actor: UserId): set<UserId> {
    set u | u in ExcludeActing(ids, actor)
  }

  /** The request fields of update: `name`, `email` and `roleId` are present
      or absent (has); `password` is the raw value, used only when filled. */
  datatype UserUpdate = UserUpdate(
    name: Option<string>,
    email: Option<string>,
    roleId: Option<RoleId>,
    password: Option<string>)

  /** Laravel's filled: present and not blank. */
  predicate Filled(v: Option<string>) {
    v.Some? && !IsBlank(v.value)
  }

  /** The user row after update; `hash` is what bcrypt makes of the password. */
  function ApplyUpdate(u: User, req: UserUpdate, hash: string): User {
    User(
      if req.name.Some? then req.name.value else u.name,
      if req.email.Some? then req.email.value else u.email,
      if Filled(req.password) then hash else u.password,
      if req.roleId.Some? then req.roleId.value else u.roleId,
      u.verifiedAt)
  }

  /** markEmailAsVerified when hasVerifiedEmail is false, nothing otherwise. */
  function MarkVerified(u: User, now: Timestamp): User {
    if u.verifiedAt.None? then u.(verifiedAt := Some(now)) else u
  }

  // ---------------------------------------------------------------------
  // Properties

  /** The doomed users and everything they own are gone; every other user
      and every row owned by someone else is kept as it was, and the roles,
      menus and deleted blobs are untouched. */
  lemma RemoveOwnedEffect(t: Tables, doomed: set<UserId>)
    ensures var r := RemoveOwned(t, doomed);
      (forall u | u in t.users :: u in r.users <==> u !in doomed) &&
      (forall u | u in r.users :: r.users[u] == t.users[u]) &&
      (forall k | k in t.folders :: k in r.folders <==> t.folders[k].creator !in doomed) &&
      (forall k | k in r.folders :: r.folders[k] == t.folders[k]) &&
      (forall f | f in t.files :: f in r.files <==> t.files[f].uploader !in doomed) &&
      (forall f | f in r.files :: r.files[f] == t.files[f]) &&
      (forall l | l in t.logs :: l in r.logs <==> t.logs[l].user !in doomed) &&
      (forall l | l in r.logs :: r.logs[l] == t.logs[l]) &&
      r.roles == t.roles && r.menus == t.menus && r.removedPaths == t.removedPaths
  {
  }

  /** Removing users one after another is removing them all at once: the
      loop of bulkDelete agrees with a single removal of the whole set. */
  lemma RemoveOwnedCompose(t: Tables, a: set<UserId>, b: set<UserId>)
    ensures RemoveOwned(RemoveOwned(t, a), b) == RemoveOwned(t, a + b)
  {
    assert FoldersNotBy(FoldersNotBy(t.folders, a), b) == FoldersNotBy(t.folders, a + b);
    assert FilesNotBy(FilesNotBy(t.files, a), b) == FilesNotBy(t.files, a + b);
    assert LogsNotBy(LogsNotBy(t.logs, a), b) == LogsNotBy(t.logs, a + b);
  }

  lemma RemoveNobody(t: Tables)
    ensures RemoveOwned(t, {}) == t
  {
    assert FoldersNotBy(t.folders, {}) == t.folders;
    assert FilesNotBy(t.files, {}) == t.files;
    assert LogsNotBy(t.logs, {}) == t.logs;
  }

  /** Removing the same users twice removes nothing more. */
  lemma RemoveOwnedIdempotent(t: Tables, a: set<UserId>)
    ensures RemoveOwned(RemoveOwned(t, a), a) == RemoveOwned(t, a)
  {
    RemoveOwnedCompose(t, a, a);
    assert a + a == a;
  }

  /** Whatever ids bulkDelete receives, the acting user is not among those it
      deletes, so the acting user's row survives. */
  lemma ActingUserSurvives(t: Tables, ids: seq<UserId>, actor: UserId)
    requires actor in t.users
    ensures var doomed := Targets(ids, actor);
      actor !in doomed &&
      actor in RemoveOwned(t, doomed).users &&
      RemoveOwned(t, doomed).users[actor] == t.users[actor]
  {
  }

  /** Update changes only the fields the request carries (the password only
      when filled), never the verification time, and repeating it with the
      same request changes nothing more. */
  lemma ApplyUpdateFields(u: User, req: UserUpdate, hash: string)
    ensures var r := ApplyUpdate(u, req, hash);
      (r.name != u.name ==> req.name == Some(r.name)) &&
      (r.email != u.email ==> req.email == Some(r.email)) &&
      (r.roleId != u.roleId ==> req.roleId == Some(r.roleId)) &&
      (r.password != u.password ==> Filled(req.password) && r.password == hash) &&
      (req.name.Some? ==> r.name == req.name.value) &&
      (req.email.Some? ==> r.email == req.email.value) &&
      (req.roleId.Some? ==> r.roleId == req.roleId.value) &&
      (Filled(req.password) ==> r.password == hash) &&
      r.verifiedAt == u.verifiedAt &&
      ApplyUpdate(r, req, hash) == r
  {
  }

  /** Verification sets the time only when none is set; a second verification
      leaves the first one's result in place. */
  lemma MarkVerifiedOnce(u: User, first: Timestamp, second: Timestamp)
    ensures MarkVerified(u, first).verifiedAt.Some?
    ensures u.verifiedAt.Some? ==> MarkVerified(u, first) == u
    ensures u.verifiedAt.None? ==> MarkVerified(u, first) == u.(verifiedAt := Some(first))
    ensures MarkVerified(MarkVerified(u, first), second) == MarkVerified(u, first)
  {
  }

  // ---------------------------------------------------------------------
  // Handlers

  /** destroy: the user must exist and must not be the acting user; then,
      in one transaction, their folders, files, logs and the user row go. */
  method Destroy(db: Db, actor: UserId, target: UserId) returns (r: Outcome)
    requires db.Valid()
    modifies db`users, db`folders, db`files, db`logs
    ensures db.Valid()
    ensures r == Failed(NotFound) <==> target !in old(db.users)
    ensures r == Failed(SelfDelete) <==> target in old(db.users) && target == actor
    ensures r == Done <==> target in old(db.users) && target != actor
    ensures r.Failed? ==> db.State() == old(db.State())
    ensures r == Done ==> db.State() == RemoveOwned(old(db.State()), {target})
  {
    if target !in db.users {
      return Failed(NotFound);
    }
    if target == actor {
      return Failed(SelfDelete);
    }
    RemoveUser(db, target);
    r := Done;
  }

  /** The body of the deletion transaction for one user. */
  method RemoveUser(db: Db, u: UserId)
    requires db.Valid()
    modifies db`users, db`folders, db`files, db`logs
    ensures db.Valid()
    ensures db.State() == RemoveOwned(old(db.State()), {u})
  {
    db.folders := FoldersNotBy(db.folders, {u});
    db.files := FilesNotBy(db.files, {u});
    db.logs := LogsNotBy(db.logs, {u});
    db.users := db.users - {u};
  }

  /** bulkDelete: the ids must be a non-empty list of existing users; the
      acting user's id is dropped; an empty remainder is an error; otherwise
      every remaining user is removed, in one transaction, with what they own. */
  method BulkDelete(db: Db, actor: UserId, ids: seq<UserId>) returns (r: Outcome)
    requires db.Valid()
    modifies db`users, db`folders, db`files, db`logs
    ensures db.Valid()
    ensures r == Failed(Invalid) <==> ids == [] || exists u | u in ids :: u !in old(db.users)
    ensures r == Failed(NoneSelected)
        <==> ids != [] && (forall u | u in ids :: u in old(db.users)) && ExcludeActing(ids, actor) == []
    ensures r == Done
        <==> ids != [] && (forall u | u in ids :: u in old(db.users)) && ExcludeActing(ids, actor) != []
    ensures r.Failed? ==> db.State() == old(db.State())
    ensures r == Done ==> db.State() == RemoveOwned(old(db.State()), Targets(ids, actor))
  {
    if ids == [] || exists u | u in ids :: u !in db.users {
      return Failed(Invalid);
    }
    var userIds := ExcludeActing(ids, actor);
    if userIds == [] {
      return Failed(NoneSelected);
    }
    var users := set u | u in db.users && u in userIds;
    assert users == Targets(ids, actor);
    RemoveUsers(db, users);
    r := Done;
  }

  /** The transaction of bulkDelete: each of the users, with what they own. */
  method RemoveUsers(db: Db, users: set<UserId>)
    requires db.Valid()
    modifies db`users, db`folders, db`files, db`logs
    ensures db.Valid()
    ensures db.State() == RemoveOwned(old(db.State()), users)
  {
    ghost var t0 := db.State();
    var pending := users;
    ghost var done: set<UserId> := {};
    RemoveNobody(t0);
    while pending != {}
      invariant pending + done == users && pending !! done
      invariant db.Valid()
      invariant db.State() == RemoveOwned(t0, done)
      decreases pending
    {
      var u :| u in pending;
      RemoveUser(db, u);
      RemoveOwnedCompose(t0, done, {u});
      assert pending - {u} + (done + {u}) == users;
      pending, done := pending - {u}, done + {u};
    }
    assert done == users;
  }

  /** update: the user must exist and the request must pass the rules
      (`rulesPass`); then the present fields are assigned and saved. */
  method Update(db: Db, target: UserId, req: UserUpdate, rulesPass: bool, hash: string) returns (r: Outcome)
    modifies db`users
    ensures r == Failed(NotFound) <==> target !in old(db.users)
    ensures r == Failed(Invalid) <==> target in old(db.users) && !rulesPass
    ensures r == Done <==> target in old(db.users) && rulesPass
    ensures r.Failed? ==> db.users == old(db.users)
    ensures r == Done ==> db.users == old(db.users)[target := ApplyUpdate(old(db.users)[target], req, hash)]
  {
    if target !in db.users {
      return Failed(NotFound);
    }
    if !rulesPass {
      return Failed(Invalid);
    }
    var user := db.users[target];
    if req.name.Some? {
      user := user.(name := req.name.value);
    }
    if req.email.Some? {
      user := user.(email := req.email.value);
    }
    if req.roleId.Some? {
      user := user.(roleId := req.roleId.value);
    }
    if Filled(req.password) {
      user := user.(password := hash);
    }
    db.users := db.users[target := user];
    r := Done;
  }

  /** verify: the user must exist; the timestamp is set only if unset. */
  method Verify(db: Db, target: UserId, now: Timestamp) returns (r: Outcome)
    modifies db`users
    ensures r == Failed(NotFound) <==> target !in old(db.users)
    ensures r == Done <==> target in old(db.users)
    ensures r.Failed? ==> db.users == old(db.users)
    ensures r == Done ==> db.users == old(db.users)[target := MarkVerified(old(db.users)[target], now)]
  {
    if target !in db.users {
      return Failed(NotFound);
    }
    if db.users[target].verifiedAt.None? {
      db.users := db.users[target := db.users[target].(verifiedAt := Some(now))];
    }
    r := Done;
  }
}
