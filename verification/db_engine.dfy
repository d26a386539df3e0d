/**
 * The upload registry: users and uploads as records, the two-valued upload
 * status, the file names the registry hands out, and the JSON record shape
 * for an upload. The database itself is an immutable value: a registry of
 * rows and the two id counters, changed only by committing.
 */
module DbEngine {
  import opened Wrappers
  import opened PyStr
  import opened PyPath
  import opened Service

  /** `UploadStatus`: an upload is pending or done, and nothing else. */
  datatype UploadStatus = Pending | Done

  /** The string stored for a status. */
  function StatusName(s: UploadStatus): (n: string)
    ensures n == "pending" || n == "done"
  {
    match s
    case Pending => "pending"
    case Done => "done"
  }

  /** The status a stored string names, if it names one. */
  function ParseStatus(n: string): (s: Option<UploadStatus>)
    ensures s.Some? <==> n == "pending" || n == "done"
  {
    if n == "pending" then Some(Pending)
    else if n == "done" then Some(Done)
    else None
  }

  /** Status names and statuses are in one-to-one correspondence. */
  lemma StatusNameRoundTrip(s: UploadStatus, n: string)
    ensures ParseStatus(StatusName(s)) == Some(s)
    ensures ParseStatus(n).Some? ==> StatusName(ParseStatus(n).value) == n
  {
  }

  /** A row of table `user`. */
  datatype User = User(id: nat, email: string)

  /** A row of table `Upload`. Times are kept as the strings the pipeline
      writes into them. */
  datatype Upload = Upload(
    id: nat,
    uid: string,
    filename: string,
    uploadTime: string,
    finishTime: Option<string>,
    status: UploadStatus,
    userId: Option<nat>)

  /** A new upload row: no finish time yet, and the column default, pending. */
  function NewUpload(id: nat, uid: string, filename: string, uploadTime: string, userId: Option<nat>): (u: Upload)
    ensures u.status == Pending && u.finishTime.None?
    ensures u.id == id && u.uid == uid && u.filename == filename && u.userId == userId
  {
    Upload(id, uid, filename, uploadTime, None, Pending, userId)
  }

  /** The database: both tables in insertion order and the next primary key
      of each. */
  datatype Registry = Registry(users: seq<User>, uploads: seq<Upload>, nextUserId: nat, nextUploadId: nat)

  function UserIds(reg: Registry): set<nat> {
    set u | u in reg.users :: u.id
  }

  function Emails(reg: Registry): set<string> {
    set u | u in reg.users :: u.email
  }

  function Uids(reg: Registry): set<string> {
    set u | u in reg.uploads :: u.uid
  }

  /** The table constraints: unique user ids and emails, unique upload ids and
      uids, primary keys below the counters, and every owned upload's owner
      present. */
  ghost predicate Valid(reg: Registry) {
    && (forall i, j :: 0 <= i < j < |reg.users| ==>
          reg.users[i].id != reg.users[j].id && reg.users[i].email != reg.users[j].email)
    && (forall i, j :: 0 <= i < j < |reg.uploads| ==>
          reg.uploads[i].id != reg.uploads[j].id && reg.uploads[i].uid != reg.uploads[j].uid)
    && (forall i :: 0 <= i < |reg.users| ==> reg.users[i].id < reg.nextUserId)
    && (forall i :: 0 <= i < |reg.uploads| ==> reg.uploads[i].id < reg.nextUploadId)
    && (forall i :: 0 <= i < |reg.uploads| && reg.uploads[i].userId.Some? ==>
          reg.uploads[i].userId.value in UserIds(reg))
  }

  /** The empty database. */
  function EmptyRegistry(): (reg: Registry)
    ensures Valid(reg) && Uids(reg) == {} && Emails(reg) == {}
  {
    Registry([], [], 1, 1)
  }

  /** `session.query(User).filter_by(email=email).first()`. */
  function FindUserByEmail(users: seq<User>, email: string): (r: Option<User>)
    ensures r.Some? <==> exists u :: u in users && u.email == email
    ensures r.Some? ==> r.value in users && r.value.email == email
    ensures r.Some? ==>
      exists i :: 0 <= i < |users| && users[i] == r.value && forall j :: 0 <= j < i ==> users[j].email != email
  {
    if |users| == 0 then None
    else if users[0].email == email then Some(users[0])
    else FindUserByEmail(users[1..], email)
  }

  /** Adding an upload row and committing. The unique constraint on `uid`
      turns a repeated token into an integrity error, and the failed commit
      leaves the database as it was. */
  function InsertUpload(reg: Registry, uid: string, filename: string, uploadTime: string,
                        userId: Option<nat>): (r: Outcome<Registry>)
    ensures r.Raised? <==> uid in Uids(reg)
    ensures r.Raised? ==> r.error == IntegrityError
    ensures r.Returned? ==>
      && r.value.users == reg.users
      && r.value.nextUserId == reg.nextUserId
      && r.value.uploads == reg.uploads + [NewUpload(reg.nextUploadId, uid, filename, uploadTime, userId)]
      && r.value.nextUploadId == reg.nextUploadId + 1
  {
    if uid in Uids(reg) then Raised(IntegrityError)
    else
      var u := NewUpload(reg.nextUploadId, uid, filename, uploadTime, userId);
      Returned(reg.(uploads := reg.uploads + [u], nextUploadId := reg.nextUploadId + 1))
  }

  /** A committed insertion keeps the constraints when the owner exists. */
  lemma InsertUploadValid(reg: Registry, uid: string, filename: string, uploadTime: string, userId: Option<nat>)
    ensures var r := InsertUpload(reg, uid, filename, uploadTime, userId);
      r.Returned? && Valid(reg) && (userId.Some? ==> userId.value in UserIds(reg)) ==> Valid(r.value)
  {
    var out := InsertUpload(reg, uid, filename, uploadTime, userId);
    if out.Returned? && Valid(reg) && (userId.Some? ==> userId.value in UserIds(reg)) {
      var r := out.value;
      var n := |reg.uploads|;
      assert r.uploads[n].uid == uid;
      forall i | 0 <= i < n ensures r.uploads[i].uid != uid {
        assert reg.uploads[i] in reg.uploads;
      }
      assert UserIds(r) == UserIds(reg);
    }
  }

  /** The folder the upload services save files to. */
  const UploadsFolder := "uploads"

  /** The name the intake gives the saved file: the uid followed by the
      original name's `splitext` extension. */
  function SavedName(uid: string, filename: string): string {
    uid + Splitext(filename).1
  }

  /** What a save returns: the database afterwards, the uid or the error, and
      the path the file was written to, if it got that far. */
  datatype Saved = Saved(registry: Registry, outcome: Outcome<string>, savedAs: Option<string>)

  /** `save_upload`: an anonymous upload row, committed, and the file saved
      under its uid. The fresh `uid` stands for `generate_uid()`. */
  function SaveUpload(reg: Registry, filename: string, uploadTime: string, uid: string): (r: Saved)
    ensures r.outcome.Returned? <==> uid !in Uids(reg)
    ensures r.outcome.Returned? ==>
      && r.outcome.value == uid
      && r.savedAs == Some(JoinPath(UploadsFolder, SavedName(uid, filename)))
      && r.registry.users == reg.users
      && r.registry.uploads == reg.uploads + [NewUpload(reg.nextUploadId, uid, filename, uploadTime, None)]
    ensures r.outcome.Raised? ==> r.registry == reg && r.savedAs.None?
    ensures Valid(reg) ==> Valid(r.registry)
  {
    match InsertUpload(reg, uid, filename, uploadTime, None)
    case Raised(e) => Saved(reg, Raised(e), None)
    case Returned(reg') =>
      InsertUploadValid(reg, uid, filename, uploadTime, None);
      Saved(reg', Returned(uid), Some(JoinPath(UploadsFolder, SavedName(uid, filename))))
  }

  /** The user with `email` after find-or-create: an existing one is reused,
      otherwise one is created with the next id and committed at once. */
  function FindOrCreateUser(reg: Registry, email: string): (r: (Registry, User))
    ensures r.1 in r.0.users && r.1.email == email
    ensures r.0.uploads == reg.uploads && r.0.nextUploadId == reg.nextUploadId
    ensures Emails(r.0) == Emails(reg) + {email}
    ensures email in Emails(reg) ==> r.0 == reg
    ensures email !in Emails(reg) ==> r.0.users == reg.users + [User(reg.nextUserId, email)]
    ensures Valid(reg) ==> Valid(r.0)
  {
    match FindUserByEmail(reg.users, email)
    case Some(u) =>
      assert email in Emails(reg);
      (reg, u)
    case None =>
      var u := User(reg.nextUserId, email);
      var reg' := reg.(users := reg.users + [u], nextUserId := reg.nextUserId + 1);
      NewUserValid(reg, email);
      (reg', u)
  }

  /** Creating a user for an unused email keeps the constraints. */
  lemma NewUserValid(reg: Registry, email: string)
    requires email !in Emails(reg)
    ensures var reg' := reg.(users := reg.users + [User(reg.nextUserId, email)], nextUserId := reg.nextUserId + 1);
      && Emails(reg') == Emails(reg) + {email}
      && (Valid(reg) ==> Valid(reg'))
  {
    var u := User(reg.nextUserId, email);
    var reg' := reg.(users := reg.users + [u], nextUserId := reg.nextUserId + 1);
    assert reg'.users[|reg.users|] == u;
    assert forall i :: 0 <= i < |reg.users| ==> reg'.users[i] == reg.users[i];
    assert UserIds(reg) <= UserIds(reg');
    if Valid(reg) {
      forall i | 0 <= i < |reg.users| ensures reg.users[i].email != email && reg.users[i].id != u.id {
        assert reg.users[i] in reg.users;
      }
    }
  }

  /** `save_upload_with_email`: find or create the user, then add an upload
      row owned by that user and save the file under its uid. A new user is
      committed before the upload, so it stays even when the upload fails. */
  function SaveUploadWithEmail(reg: Registry, filename: string, uploadTime: string, email: string,
                               uid: string): (r: Saved)
    ensures Emails(r.registry) == Emails(reg) + {email}
    ensures |r.registry.users| == |reg.users| + (if email in Emails(reg) then 0 else 1)
    ensures r.outcome.Returned? <==> uid !in Uids(reg)
    ensures r.outcome.Returned? ==> r.outcome.value == uid
    ensures r.outcome.Returned? ==> r.savedAs == Some(JoinPath(UploadsFolder, SavedName(uid, filename)))
    ensures r.outcome.Returned? ==>
      r.registry.uploads == reg.uploads + [NewUpload(reg.nextUploadId, uid, filename, uploadTime,
                                                     Some(FindOrCreateUser(reg, email).1.id))]
    ensures r.outcome.Raised? ==> r.registry.uploads == reg.uploads && r.savedAs.None?
    ensures Valid(reg) ==> Valid(r.registry)
  {
    var (reg1, user) := FindOrCreateUser(reg, email);
    assert Uids(reg1) == Uids(reg);
    match InsertUpload(reg1, uid, filename, uploadTime, Some(user.id))
    case Raised(e) => Saved(reg1, Raised(e), None)
    case Returned(reg2) =>
      assert user.id in UserIds(reg1);
      InsertUploadValid(reg1, uid, filename, uploadTime, Some(user.id));
      Saved(reg2, Returned(uid), Some(JoinPath(UploadsFolder, SavedName(uid, filename))))
  }

  /** Two uploads with one email make one user, and both uploads name it. */
  lemma SameEmailOneUser(reg: Registry, f1: string, t1: string, f2: string, t2: string, email: string,
                         uid1: string, uid2: string)
    requires Valid(reg) && email !in Emails(reg)
    ensures var first := SaveUploadWithEmail(reg, f1, t1, email, uid1).registry;
      var second := SaveUploadWithEmail(first, f2, t2, email, uid2).registry;
      |second.users| == |reg.users| + 1 && Emails(second) == Emails(reg) + {email}
  {
  }

  /** The last `.`-separated piece of a name: the whole name when it has no dot. */
  function LastDotPiece(filename: string): (p: string)
    ensures '.' !in p
  {
    var parts := Split(filename, '.');
    parts[|parts| - 1]
  }

  /** `Upload.upload_path`: the base joined with uid, a dot and the last
      `.`-piece of the original name. */
  function UploadPath(u: Upload, basePath: string): string {
    JoinPath(basePath, u.uid + "." + LastDotPiece(u.filename))
  }

  /** Splitting at the last dot: the last piece is what follows that dot. */
  lemma LastDotPieceOfExtension(root: string, rest: string)
    requires '.' !in rest
    ensures LastDotPiece(root + "." + rest) == rest
  {
    SplitAround(root, '.', rest);
    SplitNoSep(rest, '.');
  }

  /** When the name has no `/` and a `splitext` extension, the file name in
      `upload_path` is the name intake saved the file under. */
  lemma UploadPathMatchesSavedName(u: Upload, basePath: string)
    requires '/' !in u.filename && '/' !in u.uid
    requires Splitext(u.filename).1 != ""
    ensures Basename(UploadPath(u, basePath)) == SavedName(u.uid, u.filename)
  {
    var (root, ext) := Splitext(u.filename);
    var rest := ext[1..];
    assert ext == "." + rest;
    assert u.filename == root + "." + rest;
    LastDotPieceOfExtension(root, rest);
    assert u.uid + "." + rest == u.uid + ext;
    BasenameOfJoin(basePath, u.uid + ext);
  }

  /** Without a dot the two names part: `upload_path` uses the whole name as
      the extension, while intake saves the file under the bare uid. */
  lemma UploadPathWithoutDot(u: Upload, basePath: string)
    requires '.' !in u.filename && '/' !in u.filename && '/' !in u.uid
    ensures Basename(UploadPath(u, basePath)) == u.uid + "." + u.filename
    ensures SavedName(u.uid, u.filename) == u.uid
  {
    SplitNoSep(u.filename, '.');
    BasenameOfJoin(basePath, u.uid + "." + u.filename);
    var ext := Splitext(u.filename).1;
    if ext != "" {
      assert false;
    }
  }

  /** A JSON value in the status record: a string or `null`. */
  datatype Json = JStr(s: string) | JNull

  /** `str(finish_time)`: the time's text, or `"None"` when there is none. */
  function FinishTimeText(finishTime: Option<string>): (t: string)
    ensures finishTime.None? ==> t == "None"
    ensures finishTime.Some? ==> t == finishTime.value
  {
    match finishTime
    case Some(t) => t
    case None => "None"
  }

  /** `save_to_json`: a record with exactly the five keys uid, status,
      filename, `finish time` and explanation, in that order. */
  function SaveToJson(uid: string, status: string, name: string, finishTime: Option<string>,
                      explanation: Json): (d: seq<(string, Json)>)
    ensures |d| == 5
    ensures d[0] == ("uid", JStr(uid)) && d[1] == ("status", JStr(status)) && d[2] == ("filename", JStr(name))
    ensures d[3].0 == "finish time" && d[3].1.JStr?
    ensures finishTime.None? ==> d[3].1 == JStr("None")
    ensures finishTime.Some? ==> d[3].1 == JStr(finishTime.value)
    ensures d[4] == ("explanation", explanation)
  {
    [("uid", JStr(uid)), ("status", JStr(status)), ("filename", JStr(name)),
     ("finish time", JStr(FinishTimeText(finishTime))), ("explanation", explanation)]
  }

  /** The uploads that do not belong to user `id`, in order. */
  function UploadsNotOwnedBy(uploads: seq<Upload>, id: nat): (r: seq<Upload>)
    ensures forall u :: u in r <==> u in uploads && u.userId != Some(id)
    ensures |r| <= |uploads|
  {
    if |uploads| == 0 then []
    else
      var rest := UploadsNotOwnedBy(uploads[1..], id);
      if uploads[0].userId == Some(id) then rest else [uploads[0]] + rest
  }

  /** Deleting user `id`: the `delete-orphan` cascade deletes the user's
      uploads with the user; every other row stays. */
  function DeleteUser(reg: Registry, id: nat): (r: Registry)
    ensures forall u :: u in r.users <==> u in reg.users && u.id != id
    ensures forall u :: u in r.uploads <==> u in reg.uploads && u.userId != Some(id)
    ensures r.nextUserId == reg.nextUserId && r.nextUploadId == reg.nextUploadId
  {
    reg.(users := UsersExcept(reg.users, id), uploads := UploadsNotOwnedBy(reg.uploads, id))
  }

  /** The users other than `id`, in order. */
  function UsersExcept(users: seq<User>, id: nat): (r: seq<User>)
    ensures forall u :: u in r <==> u in users && u.id != id
  {
    if |users| == 0 then []
    else
      var rest := UsersExcept(users[1..], id);
      if users[0].id == id then rest else [users[0]] + rest
  }

  /** After the cascade no upload refers to the deleted user, so the foreign
      key still holds for every remaining upload. */
  lemma DeleteUserKeepsOwners(reg: Registry, id: nat)
    requires forall i :: 0 <= i < |reg.uploads| && reg.uploads[i].userId.Some? ==>
               reg.uploads[i].userId.value in UserIds(reg)
    ensures var r := DeleteUser(reg, id);
      forall i :: 0 <= i < |r.uploads| && r.uploads[i].userId.Some? ==> r.uploads[i].userId.value in UserIds(r)
  {
    var r := DeleteUser(reg, id);
    forall i | 0 <= i < |r.uploads| && r.uploads[i].userId.Some?
      ensures r.uploads[i].userId.value in UserIds(r)
    {
      var up := r.uploads[i];
      assert up in r.uploads;
      var j :| 0 <= j < |reg.uploads| && reg.uploads[j] == up;
      var owner :| owner in reg.users && owner.id == up.userId.value;
      assert owner in r.users;
    }
  }
}
