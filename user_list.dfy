/** admin/users.php: the user list of the admin area. A POST may delete one
    user, row first and photo file second; the list itself is filtered by an
    optional search term matched with `LIKE '%term%'` against five columns,
    and paginated. */
module UserList {
  import opened PhpBuiltins
  import opened SqlLike
  import opened Config
  import opened Store
  import opened AdminLists

  const USER_DELETED: string := "User deleted successfully!"
  const DELETE_FAILED: string := "Failed to delete user."
  const USER_NOT_FOUND: string := "User not found."

  /** A POST carrying both `delete_user` and `user_id`; the id is already
      `(int)`-cast. */
  datatype DeleteRequest = DeleteRequest(csrfToken: Option<string>, userId: int)

  /** The uploads directory after the deleted row's photo is unlinked:
      only when the column is non-empty and the file exists. */
  function FilesAfterDelete(files: set<string>, photo: Option<string>): (r: set<string>)
    ensures r <= files
    ensures forall f :: f in files && f !in r ==> TruthyOpt(photo) && f == photo.value
    ensures TruthyOpt(photo) ==> photo.value !in r
  {
    if TruthyOpt(photo) && photo.value in files then files - {photo.value} else files
  }

  /** The delete handler, with the sign-in guard in front. Without an
      administrator, without a request, on a CSRF failure, for an unknown id
      or when the DELETE fails, neither the table nor the uploads directory
      changes. Otherwise exactly that row is removed and then its photo. */
  method HandleDelete(session: Session, db: Database, uploads: UploadDir,
                      request: Option<DeleteRequest>, deleteOk: bool)
    returns (outcome: PageOutcome)
    requires db.Valid()
    modifies db`users, uploads`files
    ensures db.Valid()
    ensures session.adminId.None? ==>
      outcome == RedirectToLogin && db.users == old(db.users) && uploads.files == old(uploads.files)
    ensures session.adminId.Some? && request.None? ==>
      outcome == Shown(NoFlash) && db.users == old(db.users) && uploads.files == old(uploads.files)
    ensures session.adminId.Some? && request.Some? && !RequestTokenValid(session.csrfToken, request.value.csrfToken) ==>
      outcome == Shown(Failure(CSRF_FAILED)) && db.users == old(db.users) && uploads.files == old(uploads.files)
    ensures session.adminId.Some? && request.Some? && RequestTokenValid(session.csrfToken, request.value.csrfToken) ==>
      var id := request.value.userId;
      && (id !in old(db.users) ==>
            outcome == Shown(Failure(USER_NOT_FOUND)) && db.users == old(db.users) && uploads.files == old(uploads.files))
      && (id in old(db.users) && !deleteOk ==>
            outcome == Shown(Failure(DELETE_FAILED)) && db.users == old(db.users) && uploads.files == old(uploads.files))
      && (id in old(db.users) && deleteOk ==>
            && outcome == Shown(Success(USER_DELETED))
            && db.users == old(db.users) - {id}
            && uploads.files == FilesAfterDelete(old(uploads.files), old(db.users)[id].photo))
  {
    if session.adminId.None? {
      return RedirectToLogin;
    }
    if request.None? {
      return Shown(NoFlash);
    }
    if !RequestTokenValid(session.csrfToken, request.value.csrfToken) {
      return Shown(Failure(CSRF_FAILED));
    }
    var id := request.value.userId;
    if id !in db.users {
      return Shown(Failure(USER_NOT_FOUND));
    }
    var photo := db.users[id].photo;
    if !deleteOk {
      return Shown(Failure(DELETE_FAILED));
    }
    db.DeleteUserRow(id);
    if TruthyOpt(photo) && photo.value in uploads.files {
      uploads.files := uploads.files - {photo.value};
    }
    outcome := Shown(Success(USER_DELETED));
  }

  /** Deleting a user keeps every remaining row's photo on disk, because no
      other row names the same file, and keeps the photos distinct. */
  lemma DeleteKeepsPhotos(users: map<int, User>, files: set<string>, id: int)
    requires PhotosPresent(users, files) && PhotosDistinct(users) && id in users
    ensures PhotosPresent(users - {id}, FilesAfterDelete(files, users[id].photo))
    ensures PhotosDistinct(users - {id})
  {
    var rest, after := users - {id}, FilesAfterDelete(files, users[id].photo);
    forall k | k in rest ensures PhotoPresent(rest[k], after) {
      assert PhotoPresent(users[k], files);
      if TruthyOpt(rest[k].photo) {
        assert k != id;
        assert rest[k].photo != users[id].photo;
      }
    }
  }

  // ---------------------------------------------------------------------
  // Search and count
  // ---------------------------------------------------------------------

  /** `$_GET['search']` after `sanitize_input`, or "" when absent. */
  function SearchTerm(param: Option<string>): string {
    if param.Some? then SanitizeInput(param.value) else ""
  }

  /** `first_name LIKE ? OR last_name LIKE ? OR email LIKE ? OR job_type LIKE ? OR id_number LIKE ?`
      with `%term%` bound to every placeholder. */
  predicate UserMatches(u: User, term: string) {
    var p := ContainsPattern(term);
    Like(u.firstName, p) || Like(u.lastName, p) || Like(u.email, p) || Like(u.jobType, p) || Like(u.idNumber, p)
  }

  /** The WHERE clause is added only when the term is truthy (`if ($search)`). */
  predicate Listed(u: User, term: string) {
    Truthy(term) ==> UserMatches(u, term)
  }

  /** The rows `SELECT COUNT(*) FROM users $search_sql` counts. */
  function MatchingIds(users: map<int, User>, term: string): set<int> {
    set id | id in users && Listed(users[id], term)
  }

  /** `$total_users`. */
  function TotalUsers(users: map<int, User>, term: string): (n: nat)
    ensures n <= |users|
  {
    SubsetSize(MatchingIds(users, term), users.Keys);
    |MatchingIds(users, term)|
  }

  lemma SubsetSize(a: set<int>, b: set<int>)
    requires a <= b
    ensures |a| <= |b|
  {
    assert b == a + (b - a);
    assert a * (b - a) == {};
  }

  /** Without a truthy term every row is counted; note that "0" is not
      truthy, so searching for "0" lists everything. */
  lemma NoSearchCountsAll(users: map<int, User>, term: string)
    requires !Truthy(term)
    ensures MatchingIds(users, term) == users.Keys
    ensures TotalUsers(users, term) == |users|
  {
    forall id ensures id in MatchingIds(users, term) <==> id in users { }
  }

  /** With a truthy term free of `%` and `_`, a row is listed exactly when at
      least one of its five searched columns contains the term, ignoring case. */
  lemma SearchMeansContains(users: map<int, User>, term: string, id: int)
    requires Truthy(term) && NoWildcards(term)
    ensures id in MatchingIds(users, term) <==>
      id in users &&
        var u := users[id];
        ContainsFold(u.firstName, term) || ContainsFold(u.lastName, term) || ContainsFold(u.email, term)
        || ContainsFold(u.jobType, term) || ContainsFold(u.idNumber, term)
  {
    if id in users {
      var u := users[id];
      LikeContains(u.firstName, term);
      LikeContains(u.lastName, term);
      LikeContains(u.email, term);
      LikeContains(u.jobType, term);
      LikeContains(u.idNumber, term);
    }
  }
}
