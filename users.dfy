/** The account administration endpoints, all of them for Admins only:
    listing, creating, blocking and unblocking, and deleting users. */
module Users {
  import opened Seqs
  import opened Schema
  import opened Data
  import opened Api

  const EmailAlreadyRegistered := "Email already registered"
  const UsernameAlreadyTaken := "Username already taken"
  const InvalidRole := "Invalid role"

  predicate EmailTaken(users: seq<User>, email: string) {
    exists u :: u in users && u.email == email
  }

  predicate UsernameTaken(users: seq<User>, username: string) {
    exists u :: u in users && u.username == username
  }

  function RoleName(role: Role): string {
    match role
    case Author => "Author"
    case Reviewer => "Reviewer"
    case Admin => "Admin"
  }

  /** The roles an account may be created with: "Author" and "Reviewer"
      only, so no Admin is created this way. */
  function CreatableRole(name: string): (r: Option<Role>)
    ensures r.Some? <==> name == "Author" || name == "Reviewer"
    ensures r.Some? ==> RoleName(r.value) == name && r.value != Admin
  {
    if name == "Author" then Some(Author)
    else if name == "Reviewer" then Some(Reviewer)
    else None
  }

  // ---------------------------------------------------------------------
  // GET api/users

  /** A user row without its PasswordHash. */
  datatype UserSummary = UserSummary(id: int, username: string, email: string, role: Role, isBlocked: bool)

  predicate SummaryOf(u: User, s: UserSummary) {
    s.id == u.id && s.username == u.username && s.email == u.email && s.role == u.role
    && s.isBlocked == u.isBlocked
  }

  function GetUsers(db: Db, caller: Caller): (r: Result<seq<UserSummary>>)
    ensures r.Err? <==> caller.role != Admin
    ensures r.Err? ==> r.error == Forbidden
    ensures r.Ok? ==>
      |r.value| == |db.users| && forall i :: 0 <= i < |db.users| ==> SummaryOf(db.users[i], r.value[i])
  {
    if caller.role != Admin then Err(Forbidden)
    else Ok(seq(|db.users|, i requires 0 <= i < |db.users| =>
      var u := db.users[i];
      UserSummary(u.id, u.username, u.email, u.role, u.isBlocked)))
  }

  /** The listing never depends on a password hash: two databases whose
      users differ only in their hashes list the same. */
  lemma GetUsersHidesPasswordHashes(db: Db, db': Db, caller: Caller)
    requires |db.users| == |db'.users|
    requires forall i :: 0 <= i < |db.users| ==>
      db.users[i].(passwordHash := "") == db'.users[i].(passwordHash := "")
    ensures GetUsers(db, caller) == GetUsers(db', caller)
  {
    if caller.role == Admin {
      var r, r' := GetUsers(db, caller).value, GetUsers(db', caller).value;
      forall i | 0 <= i < |r| ensures r[i] == r'[i] {
        var u, u' := db.users[i], db'.users[i];
        assert u.(passwordHash := "").id == u'.(passwordHash := "").id;
        assert u.(passwordHash := "").username == u'.(passwordHash := "").username;
        assert u.(passwordHash := "").email == u'.(passwordHash := "").email;
        assert u.(passwordHash := "").role == u'.(passwordHash := "").role;
        assert u.(passwordHash := "").isBlocked == u'.(passwordHash := "").isBlocked;
      }
      assert r == r';
    }
  }

  // ---------------------------------------------------------------------
  // POST api/users

  /** An Admin creates an account. The email is checked first, then the
      username, then the role. `hash` stands for the one-way password
      hashing. */
  method CreateUser(ctx: Context, caller: Caller, username: string, email: string, password: string,
                    role: string, hash: string -> string)
    returns (r: Result<int>)
    requires ctx.Valid()
    modifies ctx
    ensures ctx.Valid()
    ensures r == Err(Forbidden) <==> caller.role != Admin
    ensures r == Err(BadRequest(EmailAlreadyRegistered)) <==>
      caller.role == Admin && EmailTaken(old(ctx.users), email)
    ensures r == Err(BadRequest(UsernameAlreadyTaken)) <==>
      caller.role == Admin && !EmailTaken(old(ctx.users), email) && UsernameTaken(old(ctx.users), username)
    ensures r == Err(BadRequest(InvalidRole)) <==>
      && caller.role == Admin && !EmailTaken(old(ctx.users), email)
      && !UsernameTaken(old(ctx.users), username) && CreatableRole(role).None?
    ensures r.Ok? <==>
      && caller.role == Admin && !EmailTaken(old(ctx.users), email)
      && !UsernameTaken(old(ctx.users), username) && CreatableRole(role).Some?
      && |username| <= MaxUsernameLength && |email| <= MaxEmailLength
    ensures r == Err(ConstraintViolation) <==>
      && caller.role == Admin && !EmailTaken(old(ctx.users), email)
      && !UsernameTaken(old(ctx.users), username) && CreatableRole(role).Some?
      && !(|username| <= MaxUsernameLength && |email| <= MaxEmailLength)
    ensures r.Ok? ==>
      && r.value == old(ctx.nextUserId)
      && ctx.users == old(ctx.users) +
           [User(r.value, username, email, hash(password), CreatableRole(role).value, false)]
      && ctx.articles == old(ctx.articles) && ctx.reviews == old(ctx.reviews)
    ensures r.Err? ==> ctx.State() == old(ctx.State())
    ensures ctx.nextUserId ==
      if r.Ok? || r == Err(ConstraintViolation) then old(ctx.nextUserId) + 1 else old(ctx.nextUserId)
    ensures ctx.nextArticleId == old(ctx.nextArticleId) && ctx.nextReviewId == old(ctx.nextReviewId)
  {
    if caller.role != Admin {
      return Err(Forbidden);
    }
    if exists u :: u in ctx.users && u.email == email {
      return Err(BadRequest(EmailAlreadyRegistered));
    }
    if exists u :: u in ctx.users && u.username == username {
      return Err(BadRequest(UsernameAlreadyTaken));
    }
    var parsed := CreatableRole(role);
    if parsed.None? {
      return Err(BadRequest(InvalidRole));
    }
    var id := ctx.nextUserId;
    ctx.nextUserId := id + 1;
    var user := User(id, username, email, hash(password), parsed.value, false);
    InsertUserValid(ctx.State(), user);
    var saved := ctx.SaveChanges(ctx.State().(users := ctx.users + [user]));
    r := if saved then Ok(id) else Err(ConstraintViolation);
  }

  // ---------------------------------------------------------------------
  // PUT api/users/{id}/block

  /** An Admin flips user `id`'s IsBlocked flag; the result is the new flag. */
  method ToggleBlockUser(ctx: Context, caller: Caller, id: int) returns (r: Result<bool>)
    requires ctx.Valid()
    modifies ctx
    ensures ctx.Valid()
    ensures r == Err(Forbidden) <==> caller.role != Admin
    ensures r == Err(NotFound(NoMessage)) <==> caller.role == Admin && !HasUser(old(ctx.users), id)
    ensures r.Ok? <==> caller.role == Admin && HasUser(old(ctx.users), id)
    ensures r.Ok? ==>
      && r.value == !FindUser(old(ctx.users), id).value.isBlocked
      && ctx.users == ToggleBlocked(old(ctx.users), id)
      && ctx.articles == old(ctx.articles) && ctx.reviews == old(ctx.reviews)
    ensures r.Err? ==> ctx.State() == old(ctx.State())
    ensures ctx.nextUserId == old(ctx.nextUserId) && ctx.nextArticleId == old(ctx.nextArticleId)
    ensures ctx.nextReviewId == old(ctx.nextReviewId)
  {
    if caller.role != Admin {
      return Err(Forbidden);
    }
    var found := FindUser(ctx.users, id);
    if found.None? {
      return Err(NotFound(NoMessage));
    }
    ToggleBlockedKeepsInv(ctx.State(), id);
    var toggled := ToggleBlocked(ctx.users, id);
    assert forall i :: 0 <= i < |toggled| ==> toggled[i].id == ctx.users[i].id;
    var saved := ctx.SaveChanges(ctx.State().(users := toggled));
    assert saved;
    r := Ok(!found.value.isBlocked);
  }

  // ---------------------------------------------------------------------
  // DELETE api/users/{id}

  /** An Admin deletes user `id`; the user's articles, their reviews and the
      user's own reviews go with it. */
  method DeleteUser(ctx: Context, caller: Caller, id: int) returns (r: Result<()>)
    requires ctx.Valid()
    modifies ctx
    ensures ctx.Valid()
    ensures r == Err(Forbidden) <==> caller.role != Admin
    ensures r == Err(NotFound(NoMessage)) <==> caller.role == Admin && !HasUser(old(ctx.users), id)
    ensures r.Ok? <==> caller.role == Admin && HasUser(old(ctx.users), id)
    ensures ctx.State() == if r.Ok? then CascadeDeleteUser(old(ctx.State()), id) else old(ctx.State())
    ensures ctx.nextUserId == old(ctx.nextUserId) && ctx.nextArticleId == old(ctx.nextArticleId)
    ensures ctx.nextReviewId == old(ctx.nextReviewId)
  {
    if caller.role != Admin {
      return Err(Forbidden);
    }
    if FindUser(ctx.users, id).None? {
      return Err(NotFound(NoMessage));
    }
    var proposed := CascadeDeleteUser(ctx.State(), id);
    CascadeDeleteUserKeepsInv(ctx.State(), id);
    var saved := ctx.SaveChanges(proposed);
    assert saved;
    r := Ok(());
  }

  /** After deleting a user nothing refers to them: no row has their id,
      no article names them as author and no review as reviewer. */
  lemma DeletedUserLeavesNoTrace(db: Db, id: int)
    requires Inv(db)
    ensures var r := CascadeDeleteUser(db, id);
      && FindUser(r.users, id).None?
      && (forall a :: a in r.articles ==> a.authorId != id)
      && (forall v :: v in r.reviews ==> v.reviewerId != id && HasArticle(r.articles, v.articleId))
  {
    CascadeDeleteUserKeepsInv(db, id);
  }
}
