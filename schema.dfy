/** The relational schema of the three tables: entity shapes, the
    constraints the database enforces (primary keys, the unique indexes on
    Email and Username, the maximum column lengths, the required foreign
    keys) and the cascading deletes along those foreign keys. */
module Schema {
  import opened Seqs

  const MaxTitleLength := 200
  const MaxEmailLength := 100
  const MaxUsernameLength := 50

  /** A UTC `timestamp with time zone`, as a count of ticks. */
  type Timestamp = int

  datatype Role = Author | Reviewer | Admin

  datatype User = User(
    id: int,
    username: string,
    email: string,
    passwordHash: string,
    role: Role,
    isBlocked: bool)

  datatype Article = Article(
    id: int,
    title: string,
    filePath: string,
    submissionDate: Timestamp,
    status: string,
    authorId: int)

  datatype Review = Review(
    id: int,
    content: string,
    status: string,
    reviewDate: Timestamp,
    reviewerId: int,
    articleId: int)

  /** The contents of the three tables at one moment. */
  datatype Db = Db(users: seq<User>, articles: seq<Article>, reviews: seq<Review>)

  // Keys of the primary keys and unique indexes.
  function UserKey(u: User): int { u.id }
  function UserName(u: User): string { u.username }
  function UserEmail(u: User): string { u.email }
  function ArticleKey(a: Article): int { a.id }
  function ReviewKey(v: Review): int { v.id }

  predicate HasUser(users: seq<User>, id: int) {
    exists u :: u in users && u.id == id
  }

  predicate HasArticle(articles: seq<Article>, id: int) {
    exists a :: a in articles && a.id == id
  }

  /** Primary key, unique Username and Email, and their maximum lengths. */
  predicate UsersOk(users: seq<User>) {
    && Distinct(users, UserKey)
    && Distinct(users, UserName)
    && Distinct(users, UserEmail)
    && forall u :: u in users ==> |u.username| <= MaxUsernameLength && |u.email| <= MaxEmailLength
  }

  /** Primary key, maximum Title length and the required AuthorId foreign key. */
  predicate ArticlesOk(users: seq<User>, articles: seq<Article>) {
    && Distinct(articles, ArticleKey)
    && forall a :: a in articles ==> |a.title| <= MaxTitleLength && HasUser(users, a.authorId)
  }

  /** Primary key and the required ArticleId and ReviewerId foreign keys. */
  predicate ReviewsOk(users: seq<User>, articles: seq<Article>, reviews: seq<Review>) {
    && Distinct(reviews, ReviewKey)
    && forall v :: v in reviews ==> HasArticle(articles, v.articleId) && HasUser(users, v.reviewerId)
  }

  /** Every constraint the database enforces on a write. */
  predicate Inv(db: Db) {
    && UsersOk(db.users)
    && ArticlesOk(db.users, db.articles)
    && ReviewsOk(db.users, db.articles, db.reviews)
  }

  /** The (article, reviewer) pair of a review. The schema indexes both
      columns but neither index is unique, so the database does not keep
      this pair unique; the review workflow does. */
  function ReviewPair(v: Review): (int, int) { (v.articleId, v.reviewerId) }

  function FindUser(users: seq<User>, id: int): (r: Option<User>)
    ensures r.Some? ==> r.value in users && r.value.id == id
    ensures r.None? <==> !HasUser(users, id)
  {
    Find(users, (u: User) => u.id == id)
  }

  function FindArticle(articles: seq<Article>, id: int): (r: Option<Article>)
    ensures r.Some? ==> r.value in articles && r.value.id == id
    ensures r.None? <==> !HasArticle(articles, id)
  {
    Find(articles, (a: Article) => a.id == id)
  }

  /** With a primary key, the row found by id is the one row with that id. */
  lemma FindUserUnique(users: seq<User>, u: User)
    requires Distinct(users, UserKey)
    requires u in users
    ensures FindUser(users, u.id) == Some(u)
  {
  }

  lemma FindArticleUnique(articles: seq<Article>, a: Article)
    requires Distinct(articles, ArticleKey)
    requires a in articles
    ensures FindArticle(articles, a.id) == Some(a)
  {
  }

  /** The username the row with this id carries. */
  function UsernameOf(users: seq<User>, id: int): (name: string)
    requires HasUser(users, id)
    ensures exists u :: u in users && u.id == id && u.username == name
  {
    FindUser(users, id).value.username
  }

  /** An article row written by user `authorId`. */
  predicate WrittenBy(articles: seq<Article>, articleId: int, authorId: int) {
    exists a :: a in articles && a.id == articleId && a.authorId == authorId
  }

  /** Deleting an article: the database's ON DELETE CASCADE on
      Review.ArticleId removes the article's reviews with it. */
  function CascadeDeleteArticle(db: Db, id: int): (r: Db)
    ensures r.users == db.users
    ensures forall a :: a in r.articles <==> a in db.articles && a.id != id
    ensures forall v :: v in r.reviews <==> v in db.reviews && v.articleId != id
    ensures IsSubsequence(r.articles, db.articles) && IsSubsequence(r.reviews, db.reviews)
  {
    Db(db.users,
       Filter(db.articles, (a: Article) => a.id != id),
       Filter(db.reviews, (v: Review) => v.articleId != id))
  }

  /** Deleting a user: ON DELETE CASCADE on Article.AuthorId removes the
      user's articles, which removes their reviews in turn; ON DELETE
      CASCADE on Review.ReviewerId removes the user's own reviews. */
  function CascadeDeleteUser(db: Db, id: int): (r: Db)
    ensures forall u :: u in r.users <==> u in db.users && u.id != id
    ensures forall a :: a in r.articles <==> a in db.articles && a.authorId != id
    ensures forall v :: v in r.reviews <==>
      v in db.reviews && v.reviewerId != id && !WrittenBy(db.articles, v.articleId, id)
    ensures IsSubsequence(r.users, db.users)
    ensures IsSubsequence(r.articles, db.articles) && IsSubsequence(r.reviews, db.reviews)
  {
    Db(Filter(db.users, (u: User) => u.id != id),
       Filter(db.articles, (a: Article) => a.authorId != id),
       Filter(db.reviews, (v: Review) => v.reviewerId != id && !WrittenBy(db.articles, v.articleId, id)))
  }

  lemma {:induction false} CascadeDeleteArticleKeepsInv(db: Db, id: int)
    requires Inv(db)
    ensures Inv(CascadeDeleteArticle(db, id))
    ensures Distinct(db.reviews, ReviewPair) ==> Distinct(CascadeDeleteArticle(db, id).reviews, ReviewPair)
  {
    var r := CascadeDeleteArticle(db, id);
    FilterDistinct(db.articles, (a: Article) => a.id != id, ArticleKey);
    FilterDistinct(db.reviews, (v: Review) => v.articleId != id, ReviewKey);
    if Distinct(db.reviews, ReviewPair) {
      FilterDistinct(db.reviews, (v: Review) => v.articleId != id, ReviewPair);
    }
    forall v | v in r.reviews ensures HasArticle(r.articles, v.articleId) {
      var a :| a in db.articles && a.id == v.articleId;
      assert a in r.articles;
    }
  }

  lemma {:induction false} CascadeDeleteUserKeepsInv(db: Db, id: int)
    requires Inv(db)
    ensures Inv(CascadeDeleteUser(db, id))
    ensures Distinct(db.reviews, ReviewPair) ==> Distinct(CascadeDeleteUser(db, id).reviews, ReviewPair)
  {
    var r := CascadeDeleteUser(db, id);
    var keepUser := (u: User) => u.id != id;
    var keepReview := (v: Review) => v.reviewerId != id && !WrittenBy(db.articles, v.articleId, id);
    FilterDistinct(db.users, keepUser, UserKey);
    FilterDistinct(db.users, keepUser, UserName);
    FilterDistinct(db.users, keepUser, UserEmail);
    FilterDistinct(db.articles, (a: Article) => a.authorId != id, ArticleKey);
    FilterDistinct(db.reviews, keepReview, ReviewKey);
    if Distinct(db.reviews, ReviewPair) {
      FilterDistinct(db.reviews, keepReview, ReviewPair);
    }
    forall a | a in r.articles ensures HasUser(r.users, a.authorId) {
      var u :| u in db.users && u.id == a.authorId;
      assert u in r.users;
    }
    forall v | v in r.reviews ensures HasArticle(r.articles, v.articleId) && HasUser(r.users, v.reviewerId) {
      var a :| a in db.articles && a.id == v.articleId;
      assert a in r.articles;
      var u :| u in db.users && u.id == v.reviewerId;
      assert u in r.users;
    }
  }

  /** Inserting a user whose id is new: the database accepts the row exactly
      when its Username and Email are not taken and fit their columns. */
  lemma InsertUserValid(db: Db, u: User)
    requires Inv(db)
    requires forall x :: x in db.users ==> x.id != u.id
    ensures Inv(db.(users := db.users + [u])) <==>
      && (forall x :: x in db.users ==> x.username != u.username && x.email != u.email)
      && |u.username| <= MaxUsernameLength && |u.email| <= MaxEmailLength
  {
    var users := db.users + [u];
    DistinctAppend(db.users, u, UserKey);
    DistinctAppend(db.users, u, UserName);
    DistinctAppend(db.users, u, UserEmail);
    forall id | HasUser(db.users, id) ensures HasUser(users, id) {
      var x :| x in db.users && x.id == id;
      assert x in users;
    }
  }

  /** Inserting an article whose id is new: the database accepts the row
      exactly when its Title fits and its AuthorId names a user. */
  lemma InsertArticleValid(db: Db, a: Article)
    requires Inv(db)
    requires forall x :: x in db.articles ==> x.id != a.id
    ensures Inv(db.(articles := db.articles + [a])) <==>
      |a.title| <= MaxTitleLength && HasUser(db.users, a.authorId)
  {
    var articles := db.articles + [a];
    DistinctAppend(db.articles, a, ArticleKey);
    forall id | HasArticle(db.articles, id) ensures HasArticle(articles, id) {
      var x :| x in db.articles && x.id == id;
      assert x in articles;
    }
  }

  /** The article table with the article `id` given `status`. */
  function SetStatus(articles: seq<Article>, id: int, status: string): (r: seq<Article>)
  {
    seq(|articles|, i requires 0 <= i < |articles| =>
      if articles[i].id == id then articles[i].(status := status) else articles[i])
  }

  /** After SetStatus the article `id` has the new status and every other
      row is as it was. */
  lemma SetStatusEffect(articles: seq<Article>, id: int, status: string)
    requires Distinct(articles, ArticleKey)
    requires HasArticle(articles, id)
    ensures FindArticle(SetStatus(articles, id, status), id)
         == Some(FindArticle(articles, id).value.(status := status))
    ensures forall a :: a in SetStatus(articles, id, status) && a.id != id <==> a in articles && a.id != id
  {
    var r := SetStatus(articles, id, status);
    var old0 := FindArticle(articles, id).value;
    DistinctSameKeys(articles, r, ArticleKey);
    var i :| 0 <= i < |articles| && articles[i] == old0;
    assert r[i] == old0.(status := status);
    FindArticleUnique(r, r[i]);
    forall a | a in articles && a.id != id ensures a in r {
      var k :| 0 <= k < |articles| && articles[k] == a;
      assert r[k] == a;
    }
  }

  /** Recording a review: the article `v.articleId` (which exists) takes
      `status` and review `v`, whose id is new, is inserted. The database
      accepts both writes exactly when the ReviewerId names a user. */
  lemma RecordReviewValid(db: Db, v: Review, status: string)
    requires Inv(db)
    requires HasArticle(db.articles, v.articleId)
    requires forall x :: x in db.reviews ==> x.id != v.id
    ensures Inv(Db(db.users, SetStatus(db.articles, v.articleId, status), db.reviews + [v])) <==>
      HasUser(db.users, v.reviewerId)
  {
    var articles := SetStatus(db.articles, v.articleId, status);
    var reviews := db.reviews + [v];
    DistinctSameKeys(db.articles, articles, ArticleKey);
    DistinctAppend(db.reviews, v, ReviewKey);
    forall a | a in articles ensures |a.title| <= MaxTitleLength && HasUser(db.users, a.authorId) {
      var k :| 0 <= k < |articles| && articles[k] == a;
      assert db.articles[k] in db.articles;
    }
    forall id | HasArticle(db.articles, id) ensures HasArticle(articles, id) {
      var x :| x in db.articles && x.id == id;
      var k :| 0 <= k < |db.articles| && db.articles[k] == x;
      assert articles[k].id == id;
    }
  }

  /** The user table with the user `id`'s IsBlocked flag negated. */
  function ToggleBlocked(users: seq<User>, id: int): (r: seq<User>)
  {
    seq(|users|, i requires 0 <= i < |users| =>
      if users[i].id == id then users[i].(isBlocked := !users[i].isBlocked) else users[i])
  }

  /** Toggling the same user twice restores the table. */
  lemma ToggleBlockedTwice(users: seq<User>, id: int)
    ensures ToggleBlocked(ToggleBlocked(users, id), id) == users
  {
    var r := ToggleBlocked(ToggleBlocked(users, id), id);
    assert forall i :: 0 <= i < |users| ==> r[i] == users[i];
  }

  /** Toggling changes only the flag of the one user `id`. */
  lemma ToggleBlockedEffect(users: seq<User>, id: int)
    requires Distinct(users, UserKey)
    requires HasUser(users, id)
    ensures FindUser(ToggleBlocked(users, id), id)
         == Some(FindUser(users, id).value.(isBlocked := !FindUser(users, id).value.isBlocked))
    ensures forall u :: u in ToggleBlocked(users, id) && u.id != id <==> u in users && u.id != id
  {
    var r := ToggleBlocked(users, id);
    var old0 := FindUser(users, id).value;
    DistinctSameKeys(users, r, UserKey);
    var i :| 0 <= i < |users| && users[i] == old0;
    FindUserUnique(r, r[i]);
    forall u | u in users && u.id != id ensures u in r {
      var k :| 0 <= k < |users| && users[k] == u;
      assert r[k] == u;
    }
  }

  /** The flag never takes part in a constraint, so toggling keeps them all. */
  lemma ToggleBlockedKeepsInv(db: Db, id: int)
    requires Inv(db)
    ensures Inv(db.(users := ToggleBlocked(db.users, id)))
  {
    var users := ToggleBlocked(db.users, id);
    DistinctSameKeys(db.users, users, UserKey);
    DistinctSameKeys(db.users, users, UserName);
    DistinctSameKeys(db.users, users, UserEmail);
    forall u | u in users ensures |u.username| <= MaxUsernameLength && |u.email| <= MaxEmailLength {
      var k :| 0 <= k < |users| && users[k] == u;
      assert db.users[k] in db.users;
    }
    forall id' | HasUser(db.users, id') ensures HasUser(users, id') {
      var x :| x in db.users && x.id == id';
      var k :| 0 <= k < |db.users| && db.users[k] == x;
      assert users[k].id == id';
    }
  }
}
