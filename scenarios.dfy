/** Request sequences against a fresh database, checked from the endpoint
    contracts alone. */
module Scenarios {
  import opened Seqs
  import opened Schema
  import opened Data
  import opened Api
  import Articles
  import Reviews
  import Users

  function FakeHash(password: string): string { "hash:" + password }

  lemma PdfExtension()
    ensures Articles.FileExtension("x.pdf") == ".pdf"
  {
    assert Articles.ExtensionStartsAt("x.pdf", 1);
    assert Articles.Extension("x.pdf") == ".pdf";
    var lower := Articles.ToLowerInvariant(".pdf");
    assert lower == ".pdf" by {
      assert |lower| == 4;
      assert lower[0] == '.' && lower[1] == 'p' && lower[2] == 'd' && lower[3] == 'f';
    }
  }

  /** An Admin opens the accounts of author 1 and reviewers 2 and 3. */
  method OpenAccounts() returns (ctx: Context)
    ensures fresh(ctx) && ctx.Valid()
    ensures HasUser(ctx.users, 1) && HasUser(ctx.users, 2) && HasUser(ctx.users, 3)
    ensures ctx.articles == [] && ctx.reviews == []
    ensures ctx.nextArticleId == 1 && ctx.nextReviewId == 1
  {
    ctx := new Context();
    var admin := Caller(0, Admin);
    var a := Users.CreateUser(ctx, admin, "alice", "alice@x.com", "p", "Author", FakeHash);
    assert a == Ok(1);
    var r1 := Users.CreateUser(ctx, admin, "rita", "rita@x.com", "p", "Reviewer", FakeHash);
    assert r1 == Ok(2);
    var r2 := Users.CreateUser(ctx, admin, "ravi", "ravi@x.com", "p", "Reviewer", FakeHash);
    assert r2 == Ok(3);
    assert ctx.users[0].id == 1 && ctx.users[1].id == 2 && ctx.users[2].id == 3;
  }

  /** An author submits a paper and a reviewer accepts it; the same
      reviewer cannot review it again, but a second reviewer can, and that
      second decision replaces the first. */
  method ReviewLifecycle() {
    var ctx := OpenAccounts();
    PdfExtension();
    var submitted := Articles.SubmitArticle(ctx, Caller(1, Author), Some(Articles.Upload("x.pdf", 10)),
                                            "Paper X", "guid", 100);
    assert submitted == Ok(1);
    assert "guid" + ".pdf" == "guid.pdf";
    assert ctx.articles == [Article(1, "Paper X", "guid.pdf", 100, Articles.NotReviewed, 1)];

    var first := Reviews.CreateReview(ctx, Caller(2, Reviewer), 1, "Looks good", "Accepted", 200);
    assert first == Ok(1);
    assert ctx.articles[0].status == "Accepted";

    var again := Reviews.CreateReview(ctx, Caller(2, Reviewer), 1, "Still good", "Accepted", 300);
    assert Reviews.HasReviewed(ctx.reviews, 1, 2) by { assert ctx.reviews[0].reviewerId == 2; }
    assert again == Err(BadRequest(Reviews.AlreadyReviewed));

    assert !Reviews.HasReviewed(ctx.reviews, 1, 3) by { assert ctx.reviews == [ctx.reviews[0]]; }
    var second := Reviews.CreateReview(ctx, Caller(3, Reviewer), 1, "Not convincing", "Rejected", 400);
    assert second == Ok(2);
    assert ctx.articles[0].status == "Rejected";
  }

  /** A second account with a registered email is refused, whatever its
      username. */
  method DuplicateEmail() {
    var ctx := new Context();
    var admin := Caller(0, Admin);
    var bob := Users.CreateUser(ctx, admin, "bob", "bob@x.com", "p", "Author", FakeHash);
    assert bob == Ok(1);
    var again := Users.CreateUser(ctx, admin, "robert", "bob@x.com", "q", "Author", FakeHash);
    assert Users.EmailTaken(ctx.users, "bob@x.com") by { assert ctx.users[0].email == "bob@x.com"; }
    assert again == Err(BadRequest(Users.EmailAlreadyRegistered));
  }

  /** An Author asking for another author's article is forbidden, which is
      told apart from asking for an article that does not exist. */
  method ForeignArticle() {
    var ctx := new Context();
    var admin := Caller(0, Admin);
    var a := Users.CreateUser(ctx, admin, "alice", "alice@x.com", "p", "Author", FakeHash);
    var b := Users.CreateUser(ctx, admin, "bob", "bob@x.com", "p", "Author", FakeHash);
    assert a == Ok(1) && b == Ok(2);
    assert HasUser(ctx.users, 1) by { assert ctx.users[0].id == 1; }
    PdfExtension();
    var submitted := Articles.SubmitArticle(ctx, Caller(1, Author), Some(Articles.Upload("x.pdf", 10)),
                                            "Paper X", "guid", 100);
    assert submitted == Ok(1);
    var db := ctx.State();
    assert db.articles[0].id == 1 && db.articles[0].authorId == 1;
    assert !WrittenBy(db.articles, 1, 2);
    assert Articles.GetArticle(db, Caller(2, Author), 1) == Err(Forbidden);
    assert Articles.GetArticle(db, Caller(2, Author), 7) == Err(NotFound(NoMessage));
    assert Articles.GetArticle(db, Caller(1, Author), 1).Ok?;
    assert Articles.GetArticle(db, Caller(5, Reviewer), 1).Ok?;
  }
}
