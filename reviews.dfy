/** The reviews endpoints, all of them for Reviewers only: listing one's
    own reviews, reviewing an article, and listing the articles still open
    to one's review. */
module Reviews {
  import opened Seqs
  import opened Schema
  import opened Data
  import opened Api
  import Articles

  const ArticleNotFound := "Article not found"
  const AlreadyReviewed := "You have already reviewed this article"

  /** Reviewer `reviewerId` has a review on article `articleId`. */
  predicate HasReviewed(reviews: seq<Review>, articleId: int, reviewerId: int) {
    exists v :: v in reviews && v.articleId == articleId && v.reviewerId == reviewerId
  }

  // ---------------------------------------------------------------------
  // GET api/reviews

  datatype MyReview = MyReview(
    id: int, content: string, status: string, reviewDate: Timestamp,
    articleTitle: string, articleId: int)

  /** `m` shows review `v` with the title of the article it reviews. */
  predicate MyReviewOf(db: Db, v: Review, m: MyReview) {
    && m.id == v.id && m.content == v.content && m.status == v.status
    && m.reviewDate == v.reviewDate && m.articleId == v.articleId
    && exists a :: a in db.articles && a.id == v.articleId && a.title == m.articleTitle
  }

  /** The reviews written by `reviewerId`, in table order. */
  function ReviewsBy(reviews: seq<Review>, reviewerId: int): (r: seq<Review>)
    ensures forall v :: v in r <==> v in reviews && v.reviewerId == reviewerId
    ensures IsSubsequence(r, reviews)
  {
    Filter(reviews, (v: Review) => v.reviewerId == reviewerId)
  }

  function GetMyReviews(db: Db, caller: Caller): (r: Result<seq<MyReview>>)
    requires Inv(db)
    ensures r.Err? <==> caller.role != Reviewer
    ensures r.Err? ==> r.error == Forbidden
    ensures r.Ok? ==>
      var mine := ReviewsBy(db.reviews, caller.id);
      |r.value| == |mine| && forall i :: 0 <= i < |mine| ==> MyReviewOf(db, mine[i], r.value[i])
  {
    if caller.role != Reviewer then Err(Forbidden)
    else
      var mine := ReviewsBy(db.reviews, caller.id);
      assert forall v :: v in mine ==> v in db.reviews;
      Ok(seq(|mine|, i requires 0 <= i < |mine| =>
        var a := FindArticle(db.articles, mine[i].articleId).value;
        MyReview(mine[i].id, mine[i].content, mine[i].status, mine[i].reviewDate, a.title, a.id)))
  }

  // ---------------------------------------------------------------------
  // POST api/reviews

  /** A Reviewer reviews article `articleId` with decision `status`, which
      the article's Status takes, whatever it was and whatever the string
      says. `now` stands for the clock. */
  method CreateReview(ctx: Context, caller: Caller, articleId: int, content: string, status: string,
                      now: Timestamp)
    returns (r: Result<int>)
    requires ctx.Valid()
    modifies ctx
    ensures ctx.Valid()
    ensures r == Err(Forbidden) <==> caller.role != Reviewer
    ensures r == Err(NotFound(ArticleNotFound)) <==>
      caller.role == Reviewer && !HasArticle(old(ctx.articles), articleId)
    ensures r == Err(BadRequest(AlreadyReviewed)) <==>
      && caller.role == Reviewer && HasArticle(old(ctx.articles), articleId)
      && HasReviewed(old(ctx.reviews), articleId, caller.id)
    ensures r.Ok? <==>
      && caller.role == Reviewer && HasArticle(old(ctx.articles), articleId)
      && !HasReviewed(old(ctx.reviews), articleId, caller.id) && HasUser(old(ctx.users), caller.id)
    ensures r == Err(ConstraintViolation) <==>
      && caller.role == Reviewer && HasArticle(old(ctx.articles), articleId)
      && !HasReviewed(old(ctx.reviews), articleId, caller.id) && !HasUser(old(ctx.users), caller.id)
    ensures r.Ok? ==>
      && r.value == old(ctx.nextReviewId)
      && ctx.reviews == old(ctx.reviews) + [Review(r.value, content, status, now, caller.id, articleId)]
      && ctx.articles == SetStatus(old(ctx.articles), articleId, status)
      && ctx.users == old(ctx.users)
    ensures r.Err? ==> ctx.State() == old(ctx.State())
    ensures ctx.nextReviewId ==
      if r.Ok? || r == Err(ConstraintViolation) then old(ctx.nextReviewId) + 1 else old(ctx.nextReviewId)
    ensures ctx.nextUserId == old(ctx.nextUserId) && ctx.nextArticleId == old(ctx.nextArticleId)
  {
    if caller.role != Reviewer {
      return Err(Forbidden);
    }
    if FindArticle(ctx.articles, articleId).None? {
      return Err(NotFound(ArticleNotFound));
    }
    var theirs := Articles.ReviewsOfArticle(ctx.reviews, articleId);
    if exists v :: v in theirs && v.reviewerId == caller.id {
      return Err(BadRequest(AlreadyReviewed));
    }
    assert !HasReviewed(ctx.reviews, articleId, caller.id);
    var id := ctx.nextReviewId;
    ctx.nextReviewId := id + 1;
    var review := Review(id, content, status, now, caller.id, articleId);
    RecordReviewValid(ctx.State(), review, status);
    DistinctAppend(ctx.reviews, review, ReviewPair);
    var saved := ctx.SaveChanges(Db(ctx.users, SetStatus(ctx.articles, articleId, status), ctx.reviews + [review]));
    r := if saved then Ok(id) else Err(ConstraintViolation);
  }

  // ---------------------------------------------------------------------
  // GET api/reviews/available-articles

  datatype AvailableArticle = AvailableArticle(
    id: int, title: string, submissionDate: Timestamp, authorName: string)

  predicate AvailableOf(db: Db, a: Article, s: AvailableArticle) {
    && s.id == a.id && s.title == a.title && s.submissionDate == a.submissionDate
    && exists u :: u in db.users && u.id == a.authorId && u.username == s.authorName
  }

  /** The articles still NotReviewed that `reviewerId` has not reviewed,
      in table order. */
  function AvailableTo(db: Db, reviewerId: int): (r: seq<Article>)
    ensures forall a :: a in r <==>
      a in db.articles && a.status == Articles.NotReviewed && !HasReviewed(db.reviews, a.id, reviewerId)
    ensures IsSubsequence(r, db.articles)
  {
    Filter(db.articles, (a: Article) =>
      a.status == Articles.NotReviewed && !HasReviewed(db.reviews, a.id, reviewerId))
  }

  function GetAvailableArticles(db: Db, caller: Caller): (r: Result<seq<AvailableArticle>>)
    requires Inv(db)
    ensures r.Err? <==> caller.role != Reviewer
    ensures r.Err? ==> r.error == Forbidden
    ensures r.Ok? ==>
      var open := AvailableTo(db, caller.id);
      |r.value| == |open| && forall i :: 0 <= i < |open| ==> AvailableOf(db, open[i], r.value[i])
  {
    if caller.role != Reviewer then Err(Forbidden)
    else
      var open := AvailableTo(db, caller.id);
      assert forall a :: a in open ==> a in db.articles;
      Ok(seq(|open|, i requires 0 <= i < |open| =>
        AvailableArticle(open[i].id, open[i].title, open[i].submissionDate,
                         UsernameOf(db.users, open[i].authorId))))
  }

  /** A successful review takes the article off the reviewer's available
      list, and keeps it off: one review per reviewer and article. */
  lemma ReviewedArticleNotAvailable(db: Db, v: Review)
    requires v in db.reviews
    ensures forall a :: a in AvailableTo(db, v.reviewerId) ==> a.id != v.articleId
  {
  }
}
