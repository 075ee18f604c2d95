/** The articles endpoints: listing and viewing articles, which every
    authenticated role may call, submitting one (Authors only) and deleting
    one (Admins only). */
module Articles {
  import opened Seqs
  import opened Schema
  import opened Data
  import opened Api

  const NotReviewed := "NotReviewed"
  const NoFileUploaded := "No file uploaded"
  const OnlyPdfOrDocx := "Only PDF and DOCX files are allowed"

  // ---------------------------------------------------------------------
  // File names

  /** An uploaded form file: the client's file name and the byte count. */
  datatype Upload = Upload(fileName: string, length: nat)

  /** Not the missing file nor an empty one. */
  predicate HasContent(file: Option<Upload>) {
    file.Some? && file.value.length > 0
  }

  predicate IsDirectorySeparator(c: char) { c == '/' }

  /** The extension of `path` starts at its position `k`: a '.' that is not
      the last character, with no '.' and no directory separator after it. */
  ghost predicate ExtensionStartsAt(path: string, k: int) {
    && 0 <= k < |path| - 1
    && path[k] == '.'
    && forall j :: k < j < |path| ==> path[j] != '.' && !IsDirectorySeparator(path[j])
  }

  /** Scans `path` from position `i - 1` down to 0 for the '.' that starts
      the extension, stopping at a directory separator. */
  function ExtensionScan(path: string, i: nat): (e: string)
    requires i <= |path|
    requires forall j :: i <= j < |path| ==> path[j] != '.' && !IsDirectorySeparator(path[j])
    ensures e != [] <==> exists k :: ExtensionStartsAt(path, k)
    ensures forall k :: ExtensionStartsAt(path, k) ==> e == path[k..]
    decreases i
  {
    if i == 0 then []
    else if path[i - 1] == '.' then
      if i == |path| then [] else assert ExtensionStartsAt(path, i - 1); path[i - 1..]
    else if IsDirectorySeparator(path[i - 1]) then []
    else ExtensionScan(path, i - 1)
  }

  /** The extension of a file name, its leading '.' included, or the empty
      string when it has none. */
  function Extension(path: string): (e: string)
    ensures e != [] <==> exists k :: ExtensionStartsAt(path, k)
    ensures forall k :: ExtensionStartsAt(path, k) ==> e == path[k..]
  {
    ExtensionScan(path, |path|)
  }

  function LowerChar(c: char): char {
    if 'A' <= c <= 'Z' then (c as int - 'A' as int + 'a' as int) as char else c
  }

  function ToLowerInvariant(s: string): string {
    seq(|s|, i requires 0 <= i < |s| => LowerChar(s[i]))
  }

  /** The lower-cased extension the upload is judged and stored by. */
  function FileExtension(fileName: string): string {
    ToLowerInvariant(Extension(fileName))
  }

  predicate AllowedExtension(ext: string) {
    ext == ".pdf" || ext == ".docx"
  }

  /** An accepted file name ends in a '.' followed by three or four letters
      that lower-case to "pdf" or "docx", with no directory separator. */
  lemma AcceptedFileName(fileName: string)
    requires AllowedExtension(FileExtension(fileName))
    ensures exists k :: ExtensionStartsAt(fileName, k) && ToLowerInvariant(fileName[k..]) in {".pdf", ".docx"}
  {
    var e := Extension(fileName);
    assert |ToLowerInvariant(e)| == |e|;
    var k :| ExtensionStartsAt(fileName, k);
  }

  // ---------------------------------------------------------------------
  // GET api/articles

  datatype ArticleSummary = ArticleSummary(
    id: int, title: string, status: string, submissionDate: Timestamp, authorName: string)

  /** `s` shows article `a` and the Username of its author. */
  predicate SummaryOf(db: Db, a: Article, s: ArticleSummary) {
    && s.id == a.id && s.title == a.title && s.status == a.status
    && s.submissionDate == a.submissionDate
    && exists u :: u in db.users && u.id == a.authorId && u.username == s.authorName
  }

  /** The articles a caller may list: an Author only their own, other roles
      every article. */
  function VisibleArticles(db: Db, caller: Caller): (r: seq<Article>)
    ensures caller.role == Author ==>
      forall a :: a in r <==> a in db.articles && a.authorId == caller.id
    ensures caller.role != Author ==> r == db.articles
    ensures IsSubsequence(r, db.articles)
  {
    if caller.role == Author then Filter(db.articles, (a: Article) => a.authorId == caller.id)
    else
      assert Filter(db.articles, (a: Article) => true) == db.articles by {
        FilterKeepsAll(db.articles);
      }
      db.articles
  }

  lemma {:induction false} FilterKeepsAll(s: seq<Article>)
    ensures Filter(s, (a: Article) => true) == s
    decreases |s|
  {
    if s != [] {
      FilterKeepsAll(s[1..]);
      assert s == [s[0]] + s[1..];
    }
  }

  function Summarize(db: Db, a: Article): (s: ArticleSummary)
    requires HasUser(db.users, a.authorId)
    ensures SummaryOf(db, a, s)
  {
    ArticleSummary(a.id, a.title, a.status, a.submissionDate, UsernameOf(db.users, a.authorId))
  }

  function GetArticles(db: Db, caller: Caller): (r: seq<ArticleSummary>)
    requires Inv(db)
    ensures |r| == |VisibleArticles(db, caller)|
    ensures forall i :: 0 <= i < |r| ==> SummaryOf(db, VisibleArticles(db, caller)[i], r[i])
  {
    var visible := VisibleArticles(db, caller);
    assert forall a :: a in visible ==> a in db.articles;
    seq(|visible|, i requires 0 <= i < |visible| => Summarize(db, visible[i]))
  }

  // ---------------------------------------------------------------------
  // GET api/articles/{id}

  datatype ReviewDetail = ReviewDetail(
    id: int, content: string, status: string, reviewDate: Timestamp, reviewerName: string)

  datatype ArticleDetail = ArticleDetail(
    id: int, title: string, status: string, submissionDate: Timestamp, authorName: string,
    reviews: seq<ReviewDetail>)

  /** The reviews of article `articleId`, in table order. */
  function ReviewsOfArticle(reviews: seq<Review>, articleId: int): (r: seq<Review>)
    ensures forall v :: v in r <==> v in reviews && v.articleId == articleId
    ensures IsSubsequence(r, reviews)
  {
    Filter(reviews, (v: Review) => v.articleId == articleId)
  }

  /** `d` shows review `v` and the Username of its reviewer. */
  predicate ReviewDetailOf(db: Db, v: Review, d: ReviewDetail) {
    && d.id == v.id && d.content == v.content && d.status == v.status
    && d.reviewDate == v.reviewDate
    && exists u :: u in db.users && u.id == v.reviewerId && u.username == d.reviewerName
  }

  /** `d` shows article `a`, its author's Username and all its reviews. */
  ghost predicate DetailOf(db: Db, a: Article, d: ArticleDetail) {
    var reviews := ReviewsOfArticle(db.reviews, a.id);
    && d.id == a.id && d.title == a.title && d.status == a.status
    && d.submissionDate == a.submissionDate
    && (exists u :: u in db.users && u.id == a.authorId && u.username == d.authorName)
    && |d.reviews| == |reviews|
    && forall i :: 0 <= i < |reviews| ==> ReviewDetailOf(db, reviews[i], d.reviews[i])
  }

  function DescribeReview(db: Db, v: Review): (d: ReviewDetail)
    requires HasUser(db.users, v.reviewerId)
    ensures ReviewDetailOf(db, v, d)
  {
    ReviewDetail(v.id, v.content, v.status, v.reviewDate, UsernameOf(db.users, v.reviewerId))
  }

  function Detail(db: Db, a: Article): (d: ArticleDetail)
    requires Inv(db)
    requires a in db.articles
    ensures DetailOf(db, a, d)
  {
    var reviews := ReviewsOfArticle(db.reviews, a.id);
    assert forall v :: v in reviews ==> HasUser(db.users, v.reviewerId);
    var details := seq(|reviews|, i requires 0 <= i < |reviews| => DescribeReview(db, reviews[i]));
    ArticleDetail(a.id, a.title, a.status, a.submissionDate, UsernameOf(db.users, a.authorId), details)
  }

  /** NotFound for an unknown id comes before the ownership check, which
      forbids an Author from viewing someone else's article. */
  function GetArticle(db: Db, caller: Caller, id: int): (r: Result<ArticleDetail>)
    requires Inv(db)
    ensures r == Err(NotFound(NoMessage)) <==> !HasArticle(db.articles, id)
    ensures r == Err(Forbidden) <==>
      HasArticle(db.articles, id) && caller.role == Author && !WrittenBy(db.articles, id, caller.id)
    ensures r.Ok? <==>
      HasArticle(db.articles, id) && (caller.role != Author || WrittenBy(db.articles, id, caller.id))
    ensures r.Ok? ==> exists a :: a in db.articles && a.id == id && DetailOf(db, a, r.value)
  {
    match FindArticle(db.articles, id)
    case None => Err(NotFound(NoMessage))
    case Some(a) =>
      assert WrittenBy(db.articles, id, caller.id) <==> a.authorId == caller.id by {
        if WrittenBy(db.articles, id, caller.id) {
          var b :| b in db.articles && b.id == id && b.authorId == caller.id;
          FindArticleUnique(db.articles, b);
        }
      }
      if caller.role == Author && a.authorId != caller.id then Err(Forbidden)
      else Ok(Detail(db, a))
  }

  // ---------------------------------------------------------------------
  // POST api/articles

  /** An Author submits `title` with `file`. `guid` stands for the fresh
      Guid the stored file is named after and `now` for the clock. */
  method SubmitArticle(ctx: Context, caller: Caller, file: Option<Upload>, title: string,
                       guid: string, now: Timestamp)
    returns (r: Result<int>)
    requires ctx.Valid()
    modifies ctx
    ensures ctx.Valid()
    ensures r == Err(Forbidden) <==> caller.role != Author
    ensures r == Err(BadRequest(NoFileUploaded)) <==> caller.role == Author && !HasContent(file)
    ensures r == Err(BadRequest(OnlyPdfOrDocx)) <==>
      caller.role == Author && HasContent(file) && !AllowedExtension(FileExtension(file.value.fileName))
    ensures r.Ok? <==>
      && caller.role == Author && HasContent(file) && AllowedExtension(FileExtension(file.value.fileName))
      && |title| <= MaxTitleLength && HasUser(old(ctx.users), caller.id)
    ensures r == Err(ConstraintViolation) <==>
      && caller.role == Author && HasContent(file) && AllowedExtension(FileExtension(file.value.fileName))
      && !(|title| <= MaxTitleLength && HasUser(old(ctx.users), caller.id))
    ensures r.Ok? ==>
      && r.value == old(ctx.nextArticleId)
      && ctx.articles == old(ctx.articles) +
           [Article(r.value, title, guid + FileExtension(file.value.fileName), now, NotReviewed, caller.id)]
      && ctx.users == old(ctx.users) && ctx.reviews == old(ctx.reviews)
    ensures r.Err? ==> ctx.State() == old(ctx.State())
    ensures ctx.nextArticleId ==
      if r.Ok? || r == Err(ConstraintViolation) then old(ctx.nextArticleId) + 1 else old(ctx.nextArticleId)
    ensures ctx.nextUserId == old(ctx.nextUserId) && ctx.nextReviewId == old(ctx.nextReviewId)
  {
    if caller.role != Author {
      return Err(Forbidden);
    }
    if file.None? || file.value.length == 0 {
      return Err(BadRequest(NoFileUploaded));
    }
    var ext := FileExtension(file.value.fileName);
    if !AllowedExtension(ext) {
      return Err(BadRequest(OnlyPdfOrDocx));
    }
    var id := ctx.nextArticleId;
    ctx.nextArticleId := id + 1;
    var article := Article(id, title, guid + ext, now, NotReviewed, caller.id);
    InsertArticleValid(ctx.State(), article);
    var saved := ctx.SaveChanges(ctx.State().(articles := ctx.articles + [article]));
    r := if saved then Ok(id) else Err(ConstraintViolation);
  }

  // ---------------------------------------------------------------------
  // DELETE api/articles/{id}

  /** An Admin deletes article `id`; its reviews go with it. */
  method DeleteArticle(ctx: Context, caller: Caller, id: int) returns (r: Result<()>)
    requires ctx.Valid()
    modifies ctx
    ensures ctx.Valid()
    ensures r == Err(Forbidden) <==> caller.role != Admin
    ensures r == Err(NotFound(NoMessage)) <==> caller.role == Admin && !HasArticle(old(ctx.articles), id)
    ensures r.Ok? <==> caller.role == Admin && HasArticle(old(ctx.articles), id)
    ensures ctx.State() == if r.Ok? then CascadeDeleteArticle(old(ctx.State()), id) else old(ctx.State())
    ensures ctx.nextUserId == old(ctx.nextUserId) && ctx.nextArticleId == old(ctx.nextArticleId)
    ensures ctx.nextReviewId == old(ctx.nextReviewId)
  {
    if caller.role != Admin {
      return Err(Forbidden);
    }
    if FindArticle(ctx.articles, id).None? {
      return Err(NotFound(NoMessage));
    }
    var proposed := CascadeDeleteArticle(ctx.State(), id);
    CascadeDeleteArticleKeepsInv(ctx.State(), id);
    var saved := ctx.SaveChanges(proposed);
    assert saved;
    r := Ok(());
  }
}
