/** The application's database context: the three tables the controllers
    query and change, and the identity sequences that number new rows. */
module Data {
  import opened Seqs
  import opened Schema

  class Context {
    var users: seq<User>
    var articles: seq<Article>
    var reviews: seq<Review>
    // The next value of each table's identity column.
    var nextUserId: int
    var nextArticleId: int
    var nextReviewId: int

    /** The contents of the tables. */
    function State(): Db
      reads this
    {
      Db(users, articles, reviews)
    }

    /** The database's constraints hold, the review workflow's one review
        per (article, reviewer) holds, and every id was drawn from its
        identity sequence. */
    ghost predicate Valid()
      reads this
    {
      && Inv(State())
      && Distinct(reviews, ReviewPair)
      && (forall u :: u in users ==> u.id < nextUserId)
      && (forall a :: a in articles ==> a.id < nextArticleId)
      && (forall v :: v in reviews ==> v.id < nextReviewId)
    }

    constructor ()
      ensures Valid()
      ensures State() == Db([], [], [])
      ensures nextUserId == 1 && nextArticleId == 1 && nextReviewId == 1
    {
      users, articles, reviews := [], [], [];
      nextUserId, nextArticleId, nextReviewId := 1, 1, 1;
    }

    /** Writes `proposed` as one transaction: the database commits it when
        it satisfies every constraint and otherwise rejects the whole write
        and leaves the tables as they were. */
    method SaveChanges(proposed: Db) returns (saved: bool)
      modifies this
      ensures saved == Inv(proposed)
      ensures State() == if saved then proposed else old(State())
      ensures nextUserId == old(nextUserId) && nextArticleId == old(nextArticleId)
      ensures nextReviewId == old(nextReviewId)
    {
      saved := Inv(proposed);
      if saved {
        users, articles, reviews := proposed.users, proposed.articles, proposed.reviews;
      }
    }
  }
}
