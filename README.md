# Article submission and peer review, modelled in Dafny

The system is a small web API for publishing manuscripts. Authors upload
articles. Reviewers record one decision per article. Admins manage accounts
and may delete articles. Three controllers (articles, reviews, users) sit
directly on a relational database with three tables: Users, Articles
and Reviews.

This project models that API as a sequential state machine over the three
tables:

- `Schema` (`schema.dfy`) holds the row types, the constraints the schema
  snapshot declares, and the cascading deletes along its foreign keys. The
  constraints are primary keys, unique Username and Email, the maximum
  lengths 50, 100 and 200, and the required AuthorId, ArticleId and
  ReviewerId.
- `Data.Context` (`data.dfy`) is the database context: the three tables as
  `seq` fields, plus the identity sequences that number new rows.
  `SaveChanges` commits a proposed state as one transaction when every
  schema constraint holds. Otherwise the database rejects it and nothing is
  written. `Valid()` is the invariant every endpoint keeps. It holds the
  schema constraints, at most one review per (article, reviewer), and
  every id below its sequence's next value.
- `Articles`, `Reviews` and `Users` hold one member per endpoint. Read-only
  endpoints are functions of the table contents. Endpoints that write are
  methods that take the context and an explicit `Caller(id, role)`, the
  claims of the bearer token.
- `Seqs` (`seqs.dfy`) holds the order-preserving filter and lookup that the
  queries run, and key uniqueness over a table.
- `Scenarios` (`scenarios.dfy`) replays three request sequences against a
  fresh database, using nothing but the endpoint contracts:
  - an accepted review, then a refused second review by the same reviewer,
    then a second reviewer overwriting the decision;
  - account creation refused because the email is already registered;
  - Forbidden for another author's article, told apart from NotFound for a
    missing one.

An endpoint's outcome is `Result<T>`. Its errors are `Forbidden` (403: role
not admitted, or not the owner), `NotFound`, `BadRequest` carrying the
controller's message, and `ConstraintViolation`. The last one stands for
the unhandled database exception (500) that a write breaking a schema
constraint raises.

## Behaviour worth knowing

- Duplicate usernames, emails and reviews are answered with 400 Bad
  Request, not with a conflict status.
- `CreateReview` does not check that the article is still `NotReviewed`.
  A second reviewer's decision replaces the first one
  (`Scenarios.ReviewLifecycle`). Nothing in the model claims that a status
  is set only once.
- `CreateReview` copies the requested decision unvalidated, so statuses
  are strings and any string can become an article's status.
- No controller checks the title, username or email lengths. Only the
  database enforces them, so a too-long value ends in a 500
  (`ConstraintViolation`), not in a validation error.
- No controller rejects a blocked caller: `IsBlocked` is only toggled.

## Model

| member | source | states |
|---|---|---|
| `Schema.FindUserUnique` | Migrations/ApplicationDbContextModelSnapshot.cs:122 | with Id as primary key, looking a user up by id yields the one row that has that id |
| `Schema.FindArticleUnique` | Migrations/ApplicationDbContextModelSnapshot.cs:52 | with Id as primary key, looking an article up by id yields the one row that has that id |
| `Schema.FindUser` | Controllers/UsersController.cs:68-70 | `FindAsync(id)`: a found user is in the table and has that id; nothing is found exactly when no user has that id |
| `Schema.FindArticle` | Controllers/ReviewsController.cs:49-54 | `FirstOrDefaultAsync(a => a.Id == id)`: a found article is in the table and has that id; none is found exactly when no article has that id |
| `Schema.UsernameOf` | Controllers/ArticlesController.cs:45 | the `Author.Username` join: the name returned is the Username of a user row with the given id |
| `Schema.CascadeDeleteArticle` | Migrations/ApplicationDbContextModelSnapshot.cs:146-150 | deleting an article keeps exactly the other articles and exactly the reviews of other articles, in table order; users are untouched |
| `Schema.CascadeDeleteUser` | Migrations/ApplicationDbContextModelSnapshot.cs:133-161 | deleting a user keeps exactly the other users, exactly the articles by other authors, and exactly the reviews that are neither by that user nor on an article that user wrote, all in table order |
| `Schema.CascadeDeleteArticleKeepsInv` | Migrations/ApplicationDbContextModelSnapshot.cs:144-156 | the article cascade leaves every schema constraint intact, referential integrity included, and keeps reviews unique per (article, reviewer) |
| `Schema.CascadeDeleteUserKeepsInv` | Migrations/ApplicationDbContextModelSnapshot.cs:133-161 | the user cascade leaves every schema constraint intact, referential integrity and uniqueness of Username and Email included, and keeps reviews unique per (article, reviewer) |
| `Schema.InsertUserValid` | Migrations/ApplicationDbContextModelSnapshot.cs:101-128 | a user row with a fresh id is accepted exactly when its Username and Email are both unused and fit in 50 and 100 characters |
| `Schema.InsertArticleValid` | Migrations/ApplicationDbContextModelSnapshot.cs:47-54 | an article row with a fresh id is accepted exactly when its Title fits in 200 characters and its AuthorId names a user (the required foreign key of lines 135-139) |
| `Schema.RecordReviewValid` | Controllers/ReviewsController.cs:59-71 | changing an existing article's status and inserting a review with a fresh id is accepted exactly when the ReviewerId names a user |
| `Schema.SetStatusEffect` | Controllers/ReviewsController.cs:68 | after the status update the article with that id has the new status and its other fields; every other article row stays as it was |
| `Schema.ToggleBlockedEffect` | Controllers/UsersController.cs:72 | toggling negates IsBlocked on that one user, nothing else on that row changes, and every other user row stays as it was |
| `Schema.ToggleBlockedTwice` | Controllers/UsersController.cs:72 | toggling the same user twice restores the user table |
| `Schema.ToggleBlockedKeepsInv` | Controllers/UsersController.cs:72-73 | toggling keeps every schema constraint, so the save always succeeds |
| `Data.Context.constructor` | Migrations/ApplicationDbContextModelSnapshot.cs:23 | an empty database is valid, and every identity sequence starts at 1 |
| `Data.Context.SaveChanges` | Controllers/ArticlesController.cs:88-89 | a save commits the proposed tables exactly when they satisfy every schema constraint; otherwise nothing changes |
| `Articles.ExtensionScan` | Controllers/ArticlesController.cs:60 | the backward scan for the extension finds a non-empty one exactly when some '.' begins it: a '.' that is not the last character and has no '.' or '/' after it; the result is the file name from that '.' on |
| `Articles.Extension` | Controllers/ArticlesController.cs:60 | `Path.GetExtension`: the result is non-empty exactly when the file name has an extension, and it is then the suffix from the extension's '.' |
| `Articles.AcceptedFileName` | Controllers/ArticlesController.cs:59-63 | an accepted upload's file name ends in an extension that lower-cases to ".pdf" or ".docx" |
| `Articles.VisibleArticles` | Controllers/ArticlesController.cs:30-36 | an Author sees exactly the articles whose AuthorId is their id; every other role sees the whole table; the order is the table's |
| `Articles.Summarize` | Controllers/ArticlesController.cs:39-46 | a listed article shows the row's Id, Title, Status and SubmissionDate and its author's Username, and nothing else (no file path) |
| `Articles.GetArticles` | Controllers/ArticlesController.cs:24-50 | the listing has one entry per visible article, in order, each showing that article |
| `Articles.ReviewsOfArticle` | Controllers/ArticlesController.cs:102-103 | an article's reviews are exactly the review rows with its ArticleId, in table order |
| `Articles.DescribeReview` | Controllers/ArticlesController.cs:119-126 | a review in the article view shows the review's Id, Content, Status and ReviewDate and its reviewer's Username |
| `Articles.Detail` | Controllers/ArticlesController.cs:112-127 | the article view shows the article's fields, its author's Username, and each of its reviews with the reviewer's Username |
| `Articles.GetArticle` | Controllers/ArticlesController.cs:94-128 | NotFound exactly when no article has the id, whatever the role; Forbidden exactly when it exists and the caller is an Author who did not write it; otherwise the article view |
| `Articles.SubmitArticle` | Controllers/ArticlesController.cs:52-92 | Forbidden for non-Authors; then "No file uploaded" for a missing or empty file; then the extension error unless the lower-cased extension is ".pdf" or ".docx"; success exactly when, in addition, the title fits and the caller's user row exists; ConstraintViolation (the 500) exactly when the file is acceptable but the title is too long or the caller's user row is gone; success appends one article with a fresh id, the title, file name guid + extension, the given time, status "NotReviewed" and AuthorId = caller; every failure leaves the tables unchanged; the store stays valid |
| `Articles.DeleteArticle` | Controllers/ArticlesController.cs:130-148 | Forbidden for non-Admins; NotFound for an unknown id; otherwise the tables become the cascade delete of that article, so its reviews go too; the store stays valid |
| `Seqs.FilterMultiplicity` | Controllers/ReviewsController.cs:27-29 | a `Where` query keeps every copy of a row that matches and no copy of one that does not |
| `Reviews.ReviewsBy` | Controllers/ReviewsController.cs:27-29 | a reviewer's reviews are exactly the review rows with their ReviewerId, in table order |
| `Reviews.GetMyReviews` | Controllers/ReviewsController.cs:22-42 | Forbidden exactly for non-Reviewers; otherwise one entry per review by the caller, each with the review's fields and its article's Id and Title |
| `Reviews.CreateReview` | Controllers/ReviewsController.cs:44-74 | Forbidden for non-Reviewers; then NotFound for an unknown article; then "already reviewed" when the caller has a review on it; success exactly when, in addition, the caller's user row exists; ConstraintViolation (the 500) exactly when the review is otherwise admissible but the caller has no user row; success appends one review with a fresh id, the content, the decision, the time, ReviewerId = caller and the article id, and sets that article's status to the decision; every failure leaves the tables unchanged; the store stays valid, one review per (article, reviewer) included |
| `Reviews.AvailableTo` | Controllers/ReviewsController.cs:81-83 | the available articles are exactly those whose Status is "NotReviewed" that have no review by the caller, in table order |
| `Reviews.GetAvailableArticles` | Controllers/ReviewsController.cs:76-94 | Forbidden exactly for non-Reviewers; otherwise one entry per available article showing its Id, Title, SubmissionDate and author's Username |
| `Reviews.ReviewedArticleNotAvailable` | Controllers/ReviewsController.cs:83 | an article a reviewer has reviewed never appears on that reviewer's available list |
| `Users.CreatableRole` | Controllers/UsersController.cs:47-48 | the only role strings an account can be created with are "Author" and "Reviewer", so never Admin |
| `Users.GetUsers` | Controllers/UsersController.cs:21-36 | Forbidden exactly for non-Admins; otherwise one entry per user, in table order, with Id, Username, Email, Role and IsBlocked |
| `Users.GetUsersHidesPasswordHashes` | Controllers/UsersController.cs:24-32 | the listing does not depend on any PasswordHash: two databases that differ only in hashes list the same |
| `Users.CreateUser` | Controllers/UsersController.cs:38-63 | Forbidden for non-Admins; then "Email already registered"; then "Username already taken"; then "Invalid role" for any role other than "Author" or "Reviewer"; success exactly when, in addition, the username and email fit their columns; ConstraintViolation (the 500) exactly when the request is otherwise admissible but the username or email is too long; success appends one user with a fresh id, the username, email and role, the hash of the password, and IsBlocked false; every failure leaves the tables unchanged; Username and Email stay unique |
| `Users.ToggleBlockUser` | Controllers/UsersController.cs:65-76 | Forbidden for non-Admins; NotFound for an unknown id; otherwise the user table becomes the toggle of that user's IsBlocked, and the new flag is returned |
| `Users.DeleteUser` | Controllers/UsersController.cs:78-89 | Forbidden for non-Admins; NotFound for an unknown id; otherwise the tables become the cascade delete of that user; the store stays valid |
| `Users.DeletedUserLeavesNoTrace` | Controllers/UsersController.cs:85-86 | after the cascade no user row has the deleted id, no article has it as AuthorId, and every remaining review is by someone else and on a remaining article |

## Left out

- Authentication: token validation, claim parsing and the `int.Parse(... ?? "0")` default are not modelled. The caller is an explicit `(id, role)` value, and 401 responses are not modelled.
- The `IsBlocked` flag is stored and toggled, but nothing rejects a blocked caller. The controllers do not check it; the identity layer outside these files would.
- File storage: creating the uploads directory, writing the upload and deleting the stored file are not modelled. The model keeps only the extension check and the stored file name. A file written before the database rejects the article is therefore not tracked.
- `Guid.NewGuid()`, `DateTime.UtcNow` and `BCrypt.HashPassword` are parameters: a fresh name, a timestamp, and a hash function chosen by the caller. The function stands for the salted hash of one call.
- The ORM: entity tracking, `Include`, async queries and projection shaping are not modelled. Rows are values. An in-place assignment to a tracked entity followed by a save becomes a row replacement, and each endpoint is one atomic step.
- Concurrency: two simultaneous reviews by one reviewer can both pass the duplicate check, since the ArticleId and ReviewerId indexes are not unique. The sequential model cannot show this race.
- Ordering: queries without `ORDER BY` and the loaded `Reviews` collection are given in table order. The database itself promises no order.
- `Articles.Extension`: only '/' counts as a directory separator, as on Linux; on Windows '\\' also counts.
- `Articles.ToLowerInvariant`: only ASCII letters are lower-cased. No other character lower-cases to a letter of "pdf" or "docx", so the accept/reject decision is exact.
- Column widths: the identity columns are 32-bit `integer`, and overflow of the sequences is not modelled.
- Missing form or body fields: null title, content or status strings, which the database would reject as NOT NULL, are not modelled. Strings are always present.
- The Role column is text, but the model stores a `Role` value. Only `CreateUser` writes users, and it admits exactly "Author" and "Reviewer".
- Program.cs is service wiring only. It configures SQLite, which does not enforce `character varying` lengths. The model follows the PostgreSQL schema snapshot, where the database enforces them.
- The `ApplicationDbContext` class and the entity classes under Models/ are not part of this model. The entities' shapes are taken from the schema snapshot.
- The success messages ("Article submitted successfully" and the like) are not modelled. Successful endpoints return the new row's id, or the new IsBlocked flag.
- An identity value is consumed by any attempted insert, including one that the database rejects. This leaves gaps in the ids, as PostgreSQL sequences do.
