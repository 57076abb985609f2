# api_yamdb review store, modelled in Dafny

This project models the review domain of api_yamdb, a review-aggregation
service. Users review titles (works such as books or films), give each a
score from 1 to 10, and comment on reviews. The model has three parts.

- **The store** (`models.dfy`, module `Models`) covers `reviews/models.py`.
  The Category, Genre, Title, Review and Comment tables are id-keyed maps in
  one `Store` record. `Valid` collects every rule the schema declares:
  - the `max_length` of each text field;
  - the 1..10 score validators;
  - unique Category and Genre slugs;
  - the `unique_review` constraint on (title, author);
  - every foreign key points at a stored row.

  Each write returns `Result<Store>` and preserves `Valid`. This covers adding
  a category, genre, title, review or comment; updating a review; and deleting
  a category, genre, title or review. The deletes follow the schema: SET_NULL
  for a title's category, CASCADE from title to reviews and from review to
  comments, and dropping only the association rows for a genre.
- **The ordering** (`ordering.dfy`, module `Ordering`) covers the
  `('-pub_date',)` default ordering of Review and Comment. A title's reviews
  and a review's comments are listed once each, newest first.
- **The submission gate** (`serializers.dfy`, module `Serializers`) covers
  `ReviewSerializer` in `api/serializers.py`:
  - `validate_score` is modelled as written. Its guard `0 > value > 10` is a
    Python chained comparison that no integer satisfies.
  - `validate` looks the title up (`NotFound` if absent). On POST it then
    refuses a second review by the same user (`AlreadyReviewed`).
  - Before either of them, the fields the serializer generates from the model
    strip the text, refuse it when blank, check its length, and check the
    score's range (`ValidateFields`).
  - The view that drives the serializer is not part of this model. The model
    assumes the usual DRF flow: a create on POST (`SubmitReview`), and an
    update on PUT or PATCH (`SubmitUpdate`), where the review is first looked
    up among the reviews of the URL's title.

Primary keys are allocated by the database. An insert takes the new key as an
argument and requires it to be unused. Review and comment `author` is an
opaque integer user id, as in the schema. `pub_date` is a supplied natural
number.

The serializer's score check never fires. Its error message asks for a score
on a 10-point scale ('Оценка по 10-бальной шкале!', `api/serializers.py:24`),
and the model declares `MinValueValidator(1)` and `MaxValueValidator(10)` on
the score (`reviews/models.py:111-114`). So the evidently intended check
accepts exactly 1..10. The model keeps the literal check in
`SubmitReviewAsWritten`. `SubmitReview` and `SubmitUpdate` use the intended
check. Before either check runs, the serializer's generated fields apply the
model's own validators: the text's `max_length` and the score's 1..10 range.
The generated text field is a DRF `CharField`. It strips surrounding
whitespace (`trim_whitespace`) and refuses a blank result, since the model does
not declare `blank=True`. The length limit applies to the stripped text, and
the stripped text is what gets stored.
`StoreBoundsTheScore` proves that the two submissions therefore give the same
result on every input.

## Model

| member | source | states |
|---|---|---|
| Models.InsertLabel | api_yamdb/reviews/models.py:10-19 | a Category/Genre row is stored exactly when its slug is at most 50 characters, its title at most 250, and no stored row has the same slug; old rows are kept and slug uniqueness is preserved |
| Models.AddCategory | api_yamdb/reviews/models.py:10-19 | adding a category succeeds exactly under the length and unique-slug rules, changes only the category table, and preserves `Valid` |
| Models.AddGenre | api_yamdb/reviews/models.py:30-39 | adding a genre succeeds exactly under the length and unique-slug rules, changes only the genre table, and preserves `Valid` |
| Models.DeleteCategory | api_yamdb/reviews/models.py:51-57 | deleting a category removes only that category row, and every other category is unchanged; every title is kept; titles that referenced it get a null category; all other titles, reviews, comments and genres are unchanged; `Valid` is preserved |
| Models.DeleteGenre | api_yamdb/reviews/models.py:58-61 | deleting a genre removes only that genre row, and every other genre is unchanged; every title is kept and only loses the genre from its genre set; categories, reviews and comments are unchanged; `Valid` is preserved |
| Models.AddTitle | api_yamdb/reviews/models.py:50-70 | a title is stored exactly when its name is at most 200 characters and its category and genres exist; it starts with no rating; `Valid` is preserved |
| Models.DeleteTitle | api_yamdb/reviews/models.py:90-95 | deleting a title removes exactly the reviews of that title and, in a valid store, exactly the comments on those reviews; every surviving row is unchanged and categories and genres stay |
| Models.DeleteTitleKeepsValid | api_yamdb/reviews/models.py:143-148 | the cascade from title to reviews to comments leaves no dangling reference, so `Valid` is preserved |
| Models.CreateReview | api_yamdb/reviews/models.py:109-133 | a review is stored exactly when its title exists, its text is at most 200 characters, its score lies in 1..10, and the author has no review of that title; an out-of-range score is refused; uniqueness of (title, author) and `Valid` are preserved |
| Models.UpdateReview | api_yamdb/reviews/models.py:96-118 | an update succeeds exactly for a stored review with text at most 200 characters and score in 1..10; it keeps the review's title, author and date, changes no other row, and preserves `Valid` |
| Models.DeleteReview | api_yamdb/reviews/models.py:143-148 | deleting a review removes exactly that review and exactly its comments; every other row is unchanged; `Valid` is preserved |
| Models.AddComment | api_yamdb/reviews/models.py:140-152 | a comment is stored exactly when its review exists and its text is at most 200 characters; `Valid` is preserved |
| Ordering.InsertNewestFirst | api_yamdb/reviews/models.py:134 | inserting into a newest-first listing yields a permutation of the listing plus the new row that is still newest first |
| Ordering.InsertKeepsDistinct | api_yamdb/reviews/models.py:134 | inserting a row not yet listed keeps every listed row distinct |
| Ordering.ListNewestFirst | api_yamdb/reviews/models.py:134 | the listing holds every selected row exactly once, with non-increasing publication dates |
| Ordering.ReviewsOf | api_yamdb/reviews/models.py:90-95 | a title's review listing holds exactly its reviews, once each, newest first; in a valid store no two listed reviews share an author |
| Ordering.CommentsOf | api_yamdb/reviews/models.py:168-171 | a review's comment listing holds exactly its comments, once each, newest first |
| Serializers.ValidateScore | api_yamdb/api/serializers.py:22-25 | `validate_score` as written returns every integer unchanged and never raises, since `0 > value > 10` holds for no integer |
| Serializers.ValidateScoreAcceptsOutOfRange | api_yamdb/api/serializers.py:23 | 0, 11 and -1 break the schema's 1..10 rule, yet all three pass `validate_score` as written |
| Serializers.ValidateScoreIntended | api_yamdb/reviews/models.py:109-118 | the intended score check accepts a score exactly when it lies in 1..10 and returns it unchanged |
| Serializers.TrimStartCutsSpace | api_yamdb/reviews/models.py:96-99 | trimming the front of the text keeps a suffix of it, cuts only whitespace, and stops at the first other character |
| Serializers.TrimEndCutsSpace | api_yamdb/reviews/models.py:96-99 | trimming the back of the text keeps a prefix of it, cuts only whitespace, and stops at the last other character |
| Serializers.StripCutsSpace | api_yamdb/reviews/models.py:96-99 | the text field's whitespace trimming leaves a slice of the text with only whitespace cut off either end; the result neither starts nor ends with whitespace, and it is empty exactly when the text is all whitespace |
| Serializers.StripKeepsTrimmed | api_yamdb/reviews/models.py:96-99 | a text that neither starts nor ends with whitespace is kept as it is |
| Serializers.StripIdempotent | api_yamdb/reviews/models.py:96-99 | trimming an already trimmed text changes nothing |
| Serializers.ValidateFields | api_yamdb/reviews/models.py:96-118 | the serializer's generated fields accept a payload exactly when its stripped text is non-blank and at most 200 characters and its score lies in 1..10; a blank text is reported first, then a too-long one, then a bad score; accepted data carries the stripped text and the score unchanged |
| Serializers.ValidateFieldsIdempotent | api_yamdb/reviews/models.py:96-118 | a payload the fields accepted is accepted again unchanged |
| Serializers.Validate | api_yamdb/api/serializers.py:27-36 | a missing title gives not-found before the duplicate check; on POST, an existing review by the user for the title gives the "already reviewed" error; any other method never gives it; on success the data comes back unchanged |
| Serializers.AcceptedPostKeepsUnique | api_yamdb/api/serializers.py:31-35 | storing a review after `validate` accepted the POST never hits the (title, author) constraint and keeps it satisfied |
| Serializers.SubmitReview | api_yamdb/api/serializers.py:22-36 | field errors come first (blank text, then text too long, then score out of range); then a missing title gives not-found and an existing review by the user gives "already reviewed"; a POST is stored exactly when the title exists, the stripped text is non-blank and fits, the score lies in 1..10 and the user has not reviewed the title; on success the only change to the store is the new review, with the stripped text, under the requesting user and the URL's title; `Valid` is preserved |
| Serializers.SubmitReviewAsWritten | api_yamdb/api/serializers.py:22-36 | with the literal score check, an out-of-range score is still refused (`ScoreOutOfRange`) by the model's score validators on the generated field, before `validate`; blank and too-long texts are refused first; it succeeds exactly when the title exists, the stripped text is non-blank and fits, the score lies in 1..10 and the user has not reviewed the title; on success the only change is the new review with the stripped text; `Valid` is preserved |
| Serializers.StoreBoundsTheScore | api_yamdb/api/serializers.py:23 | the submission with the literal score check and the one with the intended check give the same result on every input, and every out-of-range score is refused |
| Serializers.SubmitUpdate | api_yamdb/api/serializers.py:31-36 | an update is never refused as "already reviewed", even when the user's review exists; a review that is missing or belongs to another title gives not-found, then field errors follow; it succeeds exactly when the review belongs to the URL's title, that title exists, the stripped text is non-blank and fits, and the score lies in 1..10; on success only the review's text (stripped) and score change, and its title, author and date and every other row stay; `Valid` is preserved |

## Left out

- The ORM and DRF machinery: querysets, managers, the `SlugRelatedField` rendering of author and title, and how `ModelSerializer` generates its fields (only the text and score checks of those fields are modelled, in `ValidateFields`). The store is plain maps and the request is a (method, user, title id) triple.
- The title lookup `get_object_or_404('Title', ...)` passes a string where Django expects a model. It is modelled abstractly as "the title id is stored, else `NotFound`".
- `Title.year`: its validator `validate_year` is not part of this model, and the field uses a date-time `format` argument. Nothing about the year can be checked.
- `Title.rating` is only declared: it is nullable, defaults to None, and no code shown computes it. A new title gets `None`.
- Automatic timestamps: `auto_now_add` reads the clock, so `pub_date` is a supplied natural number.
- Slug character-set validation: this is the SlugField regular expression. Only slug length and uniqueness are modelled.
- Empty-string checks (`blank=False`) on stored rows: Django enforces them only in model or form validation, never on save, so the store accepts empty text, names and slugs. For reviews, the serializer's text field refuses blank text (`ValidateFields`). Categories, genres, titles and comments have no serializer in this model.
- Category and Title ordering by title: this is a database collation order on strings. Genre's `ordering = ['name']` names a field that does not exist.
- Verbose names and `__str__`: cosmetic.
- The commented-out User model: it is unfinished. `author` is the raw integer the schema declares.
- Django's `Model.save()` does not run field validators itself. `CreateReview` and `UpdateReview` refuse what the declared validators forbid, as a full model validation would, so the store invariant is the schema as declared.
- Serializers.ValidateFields: DRF reports every failing field at once. The model reports only the first, text before score.
- Concurrency: the serializer's duplicate check reads and then writes, without atomicity. The model is sequential, and the store's `unique_review` constraint is the backstop (`CreateReview` refuses a duplicate on its own).
- Updating or deleting single comments, and updating titles, categories and genres, are not modelled. The schema's rules for them are field bounds, unique slugs and foreign keys, and `Valid` already states all of them.
- Ordering.ReviewsOf: it does not model which of several reviews with equal `pub_date` comes first. The database leaves that order unspecified.
- Serializers.SubmitUpdate: PATCH with missing fields is not modelled. The payload always carries both text and score.
- Serializers.SubmitUpdate: the view that resolves the review, and any permission check on who may edit it, are not part of this model. The lookup of the review among the URL title's reviews is the model's assumption about that view.
- Serializers.ValidateFields: DRF's `CharField` also refuses text containing the NUL character, and text containing surrogate code points. The NUL check is not modelled. A Dafny `char` is never a surrogate, so the model cannot receive such text at all.

## Findings

| source | as written | input that shows it | evidently intended | confidence | as-written member | corrected member |
|---|---|---|---|---|---|---|
| api_yamdb/api/serializers.py:23 | `if 0 > value > 10:` means `0 > value and value > 10`, which no integer satisfies, so `validate_score` never raises | score 11 (also 0 or -1) passes `validate_score` unchanged | raise unless 1 <= value <= 10, matching the model's validators | high; not executed | Serializers.ValidateScore | Serializers.ValidateScoreIntended |
