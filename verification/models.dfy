/**
 The review store of `reviews/models.py`: the Category, Genre, Title, Review
 and Comment tables as id-keyed maps, the integrity rules the schema declares
 (field lengths, score range, unique slugs, one review per title and author,
 foreign keys), and the write operations with their cascade semantics.

 Primary keys are allocated by the database. An operation that inserts a row
 takes the new key as an argument and requires it to be unused, which is what
 the allocator guarantees.
 */
module Models {

  type Id = nat

  const SlugMaxLength := 50
  const LabelTitleMaxLength := 250
  const TitleNameMaxLength := 200
  const TextMaxLength := 200
  const MinScore := 1
  const MaxScore := 10

  datatype Option<+T> = None | Some(value: T)

  /**
   Why a write is refused. The last three are raised by the review serializer,
   not the store; they share this type because a submission goes through both
   and answers with one `Result`.
   */
  datatype Error =
    | NotFound          // a referenced row does not exist (also get_object_or_404)
    | TooLong           // a CharField or SlugField exceeds its max_length
    | SlugTaken         // a slug declared unique=True is already in use
    | ScoreOutOfRange   // Review.score fails MinValueValidator(1) / MaxValueValidator(10)
    | DuplicateReview   // the UniqueConstraint on (title, author)
    | AlreadyReviewed   // the review serializer's duplicate check on POST
    | ScoreRejected     // the review serializer's own score check
    | Blank             // the serializer's text field refuses empty or whitespace-only text

  datatype Result<+T> = Ok(value: T) | Err(error: Error) {
    predicate IsFailure() {
      Err?
    }

    function PropagateFailure<U>(): Result<U>
      requires Err?
    {
      Err(error)
    }

    function Extract(): T
      requires Ok?
    {
      value
    }
  }

  /** Category and Genre declare the same fields: a unique slug and a display title. */
  datatype Label = Label(slug: string, title: string)

  /** A reviewable work. `title` is its name; `rating` is declared but never computed. */
  datatype Title = Title(category: Option<Id>, genre: set<Id>, rating: Option<int>, title: string)

  /** `author` is a raw integer user id in the schema, not a foreign key. */
  datatype Review = Review(title: Id, text: string, author: int, score: int, pubDate: nat)

  datatype Comment = Comment(review: Id, text: string, author: int, pubDate: nat)

  datatype Store = Store(
    categories: map<Id, Label>,
    genres: map<Id, Label>,
    titles: map<Id, Title>,
    reviews: map<Id, Review>,
    comments: map<Id, Comment>)

  const Empty := Store(map[], map[], map[], map[], map[])

  /** A fresh database satisfies every rule, so each write starts from a valid store. */
  lemma EmptyValid()
    ensures Valid(Empty)
  {
  }

  // ---------------------------------------------------------------------------
  // Integrity rules
  // ---------------------------------------------------------------------------

  predicate LabelFits(l: Label) {
    |l.slug| <= SlugMaxLength && |l.title| <= LabelTitleMaxLength
  }

  predicate ScoreInRange(score: int) {
    MinScore <= score <= MaxScore
  }

  predicate SlugUsed(m: map<Id, Label>, slug: string) {
    exists k :: k in m && m[k].slug == slug
  }

  predicate SlugsUnique(m: map<Id, Label>) {
    forall a, b :: a in m && b in m && m[a].slug == m[b].slug ==> a == b
  }

  /** Some review of `title` is written by `author`. */
  predicate HasReview(reviews: map<Id, Review>, title: Id, author: int) {
    exists k :: k in reviews && reviews[k].title == title && reviews[k].author == author
  }

  /** The UniqueConstraint named unique_review: (title, author) identifies a review. */
  predicate OneReviewPerAuthor(reviews: map<Id, Review>) {
    forall a, b ::
      a in reviews && b in reviews &&
      reviews[a].title == reviews[b].title && reviews[a].author == reviews[b].author
      ==> a == b
  }

  predicate TitleOk(s: Store, t: Title) {
    && |t.title| <= TitleNameMaxLength
    && (t.category.Some? ==> t.category.value in s.categories)
    && t.genre <= s.genres.Keys
  }

  predicate ReviewOk(s: Store, r: Review) {
    r.title in s.titles && |r.text| <= TextMaxLength && ScoreInRange(r.score)
  }

  predicate CommentOk(s: Store, c: Comment) {
    c.review in s.reviews && |c.text| <= TextMaxLength
  }

  /** Everything the schema promises about the stored rows. */
  predicate Valid(s: Store) {
    && (forall k :: k in s.categories ==> LabelFits(s.categories[k]))
    && (forall k :: k in s.genres ==> LabelFits(s.genres[k]))
    && SlugsUnique(s.categories)
    && SlugsUnique(s.genres)
    && (forall k :: k in s.titles ==> TitleOk(s, s.titles[k]))
    && (forall k :: k in s.reviews ==> ReviewOk(s, s.reviews[k]))
    && OneReviewPerAuthor(s.reviews)
    && (forall k :: k in s.comments ==> CommentOk(s, s.comments[k]))
  }

  // ---------------------------------------------------------------------------
  // Categories and genres
  // ---------------------------------------------------------------------------

  /** Inserts a Category or Genre row, enforcing max_length and the unique slug. */
  function InsertLabel(m: map<Id, Label>, id: Id, l: Label): (r: Result<map<Id, Label>>)
    requires id !in m
    ensures r.Ok? <==> LabelFits(l) && !SlugUsed(m, l.slug)
    ensures !LabelFits(l) ==> r == Err(TooLong)
    ensures LabelFits(l) && SlugUsed(m, l.slug) ==> r == Err(SlugTaken)
    ensures r.Ok? ==> r.value.Keys == m.Keys + {id} && r.value[id] == l
    ensures r.Ok? ==> forall k :: k in m ==> r.value[k] == m[k]
    ensures SlugsUnique(m) && r.Ok? ==> SlugsUnique(r.value)
  {
    if !LabelFits(l) then Err(TooLong)
    else if SlugUsed(m, l.slug) then Err(SlugTaken)
    else Ok(m[id := l])
  }

  function AddCategory(s: Store, id: Id, c: Label): (r: Result<Store>)
    requires id !in s.categories
    ensures r.Ok? <==> LabelFits(c) && !SlugUsed(s.categories, c.slug)
    ensures r.Ok? ==> r.value == s.(categories := s.categories[id := c])
    ensures Valid(s) && r.Ok? ==> Valid(r.value)
  {
    var m :- InsertLabel(s.categories, id, c);
    Ok(s.(categories := m))
  }

  function AddGenre(s: Store, id: Id, g: Label): (r: Result<Store>)
    requires id !in s.genres
    ensures r.Ok? <==> LabelFits(g) && !SlugUsed(s.genres, g.slug)
    ensures r.Ok? ==> r.value == s.(genres := s.genres[id := g])
    ensures Valid(s) && r.Ok? ==> Valid(r.value)
  {
    var m :- InsertLabel(s.genres, id, g);
    Ok(s.(genres := m))
  }

  function ClearCategory(t: Title, c: Id): Title {
    if t.category == Some(c) then t.(category := None) else t
  }

  /** on_delete=SET_NULL: the category goes, the titles stay and lose the link. */
  function DeleteCategory(s: Store, c: Id): (r: Result<Store>)
    ensures r.Ok? <==> c in s.categories
    ensures r.Ok? ==> r.value.categories == s.categories - {c}
    ensures r.Ok? ==> r.value.titles.Keys == s.titles.Keys
    ensures r.Ok? ==> forall k :: k in s.titles && s.titles[k].category == Some(c) ==>
                        r.value.titles[k] == s.titles[k].(category := None)
    ensures r.Ok? ==> forall k :: k in s.titles && s.titles[k].category != Some(c) ==>
                        r.value.titles[k] == s.titles[k]
    ensures r.Ok? ==> r.value.genres == s.genres && r.value.reviews == s.reviews
                      && r.value.comments == s.comments
    ensures Valid(s) && r.Ok? ==> Valid(r.value)
  {
    if c !in s.categories then Err(NotFound)
    else
      var titles := map k | k in s.titles :: ClearCategory(s.titles[k], c);
      CategoryGoneKeepsValid(s, c, titles);
      Ok(s.(categories := s.categories - {c}, titles := titles))
  }

  /** With the category nulled out of every title, no title points at it any more. */
  lemma CategoryGoneKeepsValid(s: Store, c: Id, titles: map<Id, Title>)
    requires titles.Keys == s.titles.Keys
    requires forall k :: k in titles ==> titles[k] == ClearCategory(s.titles[k], c)
    ensures Valid(s) ==> Valid(s.(categories := s.categories - {c}, titles := titles))
  {
  }

  /** Deleting a Genre drops its rows of the many-to-many table only. */
  function DeleteGenre(s: Store, g: Id): (r: Result<Store>)
    ensures r.Ok? <==> g in s.genres
    ensures r.Ok? ==> r.value.genres == s.genres - {g}
    ensures r.Ok? ==> r.value.titles.Keys == s.titles.Keys
    ensures r.Ok? ==> forall k :: k in s.titles ==>
                        r.value.titles[k] == s.titles[k].(genre := s.titles[k].genre - {g})
    ensures r.Ok? ==> r.value.categories == s.categories && r.value.reviews == s.reviews
                      && r.value.comments == s.comments
    ensures Valid(s) && r.Ok? ==> Valid(r.value)
  {
    if g !in s.genres then Err(NotFound)
    else
      var titles := map k | k in s.titles :: s.titles[k].(genre := s.titles[k].genre - {g});
      GenreGoneKeepsValid(s, g, titles);
      Ok(s.(genres := s.genres - {g}, titles := titles))
  }

  /** With the genre dropped from every title's genre set, no title points at it any more. */
  lemma GenreGoneKeepsValid(s: Store, g: Id, titles: map<Id, Title>)
    requires titles.Keys == s.titles.Keys
    requires forall k :: k in titles ==> titles[k] == s.titles[k].(genre := s.titles[k].genre - {g})
    ensures Valid(s) ==> Valid(s.(genres := s.genres - {g}, titles := titles))
  {
  }

  // ---------------------------------------------------------------------------
  // Titles
  // ---------------------------------------------------------------------------

  /** A new title has no rating; its category and genres must exist. */
  function AddTitle(s: Store, id: Id, category: Option<Id>, genre: set<Id>, name: string): (r: Result<Store>)
    requires id !in s.titles
    ensures r.Ok? <==> TitleOk(s, Title(category, genre, None, name))
    ensures |name| > TitleNameMaxLength ==> r == Err(TooLong)
    ensures r.Ok? ==> r.value == s.(titles := s.titles[id := Title(category, genre, None, name)])
    ensures Valid(s) && r.Ok? ==> Valid(r.value)
  {
    if |name| > TitleNameMaxLength then Err(TooLong)
    else if category.Some? && category.value !in s.categories then Err(NotFound)
    else if !(genre <= s.genres.Keys) then Err(NotFound)
    else
      TitleAddedKeepsValid(s, id, Title(category, genre, None, name));
      Ok(s.(titles := s.titles[id := Title(category, genre, None, name)]))
  }

  /** A title whose references resolve can join the store without breaking a rule. */
  lemma TitleAddedKeepsValid(s: Store, id: Id, t: Title)
    requires id !in s.titles && TitleOk(s, t)
    ensures Valid(s) ==> Valid(s.(titles := s.titles[id := t]))
  {
  }

  /** on_delete=CASCADE twice: the title's reviews go, and so do their comments. */
  function DeleteTitle(s: Store, t: Id): (r: Result<Store>)
    ensures r.Ok? <==> t in s.titles
    ensures r.Ok? ==> r.value.titles.Keys == s.titles.Keys - {t}
    ensures r.Ok? ==> forall k :: k in r.value.reviews <==> k in s.reviews && s.reviews[k].title != t
    ensures r.Ok? ==> forall k :: k in r.value.reviews ==> r.value.reviews[k] == s.reviews[k]
    ensures r.Ok? ==> forall a :: !HasReview(r.value.reviews, t, a)
    ensures Valid(s) && r.Ok? ==>
              forall k :: k in r.value.comments <==>
                k in s.comments && s.reviews[s.comments[k].review].title != t
    ensures r.Ok? ==> forall k :: k in r.value.comments ==> k in s.comments && r.value.comments[k] == s.comments[k]
    ensures r.Ok? ==> forall k :: k in s.titles && k != t ==> r.value.titles[k] == s.titles[k]
    ensures r.Ok? ==> r.value.categories == s.categories && r.value.genres == s.genres
  {
    if t !in s.titles then Err(NotFound)
    else
      var gone := set k | k in s.reviews && s.reviews[k].title == t;
      var comments := map k | k in s.comments && s.comments[k].review !in gone :: s.comments[k];
      CommentsOfGoneReviews(s, t, gone, comments);
      Ok(s.(titles := s.titles - {t}, reviews := s.reviews - gone, comments := comments))
  }

  /** In a valid store, the comments left are exactly those on reviews of other titles. */
  lemma CommentsOfGoneReviews(s: Store, t: Id, gone: set<Id>, comments: map<Id, Comment>)
    requires forall k :: k in gone <==> k in s.reviews && s.reviews[k].title == t
    requires forall k :: k in comments <==> k in s.comments && s.comments[k].review !in gone
    ensures Valid(s) ==>
              forall k :: k in comments <==> k in s.comments && s.reviews[s.comments[k].review].title != t
  {
  }

  /** Deleting a title leaves no review or comment pointing at a deleted row. */
  lemma DeleteTitleKeepsValid(s: Store, t: Id)
    requires Valid(s)
    requires DeleteTitle(s, t).Ok?
    ensures Valid(DeleteTitle(s, t).value)
  {
    var r := DeleteTitle(s, t).value;
    assert forall k :: k in r.reviews ==> ReviewOk(r, r.reviews[k]);
    assert forall k :: k in r.comments ==> CommentOk(r, r.comments[k]);
  }

  // ---------------------------------------------------------------------------
  // Reviews
  // ---------------------------------------------------------------------------

  /** Inserting a review row: field validation, then the unique_review constraint. */
  function CreateReview(s: Store, id: Id, title: Id, text: string, author: int, score: int, pubDate: nat): (r: Result<Store>)
    requires id !in s.reviews
    ensures r.Ok? <==>
              title in s.titles && |text| <= TextMaxLength && ScoreInRange(score)
              && !HasReview(s.reviews, title, author)
    ensures title in s.titles && |text| <= TextMaxLength && !ScoreInRange(score) ==>
              r == Err(ScoreOutOfRange)
    ensures (title in s.titles && |text| <= TextMaxLength && ScoreInRange(score) &&
             HasReview(s.reviews, title, author)) ==> r == Err(DuplicateReview)
    ensures r.Ok? ==> r.value == s.(reviews := s.reviews[id := Review(title, text, author, score, pubDate)])
    ensures OneReviewPerAuthor(s.reviews) && r.Ok? ==> OneReviewPerAuthor(r.value.reviews)
    ensures Valid(s) && r.Ok? ==> Valid(r.value)
  {
    if title !in s.titles then Err(NotFound)
    else if |text| > TextMaxLength then Err(TooLong)
    else if !ScoreInRange(score) then Err(ScoreOutOfRange)
    else if HasReview(s.reviews, title, author) then Err(DuplicateReview)
    else Ok(s.(reviews := s.reviews[id := Review(title, text, author, score, pubDate)]))
  }

  /** Updating the writable fields of a review; title, author and pub_date stay. */
  function UpdateReview(s: Store, id: Id, text: string, score: int): (r: Result<Store>)
    ensures r.Ok? <==> id in s.reviews && |text| <= TextMaxLength && ScoreInRange(score)
    ensures id in s.reviews && |text| <= TextMaxLength && !ScoreInRange(score) ==>
              r == Err(ScoreOutOfRange)
    ensures r.Ok? ==> r.value.reviews.Keys == s.reviews.Keys
    ensures r.Ok? ==> var before := s.reviews[id]; var after := r.value.reviews[id];
                      after.title == before.title && after.author == before.author
                      && after.pubDate == before.pubDate && after.text == text && after.score == score
    ensures r.Ok? ==> forall k :: k in s.reviews && k != id ==> r.value.reviews[k] == s.reviews[k]
    ensures r.Ok? ==> r.value.(reviews := s.reviews) == s
    ensures Valid(s) && r.Ok? ==> Valid(r.value)
  {
    if id !in s.reviews then Err(NotFound)
    else if |text| > TextMaxLength then Err(TooLong)
    else if !ScoreInRange(score) then Err(ScoreOutOfRange)
    else Ok(s.(reviews := s.reviews[id := s.reviews[id].(text := text, score := score)]))
  }

  /** on_delete=CASCADE: deleting a review deletes exactly its comments. */
  function DeleteReview(s: Store, id: Id): (r: Result<Store>)
    ensures r.Ok? <==> id in s.reviews
    ensures r.Ok? ==> r.value.reviews.Keys == s.reviews.Keys - {id}
    ensures r.Ok? ==> forall k :: k in r.value.reviews ==> r.value.reviews[k] == s.reviews[k]
    ensures r.Ok? ==> forall k :: k in r.value.comments <==> k in s.comments && s.comments[k].review != id
    ensures r.Ok? ==> forall k :: k in r.value.comments ==> r.value.comments[k] == s.comments[k]
    ensures r.Ok? ==> r.value.(reviews := s.reviews, comments := s.comments) == s
    ensures Valid(s) && r.Ok? ==> Valid(r.value)
  {
    if id !in s.reviews then Err(NotFound)
    else
      var comments := map k | k in s.comments && s.comments[k].review != id :: s.comments[k];
      ReviewGoneKeepsValid(s, id, comments);
      Ok(s.(reviews := s.reviews - {id}, comments := comments))
  }

  /** With the review's comments gone, no comment points at the deleted review. */
  lemma ReviewGoneKeepsValid(s: Store, id: Id, comments: map<Id, Comment>)
    requires forall k :: k in comments <==> k in s.comments && s.comments[k].review != id
    requires forall k :: k in comments ==> comments[k] == s.comments[k]
    ensures Valid(s) ==> Valid(s.(reviews := s.reviews - {id}, comments := comments))
  {
  }

  // ---------------------------------------------------------------------------
  // Comments
  // ---------------------------------------------------------------------------

  function AddComment(s: Store, id: Id, review: Id, text: string, author: int, pubDate: nat): (r: Result<Store>)
    requires id !in s.comments
    ensures r.Ok? <==> review in s.reviews && |text| <= TextMaxLength
    ensures review in s.reviews && |text| > TextMaxLength ==> r == Err(TooLong)
    ensures r.Ok? ==> r.value == s.(comments := s.comments[id := Comment(review, text, author, pubDate)])
    ensures Valid(s) && r.Ok? ==> Valid(r.value)
  {
    if review !in s.reviews then Err(NotFound)
    else if |text| > TextMaxLength then Err(TooLong)
    else Ok(s.(comments := s.comments[id := Comment(review, text, author, pubDate)]))
  }
}
