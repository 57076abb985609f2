/**
 The review submission gate of `api/serializers.py`: the checks of the fields
 the serializer generates from the Review model, `validate_score`, which runs
 on the score field after them, and `validate`, which runs on the whole
 payload. The view is not part of this model; the submissions below assume
 it runs the serializer and then writes the store, looking the review up among
 the URL title's reviews first on an update.

 The request is reduced to what `validate` reads from its context: the HTTP
 method, the requesting user and the `title_id` of the URL. Looking the title
 up answers `NotFound` when no such title is stored.
 */
module Serializers {
  import opened Models

  /** The writable fields of a review payload. */
  datatype ReviewData = ReviewData(text: string, score: int)

  datatype Request = Request(verb: string, user: int, titleId: Id)

  const Post := "POST"

  // ---------------------------------------------------------------------------
  // validate_score
  // ---------------------------------------------------------------------------

  /** The guard of `validate_score`, a chained comparison: `0 > value && value > 10`. */
  predicate ScoreGuard(value: int) {
    0 > value > 10
  }

  /** `validate_score` as written: its guard never holds, so every score passes unchanged. */
  function ValidateScore(value: int): (r: Result<int>)
    ensures r == Ok(value)
  {
    if ScoreGuard(value) then Err(ScoreRejected) else Ok(value)
  }

  /** Scores the schema forbids pass `validate_score` as written. */
  lemma ValidateScoreAcceptsOutOfRange()
    ensures ValidateScore(0) == Ok(0) && !ScoreInRange(0)
    ensures ValidateScore(11) == Ok(11) && !ScoreInRange(11)
    ensures ValidateScore(-1) == Ok(-1) && !ScoreInRange(-1)
  {
  }

  /** `validate_score` as intended: exactly the scores the schema allows pass, unchanged. */
  function ValidateScoreIntended(value: int): (r: Result<int>)
    ensures r.Ok? <==> ScoreInRange(value)
    ensures r.Ok? ==> r.value == value
    ensures r.Err? ==> r.error == ScoreRejected
  {
    if 1 <= value <= 10 then Ok(value) else Err(ScoreRejected)
  }

  // ---------------------------------------------------------------------------
  // validate
  // ---------------------------------------------------------------------------

  /** `validate`: look the title up, then refuse a second review by the same user on POST. */
  function Validate(s: Store, req: Request, data: ReviewData): (r: Result<ReviewData>)
    ensures req.titleId !in s.titles ==> r == Err(NotFound)
    ensures (req.titleId in s.titles && req.verb == Post &&
             HasReview(s.reviews, req.titleId, req.user)) ==> r == Err(AlreadyReviewed)
    ensures r.Ok? <==>
              req.titleId in s.titles && (req.verb == Post ==> !HasReview(s.reviews, req.titleId, req.user))
    ensures req.verb != Post && req.titleId in s.titles ==> r == Ok(data)
    ensures r.Ok? ==> r.value == data
  {
    if req.titleId !in s.titles then Err(NotFound)
    else if req.verb == Post && HasReview(s.reviews, req.titleId, req.user) then Err(AlreadyReviewed)
    else Ok(data)
  }

  /** A POST that `validate` accepts can be stored without breaking unique_review. */
  lemma AcceptedPostKeepsUnique(s: Store, req: Request, data: ReviewData, id: Id, pubDate: nat)
    requires OneReviewPerAuthor(s.reviews) && id !in s.reviews
    requires req.verb == Post && Validate(s, req, data).Ok?
    ensures CreateReview(s, id, req.titleId, data.text, req.user, data.score, pubDate) != Err(DuplicateReview)
    ensures var r := CreateReview(s, id, req.titleId, data.text, req.user, data.score, pubDate);
            r.Ok? ==> OneReviewPerAuthor(r.value.reviews)
  {
  }

  // ---------------------------------------------------------------------------
  // Field validation
  // ---------------------------------------------------------------------------

  /** The characters Python's `str.strip()` removes: those for which `isspace()` holds. */
  predicate IsSpace(c: char) {
    var n := c as int;
    || 0x09 <= n <= 0x0D || 0x1C <= n <= 0x20 || n == 0x85 || n == 0xA0 || n == 0x1680
    || 0x2000 <= n <= 0x200A || n == 0x2028 || n == 0x2029 || n == 0x202F || n == 0x205F
    || n == 0x3000
  }

  /** Drops leading whitespace. */
  function TrimStart(s: string): string
    decreases |s|
  {
    if s != [] && IsSpace(s[0]) then TrimStart(s[1..]) else s
  }

  /** Drops trailing whitespace. */
  function TrimEnd(s: string): string
    decreases |s|
  {
    if s != [] && IsSpace(s[|s| - 1]) then TrimEnd(s[..|s| - 1]) else s
  }

  /**
   `str.strip()`, which the generated text field applies (trim_whitespace).
   */
  function Strip(s: string): string {
    TrimEnd(TrimStart(s))
  }

  /** `TrimStart` keeps a suffix, cuts only whitespace, and stops at the first other character. */
  lemma {:induction false} TrimStartCutsSpace(s: string)
    ensures var r := TrimStart(s);
            && |r| <= |s| && r == s[|s| - |r|..]
            && (forall i :: 0 <= i < |s| - |r| ==> IsSpace(s[i]))
            && (r != [] ==> !IsSpace(r[0]))
    decreases |s|
  {
    if s != [] && IsSpace(s[0]) {
      TrimStartCutsSpace(s[1..]);
    }
  }

  /** `TrimEnd` keeps a prefix, cuts only whitespace, and stops at the last other character. */
  lemma {:induction false} TrimEndCutsSpace(s: string)
    ensures var r := TrimEnd(s);
            && |r| <= |s| && r == s[..|r|]
            && (forall i :: |r| <= i < |s| ==> IsSpace(s[i]))
            && (r != [] ==> !IsSpace(r[|r| - 1]))
    decreases |s|
  {
    if s != [] && IsSpace(s[|s| - 1]) {
      var t := s[..|s| - 1];
      TrimEndCutsSpace(t);
      var r := TrimEnd(t);
      assert r == s[..|r|] by {
        assert t[..|r|] == s[..|r|];
      }
    }
  }

  /** `r` sits at offset `i` in `s`, and everything around it is whitespace. */
  predicate PaddedBySpace(s: string, i: nat, r: string) {
    && i + |r| <= |s|
    && r == s[i..i + |r|]
    && (forall k :: 0 <= k < i ==> IsSpace(s[k]))
    && (forall k :: i + |r| <= k < |s| ==> IsSpace(s[k]))
  }

  /**
   Stripping cuts only whitespace, from either end, and leaves a text that
   neither starts nor ends with whitespace; it leaves nothing exactly when
   the text is all whitespace.
   */
  lemma StripCutsSpace(s: string)
    ensures exists i: nat :: PaddedBySpace(s, i, Strip(s))
    ensures Strip(s) != [] ==> !IsSpace(Strip(s)[0]) && !IsSpace(Strip(s)[|Strip(s)| - 1])
    ensures Strip(s) == [] <==> forall k :: 0 <= k < |s| ==> IsSpace(s[k])
  {
    var front := TrimStart(s);
    var r := TrimEnd(front);
    TrimStartCutsSpace(s);
    TrimEndCutsSpace(front);
    var i := |s| - |front|;
    forall k | i + |r| <= k < |s|
      ensures IsSpace(s[k])
    {
      assert s[k] == front[k - i];
    }
    assert r == s[i..i + |r|];
    assert Strip(s) == r;
    assert PaddedBySpace(s, i, Strip(s));
    if r != [] {
      assert s[i] == r[0];
      assert !IsSpace(r[|r| - 1]);
    }
  }

  /** A text without surrounding whitespace is kept as it is. */
  lemma StripKeepsTrimmed(s: string)
    requires s != [] ==> !IsSpace(s[0]) && !IsSpace(s[|s| - 1])
    ensures Strip(s) == s
  {
  }

  /** Stripping twice changes nothing more. */
  lemma StripIdempotent(s: string)
    ensures Strip(Strip(s)) == Strip(s)
  {
    StripCutsSpace(s);
    StripKeepsTrimmed(Strip(s));
  }

  /**
   The checks the serializer's generated fields run before `validate_score`
   and `validate`. The text field strips surrounding whitespace, refuses a
   blank result (the model declares no blank=True) and applies max_length to
   what remains; the score field applies the model's validators. The first
   failing field is reported, and the accepted text is the stripped one.
   */
  function ValidateFields(data: ReviewData): (r: Result<ReviewData>)
    ensures r.Ok? <==> Strip(data.text) != [] && |Strip(data.text)| <= TextMaxLength && ScoreInRange(data.score)
    ensures Strip(data.text) == [] ==> r == Err(Blank)
    ensures Strip(data.text) != [] && |Strip(data.text)| > TextMaxLength ==> r == Err(TooLong)
    ensures (Strip(data.text) != [] && |Strip(data.text)| <= TextMaxLength &&
             !ScoreInRange(data.score)) ==> r == Err(ScoreOutOfRange)
    ensures r.Ok? ==> r.value == ReviewData(Strip(data.text), data.score)
  {
    var text := Strip(data.text);
    if text == [] then Err(Blank)
    else if |text| > TextMaxLength then Err(TooLong)
    else if !ScoreInRange(data.score) then Err(ScoreOutOfRange)
    else Ok(data.(text := text))
  }

  /** Accepted payloads are fixed points: validating them again gives them back. */
  lemma ValidateFieldsIdempotent(data: ReviewData)
    requires ValidateFields(data).Ok?
    ensures ValidateFields(ValidateFields(data).value) == ValidateFields(data)
  {
    StripIdempotent(data.text);
  }

  /** The fields accept a payload exactly when its text, as stored, is fine for the store. */
  predicate FieldsOk(data: ReviewData) {
    var text := Strip(data.text);
    text != [] && |text| <= TextMaxLength && ScoreInRange(data.score)
  }

  // ---------------------------------------------------------------------------
  // Submitting a review
  // ---------------------------------------------------------------------------

  /**
   Creating a review (POST) with the score check as intended: field
   validation, `validate_score`, `validate`, then the insert with the
   requesting user and the URL's title.
   */
  function SubmitReview(s: Store, id: Id, user: int, titleId: Id, data: ReviewData, pubDate: nat): (r: Result<Store>)
    requires id !in s.reviews
    ensures r.Ok? <==> FieldsOk(data) && titleId in s.titles && !HasReview(s.reviews, titleId, user)
    ensures r.Ok? ==>
              r.value == s.(reviews := s.reviews[id := Review(titleId, Strip(data.text), user, data.score, pubDate)])
    ensures !FieldsOk(data) ==> r == ValidateFields(data).PropagateFailure()
    ensures FieldsOk(data) && titleId !in s.titles ==> r == Err(NotFound)
    ensures (FieldsOk(data) && titleId in s.titles &&
             HasReview(s.reviews, titleId, user)) ==> r == Err(AlreadyReviewed)
    ensures Valid(s) && r.Ok? ==> Valid(r.value)
  {
    var fields :- ValidateFields(data);
    match ValidateScoreIntended(fields.score)
    case Err(e) => Err(e)
    case Ok(score) =>
      var d :- Validate(s, Request(Post, user, titleId), fields.(score := score));
      CreateReview(s, id, titleId, d.text, user, d.score, pubDate)
  }

  /** The same submission with `validate_score` as written. */
  function SubmitReviewAsWritten(s: Store, id: Id, user: int, titleId: Id, data: ReviewData, pubDate: nat): (r: Result<Store>)
    requires id !in s.reviews
    ensures r.Ok? <==> FieldsOk(data) && titleId in s.titles && !HasReview(s.reviews, titleId, user)
    ensures r.Ok? ==>
              r.value == s.(reviews := s.reviews[id := Review(titleId, Strip(data.text), user, data.score, pubDate)])
    ensures !FieldsOk(data) ==> r == ValidateFields(data).PropagateFailure()
    ensures FieldsOk(data) && titleId !in s.titles ==> r == Err(NotFound)
    ensures (FieldsOk(data) && titleId in s.titles &&
             HasReview(s.reviews, titleId, user)) ==> r == Err(AlreadyReviewed)
    ensures Valid(s) && r.Ok? ==> Valid(r.value)
  {
    var fields :- ValidateFields(data);
    match ValidateScore(fields.score)
    case Err(e) => Err(e)
    case Ok(score) =>
      var d :- Validate(s, Request(Post, user, titleId), fields.(score := score));
      CreateReview(s, id, titleId, d.text, user, d.score, pubDate)
  }

  /**
   The broken score check changes nothing: the score validators declared on
   the model already refuse every score that `validate_score` lets through.
   */
  lemma StoreBoundsTheScore(s: Store, id: Id, user: int, titleId: Id, data: ReviewData, pubDate: nat)
    requires id !in s.reviews
    ensures SubmitReviewAsWritten(s, id, user, titleId, data, pubDate) ==
            SubmitReview(s, id, user, titleId, data, pubDate)
    ensures !ScoreInRange(data.score) ==> SubmitReviewAsWritten(s, id, user, titleId, data, pubDate).Err?
  {
  }

  /**
   Updating a review (PUT or PATCH). The review is first looked up among the
   reviews of the URL's title (`NotFound` otherwise); then the serializer runs
   as for a create, except that `validate` skips the duplicate check, so an
   existing review by the same user never blocks the update.
   */
  function SubmitUpdate(s: Store, verb: string, reviewId: Id, user: int, titleId: Id, data: ReviewData): (r: Result<Store>)
    requires verb != Post
    ensures r != Err(AlreadyReviewed)
    ensures (reviewId !in s.reviews || s.reviews[reviewId].title != titleId) ==> r == Err(NotFound)
    ensures (reviewId in s.reviews && s.reviews[reviewId].title == titleId &&
             !FieldsOk(data)) ==> r == ValidateFields(data).PropagateFailure()
    ensures r.Ok? <==>
              reviewId in s.reviews && s.reviews[reviewId].title == titleId && titleId in s.titles
              && FieldsOk(data)
    ensures r.Ok? ==>
              r.value == s.(reviews := s.reviews[reviewId := s.reviews[reviewId].(text := Strip(data.text), score := data.score)])
    ensures Valid(s) && r.Ok? ==> Valid(r.value)
  {
    if reviewId !in s.reviews || s.reviews[reviewId].title != titleId then Err(NotFound)
    else
      var fields :- ValidateFields(data);
      match ValidateScoreIntended(fields.score)
      case Err(e) => Err(e)
      case Ok(score) =>
        var d :- Validate(s, Request(verb, user, titleId), fields.(score := score));
        UpdateReview(s, reviewId, d.text, d.score)
  }
}
