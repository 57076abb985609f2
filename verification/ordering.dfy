/**
 The default ordering `('-pub_date',)` that `reviews/models.py` declares for
 Review and Comment: a listing holds each selected row once, newest first.
 Rows with equal dates may come in any order, as in the database.
 */
module Ordering {
  import opened Models

  predicate AllIn(ids: seq<Id>, date: map<Id, nat>) {
    forall i :: 0 <= i < |ids| ==> ids[i] in date
  }

  predicate NoDuplicates(ids: seq<Id>) {
    forall i, j :: 0 <= i < j < |ids| ==> ids[i] != ids[j]
  }

  /** Publication dates never increase along the listing. */
  predicate NewestFirst(ids: seq<Id>, date: map<Id, nat>)
    requires AllIn(ids, date)
  {
    forall i, j :: 0 <= i < j < |ids| ==> date[ids[i]] >= date[ids[j]]
  }

  /** Puts `k` in front of the first row that is not newer than it. */
  function InsertNewestFirst(ids: seq<Id>, k: Id, date: map<Id, nat>): (r: seq<Id>)
    requires AllIn(ids, date) && k in date
    requires NewestFirst(ids, date)
    ensures multiset(r) == multiset(ids) + multiset{k}
    ensures forall x :: x in r <==> x in ids || x == k
    ensures AllIn(r, date)
    ensures NewestFirst(r, date)
    decreases |ids|
  {
    if ids == [] || date[k] >= date[ids[0]] then
      PrependNewest(k, ids, date);
      [k] + ids
    else
      var head, tail := ids[0], ids[1..];
      assert ids == [head] + tail;
      var rest := InsertNewestFirst(tail, k, date);
      PrependNewest(head, rest, date);
      [head] + rest
  }

  /**
   A row at least as new as the first of a newest-first listing, and as every
   row of it, can go in front.
   */
  lemma PrependNewest(x: Id, ids: seq<Id>, date: map<Id, nat>)
    requires AllIn(ids, date) && x in date && NewestFirst(ids, date)
    requires ids != [] ==> date[x] >= date[ids[0]]
    ensures AllIn([x] + ids, date)
    ensures NewestFirst([x] + ids, date)
  {
  }

  /** Inserting a row not yet listed keeps every row listed once. */
  lemma {:induction false} InsertKeepsDistinct(ids: seq<Id>, k: Id, date: map<Id, nat>)
    requires AllIn(ids, date) && k in date
    requires NewestFirst(ids, date)
    requires NoDuplicates(ids) && k !in ids
    ensures NoDuplicates(InsertNewestFirst(ids, k, date))
    decreases |ids|
  {
    if ids == [] || date[k] >= date[ids[0]] {
    } else {
      var head, tail := ids[0], ids[1..];
      assert ids == [head] + tail;
      assert NewestFirst(tail, date);
      assert NoDuplicates(tail);
      InsertKeepsDistinct(tail, k, date);
      assert head !in InsertNewestFirst(tail, k, date);
    }
  }

  /** The keys of `date`, each once, newest first. */
  method ListNewestFirst(date: map<Id, nat>) returns (ids: seq<Id>)
    ensures AllIn(ids, date)
    ensures forall k :: k in ids <==> k in date
    ensures NoDuplicates(ids)
    ensures NewestFirst(ids, date)
  {
    var rest := date.Keys;
    ids := [];
    while rest != {}
      invariant rest <= date.Keys
      invariant AllIn(ids, date)
      invariant forall k :: k in ids <==> k in date && k !in rest
      invariant NoDuplicates(ids)
      invariant NewestFirst(ids, date)
      decreases rest
    {
      var k :| k in rest;
      rest := rest - {k};
      InsertKeepsDistinct(ids, k, date);
      ids := InsertNewestFirst(ids, k, date);
    }
  }

  /** `title.reviews.all()`: the title's reviews, newest first. */
  method ReviewsOf(s: Store, title: Id) returns (ids: seq<Id>)
    ensures forall i :: 0 <= i < |ids| ==> ids[i] in s.reviews && s.reviews[ids[i]].title == title
    ensures forall k :: k in s.reviews && s.reviews[k].title == title ==> k in ids
    ensures NoDuplicates(ids)
    ensures forall i, j :: 0 <= i < j < |ids| ==> s.reviews[ids[i]].pubDate >= s.reviews[ids[j]].pubDate
    ensures Valid(s) ==>
              forall i, j :: 0 <= i < j < |ids| ==> s.reviews[ids[i]].author != s.reviews[ids[j]].author
  {
    var date := map k | k in s.reviews && s.reviews[k].title == title :: s.reviews[k].pubDate;
    ids := ListNewestFirst(date);
  }

  /** `review.comments.all()`: the review's comments, newest first. */
  method CommentsOf(s: Store, review: Id) returns (ids: seq<Id>)
    ensures forall i :: 0 <= i < |ids| ==> ids[i] in s.comments && s.comments[ids[i]].review == review
    ensures forall k :: k in s.comments && s.comments[k].review == review ==> k in ids
    ensures NoDuplicates(ids)
    ensures forall i, j :: 0 <= i < j < |ids| ==> s.comments[ids[i]].pubDate >= s.comments[ids[j]].pubDate
  {
    var date := map k | k in s.comments && s.comments[k].review == review :: s.comments[k].pubDate;
    ids := ListNewestFirst(date);
  }
}
