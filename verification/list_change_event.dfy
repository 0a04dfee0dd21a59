/** List-change events: what an observable list reports after a structural
    mutation. A change replaced the elements `removedElements` that were at
    index `from` by the elements now at `[from, to)`; an event is the list
    plus the non-empty sequence of its changes. */
module ListChangeEvent {
  import opened Wrappers

  /** The exceptions the constructors throw. */
  datatype Violation = NullPointerException | IllegalArgumentException

  datatype Change<T> = Change(from: int, to: int, removedElements: seq<T>)
  {
    /** What the constructor admits: a non-negative start and an end not
        before it. */
    predicate Valid() {
      0 <= from <= to
    }

    /** Elements were inserted and none removed. */
    predicate IsAdded() {
      |removedElements| == 0 && to > from
    }

    /** Elements were removed and none inserted. */
    predicate IsRemoved() {
      |removedElements| > 0 && to == from
    }

    /** Elements were removed and others inserted in their place. */
    predicate IsReplaced() {
      |removedElements| > 0 && to > from
    }

    /** Nothing inserted and nothing removed. */
    predicate IsDegenerate() {
      |removedElements| == 0 && to == from
    }
  }

  /** `new ListChangeEvent.Change<>(from, to, removedElements)`: `null`
      removed elements are refused first, then a negative `from` or a `to`
      before `from`. */
  function NewChange<T>(from: int, to: int, removedElements: Option<seq<T>>): (r: Result<Change<T>, Violation>)
    ensures r.Success? <==> removedElements.Some? && 0 <= from <= to
    ensures r.Success? ==> r.value.Valid()
    ensures r.Success? ==> r.value.from == from && r.value.to == to && r.value.removedElements == removedElements.value
    ensures removedElements.None? ==> r == Failure(NullPointerException)
    ensures removedElements.Some? && (from < 0 || to < from) ==> r == Failure(IllegalArgumentException)
  {
    match removedElements
    case None => Failure(NullPointerException)
    case Some(removed) =>
      if from < 0 then Failure(IllegalArgumentException)
      else if from > to then Failure(IllegalArgumentException)
      else Success(Change(from, to, removed))
  }

  /** For a valid change at most one classification holds; exactly one
      unless nothing was inserted and nothing removed, and none when
      nothing was. */
  lemma ClassificationExclusive<T>(c: Change<T>)
    requires c.Valid()
    ensures !(c.IsAdded() && c.IsRemoved())
    ensures !(c.IsAdded() && c.IsReplaced())
    ensures !(c.IsRemoved() && c.IsReplaced())
    ensures c.IsAdded() || c.IsRemoved() || c.IsReplaced() || c.IsDegenerate()
    ensures c.IsDegenerate() ==> !c.IsAdded() && !c.IsRemoved() && !c.IsReplaced()
  {
  }

  datatype ListChangeEvent<T> = ListChangeEvent(source: seq<T>, changes: seq<Change<T>>)
  {
    /** Every event has at least one change, and every change is valid. */
    predicate Valid() {
      |changes| > 0 && forall i :: 0 <= i < |changes| ==> changes[i].Valid()
    }
  }

  /** `new ListChangeEvent<>(source, changes)`: a `null` source and then a
      `null` change list are refused, then an empty change list. The
      changes themselves are `Change` objects and so already valid. */
  function NewEvent<T>(source: Option<seq<T>>, changes: Option<seq<Change<T>>>): (r: Result<ListChangeEvent<T>, Violation>)
    requires changes.Some? ==> forall i :: 0 <= i < |changes.value| ==> changes.value[i].Valid()
    ensures r.Success? <==> source.Some? && changes.Some? && |changes.value| > 0
    ensures r.Success? ==> r.value.Valid()
    ensures r.Success? ==> r.value.source == source.value && r.value.changes == changes.value
    ensures source.None? || changes.None? ==> r == Failure(NullPointerException)
    ensures source.Some? && changes.Some? && |changes.value| == 0 ==> r == Failure(IllegalArgumentException)
  {
    match (source, changes)
    case (None, _) => Failure(NullPointerException)
    case (_, None) => Failure(NullPointerException)
    case (Some(list), Some(cs)) =>
      if |cs| == 0 then Failure(IllegalArgumentException)
      else Success(ListChangeEvent(list, cs))
  }

  /** `new ListChangeEvent<>(source, from, to, removedElements)`: the single
      change is constructed first, as the argument of the delegated
      constructor, so its violations are reported before a `null` source.
      A successful event holds exactly that one change. */
  function NewSingleChangeEvent<T>(source: Option<seq<T>>, from: int, to: int, removedElements: Option<seq<T>>): (r: Result<ListChangeEvent<T>, Violation>)
    ensures r.Success? <==> source.Some? && removedElements.Some? && 0 <= from <= to
    ensures r.Success? ==> r.value.Valid() && r.value.source == source.value
    ensures r.Success? ==> r.value.changes == [Change(from, to, removedElements.value)]
    ensures NewChange(from, to, removedElements).Failure? ==> r == Failure(NewChange(from, to, removedElements).error)
    ensures r.Failure? && NewChange(from, to, removedElements).Success? ==> r.error == NullPointerException
  {
    match NewChange(from, to, removedElements)
    case Failure(e) => Failure(e)
    case Success(c) => NewEvent(source, Some([c]))
  }

  /** Inserting elements without removing any is classified as added only;
      the event's change at index 0 is that insertion. */
  lemma InsertionIsAddedOnly<T>(source: seq<T>, from: int, to: int)
    requires 0 <= from < to
    ensures var r := NewSingleChangeEvent(Some(source), from, to, Some([]));
      && r.Success?
      && r.value.changes[0] == Change(from, to, [])
      && r.value.changes[0].IsAdded()
      && !r.value.changes[0].IsRemoved()
      && !r.value.changes[0].IsReplaced()
  {
  }

  /** Removing elements without inserting any is classified as removed only. */
  lemma RemovalIsRemovedOnly<T>(source: seq<T>, at: int, removed: seq<T>)
    requires 0 <= at && |removed| > 0
    ensures var r := NewSingleChangeEvent(Some(source), at, at, Some(removed));
      && r.Success?
      && r.value.changes[0] == Change(at, at, removed)
      && !r.value.changes[0].IsAdded()
      && r.value.changes[0].IsRemoved()
      && !r.value.changes[0].IsReplaced()
  {
  }

  /** Removing elements and inserting others is classified as replaced only. */
  lemma ReplacementIsReplacedOnly<T>(source: seq<T>, from: int, to: int, removed: seq<T>)
    requires 0 <= from < to && |removed| > 0
    ensures var r := NewSingleChangeEvent(Some(source), from, to, Some(removed));
      && r.Success?
      && r.value.changes[0] == Change(from, to, removed)
      && !r.value.changes[0].IsAdded()
      && !r.value.changes[0].IsRemoved()
      && r.value.changes[0].IsReplaced()
  {
  }

  /** The rejected constructions, on the values the tests use: a negative
      `from` or a `to` before `from` is an illegal argument, `null` removed
      elements, a `null` source or a `null` change list is a null pointer,
      and an empty change list is an illegal argument. */
  lemma RejectedConstructions()
    ensures NewChange<string>(-1, 1, Some([])) == Failure(IllegalArgumentException)
    ensures NewChange<string>(1, 0, Some([])) == Failure(IllegalArgumentException)
    ensures NewChange<string>(0, 1, None) == Failure(NullPointerException)
    ensures NewEvent<string>(None, Some([Change(0, 1, [])])) == Failure(NullPointerException)
    ensures NewEvent<string>(Some(["Hello", "World"]), None) == Failure(NullPointerException)
    ensures NewEvent<string>(Some(["Hello", "World"]), Some([])) == Failure(IllegalArgumentException)
  {
  }
}
