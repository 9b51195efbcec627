/**
 * What the books reducer promises across cases and across several steps:
 * the loading toggles, the rating clamp, what RateUp and RateDown replace,
 * what LoadBookSuccess keeps and drops, where AddBookSuccess breaks the
 * ordering and key-uniqueness of the list, and three concrete cases.
 */
module BooksReducerProperties {
  import opened Books
  import opened BookSort
  import opened BooksReducer

  // ---------------------------------------------------------------- loading

  /** A request raises the flag; the matching failure lowers it and changes nothing else. */
  lemma RequestThenFailure(s: State)
    ensures Reduce(s, LoadBooks).loading && Reduce(s, LoadBook).loading
    ensures Reduce(Reduce(s, LoadBooks), LoadBooksFail) == s.(loading := false)
    ensures Reduce(Reduce(s, LoadBook), LoadBookFail) == s.(loading := false)
  {
  }

  // ------------------------------------------------------------- sortedness

  /**
   * After LoadBooksSuccess, LoadBookSuccess, RateUp and RateDown, whatever
   * the list was before, no book is rated above its predecessor.
   */
  lemma SortedAfterResorting(s: State, a: Action)
    requires a.LoadBooksSuccess? || a.LoadBookSuccess? || a.RateUp? || a.RateDown?
    ensures var r := Reduce(s, a).books;
      forall i :: 0 <= i < |r| - 1 ==> r[i].rating >= r[i + 1].rating
  {
    SortedIffAdjacent(Reduce(s, a).books);
  }

  /** Every action but AddBookSuccess keeps a sorted list sorted. */
  lemma SortednessPreserved(s: State, a: Action)
    requires Sorted(s.books) && !a.AddBookSuccess?
    ensures Sorted(Reduce(s, a).books)
  {
  }

  // ---------------------------------------------------------------- ratings

  /** A book at the top rating keeps it on RateUp; one at the bottom keeps it on RateDown. */
  lemma ClampAtBounds(b: Book)
    ensures b.rating == MaxRating ==> Rated(b, true) == b
    ensures b.rating == MinRating ==> Rated(b, false) == b
  {
  }

  /** A rating within the bounds stays within them whichever way it is moved. */
  lemma RatedStaysInBounds(b: Book, up: bool)
    requires MinRating <= b.rating <= MaxRating
    ensures MinRating <= Rated(b, up).rating <= MaxRating
  {
  }

  /**
   * Only the bound in the direction of the step applies: a book loaded at
   * rating 7 is rated down to 6, not brought back to the top rating.
   */
  lemma RateDownAboveMax()
    ensures var x7 := Book("x", 7, "");
      Reduce(State([x7], false, None), RateDown(x7)).books == [Book("x", 6, "")]
  {
    var x7 := Book("x", 7, "");
    var r := Reduce(State([x7], false, None), RateDown(x7)).books;
    assert ReplaceByIsbn([x7], Rated(x7, false)) == [Book("x", 6, "")];
    assert |r| == |multiset(r)| == 1;
    assert r[0] in multiset(r);
  }

  /**
   * RateUp then RateDown gives the book back exactly when it started
   * strictly below the top and no lower than the bottom; from the top it
   * ends one below.
   */
  lemma RateUpThenDown(b: Book)
    ensures Rated(Rated(b, true), false) == b <==> MinRating <= b.rating < MaxRating
    ensures b.rating == MaxRating ==> Rated(Rated(b, true), false).rating == MaxRating - 1
  {
  }

  // ------------------------------------------------------- RateUp, RateDown

  /** Replacing by isbn keeps every book of another isbn, as often as it occurred. */
  lemma {:induction false} ReplaceKeepsOthers(bs: seq<Book>, rated: Book)
    ensures forall x: Book :: x.isbn != rated.isbn ==> multiset(ReplaceByIsbn(bs, rated))[x] == multiset(bs)[x]
    decreases |bs|
  {
    if bs != [] {
      ReplaceKeepsOthers(bs[1..], rated);
      assert bs == [bs[0]] + bs[1..];
      var head := if bs[0].isbn == rated.isbn then rated else bs[0];
      assert ReplaceByIsbn(bs, rated) == [head] + ReplaceByIsbn(bs[1..], rated);
    }
  }

  /**
   * RateUp and RateDown keep the length and the isbns of the list, keep
   * every book of another isbn as often as it occurred, and leave under the
   * rated isbn only the rated book.
   */
  lemma RateReplacesMatching(s: State, a: Action)
    requires a.RateUp? || a.RateDown?
    ensures var r := Reduce(s, a).books;
      && |r| == |s.books|
      && multiset(Isbns(r)) == multiset(Isbns(s.books))
      && (forall x: Book :: x.isbn != a.book.isbn ==> multiset(r)[x] == multiset(s.books)[x])
      && (forall x :: x in r && x.isbn == a.book.isbn ==> x == Rated(a.book, a.RateUp?))
  {
    var rated := Rated(a.book, a.RateUp?);
    var replaced := ReplaceByIsbn(s.books, rated);
    var r := Reduce(s, a).books;
    ReplaceKeepsOthers(s.books, rated);
    PermutationKeepsIsbns(r, replaced);
    forall x | x in r && x.isbn == a.book.isbn ensures x == rated {
      assert x in multiset(replaced);
    }
  }

  /**
   * Rating a book the list does not hold only re-sorts the list; if it was
   * sorted already, every position keeps its rating.
   */
  lemma RateWithoutMatch(s: State, a: Action)
    requires (a.RateUp? || a.RateDown?) && a.book.isbn !in Isbns(s.books)
    ensures IsSortedPermutation(Reduce(s, a).books, s.books)
    ensures Sorted(s.books) ==> Ratings(Reduce(s, a).books) == Ratings(s.books)
  {
    var replaced := ReplaceByIsbn(s.books, Rated(a.book, a.RateUp?));
    assert replaced == s.books by {
      forall i | 0 <= i < |s.books| ensures replaced[i] == s.books[i] {
        assert Isbns(s.books)[i] == s.books[i].isbn;
      }
    }
    if Sorted(s.books) {
      SortedPermutationsShareRatings(Reduce(s, a).books, s.books);
    }
  }

  // --------------------------------------------------------- LoadBookSuccess

  /**
   * After LoadBookSuccess each book occurs as often as it did, less all of
   * its occurrences if its isbn is the selected one, plus one if it is the
   * loaded book.
   */
  lemma LoadBookSuccessCounts(s: State, b: Book)
    ensures var r := Reduce(s, LoadBookSuccess(b)).books;
      forall x :: multiset(r)[x] ==
        (if IsSelected(x.isbn, s.selectedIsbn) then 0 else multiset(s.books)[x]) + (if x == b then 1 else 0)
  {
  }

  /**
   * Entries under the loaded book's own isbn survive LoadBookSuccess unless
   * that isbn is the selected one.
   */
  lemma LoadBookSuccessKeepsOwnIsbn(s: State, b: Book)
    requires !IsSelected(b.isbn, s.selectedIsbn)
    ensures forall x :: x in s.books && x.isbn == b.isbn ==> x in Reduce(s, LoadBookSuccess(b)).books
  {
    LoadBookSuccessCounts(s, b);
  }

  /** Dropping the selected entries drops every occurrence of the selected isbn and keeps the rest. */
  lemma {:induction false} WithoutSelectedIsbns(bs: seq<Book>, selected: Option<string>)
    ensures forall k :: multiset(Isbns(WithoutSelected(bs, selected)))[k] ==
                        if selected == Some(k) then 0 else multiset(Isbns(bs))[k]
    decreases |bs|
  {
    if bs != [] {
      WithoutSelectedIsbns(bs[1..], selected);
      IsbnsCons(bs);
      var rest := WithoutSelected(bs[1..], selected);
      if !IsSelected(bs[0].isbn, selected) {
        IsbnsCons([bs[0]] + rest);
        assert ([bs[0]] + rest)[1..] == rest;
      }
    }
  }

  /** Appending a book to a list without duplicate isbns keeps it so exactly when its isbn is new. */
  lemma AppendUniqueness(bs: seq<Book>, b: Book)
    requires UniqueIsbns(bs)
    ensures UniqueIsbns(bs + [b]) <==> b.isbn !in Isbns(bs)
  {
    assert Isbns(bs + [b]) == Isbns(bs) + [b.isbn];
    if b.isbn in Isbns(bs) {
      assert multiset(Isbns(bs + [b]))[b.isbn] == 2;
    }
  }

  /**
   * Starting from a list without duplicate isbns, LoadBookSuccess keeps it so
   * exactly when the loaded isbn is the selected one or is not yet in the list.
   */
  lemma LoadBookSuccessUniqueness(s: State, b: Book)
    requires UniqueIsbns(s.books)
    ensures UniqueIsbns(Reduce(s, LoadBookSuccess(b)).books) <==>
      IsSelected(b.isbn, s.selectedIsbn) || b.isbn !in Isbns(s.books)
  {
    var cleaned := WithoutSelected(s.books, s.selectedIsbn);
    WithoutSelectedIsbns(s.books, s.selectedIsbn);
    assert UniqueIsbns(cleaned) by {
      forall k | k in multiset(Isbns(cleaned)) ensures multiset(Isbns(cleaned))[k] == 1 {
        assert k in multiset(Isbns(s.books));
      }
    }
    AppendUniqueness(cleaned, b);
    assert b.isbn in Isbns(cleaned) <==> b.isbn in multiset(Isbns(cleaned));
    PermutationKeepsIsbns(Reduce(s, LoadBookSuccess(b)).books, cleaned + [b]);
  }

  /**
   * LoadBookSuccess matches the selected isbn, not the loaded book's: with
   * another book selected, a stale entry under the loaded isbn stays beside
   * the new one.
   */
  lemma LoadBookSuccessCanDuplicate()
    ensures var s := State([Book("a", 3, "")], true, Some("b"));
      var r := Reduce(s, LoadBookSuccess(Book("a", 4, "")));
      r.books == [Book("a", 4, ""), Book("a", 3, "")] && !UniqueIsbns(r.books)
  {
    var stale, incoming := Book("a", 3, ""), Book("a", 4, "");
    var s := State([stale], true, Some("b"));
    var cleaned := WithoutSelected(s.books, s.selectedIsbn);
    assert cleaned == [stale] by {
      assert WithoutSelected([], s.selectedIsbn) == [];
      assert [stale][1..] == [];
    }
    assert cleaned + [incoming] == [stale, incoming];
    var r := Reduce(s, LoadBookSuccess(incoming));
    TwoBooksInOrder(r.books, incoming, stale);
    assert Isbns([incoming, stale]) == ["a", "a"];
    assert multiset(Isbns(r.books))["a"] == 2;
  }

  // ---------------------------------------------------------- AddBookSuccess

  /** AddBookSuccess keeps a sorted list sorted exactly when the new book is rated no higher than the last. */
  lemma AddBookSuccessSortedness(s: State, b: Book)
    requires Sorted(s.books)
    ensures Sorted(Reduce(s, AddBookSuccess(b)).books) <==>
      s.books == [] || s.books[|s.books| - 1].rating >= b.rating
  {
    var r := Reduce(s, AddBookSuccess(b)).books;
    var n := |s.books|;
    if n > 0 {
      assert r[n - 1] == s.books[n - 1] && r[n] == b;
      if s.books[n - 1].rating >= b.rating {
        forall i, j | 0 <= i < j < |r| ensures r[i].rating >= r[j].rating {
          assert r[i] == s.books[i];
          if j < n {
            assert r[j] == s.books[j];
          } else {
            assert i < n - 1 ==> s.books[i].rating >= s.books[n - 1].rating;
          }
        }
      }
    }
  }

  /** AddBookSuccess keeps the isbns of a list unique exactly when the new isbn is not in it. */
  lemma AddBookSuccessUniqueness(s: State, b: Book)
    requires UniqueIsbns(s.books)
    ensures UniqueIsbns(Reduce(s, AddBookSuccess(b)).books) <==> b.isbn !in Isbns(s.books)
  {
    AppendUniqueness(s.books, b);
  }

  /** AddBookSuccess of a known isbn rated lower appends it: no merge, no re-sort. */
  lemma AddBookSuccessDuplicate()
    ensures var rated3, rated1 := Book("a", 3, ""), Book("a", 1, "");
      Reduce(State([rated3], false, None), AddBookSuccess(rated1)).books == [rated3, rated1]
  {
  }

  // --------------------------------------------------------- state invariant

  /** The list is sorted, its isbns are unique and its ratings within the bounds. */
  predicate Consistent(s: State) {
    Sorted(s.books) && UniqueIsbns(s.books) && InBounds(s.books)
  }

  /** What an action's payload must be like for the reducer to keep a state consistent. */
  predicate Acceptable(s: State, a: Action) {
    match a
    case LoadBooksSuccess(loaded) => UniqueIsbns(loaded) && InBounds(loaded)
    case LoadBookSuccess(b) =>
      InBounds([b]) && (IsSelected(b.isbn, s.selectedIsbn) || b.isbn !in Isbns(s.books))
    case RateUp(b) => InBounds([b])
    case RateDown(b) => InBounds([b])
    case AddBookSuccess(b) =>
      && InBounds([b]) && b.isbn !in Isbns(s.books)
      && (s.books == [] || s.books[|s.books| - 1].rating >= b.rating)
    case _ => true
  }

  /** Rearranging a list keeps its ratings within the bounds. */
  lemma PermutationKeepsBounds(x: seq<Book>, y: seq<Book>)
    requires multiset(x) == multiset(y) && InBounds(y)
    ensures InBounds(x)
  {
    forall i | 0 <= i < |x| ensures MinRating <= x[i].rating <= MaxRating {
      assert x[i] in multiset(y);
    }
  }

  /** The initial state is consistent, idle and has nothing selected. */
  lemma InitialStateConsistent()
    ensures Consistent(InitialState) && !InitialState.loading && InitialState.selectedIsbn == None
  {
  }

  /** Every action keeps a consistent state consistent when its payload is acceptable. */
  lemma ConsistencyPreserved(s: State, a: Action)
    requires Consistent(s) && Acceptable(s, a)
    ensures Consistent(Reduce(s, a))
  {
    var r := Reduce(s, a);
    match a
    case LoadBooksSuccess(loaded) =>
      PermutationKeepsIsbns(r.books, loaded);
      PermutationKeepsBounds(r.books, loaded);
    case LoadBookSuccess(b) =>
      LoadBookSuccessPreservesConsistency(s, b);
    case RateUp(b) =>
      RatePreservesConsistency(s, a);
    case RateDown(b) =>
      RatePreservesConsistency(s, a);
    case AddBookSuccess(b) =>
      AddBookSuccessSortedness(s, b);
      AddBookSuccessUniqueness(s, b);
    case _ =>
  }

  /**
   * LoadBookSuccess of an in-bounds book that is selected or new keeps a
   * state consistent.
   */
  lemma LoadBookSuccessPreservesConsistency(s: State, b: Book)
    requires Consistent(s) && Acceptable(s, LoadBookSuccess(b))
    ensures Consistent(Reduce(s, LoadBookSuccess(b)))
  {
    LoadBookSuccessUniqueness(s, b);
    var cleaned := WithoutSelected(s.books, s.selectedIsbn);
    AppendKeepsBounds(cleaned, s.books, b);
    PermutationKeepsBounds(Reduce(s, LoadBookSuccess(b)).books, cleaned + [b]);
  }

  /** Taking books out of an in-bounds list and appending an in-bounds book stays in bounds. */
  lemma AppendKeepsBounds(part: seq<Book>, whole: seq<Book>, b: Book)
    requires multiset(part) <= multiset(whole) && InBounds(whole) && InBounds([b])
    ensures InBounds(part + [b])
  {
    assert [b][0] == b;
    forall i | 0 <= i < |part| ensures MinRating <= part[i].rating <= MaxRating {
      assert part[i] in multiset(part);
      assert part[i] in multiset(whole);
    }
  }

  /** RateUp and RateDown with an in-bounds payload keep a state consistent. */
  lemma RatePreservesConsistency(s: State, a: Action)
    requires (a.RateUp? || a.RateDown?) && Consistent(s) && InBounds([a.book])
    ensures Consistent(Reduce(s, a))
  {
    var rated := Rated(a.book, a.RateUp?);
    var replaced := ReplaceByIsbn(s.books, rated);
    var r := Reduce(s, a).books;
    assert [a.book][0] == a.book;
    RatedStaysInBounds(a.book, a.RateUp?);
    PermutationKeepsIsbns(r, replaced);
    PermutationKeepsBounds(r, replaced);
  }

  // --------------------------------------------------------------- scenarios

  /** The only sorted arrangement of two books rated differently puts the higher first. */
  lemma TwoBooksInOrder(r: seq<Book>, p: Book, q: Book)
    requires IsSortedPermutation(r, [p, q]) || IsSortedPermutation(r, [q, p])
    requires p.rating > q.rating
    ensures r == [p, q]
  {
    assert multiset([q, p]) == multiset([p, q]);
    assert |r| == |multiset(r)| == 2;
    assert r[0] in multiset(r) && r[1] in multiset(r);
    assert r == [r[0], r[1]];
  }

  /** Loading books 'a' (3) and 'b' (5) into an empty, loading state lists 'b' before 'a'. */
  lemma LoadBooksSuccessScenario()
    ensures var a3, b5 := Book("a", 3, ""), Book("b", 5, "");
      Reduce(State([], true, None), LoadBooksSuccess([a3, b5])) == State([b5, a3], false, None)
  {
    var a3, b5 := Book("a", 3, ""), Book("b", 5, "");
    TwoBooksInOrder(Reduce(State([], true, None), LoadBooksSuccess([a3, b5])).books, b5, a3);
  }

  /** Rating up the only book, already at the top, leaves the list as it was. */
  lemma RateUpAtMaxScenario()
    ensures var a5 := Book("a", 5, "");
      Reduce(State([a5], false, None), RateUp(a5)).books == [a5]
  {
    var a5 := Book("a", 5, "");
    var r := Reduce(State([a5], false, None), RateUp(a5)).books;
    assert ReplaceByIsbn([a5], Rated(a5, true)) == [a5];
    assert |r| == |multiset(r)| == 1;
    assert r[0] in multiset(r);
  }
}
