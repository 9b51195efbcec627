/**
 * The books reducer: the state of the book list and the pure function
 * that computes the next state from the current one and an action.
 */
module BooksReducer {
  import opened Books
  import opened BookSort

  /** The list of books, whether a load is in flight, and the selected isbn (or none). */
  datatype State = State(books: seq<Book>, loading: bool, selectedIsbn: Option<string>)

  /** The state the store starts from. */
  const InitialState: State := State([], false, None)

  /**
   * The actions the reducer reacts to, one constructor per case, with its
   * payload. `Unhandled` stands for any other action type reaching it.
   */
  datatype Action =
    | LoadBooks
    | LoadBook
    | LoadBooksFail
    | LoadBookFail
    | LoadBooksSuccess(loaded: seq<Book>)
    | LoadBookSuccess(book: Book)
    | SelectBook(isbn: string)
    | RateUp(book: Book)
    | RateDown(book: Book)
    | AddBookSuccess(book: Book)
    | Unhandled(kind: string)

  /**
   * The payload book with its rating moved one step up or down, never past
   * the bound in that direction; all its other fields are kept.
   */
  function Rated(book: Book, up: bool): (r: Book)
    ensures r.isbn == book.isbn && r.details == book.details
    ensures up ==> r.rating <= MaxRating && r.rating <= book.rating + 1
    ensures up ==> (r.rating == book.rating + 1 || r.rating == MaxRating)
    ensures !up ==> r.rating >= MinRating && r.rating >= book.rating - 1
    ensures !up ==> (r.rating == book.rating - 1 || r.rating == MinRating)
  {
    var rating := if up then
      (if MaxRating < book.rating + 1 then MaxRating else book.rating + 1)
    else
      (if MinRating > book.rating - 1 then MinRating else book.rating - 1);
    book.(rating := rating)
  }

  /** Whether the nullable `selected` holds this isbn (`null` equals no isbn). */
  predicate IsSelected(isbn: string, selected: Option<string>) {
    selected == Some(isbn)
  }

  /**
   * The list without the entries whose isbn is the selected one; every
   * other entry is kept, as often as it occurred.
   */
  function WithoutSelected(bs: seq<Book>, selected: Option<string>): (r: seq<Book>)
    ensures forall x :: multiset(r)[x] == if IsSelected(x.isbn, selected) then 0 else multiset(bs)[x]
    ensures selected == None ==> r == bs
  {
    if bs == [] then
      []
    else
      assert bs == [bs[0]] + bs[1..];
      var rest := WithoutSelected(bs[1..], selected);
      if IsSelected(bs[0].isbn, selected) then rest else [bs[0]] + rest
  }

  /**
   * The list with every entry carrying the rated book's isbn replaced by the
   * rated book, every other entry kept where it was.
   */
  function ReplaceByIsbn(bs: seq<Book>, rated: Book): (r: seq<Book>)
    ensures |r| == |bs|
    ensures forall i :: 0 <= i < |bs| && bs[i].isbn != rated.isbn ==> r[i] == bs[i]
    ensures forall i :: 0 <= i < |bs| && bs[i].isbn == rated.isbn ==> r[i] == rated
    ensures Isbns(r) == Isbns(bs)
  {
    if bs == [] then
      []
    else
      [if bs[0].isbn == rated.isbn then rated else bs[0]] + ReplaceByIsbn(bs[1..], rated)
  }

  /**
   * The next state. Every case leaves the fields it does not name as they
   * were; the list is re-sorted, up to the order among equal ratings, after
   * every case that sets it except AddBookSuccess.
   */
  function Reduce(s: State, a: Action): (r: State)
    ensures (a.LoadBooks? || a.LoadBook?) ==> r == s.(loading := true)
    ensures (a.LoadBooksFail? || a.LoadBookFail?) ==> r == s.(loading := false)
    ensures a.LoadBooksSuccess? ==>
      && IsSortedPermutation(r.books, a.loaded)
      && !r.loading && r.selectedIsbn == s.selectedIsbn
    ensures a.LoadBookSuccess? ==>
      && IsSortedPermutation(r.books, WithoutSelected(s.books, s.selectedIsbn) + [a.book])
      && !r.loading && r.selectedIsbn == s.selectedIsbn
    ensures a.SelectBook? ==> r == s.(selectedIsbn := Some(a.isbn))
    ensures (a.RateUp? || a.RateDown?) ==>
      && |r.books| == |s.books|
      && IsSortedPermutation(r.books, ReplaceByIsbn(s.books, Rated(a.book, a.RateUp?)))
      && r.loading == s.loading && r.selectedIsbn == s.selectedIsbn
    ensures a.AddBookSuccess? ==> r == s.(books := s.books + [a.book])
    ensures a.Unhandled? ==> r == s
  {
    match a
    case LoadBooks => s.(loading := true)
    case LoadBook => s.(loading := true)
    case LoadBooksFail => s.(loading := false)
    case LoadBookFail => s.(loading := false)
    case LoadBooksSuccess(loaded) => s.(books := SortBooks(loaded), loading := false)
    case LoadBookSuccess(book) =>
      var cleaned := WithoutSelected(s.books, s.selectedIsbn);
      s.(books := SortBooks(cleaned + [book]), loading := false)
    case SelectBook(isbn) => s.(selectedIsbn := Some(isbn))
    case RateUp(book) => s.(books := SortBooks(ReplaceByIsbn(s.books, Rated(book, true))))
    case RateDown(book) => s.(books := SortBooks(ReplaceByIsbn(s.books, Rated(book, false))))
    case AddBookSuccess(book) => s.(books := s.books + [book])
    case Unhandled(_) => s
  }
}
