# Books reducer model

A Dafny model of the NgRx books reducer of the book-rating application
(`booksReducer` in `src/app/store/reducers/books.reducer.ts`). The reducer is
a pure function from the current store slice and an action to the next slice.
The slice holds:

- the list of books;
- a `loading` flag;
- the selected isbn, which may be null.

The reducer handles the load request, success and failure actions for the
whole list and for a single book, selection, rating a book up or down, and
appending a book. The shared bounds are `minRating = 1` and `maxRating = 5`.
RateUp never raises a rating above `maxRating`, and RateDown never lowers one
below `minRating`. A rating already in [1, 5] stays in it
(`RatedStaysInBounds`). Load actions do not check ratings, so a rating loaded
outside the bounds can stay outside them (`RateDownAboveMax`). The list is re-sorted into
non-increasing rating order after every case that rebuilds it, except
AddBookSuccess.

Files:

- `books.dfy`, module `Books`: the `Book` record, the rating bounds, and the
  list predicates. These are sorted order, sorted permutation, ratings within
  the bounds and unique isbns.
- `sorting.dfy`, module `BookSort`: the sort used by the reducer, and what any
  sort meeting its contract must produce.
- `reducer.dfy`, module `BooksReducer`: the state, the actions, the initial
  state, the three list helpers the cases use, and `Reduce`.
- `properties.dfy`, module `BooksReducerProperties`: the lemmas relating
  cases, several steps, and the state invariant.

Source declarations without a contract of their own:

- `BooksState` (books.reducer.ts:4-8) is `BooksReducer.State`.
- `initialState` (lines 10-14) is `BooksReducer.InitialState`.
- `minRating` and `maxRating` (lines 16-17) are `Books.MinRating` and `Books.MaxRating`.
- The action cases of the switch (lines 22-85) are `BooksReducer.Action`.

Modelling decisions:

- The nullable `selectedIsbn` is an `Option<string>`, with `None` for `null`.
  The filter `b.isbn !== state.selectedIsbn` keeps every book when nothing is
  selected, because a book's isbn is a string and never equals `null`
  (`IsSelected`).
- A `Book` keeps `isbn` and `rating`. Every other field of the record is
  collapsed into one opaque `details` string. That string travels through
  unchanged, the same way the object spread `{ ...book, rating }` carries the
  other fields.
- The actions form one closed datatype with one constructor per case and its
  payload. `Unhandled(kind)` stands for every action type the switch does not
  list, which falls to its `default` branch.
- The JavaScript sort with comparator `b.rating - a.rating` fixes the order
  only between books with different ratings. Every property of the reducer is
  therefore stated through `IsSortedPermutation`: the result is sorted, and
  holds the same books as often as the input. `SortBooks` is one function that
  meets this contract, a stable insertion sort. No lemma depends on its
  tie order. `SortedPermutationsShareRatings` shows that any two results
  meeting the contract have the same rating at every position.
- Two behaviours are reproduced as written, and lemmas pin down exactly when
  they break the list's invariants:
  - LoadBookSuccess removes the entries under the *previously selected* isbn,
    not the entries under the loaded book's isbn. It keeps the isbns unique
    exactly when the loaded isbn is the selected one or is not yet listed
    (`LoadBookSuccessUniqueness`). `LoadBookSuccessCanDuplicate` gives a
    concrete state where it produces a duplicate isbn.
  - AddBookSuccess appends with no re-sort and no dedup. It keeps the list
    sorted exactly when the new book is rated no higher than the last one
    (`AddBookSuccessSortedness`). It keeps isbns unique exactly when the new
    isbn is not yet listed (`AddBookSuccessUniqueness`).
- `Consistent` (sorted, unique isbns, ratings within bounds) holds for the
  initial state. Every action keeps it when the action's payload is
  `Acceptable` (`ConsistencyPreserved`).

## Model

| member | source | states |
|---|---|---|
| `BookSort.Insert` | src/app/store/reducers/books.reducer.ts:89-91 | inserting a book into a sorted list gives a sorted list one longer, holding the same books plus the new one |
| `BookSort.SortBooks` | src/app/store/reducers/books.reducer.ts:89-91 | `sortBooks` returns the same books, each as often as in the input, in non-increasing rating order |
| `BookSort.SortedIffAdjacent` | src/app/store/reducers/books.reducer.ts:90 | sortedness by every pair is equivalent to sortedness by every neighbouring pair (the comparator's descending order) |
| `BookSort.SortedPermutationsShareRatings` | src/app/store/reducers/books.reducer.ts:90 | any two sorted arrangements of the same books carry the same rating at every position, so the unspecified tie order can only swap books with equal ratings |
| `BookSort.HeadOfSortedPermutation` | src/app/store/reducers/books.reducer.ts:90 | the first book of a sorted arrangement occurs in any other sorted arrangement of the same books, at a position with the same rating as that arrangement's first book |
| `Books.PermutationKeepsIsbns` | src/app/store/reducers/books.reducer.ts:89-91 | re-sorting a list keeps the multiset of its isbns |
| `BooksReducer.Rated` | src/app/store/reducers/books.reducer.ts:60-66 | the rated book keeps the payload's isbn and other fields; up gives `min(maxRating, r + 1)`, down gives `max(minRating, r - 1)`, each stated as a bound plus "one step, or the bound" |
| `BooksReducer.WithoutSelected` | src/app/store/reducers/books.reducer.ts:41 | each book occurs as often as before unless its isbn is the selected one, in which case it no longer occurs; with nothing selected, the list is unchanged |
| `BooksReducer.ReplaceByIsbn` | src/app/store/reducers/books.reducer.ts:68-69 | same length; every position whose isbn matches the rated book holds the rated book, every other position keeps its book; the isbns are unchanged position by position |
| `BooksReducer.Reduce` | src/app/store/reducers/books.reducer.ts:19-87 | each case as the switch gives it. Load requests set loading and failures clear it, changing nothing else. LoadBooksSuccess gives a sorted permutation of the payload and clears loading. LoadBookSuccess gives a sorted permutation of the list without the selected isbn plus the book, and clears loading. SelectBook sets the selection only. RateUp/RateDown give a sorted permutation of the list with matching isbns replaced by the rated book, at the same length. AddBookSuccess appends exactly. Any other action returns the state itself |
| `BooksReducerProperties.RequestThenFailure` | src/app/store/reducers/books.reducer.ts:22-30 | LoadBooks and LoadBook set loading; a request followed by its failure gives the original state with loading false |
| `BooksReducerProperties.SortedAfterResorting` | src/app/store/reducers/books.reducer.ts:32-72 | after LoadBooksSuccess, LoadBookSuccess, RateUp and RateDown, every neighbouring pair is in non-increasing rating order, whatever the list was before |
| `BooksReducerProperties.SortednessPreserved` | src/app/store/reducers/books.reducer.ts:19-87 | every action except AddBookSuccess keeps a sorted list sorted |
| `BooksReducerProperties.ClampAtBounds` | src/app/store/reducers/books.reducer.ts:61-66 | RateUp leaves a book at maxRating unchanged; RateDown leaves a book at minRating unchanged |
| `BooksReducerProperties.RatedStaysInBounds` | src/app/store/reducers/books.reducer.ts:16-17 | a rating within [minRating, maxRating] stays within it after either step |
| `BooksReducerProperties.RateDownAboveMax` | src/app/store/reducers/books.reducer.ts:63-65 | RateDown of a book loaded at rating 7 gives 6: only the bound in the direction of the step applies, so an out-of-range rating is not pulled back into [1, 5] |
| `BooksReducerProperties.RateUpThenDown` | src/app/store/reducers/books.reducer.ts:61-66 | rating up then down gives back the book exactly when `minRating <= r < maxRating`; from maxRating it ends at maxRating - 1 |
| `BooksReducerProperties.ReplaceKeepsOthers` | src/app/store/reducers/books.reducer.ts:69 | the map keeps every book of another isbn, as often as it occurred |
| `BooksReducerProperties.RateReplacesMatching` | src/app/store/reducers/books.reducer.ts:57-72 | RateUp/RateDown keep the list's length and its isbns, keep every book of another isbn as often as it occurred, and leave only the rated book under the rated isbn |
| `BooksReducerProperties.RateWithoutMatch` | src/app/store/reducers/books.reducer.ts:68-72 | rating an isbn the list does not hold only re-sorts the list; a list that was sorted keeps its rating at every position |
| `BooksReducerProperties.LoadBookSuccessCounts` | src/app/store/reducers/books.reducer.ts:38-50 | after LoadBookSuccess each book occurs as often as before, or zero times if its isbn is selected, plus one time if it is the loaded book |
| `BooksReducerProperties.LoadBookSuccessKeepsOwnIsbn` | src/app/store/reducers/books.reducer.ts:41 | entries under the loaded book's own isbn survive unless that isbn is the selected one |
| `BooksReducerProperties.WithoutSelectedIsbns` | src/app/store/reducers/books.reducer.ts:41 | the filter removes every occurrence of the selected isbn and keeps the count of every other isbn |
| `BooksReducerProperties.AppendUniqueness` | src/app/store/reducers/books.reducer.ts:42 | appending a book to a list with unique isbns keeps them unique exactly when its isbn is new |
| `BooksReducerProperties.LoadBookSuccessUniqueness` | src/app/store/reducers/books.reducer.ts:38-50 | from unique isbns, LoadBookSuccess keeps them unique exactly when the loaded isbn is selected or not yet listed |
| `BooksReducerProperties.LoadBookSuccessCanDuplicate` | src/app/store/reducers/books.reducer.ts:41-43 | with book "a" (3) listed and "b" selected, loading "a" (4) gives `[a(4), a(3)]`, two entries under one isbn |
| `BooksReducerProperties.AddBookSuccessSortedness` | src/app/store/reducers/books.reducer.ts:75-79 | appending to a sorted list keeps it sorted exactly when the list is empty or its last book is rated at least as high as the new one |
| `BooksReducerProperties.AddBookSuccessUniqueness` | src/app/store/reducers/books.reducer.ts:75-79 | from unique isbns, AddBookSuccess keeps them unique exactly when the new isbn is not yet listed |
| `BooksReducerProperties.AddBookSuccessDuplicate` | src/app/store/reducers/books.reducer.ts:75-79 | adding "a" (1) to `[a(3)]` gives `[a(3), a(1)]`, with no merge and no re-sort |
| `BooksReducerProperties.PermutationKeepsBounds` | src/app/store/reducers/books.reducer.ts:89-91 | re-sorting keeps every rating within the bounds |
| `BooksReducerProperties.AppendKeepsBounds` | src/app/store/reducers/books.reducer.ts:41-42 | filtering an in-bounds list and appending an in-bounds book stays in bounds |
| `BooksReducerProperties.InitialStateConsistent` | src/app/store/reducers/books.reducer.ts:10-14 | the initial state has an empty list (sorted, unique, in bounds), is not loading and has nothing selected |
| `BooksReducerProperties.ConsistencyPreserved` | src/app/store/reducers/books.reducer.ts:19-87 | every action keeps a sorted, unique-isbn, in-bounds state so when its payload is acceptable |
| `BooksReducerProperties.LoadBookSuccessPreservesConsistency` | src/app/store/reducers/books.reducer.ts:38-50 | LoadBookSuccess of an in-bounds book that is selected or new keeps the state consistent |
| `BooksReducerProperties.RatePreservesConsistency` | src/app/store/reducers/books.reducer.ts:57-72 | RateUp/RateDown with an in-bounds payload keep the state consistent |
| `BooksReducerProperties.TwoBooksInOrder` | src/app/store/reducers/books.reducer.ts:90 | the only sorted arrangement of two books with different ratings puts the higher-rated one first |
| `BooksReducerProperties.LoadBooksSuccessScenario` | src/app/store/reducers/books.reducer.ts:32-36 | loading `[a(3), b(5)]` into an empty loading state gives `[b(5), a(3)]`, loading false, nothing selected, whatever the tie order of the sort |
| `BooksReducerProperties.RateUpAtMaxScenario` | src/app/store/reducers/books.reducer.ts:57-72 | rating up the only book, already at 5, leaves the list `[a(5)]` |

## Left out

- The action classes and `BooksActionTypes` (`src/app/store/actions/books.actions.ts`) are not part of this model. The actions are the `Action` datatype, one constructor per case the switch lists, plus `Unhandled` for the rest.
- The `Book` interface (`src/app/shared/book.ts`) is not part of this model. Its fields other than `isbn` and `rating` are one opaque `details` string.
- BookSort.SortBooks: its contract states only "sorted and a permutation". The definition is a stable insertion sort. The tie order of `Array.prototype.sort` is not modelled, and no property relies on it.
- Ratings are unbounded integers. JavaScript `number` semantics (fractions, NaN, infinities, precision) are not modelled.
- The default parameter `state = initialState` is not modelled. The initial state is exposed as the constant `InitialState`, and callers pass it explicitly.
- Object identity is not modelled. The source returns the very same object for unknown actions, and fresh objects otherwise, so that reference-equality change detection works. The model has value semantics only, so `Reduce(s, Unhandled(k)) == s` is value equality.
- A null isbn on a book is not modelled. Isbns are always strings, so a null selection never matches a book.
- The NgRx store, action dispatch, effects, HTTP loading and the UI are not part of this model. They are framework plumbing and I/O.
