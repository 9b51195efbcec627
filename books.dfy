/**
 * The entities the books reducer works on: the book record, the rating
 * bounds every collaborator shares, and the ordering the reducer keeps
 * its list in.
 */
module Books {

  /** A nullable value: `None` plays the part of `null`. */
  datatype Option<T> = None | Some(value: T)

  /**
   * A book. The reducer only ever looks at `isbn` (its key) and `rating`;
   * every other field of the record (title, authors, description, ...)
   * travels through unchanged and is collapsed here into `details`.
   */
  datatype Book = Book(isbn: string, rating: int, details: string)

  /**
   * The rating bounds. RateUp never moves a rating above `MaxRating` and
   * RateDown never moves one below `MinRating`; ratings that arrive with a
   * load are not checked against either.
   */
  const MinRating: int := 1
  const MaxRating: int := 5

  /** Non-increasing rating order: no book is rated above one before it. */
  predicate Sorted(bs: seq<Book>) {
    forall i, j :: 0 <= i < j < |bs| ==> bs[i].rating >= bs[j].rating
  }

  /** `r` holds exactly the books of `s`, as often as `s` does, in sorted order. */
  predicate IsSortedPermutation(r: seq<Book>, s: seq<Book>) {
    Sorted(r) && multiset(r) == multiset(s)
  }

  /** The ratings of a list, position by position. */
  function Ratings(bs: seq<Book>): (r: seq<int>)
    ensures |r| == |bs|
    ensures forall i :: 0 <= i < |bs| ==> r[i] == bs[i].rating
  {
    seq(|bs|, i requires 0 <= i < |bs| => bs[i].rating)
  }

  /** Every rating of the list lies within the rating bounds. */
  predicate InBounds(bs: seq<Book>) {
    forall i :: 0 <= i < |bs| ==> MinRating <= bs[i].rating <= MaxRating
  }

  /** The isbns of a list, position by position. */
  function Isbns(bs: seq<Book>): (r: seq<string>)
    ensures |r| == |bs|
    ensures forall i :: 0 <= i < |bs| ==> r[i] == bs[i].isbn
  {
    seq(|bs|, i requires 0 <= i < |bs| => bs[i].isbn)
  }

  /** No isbn occurs in more than one entry of the list. */
  predicate UniqueIsbns(bs: seq<Book>) {
    forall k :: k in multiset(Isbns(bs)) ==> multiset(Isbns(bs))[k] == 1
  }

  /** Removing the entry at `j` removes one occurrence of it. */
  lemma RemoveAtMultiset(s: seq<Book>, j: nat)
    requires j < |s|
    ensures multiset(s[..j] + s[j + 1..]) == multiset(s) - multiset{s[j]}
  {
    assert s == s[..j] + [s[j]] + s[j + 1..];
  }

  /**
   * The head of a list sits somewhere in any rearrangement of it; taking
   * it out of both leaves rearrangements of each other.
   */
  lemma MatchHead(x: seq<Book>, y: seq<Book>) returns (j: nat)
    requires x != [] && multiset(x) == multiset(y)
    ensures j < |y| && y[j] == x[0]
    ensures multiset(x[1..]) == multiset(y[..j] + y[j + 1..])
  {
    assert x[0] in multiset(y);
    j :| 0 <= j < |y| && y[j] == x[0];
    RemoveAtMultiset(y, j);
    assert x == [x[0]] + x[1..];
  }

  /** Removing the entry at `j` removes one occurrence of its isbn. */
  lemma IsbnsRemoveAt(s: seq<Book>, j: nat)
    requires j < |s|
    ensures multiset(Isbns(s)) == multiset(Isbns(s[..j] + s[j + 1..])) + multiset{s[j].isbn}
  {
    assert Isbns(s) == Isbns(s[..j]) + [s[j].isbn] + Isbns(s[j + 1..]);
    assert Isbns(s[..j] + s[j + 1..]) == Isbns(s[..j]) + Isbns(s[j + 1..]);
  }

  /** The isbns of a non-empty list are its head's and those of its tail. */
  lemma IsbnsCons(s: seq<Book>)
    requires s != []
    ensures multiset(Isbns(s)) == multiset(Isbns(s[1..])) + multiset{s[0].isbn}
  {
    assert Isbns(s) == [s[0].isbn] + Isbns(s[1..]);
  }

  /** Rearranging a list rearranges its isbns. */
  lemma {:induction false} PermutationKeepsIsbns(x: seq<Book>, y: seq<Book>)
    requires multiset(x) == multiset(y)
    ensures multiset(Isbns(x)) == multiset(Isbns(y))
    decreases |x|
  {
    if x == [] {
      assert y == [] by {
        assert |y| == |multiset(y)| == |multiset(x)| == 0;
      }
    } else {
      var j := MatchHead(x, y);
      PermutationKeepsIsbns(x[1..], y[..j] + y[j + 1..]);
      IsbnsRemoveAt(y, j);
      IsbnsCons(x);
    }
  }
}
