/**
 * The sort the reducer applies to its list: by rating, highest first.
 * The comparator `(a, b) => b.rating - a.rating` fixes only the order of
 * books with different ratings, so everything the reducer promises is
 * stated through `IsSortedPermutation`; `SortBooks` is one function that
 * meets it (an insertion sort, which happens to be stable).
 */
module BookSort {
  import opened Books

  /** Inserts `b` into a sorted list, ahead of the books rated no higher. */
  function Insert(b: Book, s: seq<Book>): (r: seq<Book>)
    requires Sorted(s)
    ensures |r| == |s| + 1
    ensures IsSortedPermutation(r, [b] + s)
    decreases |s|
  {
    if s == [] || b.rating >= s[0].rating then
      [b] + s
    else
      var rest := Insert(b, s[1..]);
      InsertHead(s, b, rest);
      [s[0]] + rest
  }

  /** The step of `Insert` that keeps the head of the list in front. */
  lemma InsertHead(s: seq<Book>, b: Book, rest: seq<Book>)
    requires s != [] && Sorted(s) && b.rating < s[0].rating
    requires IsSortedPermutation(rest, [b] + s[1..])
    ensures IsSortedPermutation([s[0]] + rest, [b] + s)
  {
    assert s == [s[0]] + s[1..];
    forall x | x in rest ensures s[0].rating >= x.rating {
      assert x in multiset([b] + s[1..]);
      assert x == b || x in s[1..];
    }
    var t := [s[0]] + rest;
    forall i, j | 0 <= i < j < |t| ensures t[i].rating >= t[j].rating {
      assert t[j] == rest[j - 1];
      if i > 0 {
        assert t[i] == rest[i - 1];
      } else {
        assert rest[j - 1] in rest;
      }
    }
  }

  /** The list sorted into non-increasing rating order. */
  function SortBooks(s: seq<Book>): (r: seq<Book>)
    ensures |r| == |s|
    ensures IsSortedPermutation(r, s)
  {
    if s == [] then
      []
    else
      assert s == [s[0]] + s[1..];
      Insert(s[0], SortBooks(s[1..]))
  }

  /** Sorted by pairs is the same as sorted by neighbours. */
  lemma {:induction false} SortedIffAdjacent(bs: seq<Book>)
    ensures Sorted(bs) <==> forall i :: 0 <= i < |bs| - 1 ==> bs[i].rating >= bs[i + 1].rating
    decreases |bs|
  {
    if |bs| > 1 {
      SortedIffAdjacent(bs[1..]);
      if forall i :: 0 <= i < |bs| - 1 ==> bs[i].rating >= bs[i + 1].rating {
        assert Sorted(bs[1..]);
        forall i, j | 0 <= i < j < |bs| ensures bs[i].rating >= bs[j].rating {
          if i > 0 {
            assert bs[i] == bs[1..][i - 1] && bs[j] == bs[1..][j - 1];
          } else {
            assert bs[1] == bs[1..][0] && bs[j] == bs[1..][j - 1];
          }
        }
      }
    }
  }

  /** Removing one entry keeps a list sorted. */
  lemma RemoveAtKeepsSorted(s: seq<Book>, j: nat)
    requires j < |s| && Sorted(s)
    ensures Sorted(s[..j] + s[j + 1..])
  {
    var t := s[..j] + s[j + 1..];
    forall a, b | 0 <= a < b < |t| ensures t[a].rating >= t[b].rating {
      var a' := if a < j then a else a + 1;
      var b' := if b < j then b else b + 1;
      assert t[a] == s[a'] && t[b] == s[b'];
    }
  }

  /**
   * In a sorted list, dropping an entry rated like the head leaves the
   * same ratings as dropping the head.
   */
  lemma DropTiedWithHead(y: seq<Book>, j: nat)
    requires j < |y| && Sorted(y) && y[j].rating == y[0].rating
    ensures Ratings(y[..j] + y[j + 1..]) == Ratings(y[1..])
  {
    var y' := y[..j] + y[j + 1..];
    forall i | 0 <= i < |y'| ensures y'[i].rating == y[1..][i].rating {
      if i < j {
        assert y'[i] == y[i];
        assert y[0].rating >= y[i].rating >= y[i + 1].rating >= y[j].rating;
      } else {
        assert y'[i] == y[i + 1];
      }
    }
  }

  /** Lists that agree on the first rating and on the ratings after it agree on all ratings. */
  lemma ConsRatings(x: seq<Book>, y: seq<Book>)
    requires |x| == |y| > 0 && x[0].rating == y[0].rating
    requires Ratings(x[1..]) == Ratings(y[1..])
    ensures Ratings(x) == Ratings(y)
  {
    forall i | 0 < i < |x| ensures x[i].rating == y[i].rating {
      assert x[i] == x[1..][i - 1] && y[i] == y[1..][i - 1];
      assert Ratings(x[1..])[i - 1] == Ratings(y[1..])[i - 1];
    }
  }

  /**
   * Two sorted arrangements of the same books carry the same ratings in
   * the same positions: the sort's unspecified tie order can only swap
   * books that are rated alike.
   */
  lemma {:induction false} SortedPermutationsShareRatings(x: seq<Book>, y: seq<Book>)
    requires IsSortedPermutation(x, y) && Sorted(y)
    ensures Ratings(x) == Ratings(y)
    decreases |x|
  {
    assert |x| == |multiset(x)| == |multiset(y)| == |y|;
    if x != [] {
      var j := HeadOfSortedPermutation(x, y);
      SortedPermutationsShareRatings(x[1..], y[..j] + y[j + 1..]);
      DropTiedWithHead(y, j);
      ConsRatings(x, y);
    }
  }

  /**
   * The head of one sorted arrangement sits in the other at a position
   * rated like that one's head; taking it out of both leaves two sorted
   * arrangements of the same books.
   */
  lemma HeadOfSortedPermutation(x: seq<Book>, y: seq<Book>) returns (j: nat)
    requires x != [] && IsSortedPermutation(x, y) && Sorted(y)
    ensures j < |y| && y[j] == x[0] && x[0].rating == y[0].rating
    ensures IsSortedPermutation(x[1..], y[..j] + y[j + 1..]) && Sorted(y[..j] + y[j + 1..])
  {
    j := MatchHead(x, y);
    assert y[0] in multiset(x);
    var k :| 0 <= k < |x| && x[k] == y[0];
    assert x[0].rating >= x[k].rating;
    assert y[0].rating >= y[j].rating;
    RemoveAtKeepsSorted(y, j);
    assert Sorted(x[1..]) by {
      forall a, b | 0 <= a < b < |x| - 1 ensures x[1..][a].rating >= x[1..][b].rating {
        assert x[1..][a] == x[a + 1] && x[1..][b] == x[b + 1];
      }
    }
  }
}
