/**
 * The colour filter: keep the first occurrence of every colour of the scan,
 * then sort.
 */
module Filter {
  import opened Sequences

  /** Placing `x` between the characters not larger than it and those larger
      keeps a sorted sequence sorted. */
  lemma InsertSorted(t: string, x: char, j: int)
    requires Sorted(t) && 0 <= j <= |t|
    requires forall k :: 0 <= k < j ==> t[k] <= x
    requires forall k :: j <= k < |t| ==> x < t[k]
    ensures Sorted(t[..j] + [x] + t[j..])
  {
    var u := t[..j] + [x] + t[j..];
    forall a, b | 0 <= a < b < |u|
      ensures u[a] <= u[b]
    {
      if b < j {
        assert u[a] == t[a] && u[b] == t[b];
      } else if b == j {
        assert u[a] == t[a];
      } else if a < j {
        assert u[a] == t[a] && u[b] == t[b - 1];
      } else if a > j {
        assert u[a] == t[a - 1] && u[b] == t[b - 1];
      } else {
        assert u[b] == t[b - 1];
      }
    }
  }

  /** Inserts `x` into the sorted `t` after the characters not larger than it. */
  method Insert(t: string, x: char) returns (u: string)
    requires Sorted(t)
    ensures Sorted(u) && multiset(u) == multiset(t) + multiset{x}
  {
    var j := 0;
    while j < |t| && t[j] <= x
      invariant 0 <= j <= |t|
      invariant forall k :: 0 <= k < j ==> t[k] <= x
    {
      j := j + 1;
    }
    InsertSorted(t, x, j);
    assert t == t[..j] + t[j..];
    u := t[..j] + [x] + t[j..];
  }

  /** Sorts the characters of `s` (the library sort of the program). */
  method Sort(s: string) returns (t: string)
    ensures Sorted(t) && multiset(t) == multiset(s)
  {
    t := "";
    var i := 0;
    while i < |s|
      invariant 0 <= i <= |s|
      invariant Sorted(t) && multiset(t) == multiset(s[..i])
    {
      assert s[..i + 1] == s[..i] + [s[i]];
      t := Insert(t, s[i]);
      i := i + 1;
    }
    assert s[..i] == s;
  }

  /** Removes repeated colours and sorts the rest: the result lists every
      character of `adjacentColors` once, in strictly ascending order. */
  method FilterAdjacentColors(adjacentColors: string) returns (result: string)
    ensures StrictlyAscending(result)
    ensures Elems(result) == Elems(adjacentColors)
  {
    result := "";
    var i := 0;
    while i < |adjacentColors|
      invariant 0 <= i <= |adjacentColors|
      invariant Distinct(result) && Elems(result) == Elems(adjacentColors[..i])
    {
      var currentChar := adjacentColors[i];
      var isDuplicate := false;
      var j := 0;
      while j < |result|
        invariant 0 <= j <= |result|
        invariant !isDuplicate && currentChar !in result[..j]
      {
        if result[j] == currentChar {
          isDuplicate := true;
          break;
        }
        j := j + 1;
      }
      assert isDuplicate <==> currentChar in result by {
        if !isDuplicate {
          assert result[..j] == result;
        }
      }
      assert adjacentColors[..i + 1] == adjacentColors[..i] + [currentChar];
      if !isDuplicate {
        DistinctConcat(result, [currentChar]);
        result := result + [currentChar];
      }
      i := i + 1;
    }
    assert adjacentColors[..i] == adjacentColors;
    var unsorted := result;
    result := Sort(unsorted);
    SortedDistinct(unsorted, result);
  }
}
