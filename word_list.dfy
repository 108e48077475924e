/** The list of valid words and the membership test on it. The list is
    loaded and sorted once at start-up (`sort.Strings`); a guess is looked
    up with `sort.SearchStrings`, a binary search. Duplicates in the list
    are not removed and do no harm. */
module WordList {

  /** Go's `<` on strings: lexicographic order, a proper prefix first. */
  predicate Less(a: string, b: string)
  {
    |b| > 0 && (|a| == 0 || a[0] < b[0] || (a[0] == b[0] && Less(a[1..], b[1..])))
  }

  lemma {:induction false} LessIrreflexive(a: string)
    ensures !Less(a, a)
  {
    if |a| > 0 { LessIrreflexive(a[1..]); }
  }

  lemma {:induction false} LessTransitive(a: string, b: string, c: string)
    requires Less(a, b) && Less(b, c)
    ensures Less(a, c)
  {
    if |a| > 0 && a[0] == b[0] == c[0] {
      LessTransitive(a[1..], b[1..], c[1..]);
    }
  }

  lemma {:induction false} LessTotal(a: string, b: string)
    ensures a == b || Less(a, b) || Less(b, a)
  {
    if |a| > 0 && |b| > 0 && a[0] == b[0] {
      LessTotal(a[1..], b[1..]);
      if a[1..] == b[1..] {
        assert a == [a[0]] + a[1..] && b == [b[0]] + b[1..];
      }
    }
  }

  /** Go's `==` on strings: the same length and the same letters. */
  predicate Same(a: string, b: string)
  {
    |a| == |b| && SameFrom(a, b, 0)
  }

  /** The letters of `a` and `b` agree from position `k` on. */
  predicate SameFrom(a: string, b: string, k: nat)
    requires |a| == |b|
    decreases |a| - k
  {
    k >= |a| || (a[k] == b[k] && SameFrom(a, b, k + 1))
  }

  lemma {:induction false} SameFromIff(a: string, b: string, k: nat)
    requires |a| == |b|
    ensures SameFrom(a, b, k) <==> forall i :: k <= i < |a| ==> a[i] == b[i]
    decreases |a| - k
  {
    if k < |a| {
      SameFromIff(a, b, k + 1);
    }
  }

  lemma SameIff(a: string, b: string)
    ensures Same(a, b) <==> a == b
  {
    if |a| == |b| {
      SameFromIff(a, b, 0);
    }
  }

  /** The order `sort.Strings` leaves the list in: no word is below an
      earlier one. */
  ghost predicate Sorted(words: seq<string>)
  {
    forall i, j :: 0 <= i < j < |words| ==> !Less(words[j], words[i])
  }

  /** `sort.SearchStrings(words, w)`: the first position whose word is not
      below `w`. On the sorted list, `w` is found there exactly when it is
      in the list. */
  method SearchStrings(words: seq<string>, w: string) returns (i: nat)
    requires Sorted(words)
    ensures i <= |words|
    ensures forall k :: 0 <= k < i ==> Less(words[k], w)
    ensures forall k :: i <= k < |words| ==> !Less(words[k], w)
    ensures (i < |words| && words[i] == w) <==> w in words
  {
    var lo, hi := 0, |words|;
    while lo < hi
      invariant 0 <= lo <= hi <= |words|
      invariant forall k :: 0 <= k < lo ==> Less(words[k], w)
      invariant forall k :: hi <= k < |words| ==> !Less(words[k], w)
    {
      var mid := (lo + hi) / 2;
      if Less(words[mid], w) {
        forall k | 0 <= k <= mid ensures Less(words[k], w) {
          if k < mid {
            LessTotal(words[k], words[mid]);
            if Less(words[k], words[mid]) { LessTransitive(words[k], words[mid], w); }
          }
        }
        lo := mid + 1;
      } else {
        forall k | mid <= k < |words| ensures !Less(words[k], w) {
          if mid < k {
            LessTotal(words[mid], words[k]);
            if Less(words[mid], words[k]) && Less(words[k], w) {
              LessTransitive(words[mid], words[k], w);
            }
          }
        }
        hi := mid;
      }
    }
    i := lo;
    if w in words {
      var j :| 0 <= j < |words| && words[j] == w;
      LessIrreflexive(w);
      assert i <= j;
      LessTotal(words[i], w);
    }
  }
}
