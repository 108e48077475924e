/** The `letterSet` of wordle.go: a list of (letter, colour) items held
    behind a pointer and changed in place. It serves three roles in the game:
    the letters of one guess with their feedback colours, the letters of the
    hidden word, and the session-long set of tried letters (kept sorted by
    letter, one item per letter). */
module LetterSets {
  import opened Colours

  datatype Option<T> = None | Some(value: T)

  /** `letterItem`: a letter with a colour. */
  datatype LetterItem = LetterItem(letter: char, colour: ColourId)

  /** The letters of the items, in order: what `String` writes out. */
  function Letters(items: seq<LetterItem>): string
  {
    seq(|items|, i requires 0 <= i < |items| => items[i].letter)
  }

  /** The set of letters that occur in the items. */
  function Alphabet(items: seq<LetterItem>): set<char>
  {
    set i | 0 <= i < |items| :: items[i].letter
  }

  /** Number of occurrences of `x` in `s`. */
  function Count<T(==)>(s: seq<T>, x: T): nat
  {
    if s == [] then 0 else (if s[0] == x then 1 else 0) + Count(s[1..], x)
  }

  /** A letter occurs at least once exactly when it is an element. */
  lemma {:induction false} CountPositive<T>(s: seq<T>, x: T)
    ensures Count(s, x) > 0 <==> x in s
  {
    if s != [] {
      CountPositive(s[1..], x);
      assert x in s <==> s[0] == x || x in s[1..];
    }
  }

  /** Counting over a sequence extended at its end. */
  lemma {:induction false} CountSnoc<T>(s: seq<T>, y: T, x: T)
    ensures Count(s + [y], x) == Count(s, x) + (if y == x then 1 else 0)
  {
    if s != [] {
      assert (s + [y])[1..] == s[1..] + [y];
      CountSnoc(s[1..], y, x);
    }
  }

  /** The items of `newFilledLetterSet(word)`: every letter of the word,
      in order, coloured grey (the zero colour). */
  function GreyItems(word: string): (r: seq<LetterItem>)
    ensures Letters(r) == word
    ensures forall i :: 0 <= i < |r| ==> r[i].colour == Grey
  {
    seq(|word|, i requires 0 <= i < |word| => LetterItem(word[i], Grey))
  }

  // ---------------------------------------------------------------------
  // The tried-letter set: strictly sorted by letter, one item per letter.
  // ---------------------------------------------------------------------

  ghost predicate StrictlySorted(s: seq<LetterItem>)
  {
    forall i, j {:trigger s[i].letter, s[j].letter} :: 0 <= i < j < |s| ==> s[i].letter < s[j].letter
  }

  /** The colour recorded for `x`: that of the first item holding `x`. */
  function ColourOf(s: seq<LetterItem>, x: char): Option<ColourId>
  {
    if s == [] then None
    else if s[0].letter == x then Some(s[0].colour)
    else ColourOf(s[1..], x)
  }

  lemma {:induction false} ColourOfPresent(s: seq<LetterItem>, x: char)
    ensures ColourOf(s, x).Some? <==> x in Alphabet(s)
  {
    if s != [] {
      ColourOfPresent(s[1..], x);
      assert Alphabet(s) == {s[0].letter} + Alphabet(s[1..]) by {
        forall y | y in Alphabet(s) ensures y in {s[0].letter} + Alphabet(s[1..]) {
          var i :| 0 <= i < |s| && s[i].letter == y;
          if i > 0 { assert s[1..][i - 1].letter == y; }
        }
        forall y | y in Alphabet(s[1..]) ensures y in Alphabet(s) {
          var i :| 0 <= i < |s[1..]| && s[1..][i].letter == y;
          assert s[i + 1].letter == y;
        }
      }
    }
  }

  /** The tried set after `addLetterWithColour(x, c)` on a strictly sorted
      set: the existing item for `x` has its colour raised to at least `c`;
      a letter not yet present is inserted, with colour `c`, where the
      sort by letter puts it. */
  function Upsert(s: seq<LetterItem>, x: char, c: ColourId): seq<LetterItem>
  {
    if s == [] then [LetterItem(x, c)]
    else if s[0].letter == x then [LetterItem(x, Max(s[0].colour, c))] + s[1..]
    else if x < s[0].letter then [LetterItem(x, c)] + s
    else [s[0]] + Upsert(s[1..], x, c)
  }

  /** Adding a letter adds exactly that letter to the set's letters. */
  lemma {:induction false} UpsertAlphabet(s: seq<LetterItem>, x: char, c: ColourId)
    ensures Alphabet(Upsert(s, x, c)) == Alphabet(s) + {x}
  {
    if s == [] {
      assert [LetterItem(x, c)][0].letter == x;
    } else {
      assert s == [s[0]] + s[1..];
      AlphabetCons(s[0], s[1..]);
      if s[0].letter == x {
        AlphabetCons(LetterItem(x, Max(s[0].colour, c)), s[1..]);
      } else if x < s[0].letter {
        AlphabetCons(LetterItem(x, c), s);
      } else {
        UpsertAlphabet(s[1..], x, c);
        AlphabetCons(s[0], Upsert(s[1..], x, c));
      }
    }
  }

  lemma AlphabetCons(a: LetterItem, s: seq<LetterItem>)
    ensures Alphabet([a] + s) == {a.letter} + Alphabet(s)
  {
    var t := [a] + s;
    forall y | y in Alphabet(t) ensures y in {a.letter} + Alphabet(s) {
      var i :| 0 <= i < |t| && t[i].letter == y;
      if i > 0 { assert s[i - 1].letter == y; }
    }
    assert t[0].letter == a.letter;
    forall y | y in Alphabet(s) ensures y in Alphabet(t) {
      var i :| 0 <= i < |s| && s[i].letter == y;
      assert t[i + 1].letter == y;
    }
  }

  /** `addLetterWithColour` keeps the tried set strictly sorted by letter,
      so a letter never has two items. */
  lemma {:induction false} UpsertSorted(s: seq<LetterItem>, x: char, c: ColourId)
    requires StrictlySorted(s)
    ensures StrictlySorted(Upsert(s, x, c))
  {
    if s == [] {
    } else if s[0].letter == x {
      SortedCons(LetterItem(x, Max(s[0].colour, c)), s[1..]);
    } else if x < s[0].letter {
      SortedCons(LetterItem(x, c), s);
    } else {
      var t := Upsert(s[1..], x, c);
      UpsertSorted(s[1..], x, c);
      UpsertAlphabet(s[1..], x, c);
      forall k | 0 <= k < |t| ensures s[0].letter < t[k].letter {
        assert t[k].letter in Alphabet(t);
        if t[k].letter != x {
          var j :| 0 <= j < |s[1..]| && s[1..][j].letter == t[k].letter;
          assert s[j + 1].letter == t[k].letter;
        }
      }
      SortedCons(s[0], t);
    }
  }

  lemma SortedCons(a: LetterItem, t: seq<LetterItem>)
    requires StrictlySorted(t)
    requires forall k :: 0 <= k < |t| ==> a.letter < t[k].letter
    ensures StrictlySorted([a] + t)
  {
  }

  /** The tried set grows by one item exactly when the letter is new. */
  lemma {:induction false} UpsertLength(s: seq<LetterItem>, x: char, c: ColourId)
    requires StrictlySorted(s)
    ensures |Upsert(s, x, c)| == if x in Alphabet(s) then |s| else |s| + 1
  {
    if s != [] {
      AlphabetCons(s[0], s[1..]);
      assert s == [s[0]] + s[1..];
      if s[0].letter == x {
      } else if x < s[0].letter {
        forall y | y in Alphabet(s) ensures x < y {
          var k :| 0 <= k < |s| && s[k].letter == y;
          assert k == 0 || s[0].letter < s[k].letter;
        }
      } else {
        UpsertLength(s[1..], x, c);
      }
    }
  }

  /** After `addLetterWithColour(x, c)` the colour of `x` is the larger of
      its old colour and `c` (or `c` if `x` was new), and every other
      letter keeps its colour. */
  lemma {:induction false} UpsertColour(s: seq<LetterItem>, x: char, c: ColourId, y: char)
    requires StrictlySorted(s)
    ensures ColourOf(Upsert(s, x, c), y) ==
      if y != x then ColourOf(s, y)
      else if ColourOf(s, x).Some? then Some(Max(ColourOf(s, x).value, c))
      else Some(c)
  {
    if s != [] {
      if s[0].letter == x {
      } else if x < s[0].letter {
        forall k | 0 <= k < |s| ensures s[k].letter != x {
          assert k == 0 || s[0].letter < s[k].letter;
        }
        ColourOfPresent(s, x);
      } else {
        UpsertColour(s[1..], x, c, y);
      }
    }
  }

  /** A letter's tried colour never decreases, and the letter just added is
      recorded with at least the colour it was added with. */
  lemma UpsertMonotone(s: seq<LetterItem>, x: char, c: ColourId, y: char)
    requires StrictlySorted(s)
    ensures ColourOf(s, y).Some? ==>
      ColourOf(Upsert(s, x, c), y).Some? && ColourOf(s, y).value <= ColourOf(Upsert(s, x, c), y).value
    ensures ColourOf(Upsert(s, x, c), x).Some? && c <= ColourOf(Upsert(s, x, c), x).value
  {
    UpsertColour(s, x, c, y);
    UpsertColour(s, x, c, x);
  }

  /** For a new letter, the insertion gives exactly what appending the item
      and re-sorting by letter gives: a strictly sorted permutation of the
      old items plus the new one. */
  lemma {:induction false} UpsertInsertsNew(s: seq<LetterItem>, x: char, c: ColourId)
    requires StrictlySorted(s) && x !in Alphabet(s)
    ensures multiset(Upsert(s, x, c)) == multiset(s) + multiset{LetterItem(x, c)}
    ensures StrictlySorted(Upsert(s, x, c))
  {
    UpsertSorted(s, x, c);
    if s != [] {
      assert s == [s[0]] + s[1..];
      AlphabetCons(s[0], s[1..]);
      if !(x < s[0].letter) {
        UpsertInsertsNew(s[1..], x, c);
      }
    }
  }

  /** Adding a letter twice is adding it once with the larger colour. */
  lemma {:induction false} UpsertTwice(s: seq<LetterItem>, x: char, a: ColourId, b: ColourId)
    ensures Upsert(Upsert(s, x, a), x, b) == Upsert(s, x, Max(a, b))
  {
    if s != [] && s[0].letter != x && !(x < s[0].letter) {
      var t := Upsert(s[1..], x, a);
      assert ([s[0]] + t)[1..] == t;
      UpsertTwice(s[1..], x, a, b);
    }
  }

  /** `Upsert` in terms of the index that the binary search of
      `addLetterWithColour` finds: the first item whose letter is not
      below `x`. */
  lemma {:induction false} UpsertAt(s: seq<LetterItem>, x: char, c: ColourId, i: nat)
    requires i <= |s|
    requires forall k :: 0 <= k < i ==> s[k].letter < x
    requires forall k :: i <= k < |s| ==> !(s[k].letter < x)
    ensures Upsert(s, x, c) == UpsertedAt(s, x, c, i)
  {
    if s != [] {
      if i == 0 {
        assert s[..0] == [] && s[0..] == s;
      } else {
        UpsertAt(s[1..], x, c, i - 1);
        UpsertAtCons(s, x, c, i);
      }
    }
  }

  /** What `Upsert` gives when `i` is where the search for `x` stops. */
  function UpsertedAt(s: seq<LetterItem>, x: char, c: ColourId, i: nat): seq<LetterItem>
    requires i <= |s|
  {
    if i < |s| && s[i].letter == x then s[i := LetterItem(x, Max(s[i].colour, c))]
    else s[..i] + [LetterItem(x, c)] + s[i..]
  }

  lemma UpsertAtCons(s: seq<LetterItem>, x: char, c: ColourId, i: nat)
    requires 0 < i <= |s| && s[0].letter < x
    requires Upsert(s[1..], x, c) == UpsertedAt(s[1..], x, c, i - 1)
    ensures Upsert(s, x, c) == UpsertedAt(s, x, c, i)
  {
  }

  // ---------------------------------------------------------------------
  // clearBackward
  // ---------------------------------------------------------------------

  /** Whether `clearBackward(x, start, maxToClear)` turns item `i` grey: it
      lies at or before `start`, is a yellow `x`, and at most `maxToClear`
      items holding `x` (of any colour) lie after it up to `start`. */
  predicate Clears(s: seq<LetterItem>, x: char, start: int, maxToClear: int, i: int)
    requires 0 <= i < |s| && start < |s|
  {
    i <= start && s[i].letter == x && s[i].colour == Yellow
    && Count(Letters(s)[i + 1..start + 1], x) <= maxToClear
  }

  /** The items after `clearBackward(x, start, maxToClear)`. It only ever
      turns a yellow `x` at or before `start` grey: length and letters are
      unchanged and every other item stays as it was. */
  function ClearBackwardItems(s: seq<LetterItem>, x: char, start: int, maxToClear: int): (r: seq<LetterItem>)
    requires start < |s|
    ensures |r| == |s| && Letters(r) == Letters(s)
    ensures forall i :: 0 <= i < |s| && r[i] != s[i] ==>
      i <= start && s[i] == LetterItem(x, Yellow) && r[i] == LetterItem(x, Grey)
  {
    seq(|s|, i requires 0 <= i < |s| =>
      if Clears(s, x, start, maxToClear, i) then LetterItem(x, Grey) else s[i])
  }

  /** Number of positions at which two equally long item lists differ. */
  function Changed(s: seq<LetterItem>, r: seq<LetterItem>): nat
    requires |s| == |r|
  {
    if s == [] then 0 else (if s[0] != r[0] then 1 else 0) + Changed(s[1..], r[1..])
  }

  lemma {:induction false} ChangedNone(s: seq<LetterItem>)
    ensures Changed(s, s) == 0
  {
    if s != [] { ChangedNone(s[1..]); }
  }

  /** Between `lo` and `start`, `clearBackward` changes no more items than
      there are `x`s there, and no more than `max(0, maxToClear + 1)`. */
  lemma {:induction false} ClearBackwardBoundFrom(s: seq<LetterItem>, x: char, start: int, m: int, lo: nat)
    requires start < |s| && lo <= start + 1
    ensures var r := ClearBackwardItems(s, x, start, m);
      Changed(s[lo..], r[lo..]) <= Count(Letters(s)[lo..start + 1], x)
      && Changed(s[lo..], r[lo..]) <= (if m < 0 then 0 else m + 1)
    decreases start + 1 - lo
  {
    var r := ClearBackwardItems(s, x, start, m);
    var w := Letters(s);
    if lo == start + 1 {
      assert s[lo..] == r[lo..];
      ChangedNone(s[lo..]);
    } else {
      ClearBackwardBoundFrom(s, x, start, m, lo + 1);
      assert s[lo..][1..] == s[lo + 1..];
      assert r[lo..][1..] == r[lo + 1..];
      assert w[lo..start + 1][1..] == w[lo + 1..start + 1];
      assert w[lo..start + 1][0] == s[lo].letter;
    }
  }

  /** `clearBackward(x, start, maxToClear)` turns at most
      `max(0, maxToClear + 1)` items grey. */
  lemma ClearBackwardBound(s: seq<LetterItem>, x: char, start: int, maxToClear: int)
    requires start < |s|
    ensures Changed(s, ClearBackwardItems(s, x, start, maxToClear)) <= if maxToClear < 0 then 0 else maxToClear + 1
  {
    if start < 0 {
      assert ClearBackwardItems(s, x, start, maxToClear) == s;
      ChangedNone(s);
    } else {
      ClearBackwardBoundFrom(s, x, start, maxToClear, 0);
      assert s[0..] == s;
    }
  }

  /** With a negative bound `clearBackward` changes nothing. */
  lemma ClearBackwardNegative(s: seq<LetterItem>, x: char, start: int, maxToClear: int)
    requires start < |s| && maxToClear < 0
    ensures ClearBackwardItems(s, x, start, maxToClear) == s
  {
  }

  /** The `sort.Search` call of `addLetterWithColour`: a binary search for
      the first position whose letter is not below `letter`. */
  method SearchLetter(items: seq<LetterItem>, letter: char) returns (i: nat)
    requires StrictlySorted(items)
    ensures i <= |items|
    ensures forall k :: 0 <= k < i ==> items[k].letter < letter
    ensures forall k :: i <= k < |items| ==> !(items[k].letter < letter)
  {
    var lo, hi := 0, |items|;
    while lo < hi
      invariant 0 <= lo <= hi <= |items|
      invariant forall k :: 0 <= k < lo ==> items[k].letter < letter
      invariant forall k :: hi <= k < |items| ==> !(items[k].letter < letter)
    {
      var mid := (lo + hi) / 2;
      if items[mid].letter < letter {
        lo := mid + 1;
      } else {
        hi := mid;
      }
    }
    i := lo;
  }

  // ---------------------------------------------------------------------
  // The letterSet object
  // ---------------------------------------------------------------------

  class LetterSet {
    var items: seq<LetterItem>

    /** `newEmptyLetterSet`. */
    constructor Empty()
      ensures items == []
    {
      items := [];
    }

    /** `newFilledLetterSet(word)`: one grey item per letter of `word`. */
    constructor Filled(word: string)
      ensures items == GreyItems(word)
    {
      var acc: seq<LetterItem> := [];
      var i := 0;
      while i < |word|
        invariant 0 <= i <= |word|
        invariant acc == GreyItems(word[..i])
      {
        acc := acc + [LetterItem(word[i], Grey)];
        i := i + 1;
      }
      assert word[..|word|] == word;
      items := acc;
    }

    /** `newSizedLetterSet(size)`: `size` zero-valued items (letter 0,
        grey); none when `size` is not positive. */
    constructor Sized(size: int)
      ensures |items| == if size < 0 then 0 else size
      ensures forall i :: 0 <= i < |items| ==> items[i] == LetterItem(0 as char, Grey)
    {
      var acc: seq<LetterItem> := [];
      var i := 0;
      while i < size
        invariant 0 <= i && (size >= 0 ==> i <= size) && (size < 0 ==> i == 0)
        invariant |acc| == i
        invariant forall k :: 0 <= k < i ==> acc[k] == LetterItem(0 as char, Grey)
      {
        acc := acc + [LetterItem(0 as char, Grey)];
        i := i + 1;
      }
      items := acc;
    }

    /** `String`: the letters of the items, in order; for a set made by
        `Filled(w)` that is `w` again. */
    method String() returns (s: string)
      ensures s == Letters(items)
    {
      s := "";
      var i := 0;
      while i < |items|
        invariant 0 <= i <= |items|
        invariant |s| == i
        invariant forall k :: 0 <= k < i ==> s[k] == items[k].letter
      {
        s := s + [items[i].letter];
        i := i + 1;
      }
    }

    /** `addLetterWithColour`: binary search for the letter in the sorted
        items; raise its colour if it is there, otherwise add it and
        re-sort by letter. */
    method AddLetterWithColour(letter: char, colour: ColourId)
      requires StrictlySorted(items)
      modifies this
      ensures items == Upsert(old(items), letter, colour)
      ensures StrictlySorted(items)
      ensures letter in Alphabet(old(items)) ==> |items| == |old(items)|
      ensures letter !in Alphabet(old(items)) ==>
        multiset(items) == multiset(old(items)) + multiset{LetterItem(letter, colour)}
    {
      var i := SearchLetter(items, letter);
      UpsertAt(items, letter, colour, i);
      UpsertSorted(items, letter, colour);
      UpsertLength(items, letter, colour);
      if letter !in Alphabet(items) {
        UpsertInsertsNew(items, letter, colour);
      }
      if |items| > 0 {
        if i < |items| && items[i].letter == letter {
          if items[i].colour < colour {
            items := items[i := LetterItem(letter, colour)];
          }
        } else {
          // append, then sort by letter: the new item lands at position i
          items := items[..i] + [LetterItem(letter, colour)] + items[i..];
        }
      } else {
        items := items + [LetterItem(letter, colour)];
      }
    }

    /** `setAllLettersColour`: every item gets colour `colour`; letters and
        length are unchanged. */
    method SetAllLettersColour(colour: ColourId)
      modifies this
      ensures |items| == |old(items)| && Letters(items) == Letters(old(items))
      ensures forall i :: 0 <= i < |items| ==> items[i].colour == colour
    {
      var i := 0;
      while i < |items|
        invariant 0 <= i <= |items| == |old(items)|
        invariant forall k :: 0 <= k < i ==> items[k] == LetterItem(old(items)[k].letter, colour)
        invariant forall k :: i <= k < |items| ==> items[k] == old(items)[k]
      {
        items := items[i := LetterItem(items[i].letter, colour)];
        i := i + 1;
      }
    }

    /** `lettersIn`: how many items hold `letter`. */
    method LettersIn(letter: char) returns (count: int)
      ensures count == Count(Letters(items), letter)
    {
      count := 0;
      var i := 0;
      while i < |items|
        invariant 0 <= i <= |items|
        invariant count == Count(Letters(items)[..i], letter)
      {
        assert Letters(items)[..i + 1] == Letters(items)[..i] + [items[i].letter];
        CountSnoc(Letters(items)[..i], items[i].letter, letter);
        if items[i].letter == letter {
          count := count + 1;
        }
        i := i + 1;
      }
      assert Letters(items)[..|items|] == Letters(items);
    }

    /** `clearBackward(targetLetter, startPosition, maxToClear)`: walk from
        `startPosition` down to the first item, turning a yellow
        `targetLetter` grey while at most `maxToClear` items holding that
        letter have been passed. */
    method ClearBackward(targetLetter: char, startPosition: int, maxToClear: int)
      requires startPosition < |items|
      modifies this
      ensures items == ClearBackwardItems(old(items), targetLetter, startPosition, maxToClear)
    {
      ghost var s := items;
      ghost var w := Letters(s);
      var countCleared := 0;
      var i := startPosition;
      while i >= 0
        invariant i <= startPosition && (i < -1 ==> i == startPosition)
        invariant |items| == |s|
        invariant i >= -1 ==> countCleared == Count(w[i + 1..startPosition + 1], targetLetter)
        invariant forall k :: 0 <= k <= i ==> items[k] == s[k]
        invariant forall k :: 0 <= k < |s| && i < k ==>
          items[k] == ClearBackwardItems(s, targetLetter, startPosition, maxToClear)[k]
      {
        var currentLetter := items[i].letter;
        var currentColour := items[i].colour;
        if currentLetter == targetLetter && currentColour == Yellow {
          if countCleared <= maxToClear {
            items := items[i := LetterItem(currentLetter, Grey)];
          }
        }
        if currentLetter == targetLetter {
          countCleared := countCleared + 1;
        }
        assert w[i..startPosition + 1][1..] == w[i + 1..startPosition + 1];
        i := i - 1;
      }
    }

    /** `contains`: whether some item holds `letter`. */
    method Contains(letter: char) returns (found: bool)
      ensures found <==> letter in Letters(items)
    {
      var i := 0;
      while i < |items|
        invariant 0 <= i <= |items|
        invariant forall k :: 0 <= k < i ==> items[k].letter != letter
      {
        if items[i].letter == letter {
          assert Letters(items)[i] == letter;
          return true;
        }
        i := i + 1;
      }
      return false;
    }
  }

  /** `contains(x)` holds exactly when `lettersIn(x)` is positive. */
  lemma ContainsIffLettersIn(items: seq<LetterItem>, x: char)
    ensures x in Letters(items) <==> Count(Letters(items), x) > 0
  {
    CountPositive(Letters(items), x);
  }
}
