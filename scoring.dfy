/** Scoring one accepted guess against the hidden word, as the game loop in
    `main` does it: a first pass colours every position green, yellow or
    grey and feeds the tried-letter set; a back-to-front second pass turns
    some yellows back to grey when the guess holds a letter more often than
    the hidden word.

    The second pass is modelled as written. It does NOT keep the number of
    green and yellow marks of a letter within the letter's number of
    occurrences in the hidden word: `OverMarking` and `UnderMarking` show
    inputs on which it gives too many and too few marks. */
module Scoring {
  import opened Colours
  import opened LetterSets

  /** `wordLength`: guesses and the hidden word have five letters. */
  const WordLength := 5

  // ---------------------------------------------------------------------
  // First pass
  // ---------------------------------------------------------------------

  /** The first-pass colour of position `j`: green on an exact match,
      yellow if the letter occurs elsewhere in the hidden word, grey
      otherwise. */
  function MarkColour(guess: string, target: string, j: int): ColourId
    requires 0 <= j < |guess| == |target|
  {
    if guess[j] == target[j] then Green
    else if guess[j] in target then Yellow
    else Grey
  }

  /** The guess's items after the first pass. */
  function Marked(guess: string, target: string): seq<LetterItem>
    requires |guess| == |target|
  {
    seq(|guess|, j requires 0 <= j < |guess| => LetterItem(guess[j], MarkColour(guess, target, j)))
  }

  /** The tried set after the first pass has added the letters of positions
      `0 .. n-1`, each with its first-pass colour. */
  function MarkTried(tried: seq<LetterItem>, guess: string, target: string, n: nat): seq<LetterItem>
    requires |guess| == |target| && n <= |guess|
  {
    if n == 0 then tried
    else Upsert(MarkTried(tried, guess, target, n - 1), guess[n - 1], MarkColour(guess, target, n - 1))
  }

  /** Writing the guess's letters into the freshly sized set, all grey. */
  method FillGuess(guessSet: LetterSet, guess: string)
    requires |guessSet.items| == |guess|
    modifies guessSet
    ensures guessSet.items == GreyItems(guess)
  {
    var i := 0;
    while i < |guess|
      invariant 0 <= i <= |guess| == |guessSet.items|
      invariant forall k :: 0 <= k < i ==> guessSet.items[k] == LetterItem(guess[k], Grey)
    {
      guessSet.items := guessSet.items[i := LetterItem(guess[i], Grey)];
      i := i + 1;
    }
  }

  /** The first pass: for each guess position in turn, `MarkPosition`. */
  method FirstPass(guessSet: LetterSet, guess: string, target: string, tried: LetterSet)
    requires |guess| == |target| && guessSet != tried
    requires guessSet.items == GreyItems(guess)
    requires StrictlySorted(tried.items)
    modifies guessSet, tried
    ensures guessSet.items == Marked(guess, target)
    ensures tried.items == MarkTried(old(tried.items), guess, target, |guess|)
    ensures StrictlySorted(tried.items)
  {
    var j := 0;
    while j < |guess|
      invariant 0 <= j <= |guess|
      invariant |guessSet.items| == |guess|
      invariant forall i :: 0 <= i < j ==> guessSet.items[i] == Marked(guess, target)[i]
      invariant forall i :: j <= i < |guess| ==> guessSet.items[i] == LetterItem(guess[i], Grey)
      invariant tried.items == MarkTried(old(tried.items), guess, target, j)
      invariant StrictlySorted(tried.items)
    {
      MarkPosition(guessSet, guess, target, j, tried);
      j := j + 1;
    }
  }

  /** One iteration of the first pass, at guess position `j`: scan the
      hidden word; a match at the same position makes the item green and
      stops the scan, a match elsewhere makes it yellow. Every colour given
      is also added to the tried set, and the letter is then added grey
      (which changes nothing if it is already there). */
  method MarkPosition(guessSet: LetterSet, guess: string, target: string, j: nat, tried: LetterSet)
    requires |guess| == |target| && j < |guess| && guessSet != tried
    requires |guessSet.items| == |guess| && guessSet.items[j] == LetterItem(guess[j], Grey)
    requires StrictlySorted(tried.items)
    modifies guessSet, tried
    ensures guessSet.items == old(guessSet.items)[j := LetterItem(guess[j], MarkColour(guess, target, j))]
    ensures tried.items == Upsert(old(tried.items), guess[j], MarkColour(guess, target, j))
    ensures StrictlySorted(tried.items)
  {
    var guessLetter := guess[j];
    ghost var before := tried.items;
    ghost var added := false;
    var k := 0;
    while k < |target|
      invariant 0 <= k <= |target|
      invariant |guessSet.items| == |guess|
      invariant guessSet.items == old(guessSet.items)[j := guessSet.items[j]]
      invariant guessSet.items[j].letter == guessLetter
      invariant guessSet.items[j].colour == if added then Yellow else Grey
      invariant k <= j || guessLetter != target[j]
      invariant added <==> exists i :: 0 <= i < k && target[i] == guessLetter
      invariant tried.items == if added then Upsert(before, guessLetter, Yellow) else before
      invariant StrictlySorted(tried.items)
    {
      if guessLetter == target[k] {
        if j == k {
          guessSet.items := guessSet.items[j := LetterItem(guessLetter, Green)];
          UpsertTwice(before, guessLetter, Yellow, Green);
          tried.AddLetterWithColour(guessLetter, Green);
          added := true;
          break;
        } else {
          guessSet.items := guessSet.items[j := LetterItem(guessLetter, Yellow)];
          UpsertTwice(before, guessLetter, Yellow, Yellow);
          tried.AddLetterWithColour(guessLetter, Yellow);
          added := true;
        }
      }
      k := k + 1;
    }
    ghost var c := MarkColour(guess, target, j);
    if guessLetter != target[j] {
      assert k == |target|;
      assert added <==> guessLetter in target;
    }
    assert guessSet.items[j].colour == c;
    assert tried.items == if added then Upsert(before, guessLetter, c) else before;
    assert !added ==> c == Grey;
    UpsertTwice(before, guessLetter, c, Grey);
    tried.AddLetterWithColour(guessLetter, Grey);
  }

  // ---------------------------------------------------------------------
  // Second pass
  // ---------------------------------------------------------------------

  /** The counter of `x` in the second pass's map, 0 when absent. */
  function Counter(counts: map<char, int>, x: char): int
  {
    if x in counts then counts[x] else 0
  }

  /** The counter map after a yellow `x`: a counter of 0 is first set to 1,
      then the counter goes up by one, so the first yellow `x` leaves it
      at 2. */
  function Bump(counts: map<char, int>, x: char): (r: map<char, int>)
    ensures r == counts[x := if Counter(counts, x) == 0 then 2 else Counter(counts, x) + 1]
  {
    var seen := if Counter(counts, x) == 0 then counts[x := 1] else counts;
    seen[x := seen[x] + 1]
  }

  /** The second pass at yellow position `l` whose letter `x` has counter
      value `n`: with `g` copies of `x` in the guess and `t` in the hidden
      word, nothing happens when `g - n > t`, otherwise
      `clearBackward(x, l, g - t - 1)`. */
  function ClearAt(s: seq<LetterItem>, target: string, l: int, n: int): (r: seq<LetterItem>)
    requires 0 <= l < |s|
    ensures |r| == |s|
  {
    var x := s[l].letter;
    var inGuess: int := Count(Letters(s), x);
    var inTarget := Count(target, x);
    if inGuess - n > inTarget then s else ClearBackwardItems(s, x, l, inGuess - inTarget - 1)
  }

  /** The items after the second pass has handled positions `l` down to 0,
      with `counts` the per-letter counter map so far. */
  function ClearFrom(s: seq<LetterItem>, target: string, l: int, counts: map<char, int>): (r: seq<LetterItem>)
    requires l < |s|
    ensures |r| == |s|
    decreases l + 1
  {
    if l < 0 then s
    else if s[l].colour != Yellow then ClearFrom(s, target, l - 1, counts)
    else
      var x := s[l].letter;
      ClearFrom(ClearAt(s, target, l, Counter(counts, x)), target, l - 1, Bump(counts, x))
  }

  /** The items after the whole second pass. */
  function Cleared(s: seq<LetterItem>, target: string): (r: seq<LetterItem>)
    ensures |r| == |s|
  {
    ClearFrom(s, target, |s| - 1, map[])
  }

  /** The second pass, a backward loop over the guess positions. */
  method SecondPass(guessSet: LetterSet, targetSet: LetterSet)
    requires guessSet != targetSet
    modifies guessSet
    ensures guessSet.items == Cleared(old(guessSet.items), Letters(targetSet.items))
  {
    ghost var target := Letters(targetSet.items);
    var counts: map<char, int> := map[];
    var l := |guessSet.items| - 1;
    while l >= 0
      invariant -1 <= l < |guessSet.items|
      invariant ClearFrom(guessSet.items, target, l, counts) == Cleared(old(guessSet.items), target)
    {
      ghost var s, before := guessSet.items, counts;
      var currentLetter := guessSet.items[l].letter;
      var currentColour := guessSet.items[l].colour;
      if currentColour == Yellow {
        var countGuessedWord := guessSet.LettersIn(currentLetter);
        var countWordToGuess := targetSet.LettersIn(currentLetter);
        var count := if currentLetter in counts then counts[currentLetter] else 0;
        if count == 0 {
          counts := counts[currentLetter := 1];
          count := 0;
        }
        assert count == Counter(before, currentLetter);
        if countGuessedWord - count > countWordToGuess {
          counts := counts[currentLetter := counts[currentLetter] + 1];
        } else {
          counts := counts[currentLetter := counts[currentLetter] + 1];
          var clearCount := countGuessedWord - countWordToGuess - 1;
          guessSet.ClearBackward(currentLetter, l, clearCount);
        }
        assert counts == Bump(before, currentLetter);
        assert guessSet.items == ClearAt(s, target, l, count);
      }
      assert ClearFrom(s, target, l, before) == ClearFrom(guessSet.items, target, l - 1, counts);
      l := l - 1;
    }
  }

  /** `r` differs from `s` only by yellow items turned grey. */
  ghost predicate Demotes(s: seq<LetterItem>, r: seq<LetterItem>)
  {
    |r| == |s| &&
    forall i :: 0 <= i < |s| ==>
      r[i].letter == s[i].letter && (r[i] == s[i] || (s[i].colour == Yellow && r[i].colour == Grey))
  }

  /** The second pass changes nothing but yellow to grey: letters, greens
      and greys stay as they are. */
  lemma {:induction false} ClearFromDemotes(s: seq<LetterItem>, target: string, l: int, counts: map<char, int>)
    requires l < |s|
    ensures Demotes(s, ClearFrom(s, target, l, counts))
    decreases l + 1
  {
    if l >= 0 {
      var x := s[l].letter;
      if s[l].colour != Yellow {
        ClearFromDemotes(s, target, l - 1, counts);
      } else {
        var s' := ClearAt(s, target, l, Counter(counts, x));
        ClearFromDemotes(s', target, l - 1, Bump(counts, x));
      }
    }
  }

  /** A letter that the guess holds no more often than the hidden word
      keeps all its first-pass colours: for it `clearCount` is negative,
      and `clearBackward` of another letter does not touch it. */
  lemma {:induction false} ClearFromKeepsScarce(s: seq<LetterItem>, target: string, l: int, counts: map<char, int>, y: char)
    requires l < |s|
    requires Count(Letters(s), y) <= Count(target, y)
    ensures forall i :: 0 <= i < |s| && s[i].letter == y ==> ClearFrom(s, target, l, counts)[i] == s[i]
    decreases l + 1
  {
    if l >= 0 {
      var x := s[l].letter;
      if s[l].colour != Yellow {
        ClearFromKeepsScarce(s, target, l - 1, counts, y);
      } else {
        var s' := ClearAt(s, target, l, Counter(counts, x));
        if x == y {
          ClearBackwardNegative(s, x, l, Count(Letters(s), x) - Count(target, x) - 1);
        }
        ClearFromKeepsScarce(s', target, l - 1, Bump(counts, x), y);
      }
    }
  }

  // ---------------------------------------------------------------------
  // The whole score
  // ---------------------------------------------------------------------

  /** The feedback for an accepted, non-winning guess: first pass, then
      second pass. */
  function Score(guess: string, target: string): seq<LetterItem>
    requires |guess| == |target|
  {
    Cleared(Marked(guess, target), target)
  }

  /** The score is the first-pass colouring with some yellows turned grey. */
  lemma ScoreDemotesMarked(guess: string, target: string)
    requires |guess| == |target|
    ensures Demotes(Marked(guess, target), Score(guess, target))
    ensures Letters(Score(guess, target)) == guess
  {
    ClearFromDemotes(Marked(guess, target), target, |guess| - 1, map[]);
  }

  /** A position is green exactly when the guess letter is the hidden
      word's letter there; a yellow letter occurs elsewhere in the hidden
      word; a letter absent from the hidden word is grey. */
  lemma ScoreColours(guess: string, target: string, j: nat)
    requires |guess| == |target| && j < |guess|
    ensures |Score(guess, target)| == |guess| && Score(guess, target)[j].letter == guess[j]
    ensures Score(guess, target)[j].colour == Green <==> guess[j] == target[j]
    ensures Score(guess, target)[j].colour == Yellow ==> guess[j] != target[j] && guess[j] in target
    ensures guess[j] !in target ==> Score(guess, target)[j].colour == Grey
  {
    ScoreDemotesMarked(guess, target);
  }

  /** Every position is green exactly when the guess is the hidden word. */
  lemma ScoreAllGreenIff(guess: string, target: string)
    requires |guess| == |target|
    ensures (forall j :: 0 <= j < |guess| ==> Score(guess, target)[j].colour == Green) <==> guess == target
  {
    ScoreDemotesMarked(guess, target);
    if forall j :: 0 <= j < |guess| ==> Score(guess, target)[j].colour == Green {
      forall j | 0 <= j < |guess| ensures guess[j] == target[j] {
        ScoreColours(guess, target, j);
      }
    }
  }

  /** Scoring the hidden word against itself colours every letter green:
      the same items the winning branch produces with
      `setAllLettersColour(green)`. */
  lemma ScoreSelf(target: string)
    ensures Score(target, target) == seq(|target|, i requires 0 <= i < |target| => LetterItem(target[i], Green))
  {
    ScoreDemotesMarked(target, target);
  }

  /** A letter that occurs no more often in the guess than in the hidden
      word keeps its first-pass colours: none of its yellows are cleared. */
  lemma ScoreKeepsScarce(guess: string, target: string, y: char)
    requires |guess| == |target|
    requires Count(guess, y) <= Count(target, y)
    ensures forall j :: 0 <= j < |guess| && guess[j] == y ==>
      Score(guess, target)[j].colour == MarkColour(guess, target, j)
  {
    var m := Marked(guess, target);
    assert Letters(m) == guess;
    ClearFromKeepsScarce(m, target, |m| - 1, map[], y);
  }

  /** The tried set after the first pass is still strictly sorted, and
      every guess letter is recorded with at least its first-pass colour. */
  lemma {:induction false} MarkTriedSorted(tried: seq<LetterItem>, guess: string, target: string, n: nat)
    requires |guess| == |target| && n <= |guess| && StrictlySorted(tried)
    ensures StrictlySorted(MarkTried(tried, guess, target, n))
  {
    if n > 0 {
      MarkTriedSorted(tried, guess, target, n - 1);
      UpsertSorted(MarkTried(tried, guess, target, n - 1), guess[n - 1], MarkColour(guess, target, n - 1));
    }
  }

  lemma {:induction false} MarkTriedRecords(tried: seq<LetterItem>, guess: string, target: string, n: nat)
    requires |guess| == |target| && n <= |guess| && StrictlySorted(tried)
    ensures StrictlySorted(MarkTried(tried, guess, target, n))
    ensures forall j :: 0 <= j < n ==>
      ColourOf(MarkTried(tried, guess, target, n), guess[j]).Some? &&
      MarkColour(guess, target, j) <= ColourOf(MarkTried(tried, guess, target, n), guess[j]).value
  {
    MarkTriedSorted(tried, guess, target, n);
    if n > 0 {
      var prev := MarkTried(tried, guess, target, n - 1);
      MarkTriedRecords(tried, guess, target, n - 1);
      forall j | 0 <= j < n
        ensures ColourOf(MarkTried(tried, guess, target, n), guess[j]).Some? &&
          MarkColour(guess, target, j) <= ColourOf(MarkTried(tried, guess, target, n), guess[j]).value
      {
        UpsertMonotone(prev, guess[n - 1], MarkColour(guess, target, n - 1), guess[j]);
      }
    }
  }

  /** No tried colour goes down during the first pass. */
  lemma {:induction false} MarkTriedMonotone(tried: seq<LetterItem>, guess: string, target: string, n: nat, y: char)
    requires |guess| == |target| && n <= |guess| && StrictlySorted(tried)
    ensures ColourOf(tried, y).Some? ==>
      ColourOf(MarkTried(tried, guess, target, n), y).Some? &&
      ColourOf(tried, y).value <= ColourOf(MarkTried(tried, guess, target, n), y).value
  {
    if n > 0 {
      var prev := MarkTried(tried, guess, target, n - 1);
      MarkTriedMonotone(tried, guess, target, n - 1, y);
      MarkTriedSorted(tried, guess, target, n - 1);
      UpsertMonotone(prev, guess[n - 1], MarkColour(guess, target, n - 1), y);
    }
  }

  // ---------------------------------------------------------------------
  // Worked inputs
  // ---------------------------------------------------------------------

  /** Number of positions holding `x` that are not grey. */
  function Marks(r: seq<LetterItem>, x: char): nat
  {
    if r == [] then 0 else (if r[0].letter == x && r[0].colour != Grey then 1 else 0) + Marks(r[1..], x)
  }

  /** The second pass leaves a list without yellows as it is. */
  lemma ClearedNoYellow(s: seq<LetterItem>, target: string)
    requires forall i :: 0 <= i < |s| ==> s[i].colour != Yellow
    ensures Cleared(s, target) == s
  {
    ClearFromDemotes(s, target, |s| - 1, map[]);
  }

  /** Number of occurrences in a five-letter word. */
  lemma Count5(w: string, x: char)
    requires |w| == 5
    ensures Count(w, x) ==
      (if w[0] == x then 1 else 0) + (if w[1] == x then 1 else 0) + (if w[2] == x then 1 else 0)
      + (if w[3] == x then 1 else 0) + (if w[4] == x then 1 else 0)
  {
    var w1, w2, w3, w4 := w[1..], w[2..], w[3..], w[4..];
    assert w1[1..] == w2 && w2[1..] == w3 && w3[1..] == w4 && w4[1..] == [];
    assert Count(w4, x) == if w[4] == x then 1 else 0;
    assert Count(w3, x) == (if w[3] == x then 1 else 0) + Count(w4, x);
    assert Count(w2, x) == (if w[2] == x then 1 else 0) + Count(w3, x);
    assert Count(w1, x) == (if w[1] == x then 1 else 0) + Count(w2, x);
  }

  /** Over-marking: against HOUSE, the guess EERIE gets a yellow E and a
      green E although HOUSE has one E. At position 1 the counter of E
      becomes 2; at position 0 `clearCount` is 3 - 1 - 1 = 1, but
      `clearBackward(E, 0, 1)` reaches only position 0. */
  lemma OverMarking()
    ensures Score("EERIE", "HOUSE") ==
      [LetterItem('E', Grey), LetterItem('E', Yellow), LetterItem('R', Grey), LetterItem('I', Grey), LetterItem('E', Green)]
    ensures Marks(Score("EERIE", "HOUSE"), 'E') == 2 > Count("HOUSE", 'E') == 1
  {
    var t := "HOUSE";
    var m := Marked("EERIE", t);
    MarkedEerieHouse();
    Count5(Letters(m), 'E');
    Count5(t, 'E');
    var e2 := Bump(map[], 'E');
    assert Counter(e2, 'E') == 2;
    assert ClearAt(m, t, 1, 0) == m;
    ClearEerieAt0(m, 1);
    assert ClearAt(m, t, 0, 2) == m[0 := LetterItem('E', Grey)];
    assert ClearFrom(m, t, 1, map[]) == ClearFrom(m, t, 0, e2);
  }

  lemma MarkedEerieHouse()
    ensures Marked("EERIE", "HOUSE") ==
      [LetterItem('E', Yellow), LetterItem('E', Yellow), LetterItem('R', Grey), LetterItem('I', Grey), LetterItem('E', Green)]
  {
  }

  /** `clearBackward(E, 0, k)` turns a yellow E at position 0 grey for any
      `k >= 0`. */
  lemma ClearEerieAt0(m: seq<LetterItem>, k: int)
    requires |m| == 5 && m[0] == LetterItem('E', Yellow) && k >= 0
    ensures ClearBackwardItems(m, 'E', 0, k) == m[0 := LetterItem('E', Grey)]
  {
  }

  /** Under-marking: against STEEP (two Es, neither at an E position of
      the guess), the guess EERIE keeps only its rightmost yellow E. */
  lemma UnderMarking()
    ensures Score("EERIE", "STEEP") ==
      [LetterItem('E', Grey), LetterItem('E', Grey), LetterItem('R', Grey), LetterItem('I', Grey), LetterItem('E', Yellow)]
    ensures Marks(Score("EERIE", "STEEP"), 'E') == 1 < Count("STEEP", 'E') == 2
  {
    var t := "STEEP";
    var m := Marked("EERIE", t);
    MarkedEerieSteep();
    Count5(Letters(m), 'E');
    Count5(t, 'E');
    var e2 := Bump(map[], 'E');
    var e3 := Bump(e2, 'E');
    assert Counter(e2, 'E') == 2 && Counter(e3, 'E') == 3;
    assert ClearAt(m, t, 4, 0) == m;
    ClearEerieAt1(m);
    var s1 := m[1 := LetterItem('E', Grey)];
    assert ClearAt(m, t, 1, 2) == s1;
    assert Letters(s1) == Letters(m);
    ClearEerieAt0(s1, 0);
    assert ClearAt(s1, t, 0, 3) == s1[0 := LetterItem('E', Grey)];
    assert ClearFrom(m, t, 4, map[]) == ClearFrom(m, t, 1, e2);
    assert ClearFrom(m, t, 1, e2) == ClearFrom(s1, t, 0, e3);
  }

  lemma MarkedEerieSteep()
    ensures Marked("EERIE", "STEEP") ==
      [LetterItem('E', Yellow), LetterItem('E', Yellow), LetterItem('R', Grey), LetterItem('I', Grey), LetterItem('E', Yellow)]
  {
  }

  /** `clearBackward(E, 1, 0)` with yellow Es at positions 0 and 1 turns
      only the second one grey: the first has one E after it. */
  lemma ClearEerieAt1(m: seq<LetterItem>)
    requires |m| == 5 && m[0] == m[1] == LetterItem('E', Yellow)
    ensures ClearBackwardItems(m, 'E', 1, 0) == m[1 := LetterItem('E', Grey)]
  {
  }

  /** SLATE against CRANE: A and E are in place, so both are green; S, L
      and T are not in CRANE. */
  lemma SlateAgainstCrane()
    ensures Score("SLATE", "CRANE") ==
      [LetterItem('S', Grey), LetterItem('L', Grey), LetterItem('A', Green), LetterItem('T', Grey), LetterItem('E', Green)]
  {
    var t := "CRANE";
    assert 'S' !in t && 'L' !in t && 'T' !in t;
    var m := Marked("SLATE", t);
    assert m == [LetterItem('S', Grey), LetterItem('L', Grey), LetterItem('A', Green), LetterItem('T', Grey), LetterItem('E', Green)];
    ClearedNoYellow(m, t);
  }

  /** LLAMA against ALLOW: the second L is in place; the first L and the
      last A stay yellow (ALLOW has two Ls and one A); the A at position 2
      is cleared. */
  lemma LlamaAgainstAllow()
    ensures Score("LLAMA", "ALLOW") ==
      [LetterItem('L', Yellow), LetterItem('L', Green), LetterItem('A', Grey), LetterItem('M', Grey), LetterItem('A', Yellow)]
  {
    var t := "ALLOW";
    var m := Marked("LLAMA", t);
    MarkedLlamaAllow();
    Count5(Letters(m), 'A');
    Count5(t, 'A');
    var a2 := Bump(map[], 'A');
    assert Counter(a2, 'A') == 2;
    assert ClearAt(m, t, 4, 0) == m;
    ClearLlamaAt2(m);
    var s1 := m[2 := LetterItem('A', Grey)];
    assert ClearAt(m, t, 2, 2) == s1;
    assert ClearFrom(m, t, 4, map[]) == ClearFrom(m, t, 2, a2);
    LlamaAllowTail(s1, Bump(a2, 'A'));
  }

  /** The last step of LLAMA against ALLOW: the yellow L at position 0
      is kept, as ALLOW has two Ls. */
  lemma LlamaAllowTail(s1: seq<LetterItem>, counts: map<char, int>)
    requires s1 == [LetterItem('L', Yellow), LetterItem('L', Green), LetterItem('A', Grey), LetterItem('M', Grey), LetterItem('A', Yellow)]
    requires 'L' !in counts
    ensures ClearFrom(s1, "ALLOW", 1, counts) == s1
  {
  }

  lemma MarkedLlamaAllow()
    ensures Marked("LLAMA", "ALLOW") ==
      [LetterItem('L', Yellow), LetterItem('L', Green), LetterItem('A', Yellow), LetterItem('M', Grey), LetterItem('A', Yellow)]
  {
  }

  lemma ClearLlamaAt2(m: seq<LetterItem>)
    requires |m| == 5 && m[2] == LetterItem('A', Yellow) && m[0].letter == m[1].letter == 'L'
    ensures ClearBackwardItems(m, 'A', 2, 0) == m[2 := LetterItem('A', Grey)]
  {
  }
}
