/** One game: the turn loop of `main`. The hidden word, the sorted word
    list, the number of tries, the lines typed by the player (already
    trimmed and upper-cased) and the hide-answer flag are parameters.
    A line of the wrong length, or one not in the word list, takes no
    slot; the hidden word wins; any other listed word is scored and takes
    a slot. */
module Session {
  import opened Colours
  import opened LetterSets
  import opened WordList
  import opened Scoring

  /** How the turn loop treats one line. */
  datatype Turn = WrongLength | UnknownWord | Win | Miss

  /** The checks in the order the loop makes them: length first, then the
      hidden word (which wins even if it is not in the list), then the
      binary-search membership test. */
  function Classify(guess: string, target: string, words: seq<string>): Turn
  {
    if |guess| != WordLength then WrongLength
    else if Same(guess, target) then Win
    else if guess in words then Miss
    else UnknownWord
  }

  /** Whether a line takes a slot. */
  predicate TakesSlot(guess: string, target: string, words: seq<string>)
  {
    Classify(guess, target, words) == Win || Classify(guess, target, words) == Miss
  }

  /** No line among the first `n` is the hidden word. */
  predicate NoWinBefore(lines: seq<string>, n: nat, target: string)
    requires n <= |lines|
  {
    forall i :: 0 <= i < n ==> !Same(lines[i], target)
  }

  /** Of the first `n` lines, those that took a slot, in order. */
  function Accepted(lines: seq<string>, n: nat, target: string, words: seq<string>): (gs: seq<string>)
    requires n <= |lines|
    ensures |gs| <= n
    ensures forall i :: 0 <= i < |gs| ==> |gs[i]| == WordLength
  {
    if n == 0 then []
    else
      var w := lines[n - 1];
      Accepted(lines, n - 1, target, words) + (if TakesSlot(w, target, words) then [w] else [])
  }

  /** Of the first `n` lines, those scored without winning, in order: the
      guesses that fed the tried set. */
  function Misses(lines: seq<string>, n: nat, target: string, words: seq<string>): (gs: seq<string>)
    requires n <= |lines|
    ensures |gs| <= n
    ensures forall i :: 0 <= i < |gs| ==> |gs[i]| == WordLength
  {
    if n == 0 then []
    else
      var w := lines[n - 1];
      Misses(lines, n - 1, target, words) + (if Classify(w, target, words) == Miss then [w] else [])
  }

  /** Before the winning line, the lines that took a slot are exactly the
      scored misses. */
  lemma {:induction false} AcceptedNoWin(lines: seq<string>, n: nat, target: string, words: seq<string>)
    requires n <= |lines| && NoWinBefore(lines, n, target)
    ensures Accepted(lines, n, target, words) == Misses(lines, n, target, words)
  {
    if n > 0 {
      SameIff(lines[n - 1], target);
      AcceptedNoWin(lines, n - 1, target, words);
    }
  }

  /** The rows of the guesses matrix for a list of guesses. */
  function Scores(gs: seq<string>, target: string): (rows: seq<seq<LetterItem>>)
    requires forall i :: 0 <= i < |gs| ==> |gs[i]| == |target|
    ensures |rows| == |gs|
  {
    if gs == [] then []
    else Scores(gs[..|gs| - 1], target) + [Score(gs[|gs| - 1], target)]
  }

  /** Row `i` of the matrix is the score of guess `i`. */
  lemma {:induction false} ScoresAt(gs: seq<string>, target: string, i: nat)
    requires forall k :: 0 <= k < |gs| ==> |gs[k]| == |target|
    requires i < |gs|
    ensures Scores(gs, target)[i] == Score(gs[i], target)
  {
    if i < |gs| - 1 {
      ScoresAt(gs[..|gs| - 1], target, i);
    }
  }

  /** The tried set after the first passes of a list of scored guesses,
      starting from the empty set. */
  function TriedOf(gs: seq<string>, target: string): seq<LetterItem>
    requires forall i :: 0 <= i < |gs| ==> |gs[i]| == |target|
  {
    if gs == [] then []
    else MarkTried(TriedOf(gs[..|gs| - 1], target), gs[|gs| - 1], target, |target|)
  }

  /** The hidden word with every letter green: the winning row and the
      answer shown after a loss. */
  function AllGreen(w: string): (r: seq<LetterItem>)
    ensures |r| == |w| && Letters(r) == w
    ensures forall i :: 0 <= i < |r| ==> r[i].colour == Green
  {
    seq(|w|, i requires 0 <= i < |w| => LetterItem(w[i], Green))
  }

  /** The tried set stays strictly sorted over a whole game, and records
      every letter of every scored guess with at least its first-pass
      colour. */
  lemma {:induction false} TriedOfRecords(gs: seq<string>, target: string)
    requires forall i :: 0 <= i < |gs| ==> |gs[i]| == |target|
    ensures StrictlySorted(TriedOf(gs, target))
    ensures forall i, j :: 0 <= i < |gs| && 0 <= j < |target| ==>
      ColourOf(TriedOf(gs, target), gs[i][j]).Some? &&
      MarkColour(gs[i], target, j) <= ColourOf(TriedOf(gs, target), gs[i][j]).value
  {
    if gs != [] {
      var prefix := gs[..|gs| - 1];
      var g := gs[|gs| - 1];
      var before := TriedOf(prefix, target);
      TriedOfRecords(prefix, target);
      MarkTriedRecords(before, g, target, |target|);
      forall i, j | 0 <= i < |gs| && 0 <= j < |target|
        ensures ColourOf(TriedOf(gs, target), gs[i][j]).Some? &&
          MarkColour(gs[i], target, j) <= ColourOf(TriedOf(gs, target), gs[i][j]).value
      {
        if i < |gs| - 1 {
          assert gs[i] == prefix[i];
          MarkTriedMonotone(before, g, target, |target|, gs[i][j]);
        }
      }
    }
  }

  /** A letter's tried colour never goes down from one guess to a later
      one. */
  lemma {:induction false} TriedOfMonotone(gs: seq<string>, target: string, k: nat, y: char)
    requires forall i :: 0 <= i < |gs| ==> |gs[i]| == |target|
    requires k <= |gs|
    ensures ColourOf(TriedOf(gs[..k], target), y).Some? ==>
      ColourOf(TriedOf(gs, target), y).Some? &&
      ColourOf(TriedOf(gs[..k], target), y).value <= ColourOf(TriedOf(gs, target), y).value
    decreases |gs|
  {
    if k < |gs| {
      var prefix := gs[..|gs| - 1];
      assert prefix[..k] == gs[..k];
      TriedOfMonotone(prefix, target, k, y);
      TriedOfRecords(prefix, target);
      MarkTriedMonotone(TriedOf(prefix, target), gs[|gs| - 1], target, |target|, y);
    } else {
      assert gs[..k] == gs;
    }
  }

  /** How a game ends: a win after `turns` slots, all slots used, or the
      input running out (where the program stops with a fatal log). */
  datatype Outcome = Won(turns: nat) | Lost | InputClosed

  lemma ScoresSnoc(gs: seq<string>, w: string, target: string)
    requires forall i :: 0 <= i < |gs| ==> |gs[i]| == |target|
    requires |w| == |target|
    ensures Scores(gs + [w], target) == Scores(gs, target) + [Score(w, target)]
  {
  }

  lemma TriedOfSnoc(gs: seq<string>, w: string, target: string)
    requires forall i :: 0 <= i < |gs| ==> |gs[i]| == |target|
    requires |w| == |target|
    ensures TriedOf(gs + [w], target) == MarkTried(TriedOf(gs, target), w, target, |target|)
  {
  }

  /** What the turn loop keeps: the guesses matrix and the tried set. */
  datatype Record = Record(rows: seq<seq<LetterItem>>, tried: seq<LetterItem>)

  /** The record the turn loop keeps after reading the first `n` lines,
      built line by line: a scored miss adds its row and its first pass,
      the winning line adds the all-green row, any other line changes
      nothing. */
  ghost function RecordOf(lines: seq<string>, n: nat, target: string, words: seq<string>): Record
    requires |target| == WordLength && n <= |lines|
  {
    if n == 0 then Record([], [])
    else
      var r := RecordOf(lines, n - 1, target, words);
      var w := lines[n - 1];
      match Classify(w, target, words)
      case Miss => Record(r.rows + [Score(w, target)], MarkTried(r.tried, w, target, |target|))
      case Win => Record(r.rows + [AllGreen(target)], r.tried)
      case _ => r
  }

  /** The record after `n` lines is the guesses matrix of the lines that
      took a slot and the tried set of the scored misses. */
  lemma {:induction false} RecordOfLines(lines: seq<string>, n: nat, target: string, words: seq<string>)
    requires |target| == WordLength && n <= |lines|
    ensures RecordOf(lines, n, target, words) ==
      Record(Scores(Accepted(lines, n, target, words), target), TriedOf(Misses(lines, n, target, words), target))
  {
    if n > 0 {
      RecordOfLines(lines, n - 1, target, words);
      var w := lines[n - 1];
      var acc, mis := Accepted(lines, n - 1, target, words), Misses(lines, n - 1, target, words);
      match Classify(w, target, words)
      case Miss =>
        ScoresSnoc(acc, w, target);
        TriedOfSnoc(mis, w, target);
      case Win =>
        SameIff(w, target);
        ScoreSelf(target);
        ScoresSnoc(acc, w, target);
        assert mis + [] == mis;
      case _ =>
        assert acc + [] == acc && mis + [] == mis;
    }
  }

  /** One iteration of the turn loop up to the slot accounting: the length
      check, the win check (the guess set turned all green), the binary
      search, and for a listed word the two scoring passes. */
  method TakeTurn(guessWord: string, target: string, words: seq<string>, targetSet: LetterSet, tried: LetterSet)
    returns (kind: Turn, row: seq<LetterItem>)
    requires |target| == WordLength && Sorted(words) && targetSet != tried
    requires Letters(targetSet.items) == target && StrictlySorted(tried.items)
    modifies tried
    ensures kind == Classify(guessWord, target, words)
    ensures kind == Win ==> row == AllGreen(target)
    ensures kind == Miss ==> row == Score(guessWord, target)
    ensures tried.items ==
      if kind == Miss then MarkTried(old(tried.items), guessWord, target, |target|) else old(tried.items)
    ensures StrictlySorted(tried.items)
  {
    row := [];
    if |guessWord| != WordLength {
      return WrongLength, row;
    }
    var guessSet := new LetterSet.Sized(WordLength);
    FillGuess(guessSet, guessWord);
    SameIff(guessWord, target);
    if guessWord == target {
      guessSet.SetAllLettersColour(Green);
      row := guessSet.items;
      assert row == AllGreen(target);
      return Win, row;
    }
    var i := SearchStrings(words, guessWord);
    if i < |words| && words[i] == guessWord {
      FirstPass(guessSet, guessWord, target, tried);
      SecondPass(guessSet, targetSet);
      return Miss, guessSet.items;
    }
    return UnknownWord, row;
  }

  /** The answer shown after the last slot is used: the hidden word, all
      green. */
  method Reveal(target: string) returns (answer: seq<LetterItem>)
    ensures answer == AllGreen(target)
  {
    var answerSet := new LetterSet.Filled(target);
    answerSet.SetAllLettersColour(Green);
    answer := answerSet.items;
  }

  /** One pass of the turn loop for line `n`, ending with the loop's own
      `guessCount++` (the winning line leaves the loop by `break`, before
      it). A listed non-winning word or the winning word appends its row
      to `history`. `count` is the counter afterwards: one more than
      before for a scored miss, unchanged otherwise, since a line that
      takes no slot first steps the counter back. `answer` is the answer
      shown when this line used the last slot. */
  method PlayLine(lines: seq<string>, n: nat, target: string, words: seq<string>, targetSet: LetterSet, tried: LetterSet,
                  guessCount: int, maxGuesses: int, hideAnswer: bool, history: seq<seq<LetterItem>>)
    returns (kind: Turn, count: int, history': seq<seq<LetterItem>>, answer: Option<seq<LetterItem>>)
    requires |target| == WordLength && Sorted(words) && n < |lines|
    requires targetSet.items == GreyItems(target) && targetSet != tried
    requires StrictlySorted(tried.items) && NoWinBefore(lines, n, target)
    requires Record(history, tried.items) == RecordOf(lines, n, target, words)
    requires 0 <= guessCount == |history| < maxGuesses
    modifies tried
    ensures kind == Classify(lines[n], target, words)
    ensures Record(history', tried.items) == RecordOf(lines, n + 1, target, words)
    ensures StrictlySorted(tried.items)
    ensures count == if kind == Miss then guessCount + 1 else guessCount
    ensures kind == Win ==> Same(lines[n], target) && |history'| == guessCount + 1
    ensures kind != Win ==> NoWinBefore(lines, n + 1, target) && count == |history'| <= maxGuesses
    ensures answer == if kind == Miss && count == maxGuesses && !hideAnswer then Some(AllGreen(target)) else None
  {
    var row;
    kind, row := TakeTurn(lines[n], target, words, targetSet, tried);
    count, history', answer := guessCount, history, None;
    if kind == WrongLength {
      // `guessCount--; continue`, then the loop's `guessCount++`
      return;
    }
    if kind == Win {
      history' := history + [row];
      return;
    }
    if kind == Miss {
      history' := history + [row];
    } else {
      count := count - 1;
    }
    if count + 1 == maxGuesses && !hideAnswer {
      var shown := Reveal(target);
      answer := Some(shown);
    }
    count := count + 1;
  }

  /** One game: the tried set starts empty, the hidden word's set is
      filled, and the turn loop runs. `history` is the guesses matrix,
      `triedItems` the tried set at the end, `consumed` the number of lines
      read and `revealed` the answer shown after a loss. The outcome is
      read off how the loop stopped. */
  method PlayGame(target: string, words: seq<string>, maxGuesses: int, lines: seq<string>, hideAnswer: bool)
    returns (outcome: Outcome, history: seq<seq<LetterItem>>, triedItems: seq<LetterItem>,
             consumed: nat, revealed: Option<seq<LetterItem>>)
    requires |target| == WordLength && Sorted(words)
    ensures consumed <= |lines|
    ensures history == Scores(Accepted(lines, consumed, target, words), target)
    ensures triedItems == TriedOf(Misses(lines, consumed, target, words), target)
    ensures StrictlySorted(triedItems)
    ensures outcome.Won? <==> 0 < consumed && lines[consumed - 1] == target
    ensures outcome.Won? ==> NoWinBefore(lines, consumed - 1, target)
    ensures outcome.Won? ==> outcome.turns == |history| && 1 <= |history| <= maxGuesses
    ensures !outcome.Won? ==> NoWinBefore(lines, consumed, target)
    ensures outcome == Lost ==> |history| == if maxGuesses < 0 then 0 else maxGuesses
    ensures outcome == Lost && maxGuesses > 0 ==> 0 < consumed && Classify(lines[consumed - 1], target, words) == Miss
    ensures maxGuesses <= 0 ==> consumed == 0
    ensures outcome == InputClosed ==> consumed == |lines| && |history| < maxGuesses
    ensures revealed == if outcome == Lost && !hideAnswer && maxGuesses > 0 then Some(AllGreen(target)) else None
  {
    var tried := new LetterSet.Empty();
    var targetSet := new LetterSet.Filled(target);
    var won;
    won, history, consumed, revealed := Turns(target, words, maxGuesses, lines, hideAnswer, targetSet, tried);
    triedItems := tried.items;
    RecordOfLines(lines, consumed, target, words);
    if consumed > 0 {
      SameIff(lines[consumed - 1], target);
    }
    if won {
      outcome := Won(|history|);
    } else {
      outcome := if |history| < maxGuesses then InputClosed else Lost;
    }
  }

  /** The guessing loop of the game (wordle.go:265-396), from an empty record
      of tried letters: it stops after a win, after `maxGuesses` counted
      turns, or when the input runs out. */
  method Turns(target: string, words: seq<string>, maxGuesses: int, lines: seq<string>, hideAnswer: bool,
               targetSet: LetterSet, tried: LetterSet)
    returns (won: bool, history: seq<seq<LetterItem>>, consumed: nat, revealed: Option<seq<LetterItem>>)
    requires |target| == WordLength && Sorted(words)
    requires targetSet.items == GreyItems(target) && targetSet != tried && tried.items == []
    modifies tried
    ensures consumed <= |lines|
    ensures Record(history, tried.items) == RecordOf(lines, consumed, target, words)
    ensures StrictlySorted(tried.items)
    ensures won ==> 0 < consumed && Same(lines[consumed - 1], target) && NoWinBefore(lines, consumed - 1, target)
    ensures won ==> 1 <= |history| <= maxGuesses && revealed == None
    ensures !won ==> NoWinBefore(lines, consumed, target)
    ensures !won ==> (if maxGuesses > 0 then |history| <= maxGuesses else history == [])
    ensures !won && |history| < maxGuesses ==> consumed == |lines|
    ensures !won ==> revealed == if |history| == maxGuesses > 0 && !hideAnswer then Some(AllGreen(target)) else None
    ensures !won && |history| == maxGuesses > 0 ==> 0 < consumed && Classify(lines[consumed - 1], target, words) == Miss
    ensures maxGuesses <= 0 ==> consumed == 0
  {
    history, consumed, revealed, won := [], 0, None, false;
    var guessCount := 0;
    while guessCount < maxGuesses
      invariant 0 <= guessCount == |history|
      invariant if maxGuesses > 0 then guessCount <= maxGuesses else guessCount == 0
      invariant consumed <= |lines|
      invariant targetSet.items == GreyItems(target) && tried != targetSet
      invariant StrictlySorted(tried.items)
      invariant NoWinBefore(lines, consumed, target)
      invariant Record(history, tried.items) == RecordOf(lines, consumed, target, words)
      invariant revealed == if guessCount == maxGuesses > 0 && !hideAnswer then Some(AllGreen(target)) else None
      invariant guessCount == maxGuesses > 0 ==> 0 < consumed && Classify(lines[consumed - 1], target, words) == Miss
      invariant maxGuesses <= 0 ==> consumed == 0
      decreases |lines| - consumed
    {
      if consumed == |lines| {
        // reading fails: the program stops
        break;
      }
      var kind;
      kind, guessCount, history, revealed :=
        PlayLine(lines, consumed, target, words, targetSet, tried, guessCount, maxGuesses, hideAnswer, history);
      consumed := consumed + 1;
      if kind == Win {
        won := true;
        return;
      }
    }
  }
}
