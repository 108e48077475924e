# Wordle letter sets and guess scoring, in Dafny

A model of the game logic of `wordle.go`, a terminal Wordle clone. The
player has a fixed number of tries to guess a hidden five-letter word, and
each guess is answered with a colour per letter.

- **Colours** (`colour.dfy`). `colourID` is ordered grey < yellow < green,
  and a recorded colour only ever moves up.
- **Letter sets** (`letter_set.dfy`). `letterSet` is a list of
  (letter, colour) items that the program changes in place. It becomes
  the class `LetterSets.LetterSet`, with one `seq` field and a method for
  each non-printing operation: the three constructors, `String`,
  `addLetterWithColour`, `setAllLettersColour`, `lettersIn`,
  `clearBackward` and `contains`. Each method is proved against a
  specification function over the items (`Upsert`, `ClearBackwardItems`,
  `Letters`, `Count`), and the lemmas beside them state what the program
  relies on. The tried-letters set stays strictly sorted with one item
  per letter, and a letter's colour never goes down. `clearBackward`
  only turns yellows grey, only at or before its start, and at most
  `max(0, maxToClear + 1)` of them.
- **The word list** (`word_list.dfy`). Go's string order and string
  equality, and `sort.SearchStrings` as a binary search. On a sorted
  list it finds a word exactly when the word is in the list.
- **Scoring** (`scoring.dfy`). `main` scores a guess in two passes,
  written inline.
  - The first pass colours each position green (exact match), yellow
    (letter elsewhere in the hidden word) or grey, and feeds the tried
    set.
  - The back-to-front second pass keeps a per-letter counter map and
    calls `clearBackward` to turn some yellows back to grey.

  Both passes are loops over the guess's letter set, proved equal to
  the functions `Marked`, `MarkTried` and `Cleared`. The second pass is
  modelled exactly as written, including the counter map's first yellow
  setting the counter to 2.
- **A game** (`session.dfy`). The turn loop of `main` runs over a given
  sequence of input lines.
  - A line of the wrong length, or a word the binary search does not
    find, takes no slot.
  - The hidden word wins and is coloured all green.
  - Any other listed word is scored and takes a slot.
  - When the last slot is used, the answer is shown unless it is hidden.

  The record the loop keeps is the guesses matrix and the tried set.
  After any prefix of the input, it equals the scores of the lines that
  took a slot and the first passes of the scored misses.

The second pass does not make a letter's green and yellow marks match the
letter's number of occurrences in the hidden word. It can give more marks
than occurrences, and it can give fewer:

- `Scoring.OverMarking`: EERIE against HOUSE keeps a yellow E beside the
  green E. That is two marks for one E, so the marks of a letter can
  exceed its count in the hidden word.
- `Scoring.UnderMarking`: EERIE against STEEP keeps only the rightmost
  yellow E. That is one mark for two Es: the bound holds here, but an E
  of the hidden word goes unreported.

What does hold is a restricted form: a letter the guess holds no more
often than the hidden word keeps all its first-pass colours
(`Scoring.ScoreKeepsScarce`).

SLATE against CRANE colours A and E green, since both are in place (the
third and fifth letters of both words), and S, L and T grey
(`Scoring.SlateAgainstCrane`).

## Model

| member | source | states |
|---|---|---|
| Colours.Max | wordle.go:118-121 | the raised colour is at least the old colour and the new one, and is one of the two: a colour only moves towards green |
| LetterSets.GreyItems | wordle.go:74-84 | the items of a filled set spell the word and are all grey |
| LetterSets.LetterSet.Empty | wordle.go:66-71 | a new empty set has no items |
| LetterSets.LetterSet.Filled | wordle.go:74-84 | a filled set holds one grey item per letter of the word, in order |
| LetterSets.LetterSet.Sized | wordle.go:87-95 | a sized set holds `size` zero-valued items (letter 0, grey), none for a size below 1 |
| LetterSets.LetterSet.String | wordle.go:98-106 | the string is the items' letters in order, so `String` of a filled set gives back the word |
| LetterSets.SearchLetter | wordle.go:113-115 | `sort.Search` returns the first position whose letter is not below the given one |
| LetterSets.UpsertAt | wordle.go:113-127 | adding a letter at the index the search returns gives the specified result: the colour is raised in place when the letter is there, otherwise the item is inserted at that index |
| LetterSets.LetterSet.AddLetterWithColour | wordle.go:112-135 | the new items are `Upsert` of the old ones; they stay strictly sorted; the length is unchanged for a present letter; for a new letter the items are the old items plus the new item, as a multiset |
| LetterSets.UpsertSorted | wordle.go:129-132 | adding a letter keeps the set strictly sorted by letter, so no letter has two items |
| LetterSets.UpsertLength | wordle.go:117-127 | the set grows by exactly one item when the letter is new, and keeps its length otherwise |
| LetterSets.UpsertAlphabet | wordle.go:117-127 | the set's letters afterwards are the old letters plus the added one |
| LetterSets.UpsertColour | wordle.go:118-126 | the added letter's colour becomes the larger of its old colour and the given one (the given one if it is new); every other letter keeps its colour |
| LetterSets.UpsertMonotone | wordle.go:118-121 | no letter's colour goes down, and the added letter has at least the given colour |
| LetterSets.UpsertInsertsNew | wordle.go:122-132 | for a new letter, the result is a strictly sorted permutation of the old items plus the new item: what appending and re-sorting gives |
| LetterSets.UpsertTwice | wordle.go:327-338 | adding a letter twice is adding it once with the larger colour, so the closing grey add changes nothing for a letter already present |
| LetterSets.ColourOfPresent | wordle.go:117-121 | a letter has a recorded colour exactly when some item holds it |
| LetterSets.LetterSet.SetAllLettersColour | wordle.go:138-145 | every item gets the colour; length and letters are unchanged |
| LetterSets.LetterSet.LettersIn | wordle.go:166-175 | the count is the number of occurrences of the letter among the items |
| LetterSets.LetterSet.ClearBackward | wordle.go:179-195 | the new items are `ClearBackwardItems` of the old: an item turns grey exactly when it is a yellow target letter at or before the start with at most `maxToClear` target letters after it up to the start |
| LetterSets.ClearBackwardItems | wordle.go:179-195 | length and letters are unchanged; an item that changes lies at or before the start and goes from a yellow target letter to a grey one |
| LetterSets.ClearBackwardBoundFrom | wordle.go:181-193 | from any position up to the start, no more items change than there are target letters there, and no more than `max(0, maxToClear + 1)` |
| LetterSets.ClearBackwardBound | wordle.go:179-195 | at most `max(0, maxToClear + 1)` items change |
| LetterSets.ClearBackwardNegative | wordle.go:186 | with a negative bound nothing changes |
| LetterSets.LetterSet.Contains | wordle.go:198-206 | the flag is set exactly when some item holds the letter |
| LetterSets.ContainsIffLettersIn | wordle.go:166-206 | `contains` holds exactly when `lettersIn` is positive |
| WordList.LessIrreflexive | wordle.go:317 | no string is below itself in Go's string order |
| WordList.LessTransitive | wordle.go:317 | Go's string order is transitive |
| WordList.LessTotal | wordle.go:317 | any two different strings are ordered one way or the other |
| WordList.SameFromIff | wordle.go:289 | two equally long strings agree from a position on exactly when every letter from there matches |
| WordList.SameIff | wordle.go:289 | Go's `==` on strings is equality of the letter sequences |
| WordList.SearchStrings | wordle.go:317-318 | the index is the first position whose word is not below the guess; the word there is the guess exactly when the guess is in the list |
| Scoring.FillGuess | wordle.go:284-287 | after filling, the guess set holds the guess's letters, all grey |
| Scoring.MarkPosition | wordle.go:321-338 | one outer iteration sets position `j` to its first-pass colour (green on an exact match, yellow if the letter is elsewhere in the hidden word, grey otherwise) and adds the letter to the tried set with that colour; nothing else changes, and the tried set stays sorted |
| Scoring.FirstPass | wordle.go:320-339 | the guess set becomes `Marked(guess, target)`, and the tried set becomes the old one with every guess letter added with its first-pass colour, still sorted |
| Scoring.MarkTriedSorted | wordle.go:320-339 | the first pass keeps the tried set strictly sorted |
| Scoring.MarkTriedRecords | wordle.go:320-339 | after the first pass, every guess letter is in the tried set with at least its first-pass colour |
| Scoring.MarkTriedMonotone | wordle.go:327-338 | no tried colour goes down during the first pass |
| Scoring.Bump | wordle.go:351-364 | after a yellow letter its counter is 2 if it was 0 or absent, otherwise one more; the other counters are unchanged |
| Scoring.SecondPass | wordle.go:342-371 | the backward loop leaves the guess set equal to `Cleared` of what it held, measured against the hidden word's letters |
| Scoring.ClearFromDemotes | wordle.go:344-371 | the second pass changes nothing but yellow to grey: letters, greens and greys stay |
| Scoring.ClearFromKeepsScarce | wordle.go:360-368 | a letter the guess holds no more often than the hidden word keeps all its items through the second pass |
| Scoring.ScoreDemotesMarked | wordle.go:320-371 | the score is the first-pass colouring with some yellows turned grey, and it spells the guess |
| Scoring.ScoreColours | wordle.go:320-371 | a position is green exactly when the guess letter matches the hidden word there; a yellow letter is out of place but in the hidden word; a letter absent from the hidden word is grey |
| Scoring.ScoreAllGreenIff | wordle.go:320-371 | every position is green exactly when the guess is the hidden word |
| Scoring.ScoreSelf | wordle.go:289-292 | scoring the hidden word against itself gives every letter green, the same as the winning branch |
| Scoring.ScoreKeepsScarce | wordle.go:360-368 | a letter the guess holds no more often than the hidden word keeps its first-pass colour at every position |
| Scoring.ClearedNoYellow | wordle.go:348 | the second pass leaves a list without yellows unchanged |
| Scoring.OverMarking | wordle.go:342-371 | EERIE against HOUSE scores grey, yellow, grey, grey, green: two E marks against one E |
| Scoring.UnderMarking | wordle.go:342-371 | EERIE against STEEP scores grey, grey, grey, grey, yellow: one E mark against two Es |
| Scoring.SlateAgainstCrane | wordle.go:320-371 | SLATE against CRANE scores grey, grey, green, grey, green |
| Scoring.LlamaAgainstAllow | wordle.go:320-371 | LLAMA against ALLOW scores yellow, green, grey, grey, yellow |
| Session.AcceptedNoWin | wordle.go:289-384 | before the winning line, the lines that took a slot are exactly the scored misses |
| Session.ScoresAt | wordle.go:293-373 | row `i` of the guesses matrix is the score of the `i`-th slot-taking guess |
| Session.AllGreen | wordle.go:289-292 | the winning row spells the hidden word and is all green |
| Session.TriedOfRecords | wordle.go:320-339 | over a whole game the tried set stays strictly sorted and holds every letter of every scored guess with at least its first-pass colour |
| Session.TriedOfMonotone | wordle.go:327-338 | a letter's tried colour never goes down from one guess to a later one |
| Session.RecordOfLines | wordle.go:266-384 | the record built line by line is the scores of the lines that took a slot plus the tried set of the scored misses |
| Session.TakeTurn | wordle.go:275-384 | a line is classified in the loop's order (length, then the win check, then the binary search); a win gives the all-green row, a miss gives its score; the tried set changes by the first pass only on a miss, and stays sorted |
| Session.Reveal | wordle.go:388-395 | the answer shown is the hidden word, all green |
| Session.PlayLine | wordle.go:266-395 | after one loop iteration including its `guessCount++`, the counter is up by one after a miss and unchanged after a line taking no slot; the record extends by that line; the answer is shown exactly when a miss used the last slot and the answer is not hidden |
| Session.Turns | wordle.go:265-396 | the loop stops after a win (the first line equal to the hidden word, with at most `maxGuesses` rows), at the scored miss that used the last of `maxGuesses` slots, or when input runs out; with no slots it reads nothing; the record matches the lines read; the answer is shown exactly when all slots are used without a win and the answer is not hidden |
| Session.PlayGame | wordle.go:257-396 | the outcome is a win exactly when the last line read is the hidden word, with as many turns as matrix rows; a loss has used every slot and ends at the scored miss that used the last one (with no slots, no line is read); closed input leaves slots unused; the matrix and tried set are the scores and first passes of the lines read |

## Left out

- The colour printouts (`printLettersWithColour`, `printWordLettersBlank`, the gchalk calls) and every prompt and message: they are output only. The `Blank` and `Show` flags only change that output.
- The score and summary printout after a win (wordle.go:305-314): it prints figures without changing any state.
- Reading standard input. The game takes the lines as a sequence, already stripped of their newline and upper-cased (wordle.go:269-273). A failed read, where `log.Fatalln` ends the program, becomes the outcome `InputClosed`.
- Loading the embedded word list in `init`: the word list is a parameter required to be sorted, as `sort.Strings` leaves it. Duplicates are allowed and harmless.
- Random choice of the hidden word, command-line parsing and the `UseAnswer` length check with `os.Exit`. The hidden word is a parameter of five letters; `ToUpper` is not modelled.
- Unicode and bytes: strings are sequences of characters and a position is a letter index. For the five upper-case ASCII letters the game plays with, Go's byte offsets and `len` agree with this.
- The global `triedLetterSet` is passed to the methods that use it as a `LetterSet` object.
- `sort.Slice` is not modelled as a sorting algorithm. The re-sort after appending a new item is modelled as inserting it at the index the binary search found. `UpsertInsertsNew` proves that this is a sorted permutation of the old items plus the new one, which is what the sort produces since letters are unique.
- LetterSets.LetterSet.AddLetterWithColour: requires the items to be strictly sorted by letter. The only set it is called on, the tried set, starts empty and stays sorted; the binary search's result on unsorted items is not modelled.
- Session.PlayGame: a non-positive `maxGuesses` is reported as `Lost` with no rows and no answer shown. The program simply skips the loop then and prints nothing.
- Go's `int` is 64 bits wide; counters here are unbounded integers. No counter in the game can come near the limit.
