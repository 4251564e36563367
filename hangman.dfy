/**
 * The Hangman game-state machine: a secret word, a counter of wrong guesses
 * left, the set of letters tried and a per-position reveal mask.
 *
 * The game's fields are described twice: as a value (Board) on which the
 * rules are stated as functions (NewBoard, Step, StatusOf, Render), and as
 * the object the program mutates (class Game), whose methods are proved to
 * follow those functions through Snapshot().
 */
module Hangman {
  import opened Letters

  /** The symbol that stands for a letter not yet revealed. */
  const Placeholder: char := '_'

  /** The guess limit play_hangman uses when none is given. */
  const DefaultMaxGuesses: int := 7

  datatype Option<T> = None | Some(value: T)

  /** What one call of guess reports (the program prints one message per case). */
  datatype Outcome = InvalidInput | AlreadyGuessed | Hit | Miss

  /** What is_game_over decides; a win is checked before a loss. */
  datatype GameStatus = Won | Lost | InProgress

  /** A game's fields as a value: the secret word, the guess limit, the wrong
      guesses left, the letters tried and the reveal mask. */
  datatype Board = Board(word: string, maxGuesses: int, remaining: int, guessed: set<char>, mask: string)

  /** The reveal mask of a word once the letters in guessed have been tried. */
  function Mask(word: string, guessed: set<char>): string
  {
    seq(|word|, i requires 0 <= i < |word| => if word[i] in guessed then word[i] else Placeholder)
  }

  /** The letters tried that do not occur in the word: the wrong guesses. */
  ghost function Misses(word: string, guessed: set<char>): set<char>
  {
    set c | c in guessed && c !in word
  }

  /** The invariant every reachable game keeps: only lower-case letters are
      ever recorded, each position is revealed exactly when its letter has
      been tried, and one guess has been spent per wrong letter. */
  ghost predicate Consistent(b: Board)
  {
    && (forall c :: c in b.guessed ==> IsLowerLetter(c))
    && b.mask == Mask(b.word, b.guessed)
    && b.remaining == b.maxGuesses - |Misses(b.word, b.guessed)|
  }

  // ---------------------------------------------------------------------
  // Construction
  // ---------------------------------------------------------------------

  /** The state WordGame.__init__ sets up; the random pick is the caller's
      index choice into the word list. */
  function NewBoard(words: seq<string>, choice: nat, maxGuesses: int): (b: Board)
    requires choice < |words|
    ensures Consistent(b)
    ensures b.word == LowerString(words[choice])
    ensures b.maxGuesses == maxGuesses && b.remaining == maxGuesses && b.guessed == {}
    ensures |b.mask| == |b.word| && forall i :: 0 <= i < |b.mask| ==> b.mask[i] == Placeholder
  {
    var word := LowerString(words[choice]);
    var b := Board(word, maxGuesses, maxGuesses, {}, seq(|word|, _ => Placeholder));
    assert Misses(word, {}) == {};
    b
  }

  // ---------------------------------------------------------------------
  // One guess
  // ---------------------------------------------------------------------

  /** Validation and lower-casing of the guess: a letter exactly when the
      input is one alphabetic character. */
  function Normalize(input: string): (r: Option<char>)
    ensures r.Some? <==> |input| == 1 && IsLetter(input[0])
    ensures r.Some? ==> IsLowerLetter(r.value) && r.value == ToLower(input[0])
  {
    if !IsAlpha(input) || |input| != 1 then None else Some(ToLower(input[0]))
  }

  /** The mask after revealing every position of the word that holds letter. */
  function Reveal(mask: string, word: string, letter: char): string
    requires |mask| == |word|
  {
    seq(|mask|, i requires 0 <= i < |mask| => if word[i] == letter then letter else mask[i])
  }

  /** A guess of an already validated, lower-cased letter. */
  function StepLetter(b: Board, letter: char): (r: (Board, Outcome))
    requires |b.mask| == |b.word|
    ensures letter in b.guessed ==> r == (b, AlreadyGuessed)
    ensures letter !in b.guessed ==> r.0.guessed == b.guessed + {letter}
    ensures letter !in b.guessed ==> r.1 == (if letter in b.word then Hit else Miss)
    ensures r.0.word == b.word && r.0.maxGuesses == b.maxGuesses && |r.0.mask| == |b.mask|
    ensures r.0.remaining == (if r.1 == Miss then b.remaining - 1 else b.remaining)
    ensures r.1 != Hit ==> r.0.mask == b.mask
    ensures r.1 == Hit ==> forall i :: 0 <= i < |b.word| ==>
      r.0.mask[i] == (if b.word[i] == letter then letter else b.mask[i])
  {
    if letter in b.guessed then (b, AlreadyGuessed)
    else
      var guessed := b.guessed + {letter};
      if letter in b.word then (b.(guessed := guessed, mask := Reveal(b.mask, b.word, letter)), Hit)
      else (b.(guessed := guessed, remaining := b.remaining - 1), Miss)
  }

  /** Hangman.guess on a value: rejected input leaves the board as it was. */
  function Step(b: Board, input: string): (r: (Board, Outcome))
    requires |b.mask| == |b.word|
    ensures r.1 == InvalidInput <==> Normalize(input) == None
    ensures r.1 == InvalidInput || r.1 == AlreadyGuessed ==> r.0 == b
    ensures r.0.word == b.word && r.0.maxGuesses == b.maxGuesses && |r.0.mask| == |b.mask|
    ensures b.guessed <= r.0.guessed && |r.0.guessed - b.guessed| <= 1
    ensures b.remaining - 1 <= r.0.remaining <= b.remaining
  {
    match Normalize(input)
    case None => (b, InvalidInput)
    case Some(letter) =>
      var r := StepLetter(b, letter);
      assert r.0.guessed - b.guessed <= {letter};
      r
  }

  /** Revealing a newly tried letter yields the mask of the enlarged guess set. */
  lemma RevealExtendsMask(word: string, guessed: set<char>, letter: char)
    ensures Reveal(Mask(word, guessed), word, letter) == Mask(word, guessed + {letter})
  {
  }

  /** Every guess keeps the game invariant. */
  lemma StepPreservesConsistency(b: Board, input: string)
    requires Consistent(b)
    ensures Consistent(Step(b, input).0)
  {
    match Normalize(input)
    case None =>
    case Some(letter) =>
      if letter !in b.guessed {
        var g := b.guessed + {letter};
        if letter in b.word {
          RevealExtendsMask(b.word, b.guessed, letter);
          assert Misses(b.word, g) == Misses(b.word, b.guessed);
        } else {
          assert Mask(b.word, g) == Mask(b.word, b.guessed);
          assert Misses(b.word, g) == Misses(b.word, b.guessed) + {letter};
        }
      }
  }

  /** A valid letter guessed a second time is reported as already guessed
      and changes nothing, so no guess is spent. */
  lemma RepeatedGuessChangesNothing(b: Board, input: string)
    requires |b.mask| == |b.word|
    requires Normalize(input).Some?
    ensures var after := Step(b, input).0; Step(after, input) == (after, AlreadyGuessed)
  {
  }

  /** The driver's lower-casing of the input line before the guess makes no
      difference: guesses are case-insensitive. */
  lemma StepIgnoresCase(b: Board, input: string)
    requires |b.mask| == |b.word|
    ensures Step(b, LowerString(input)) == Step(b, input)
  {
    LowerStringKeepsAlpha(input);
    if |input| == 1 {
      assert LowerString(input)[0] == ToLower(input[0]);
    }
  }

  /** Consequences of the invariant for the counter: it never exceeds the
      limit, and it is still at the limit exactly when no guess was wrong. */
  lemma RemainingBounds(b: Board)
    requires Consistent(b)
    ensures b.remaining <= b.maxGuesses
    ensures b.remaining == b.maxGuesses <==> forall c :: c in b.guessed ==> c in b.word
  {
    if b.remaining == b.maxGuesses {
      assert Misses(b.word, b.guessed) == {};
      forall c | c in b.guessed ensures c in b.word {
        assert c !in Misses(b.word, b.guessed);
      }
    } else {
      var m := Misses(b.word, b.guessed);
      assert m != {};
      var c :| c in m;
      assert c in b.guessed && c !in b.word;
    }
  }

  // ---------------------------------------------------------------------
  // End of game
  // ---------------------------------------------------------------------

  /** is_game_over on a value: a win when no placeholder is left, otherwise
      a loss when no guess is left. */
  function StatusOf(b: Board): GameStatus
  {
    if Placeholder !in b.mask then Won
    else if b.remaining == 0 then Lost
    else InProgress
  }

  /** On a consistent board the game is won exactly when every letter of the
      word has been tried, and lost exactly when the guesses are used up and
      some letter has not been tried. */
  lemma StatusMeaning(b: Board)
    requires Consistent(b)
    ensures StatusOf(b) == Won <==> forall i :: 0 <= i < |b.word| ==> b.word[i] in b.guessed
    ensures StatusOf(b) == Lost <==>
      b.remaining == 0 && exists i :: 0 <= i < |b.word| && b.word[i] !in b.guessed
  {
    assert Placeholder !in b.guessed;
    if exists i :: 0 <= i < |b.word| && b.word[i] !in b.guessed {
      var i :| 0 <= i < |b.word| && b.word[i] !in b.guessed;
      assert b.mask[i] == Placeholder;
    } else {
      forall i | 0 <= i < |b.mask| ensures b.mask[i] != Placeholder {
        assert b.word[i] in b.guessed;
      }
    }
  }

  // ---------------------------------------------------------------------
  // Sequences of guesses
  // ---------------------------------------------------------------------

  /** Any sequence of guess calls, applied one after another. */
  function Run(b: Board, inputs: seq<string>): Board
    requires |b.mask| == |b.word|
    decreases |inputs|
  {
    if inputs == [] then b else Run(Step(b, inputs[0]).0, inputs[1..])
  }

  /** The invariant holds after any sequence of guesses. */
  lemma {:induction false} RunPreservesConsistency(b: Board, inputs: seq<string>)
    requires Consistent(b)
    ensures Consistent(Run(b, inputs))
    decreases |inputs|
  {
    if inputs != [] {
      StepPreservesConsistency(b, inputs[0]);
      RunPreservesConsistency(Step(b, inputs[0]).0, inputs[1..]);
    }
  }

  /** Over any sequence of guesses the counter never grows and drops by at
      most one per guess, and the set of tried letters only grows. */
  lemma {:induction false} RunMonotone(b: Board, inputs: seq<string>)
    requires |b.mask| == |b.word|
    ensures b.remaining - |inputs| <= Run(b, inputs).remaining <= b.remaining
    ensures b.guessed <= Run(b, inputs).guessed
    ensures Run(b, inputs).word == b.word
    decreases |inputs|
  {
    if inputs != [] {
      RunMonotone(Step(b, inputs[0]).0, inputs[1..]);
    }
  }

  /** The play_hangman loop: while the game is not over, read a line,
      lower-case it and guess it. It stops early when the lines run out. */
  function Play(b: Board, lines: seq<string>): Board
    requires |b.mask| == |b.word|
    decreases |lines|
  {
    if StatusOf(b) != InProgress || lines == [] then b
    else Play(Step(b, LowerString(lines[0])).0, lines[1..])
  }

  /** Because the loop checks for game over before every guess, a game that
      starts with a non-negative limit never goes below zero guesses. */
  lemma {:induction false} PlayKeepsRemainingNonNegative(b: Board, lines: seq<string>)
    requires |b.mask| == |b.word|
    requires b.remaining >= 0
    ensures Play(b, lines).remaining >= 0
    decreases |lines|
  {
    if StatusOf(b) == InProgress && lines != [] {
      PlayKeepsRemainingNonNegative(Step(b, LowerString(lines[0])).0, lines[1..]);
    }
  }

  /** The loop only leaves a game unfinished when every line was used. */
  lemma {:induction false} PlayStopsOnlyWhenOver(b: Board, lines: seq<string>)
    requires |b.mask| == |b.word|
    ensures StatusOf(Play(b, lines)) == InProgress ==> Play(b, lines) == Run(b, LowerAll(lines))
    decreases |lines|
  {
    if StatusOf(b) == InProgress && lines != [] {
      PlayStopsOnlyWhenOver(Step(b, LowerString(lines[0])).0, lines[1..]);
      assert LowerAll(lines)[1..] == LowerAll(lines[1..]);
    }
  }

  /** Each line lower-cased, as the driver does before guessing it. */
  function LowerAll(lines: seq<string>): (r: seq<string>)
    ensures |r| == |lines|
    ensures forall k :: 0 <= k < |lines| ==> r[k] == LowerString(lines[k])
  {
    if lines == [] then [] else [LowerString(lines[0])] + LowerAll(lines[1..])
  }

  // ---------------------------------------------------------------------
  // Display
  // ---------------------------------------------------------------------

  /** What display_board shows: the mask joined with single spaces, the
      guesses left, and the tried letters in order joined with ", ". */
  datatype View = View(word: string, guessesLeft: int, letters: string)

  /** sep.join over a sequence of one-character strings. */
  function Join(cells: seq<char>, sep: string): string
    decreases |cells|
  {
    if |cells| == 0 then []
    else if |cells| == 1 then [cells[0]]
    else [cells[0]] + sep + Join(cells[1..], sep)
  }

  /** A join of n cells is n cells plus n - 1 separators long. */
  lemma {:induction false} JoinLength(cells: seq<char>, sep: string)
    requires |cells| > 0
    ensures |Join(cells, sep)| == |cells| * (|sep| + 1) - |sep|
    decreases |cells|
  {
    if |cells| > 1 {
      JoinLength(cells[1..], sep);
      assert |cells| * (|sep| + 1) == (|cells| - 1) * (|sep| + 1) + |sep| + 1;
    }
  }

  /** Reads a joined string back: every (|sep| + 1)-th character, starting
      with the first. */
  function Cells(joined: string, sep: string): seq<char>
    decreases |joined|
  {
    if |joined| <= |sep| + 1 then joined[..if joined == [] then 0 else 1]
    else [joined[0]] + Cells(joined[|sep| + 1..], sep)
  }

  /** Joining loses nothing: the cells can be read back from the joined
      string, which is therefore a faithful rendering of the mask. */
  lemma {:induction false} JoinRoundTrip(cells: seq<char>, sep: string)
    ensures Cells(Join(cells, sep), sep) == cells
    decreases |cells|
  {
    if |cells| > 1 {
      var rest := cells[1..];
      JoinLength(rest, sep);
      assert |rest| * (|sep| + 1) == (|rest| - 1) * (|sep| + 1) + |sep| + 1;
      JoinRoundTrip(rest, sep);
      var r := Join(cells, sep);
      assert r == [cells[0]] + sep + Join(rest, sep);
      assert r[|sep| + 1..] == Join(rest, sep);
    }
  }

  /** Reads the separators back: the |sep| characters after each cell but
      the last. */
  function Gaps(joined: string, sep: string): seq<string>
    decreases |joined|
  {
    if |joined| <= |sep| + 1 then []
    else [joined[1..|sep| + 1]] + Gaps(joined[|sep| + 1..], sep)
  }

  /** Between any two neighbouring cells of a join sits exactly the
      separator, and nothing else is inserted. */
  lemma {:induction false} JoinGaps(cells: seq<char>, sep: string)
    ensures Gaps(Join(cells, sep), sep)
      == seq(if |cells| == 0 then 0 else |cells| - 1, _ => sep)
    decreases |cells|
  {
    if |cells| > 1 {
      var rest := cells[1..];
      JoinLength(rest, sep);
      assert |rest| * (|sep| + 1) == (|rest| - 1) * (|sep| + 1) + |sep| + 1;
      JoinGaps(rest, sep);
      var r := Join(cells, sep);
      assert r == [cells[0]] + sep + Join(rest, sep);
      assert r[1..|sep| + 1] == sep;
      assert r[|sep| + 1..] == Join(rest, sep);
    }
  }

  /** A set of characters has a least element. */
  lemma {:induction false} LeastExists(s: set<char>)
    requires s != {}
    ensures exists m :: m in s && forall c :: c in s ==> m <= c
    decreases |s|
  {
    var x :| x in s;
    if s != {x} {
      LeastExists(s - {x});
      var m :| m in s - {x} && forall c :: c in s - {x} ==> m <= c;
      forall c | c in s ensures x <= c || m <= c {
        if c != x {
          assert c in s - {x};
        }
      }
      if x < m {
        assert forall c :: c in s ==> x <= c;
      } else {
        assert forall c :: c in s ==> m <= c;
      }
    } else {
      assert forall c :: c in s ==> x <= c;
    }
  }

  /** The least character of a non-empty set. */
  function Least(s: set<char>): (m: char)
    requires s != {}
    ensures m in s && forall c :: c in s ==> m <= c
  {
    LeastExists(s);
    var m :| m in s && forall c :: c in s ==> m <= c;
    m
  }

  /** sorted(s): the characters of s in increasing code-point order. */
  function SortedLetters(s: set<char>): (r: seq<char>)
    ensures |r| == |s|
    ensures forall c :: c in r <==> c in s
    ensures forall i, j :: 0 <= i < j < |r| ==> r[i] < r[j]
    decreases |s|
  {
    if s == {} then []
    else
      var m := Least(s);
      var rest := SortedLetters(s - {m});
      assert |s - {m}| == |s| - 1;
      var r := [m] + rest;
      assert forall i, j :: 0 <= i < j < |r| ==> r[i] < r[j] by {
        forall i, j | 0 <= i < j < |r| ensures r[i] < r[j] {
          assert r[j] == rest[j - 1] && r[j] in s - {m};
          if i > 0 {
            assert r[i] == rest[i - 1];
          }
        }
      }
      r
  }

  /** display_board on a value. */
  function Render(b: Board): View
  {
    View(Join(b.mask, " "), b.remaining, Join(SortedLetters(b.guessed), ", "))
  }

  /** The display shows the whole board: the mask can be read back cell by
      cell, the counter is shown as is, and the letter line lists every
      tried letter exactly once, in increasing order. */
  lemma DisplayShowsBoard(b: Board)
    ensures Cells(Render(b).word, " ") == b.mask
    ensures Render(b).guessesLeft == b.remaining
    ensures var shown := Cells(Render(b).letters, ", ");
      && |shown| == |b.guessed|
      && (forall c :: c in shown <==> c in b.guessed)
      && (forall i, j :: 0 <= i < j < |shown| ==> shown[i] < shown[j])
  {
    JoinRoundTrip(b.mask, " ");
    JoinRoundTrip(SortedLetters(b.guessed), ", ");
  }

  /** What the display puts between the cells: a single space between
      neighbouring mask cells and ", " between neighbouring letters, and
      nothing more. */
  lemma DisplaySeparators(b: Board)
    ensures var gaps := Gaps(Render(b).word, " ");
      && |gaps| == (if b.mask == [] then 0 else |b.mask| - 1)
      && forall i :: 0 <= i < |gaps| ==> gaps[i] == " "
    ensures var gaps := Gaps(Render(b).letters, ", ");
      && |gaps| == (if b.guessed == {} then 0 else |b.guessed| - 1)
      && forall i :: 0 <= i < |gaps| ==> gaps[i] == ", "
  {
    var sorted := SortedLetters(b.guessed);
    JoinGaps(b.mask, " ");
    JoinGaps(sorted, ", ");
    assert Render(b).word == Join(b.mask, " ");
    assert Render(b).letters == Join(sorted, ", ");
  }

  /** The display lines are exactly as long as the cells and the gaps
      between them, so nothing follows the last cell. */
  lemma DisplayLengths(b: Board)
    ensures |Render(b).word| == if b.mask == [] then 0 else 2 * |b.mask| - 1
    ensures |Render(b).letters| == if b.guessed == {} then 0 else 3 * |b.guessed| - 2
  {
    var sorted := SortedLetters(b.guessed);
    assert Render(b).word == Join(b.mask, " ");
    assert Render(b).letters == Join(sorted, ", ");
    if b.mask != [] {
      JoinLength(b.mask, " ");
      assert |b.mask| * (|" "| + 1) - |" "| == 2 * |b.mask| - 1;
    }
    if b.guessed != {} {
      JoinLength(sorted, ", ");
      assert |sorted| * (|", "| + 1) - |", "| == 3 * |b.guessed| - 2;
    }
  }

  // ---------------------------------------------------------------------
  // The object
  // ---------------------------------------------------------------------

  /** A Hangman game; the fields the program updates in place are vars,
      the reveal list is an array written cell by cell. */
  class Game {
    const words: seq<string>
    const word: string
    const maxGuesses: int
    var remaining: int
    var guessed: set<char>
    const hidden: array<char>

    /** The fields as a Board value. */
    function Snapshot(): Board
      reads this, hidden
    {
      Board(word, maxGuesses, remaining, guessed, hidden[..])
    }

    ghost predicate Valid()
      reads this, hidden
    {
      Consistent(Snapshot())
    }

    /** WordGame.__init__ with the random pick replaced by the index choice. */
    constructor (words: seq<string>, choice: nat, maxGuesses: int := DefaultMaxGuesses)
      requires choice < |words|
      ensures Valid() && fresh(hidden)
      ensures this.words == words && word == LowerString(words[choice])
      ensures Snapshot() == NewBoard(words, choice, maxGuesses)
    {
      var w := LowerString(words[choice]);
      this.words := words;
      this.word := w;
      this.maxGuesses := maxGuesses;
      this.remaining := maxGuesses;
      this.guessed := {};
      this.hidden := new char[|w|](_ => Placeholder);
      new;
      assert hidden[..] == NewBoard(words, choice, maxGuesses).mask;
    }

    /** Hangman.guess: validate, lower-case, reject repeats, record the letter,
        then reveal every matching position (a hit) or spend a guess (a miss). */
    method Guess(input: string) returns (outcome: Outcome)
      requires Valid()
      modifies this, hidden
      ensures Valid()
      ensures (Snapshot(), outcome) == Step(old(Snapshot()), input)
      ensures outcome == InvalidInput || outcome == AlreadyGuessed ==>
        remaining == old(remaining) && guessed == old(guessed) && hidden[..] == old(hidden[..])
      ensures old(guessed) <= guessed && remaining <= old(remaining)
    {
      ghost var before := Snapshot();
      StepPreservesConsistency(before, input);
      if !IsAlpha(input) || |input| != 1 {
        return InvalidInput;
      }
      var letter := ToLower(input[0]);
      if letter in guessed {
        return AlreadyGuessed;
      }
      guessed := guessed + {letter};
      if letter in word {
        var i := 0;
        while i < |word|
          modifies hidden
          invariant 0 <= i <= |word| == hidden.Length
          invariant forall j :: 0 <= j < i ==>
            hidden[j] == (if word[j] == letter then letter else old(hidden[j]))
          invariant forall j :: i <= j < |word| ==> hidden[j] == old(hidden[j])
        {
          if word[i] == letter {
            hidden[i] := letter;
          }
          i := i + 1;
        }
        assert hidden[..] == Reveal(before.mask, word, letter);
        outcome := Hit;
      } else {
        remaining := remaining - 1;
        outcome := Miss;
      }
    }

    /** The win/loss/in-progress decision of is_game_over. */
    function Status(): GameStatus
      reads this, hidden
    {
      StatusOf(Snapshot())
    }

    /** is_game_over: every letter of the word tried, or no guess left. */
    function IsGameOver(): (over: bool)
      reads this, hidden
      requires Valid()
      ensures over <==> (forall i :: 0 <= i < |word| ==> word[i] in guessed) || remaining == 0
    {
      StatusMeaning(Snapshot());
      Status() != InProgress
    }

    /** display_board without the printing. */
    function DisplayBoard(): View
      reads this, hidden
    {
      Render(Snapshot())
    }
  }

  /** play_hangman with the console replaced by a list of input lines:
      construct the game, then guess lower-cased lines until the game is over. */
  method PlayHangman(words: seq<string>, choice: nat, lines: seq<string>, maxGuesses: int := DefaultMaxGuesses)
    returns (final: Board, status: GameStatus)
    requires choice < |words|
    ensures final == Play(NewBoard(words, choice, maxGuesses), lines)
    ensures Consistent(final) && status == StatusOf(final)
    ensures final.remaining <= maxGuesses
    ensures maxGuesses >= 0 ==> final.remaining >= 0
  {
    var game := new Game(words, choice, maxGuesses);
    ghost var start := game.Snapshot();
    var k := 0;
    while k < |lines| && !game.IsGameOver()
      invariant 0 <= k <= |lines|
      invariant game.Valid() && game.maxGuesses == maxGuesses
      invariant Play(game.Snapshot(), lines[k..]) == Play(start, lines)
      invariant maxGuesses >= 0 ==> game.remaining >= 0
      decreases |lines| - k
    {
      var _ := game.Guess(LowerString(lines[k]));
      assert lines[k..][1..] == lines[k + 1..];
      k := k + 1;
    }
    final := game.Snapshot();
    status := game.Status();
    RemainingBounds(final);
  }

  /** A client's view of a guess of a new letter of the word. */
  method GuessHit(g: Game, input: string)
    requires g.Valid() && |input| == 1 && IsLowerLetter(input[0])
    requires input[0] in g.word && input[0] !in g.guessed
    modifies g, g.hidden
    ensures g.Valid() && g.guessed == old(g.guessed) + {input[0]} && g.remaining == old(g.remaining)
  {
    var o := g.Guess(input);
    assert o == Hit;
  }

  /** A client's view of a guess of a new letter not in the word. */
  method GuessMiss(g: Game, input: string)
    requires g.Valid() && |input| == 1 && IsLowerLetter(input[0])
    requires input[0] !in g.word && input[0] !in g.guessed
    modifies g, g.hidden
    ensures g.Valid() && g.guessed == old(g.guessed) + {input[0]} && g.remaining == old(g.remaining) - 1
  {
    var o := g.Guess(input);
    assert o == Miss;
  }

  /** Guessing every letter of "code" wins without spending a guess. */
  method ScenarioWin()
  {
    var g := new Game(["code"], 0);
    assert g.word == "code";
    GuessHit(g, "c");
    GuessHit(g, "o");
    ScenarioWinEnd(g);
  }

  /** The second half of ScenarioWin. */
  method ScenarioWinEnd(g: Game)
    requires g.Valid() && g.word == "code" && g.guessed == {'c', 'o'} && g.remaining == 7
    modifies g, g.hidden
  {
    GuessHit(g, "d");
    GuessHit(g, "e");
    assert g.remaining == 7;
    assert forall i :: 0 <= i < |g.word| ==> g.word[i] in g.guessed;
    assert g.IsGameOver();
  }

  /** Two misses exhaust a limit of two; afterwards a digit, two letters,
      and a letter tried before in the other case are all rejected. */
  method ScenarioLoss()
  {
    var g := new Game(["byte"], 0, 2);
    assert g.word == "byte";
    GuessMiss(g, "x");
    assert g.remaining == 1;
    GuessMiss(g, "q");
    assert g.remaining == 0 && g.guessed == {'x', 'q'};
    assert g.IsGameOver();
    var o := g.Guess("5");
    assert o == InvalidInput;
    o := g.Guess("ab");
    assert o == InvalidInput;
    o := g.Guess("X");
    assert o == AlreadyGuessed && g.remaining == 0;
  }

  /** An upper-case guess counts as its lower-case letter. */
  method ScenarioUpperCase()
  {
    var g := new Game(["Code"], 0);
    assert g.word == "code";
    var o := g.Guess("C");
    assert o == Hit && g.hidden[0] == 'c' && g.remaining == 7;
  }
}
