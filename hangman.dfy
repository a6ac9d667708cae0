/**
 * The hangman closure: `make_hangman(secret_word)` captures the secret word and a list of
 * guessed letters; every call of the returned closure records the first letter of the guess,
 * builds the masked word and reports whether every letter has been revealed.
 * The closure and its captured variables are modelled as an object of class Game.
 */
module Hangman {

  /** The placeholder shown for a letter that has not been guessed yet. */
  const Blank: char := '_'

  /** What the masked word shows at a position holding letter `c`. */
  function Cell(c: char, guesses: seq<char>): char {
    if c in guesses then c else Blank
  }

  /** The masked word: the secret with every unguessed letter replaced by Blank. */
  function Mask(secret: string, guesses: seq<char>): (pattern: string)
    ensures |pattern| == |secret|
  {
    if secret == [] then []
    else Mask(secret[..|secret| - 1], guesses) + [Cell(secret[|secret| - 1], guesses)]
  }

  /** Every letter of the secret has been guessed. */
  predicate Revealed(secret: string, guesses: seq<char>) {
    forall c :: c in secret ==> c in guesses
  }

  /** Position i of the pattern is the secret's letter if guessed, otherwise Blank. */
  lemma {:induction false} MaskAt(secret: string, guesses: seq<char>, i: nat)
    requires i < |secret|
    ensures Mask(secret, guesses)[i] == if secret[i] in guesses then secret[i] else Blank
  {
    var n := |secret| - 1;
    if i < n {
      MaskAt(secret[..n], guesses, i);
    }
  }

  /** When every letter is revealed the pattern is the secret word itself. */
  lemma RevealedShowsSecret(secret: string, guesses: seq<char>)
    requires Revealed(secret, guesses)
    ensures Mask(secret, guesses) == secret
  {
    forall i | 0 <= i < |secret|
      ensures Mask(secret, guesses)[i] == secret[i]
    {
      MaskAt(secret, guesses, i);
    }
  }

  /**
   * If the secret contains no Blank, the game is won exactly when the pattern equals the
   * secret. (A secret containing '_' shows '_' for that letter whether or not it was guessed.)
   */
  lemma RevealedIffPatternIsSecret(secret: string, guesses: seq<char>)
    requires Blank !in secret
    ensures Revealed(secret, guesses) <==> Mask(secret, guesses) == secret
  {
    if Mask(secret, guesses) == secret {
      forall c | c in secret
        ensures c in guesses
      {
        var i :| 0 <= i < |secret| && secret[i] == c;
        MaskAt(secret, guesses, i);
      }
    } else if Revealed(secret, guesses) {
      RevealedShowsSecret(secret, guesses);
    }
  }

  /** Guesses only accumulate, so a won game stays won whatever is guessed next. */
  lemma StaysRevealed(secret: string, guesses: seq<char>, later: seq<char>)
    requires Revealed(secret, guesses)
    ensures Revealed(secret, guesses + later)
  {
    forall c | c in secret
      ensures c in guesses + later
    {
      assert c in guesses;
    }
  }

  /** A letter shown in the pattern stays shown after more guesses. */
  lemma ShownStaysShown(secret: string, guesses: seq<char>, later: seq<char>, i: nat)
    requires i < |secret| && Mask(secret, guesses)[i] != Blank
    ensures Mask(secret, guesses + later)[i] == Mask(secret, guesses)[i] == secret[i]
  {
    MaskAt(secret, guesses, i);
    MaskAt(secret, guesses + later, i);
  }

  /** The state captured by the closure returned from `make_hangman`. */
  class Game {
    /** The captured `secret_word`; the closure never rebinds it. */
    const secret: string
    /** The captured `guesses` list, appended to by every call. */
    var guesses: seq<char>

    /** `make_hangman(secret_word)`: the closure starts with no guesses. */
    constructor (secretWord: string)
      ensures secret == secretWord && guesses == []
    {
      secret := secretWord;
      guesses := [];
    }

    /**
     * One call of `hangman_closure(guess)`. A guess with no first letter is an error in the
     * source (`guess[0]` raises), so callers must pass a non-empty guess. The pattern is
     * returned instead of being printed.
     */
    method Guess(guess: string) returns (pattern: string, done: bool)
      requires |guess| > 0
      modifies this
      ensures guesses == old(guesses) + [guess[0]]
      ensures pattern == Mask(secret, guesses)
      ensures done <==> Revealed(secret, guesses)
    {
      guesses := guesses + [guess[0]];
      var outList: string := [];
      done := true;
      for i := 0 to |secret|
        invariant outList == Mask(secret[..i], guesses)
        invariant done <==> Revealed(secret[..i], guesses)
      {
        var c := secret[i];
        assert secret[..i + 1] == secret[..i] + [c];
        assert secret[..i + 1][..i] == secret[..i];
        if c in guesses {
          outList := outList + [c];
        } else {
          done := false;
          outList := outList + [Blank];
        }
      }
      assert secret[..|secret|] == secret;
      pattern := outList;
    }
  }

  /** An empty secret is solved by the very first guess, with an empty pattern. */
  method FirstGuessOnEmptySecret(guess: string) returns (pattern: string, done: bool)
    requires |guess| > 0
    ensures pattern == [] && done
  {
    var game := new Game("");
    pattern, done := game.Guess(guess);
  }

  /** Once a call has returned true, the next call returns true as well. */
  method DoneStaysDone(game: Game, first: string, second: string) returns (done1: bool, done2: bool)
    requires |first| > 0 && |second| > 0
    modifies game
    ensures done1 ==> done2
  {
    var p1, p2;
    p1, done1 := game.Guess(first);
    ghost var after1 := game.guesses;
    p2, done2 := game.Guess(second);
    if done1 {
      StaysRevealed(game.secret, after1, [second[0]]);
    }
  }
}
