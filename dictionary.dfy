/**
 * `load_words` (app.py): the dictionary is the set of lines that, once stripped and
 * lower-cased, are long enough, alphabetic and use enough distinct letters. Reading the
 * file is outside the model; the lines are given as the strings the file iterator yields.
 */
module Dictionary {
  import opened Text

  /** `line.strip().lower()`. */
  function Normalize(line: string): string
  {
    Lower(Strip(line))
  }

  /** The filter of the comprehension, applied to a normalized line. */
  predicate Admissible(word: string, minLength: int, minUniqueLetters: int)
  {
    |word| >= minLength && IsAlpha(word) && |LetterSet(word)| >= minUniqueLetters
  }

  /** A dictionary entry: non-empty and made of the letters `a` to `z` only. */
  predicate IsLowercaseWord(word: string)
  {
    |word| > 0 && forall k :: 0 <= k < |word| ==> IsLowerAscii(word[k])
  }

  /**
   * The set comprehension of `load_words`. Every entry is a lower-case word that meets
   * both thresholds and is its own normal form, so running the filter over the
   * dictionary's own entries keeps every one of them unchanged.
   */
  function LoadWords(lines: seq<string>, minLength: int, minUniqueLetters: int): (words: set<string>)
    ensures forall w :: w in words ==>
              IsLowercaseWord(w) && |w| >= minLength && |LetterSet(w)| >= minUniqueLetters
              && Normalize(w) == w && Admissible(Normalize(w), minLength, minUniqueLetters)
  {
    var words := set i | 0 <= i < |lines| && Admissible(Normalize(lines[i]), minLength, minUniqueLetters)
                   :: Normalize(lines[i]);
    forall w | w in words
      ensures IsLowercaseWord(w) && Normalize(w) == w
    {
      var i :| 0 <= i < |lines| && Admissible(Normalize(lines[i]), minLength, minUniqueLetters)
               && w == Normalize(lines[i]);
      NormalizedWordIsStable(lines[i], minLength, minUniqueLetters);
    }
    words
  }

  /** A kept line normalizes to a lower-case word that normalization no longer changes. */
  lemma NormalizedWordIsStable(line: string, minLength: int, minUniqueLetters: int)
    requires Admissible(Normalize(line), minLength, minUniqueLetters)
    ensures IsLowercaseWord(Normalize(line))
    ensures Normalize(Normalize(line)) == Normalize(line)
  {
    var w := Normalize(line);
    LowerOfLetters(Strip(line));
    LetterIsNotWhitespace(w[0]);
    LetterIsNotWhitespace(w[|w| - 1]);
    StripUnchanged(w);
    LowerOfLowercase(w);
  }

  /** Lower-casing a string of letters gives a lower-case word. */
  lemma LowerOfLetters(s: string)
    requires IsAlpha(Lower(s))
    ensures IsLowercaseWord(Lower(s))
  {
    var w := Lower(s);
    forall k | 0 <= k < |w| ensures IsLowerAscii(w[k]) {
      assert w[k] == LowerChar(s[k]);
    }
  }

  lemma LowerOfLowercase(w: string)
    requires IsLowercaseWord(w)
    ensures Lower(w) == w
  {
    forall k | 0 <= k < |w| ensures Lower(w)[k] == w[k] {
      assert IsLowerAscii(w[k]);
    }
  }

  lemma LetterIsNotWhitespace(c: char)
    requires IsAsciiLetter(c)
    ensures !IsWhitespace(c)
  {
  }

  /**
   * Membership in the dictionary: a word is in it exactly when some line normalizes to it
   * and it passes the length, alphabetic and distinct-letter tests.
   */
  lemma LoadWordsMembership(lines: seq<string>, minLength: int, minUniqueLetters: int, w: string)
    ensures w in LoadWords(lines, minLength, minUniqueLetters) <==>
            (exists i :: 0 <= i < |lines| && Normalize(lines[i]) == w)
            && |w| >= minLength && IsAlpha(w) && |LetterSet(w)| >= minUniqueLetters
  {
  }

  /** A lower-case word is its own normal form as a dictionary line. */
  lemma NormalizeLowercase(w: string)
    requires IsLowercaseWord(w)
    ensures Normalize(w) == w
  {
    LetterIsNotWhitespace(w[0]);
    LetterIsNotWhitespace(w[|w| - 1]);
    StripUnchanged(w);
    LowerOfLowercase(w);
  }

  /**
   * The dictionary half of the worked example, with the defaults of `load_words`
   * (`min_length=4`, `min_unique_letters=4`), one line per lemma: "tea" is dropped for
   * being shorter than four letters, and "aced", "cadet" and "aide" are kept as they are.
   */
  lemma ExampleTea()
    ensures Normalize("tea") == "tea" && !Admissible("tea", 4, 4)
  {
    NormalizeLowercase("tea");
  }

  lemma ExampleAced()
    ensures Normalize("aced") == "aced" && Admissible("aced", 4, 4)
  {
    FourDistinctLetters("aced", 'a', 'c', 'e', 'd');
    ExampleLineKept("aced");
  }

  lemma ExampleCadet()
    ensures Normalize("cadet") == "cadet" && Admissible("cadet", 4, 4)
  {
    FourDistinctLetters("cadet", 'c', 'a', 'd', 'e');
    ExampleLineKept("cadet");
  }

  lemma ExampleAide()
    ensures Normalize("aide") == "aide" && Admissible("aide", 4, 4)
  {
    FourDistinctLetters("aide", 'a', 'i', 'd', 'e');
    ExampleLineKept("aide");
  }

  lemma FourDistinctLetters(w: string, a: char, b: char, c: char, d: char)
    requires a in w && b in w && c in w && d in w
    requires a != b && a != c && a != d && b != c && b != d && c != d
    ensures |LetterSet(w)| >= 4
  {
    var four := {a, b, c, d};
    assert |four| == 4;
    var all := LetterSet(w);
    assert all == four + (all - four);
  }

  lemma ExampleLineKept(w: string)
    requires IsLowercaseWord(w) && |w| >= 4 && |LetterSet(w)| >= 4
    ensures Normalize(w) == w && Admissible(w, 4, 4)
  {
    NormalizeLowercase(w);
  }
}
