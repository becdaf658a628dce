/**
 * The solving block of `solve_spelling_bee` (app.py): keep the dictionary words that
 * contain the center letter and use only allowed letters, split them into pangrams and
 * plain words while iterating over the dictionary, and queue the pangrams, longest first,
 * ahead of the plain words, longest first.
 */
module Solver {
  import opened Text

  /** `center in word and not (set(word) - letters_set)` with `letters_set = letters | {center}`. */
  predicate IsCandidate(word: string, center: char, letters: set<char>)
  {
    center in word && LetterSet(word) <= letters + {center}
  }

  /** `set(word) >= letters`: the word uses every letter of the grid. */
  predicate IsPangram(word: string, letters: set<char>)
  {
    letters <= LetterSet(word)
  }

  ghost function Candidates(words: set<string>, center: char, letters: set<char>): set<string>
  {
    set w | w in words && IsCandidate(w, center, letters)
  }

  ghost function PangramsOf(words: set<string>, center: char, letters: set<char>): set<string>
  {
    set w | w in words && IsCandidate(w, center, letters) && IsPangram(w, letters)
  }

  ghost function PlainsOf(words: set<string>, center: char, letters: set<char>): set<string>
  {
    set w | w in words && IsCandidate(w, center, letters) && !IsPangram(w, letters)
  }

  /** Longer words never come after shorter ones. */
  ghost predicate LongestFirst(s: seq<string>)
  {
    forall i, j :: 0 <= i < j < |s| ==> |s[i]| >= |s[j]|
  }

  /**
   * What `sorted_words` is: its first `k` entries are the pangram candidates and the rest
   * the plain candidates, each group exactly once and longest first.
   */
  ghost predicate RankedQueue(q: seq<string>, k: int, words: set<string>, center: char, letters: set<char>)
  {
    0 <= k <= |q|
    && multiset(q[..k]) == multiset(PangramsOf(words, center, letters))
    && multiset(q[k..]) == multiset(PlainsOf(words, center, letters))
    && LongestFirst(q[..k]) && LongestFirst(q[k..])
  }

  /**
   * Python's insertion step for `sorted(..., key=len, reverse=True)`: `x` goes before
   * the first entry that is not longer than it, which keeps equal lengths in input order.
   */
  function InsertByLength(x: string, s: seq<string>): (r: seq<string>)
    requires LongestFirst(s)
    ensures multiset(r) == multiset(s) + multiset{x}
    ensures forall e :: e in r ==> e in s || e == x
    ensures LongestFirst(r)
  {
    if s == [] || |s[0]| <= |x| then
      ConsLongestFirst(x, s);
      [x] + s
    else
      var rest := InsertByLength(x, s[1..]);
      assert s == [s[0]] + s[1..];
      HeadBoundsRest(x, s, rest);
      ConsLongestFirst(s[0], rest);
      [s[0]] + rest
  }

  /** A word no shorter than every entry of a longest-first ordering can go in front of it. */
  lemma ConsLongestFirst(h: string, s: seq<string>)
    requires LongestFirst(s)
    requires s == [] || |s[0]| <= |h|
    ensures LongestFirst([h] + s)
  {
    forall i, j | 0 <= i < j < |[h] + s| ensures |([h] + s)[i]| >= |([h] + s)[j]| {
      if i > 0 {
        assert ([h] + s)[i] == s[i - 1];
      }
    }
  }

  /** After a longer head, every word of the rest (or the inserted `x`) is at most as long. */
  lemma HeadBoundsRest(x: string, s: seq<string>, rest: seq<string>)
    requires LongestFirst(s) && s != [] && |x| < |s[0]|
    requires forall e :: e in rest ==> e in s[1..] || e == x
    requires LongestFirst(rest)
    ensures rest == [] || |rest[0]| <= |s[0]|
  {
    if rest != [] {
      assert rest[0] in rest;
      if rest[0] != x {
        var k :| 0 <= k < |s[1..]| && s[1..][k] == rest[0];
        assert s[k + 1] == rest[0];
      }
    }
  }

  /** `sorted(s, key=len, reverse=True)`: a permutation of `s`, longest first. */
  function SortByLength(s: seq<string>): (r: seq<string>)
    ensures multiset(r) == multiset(s)
    ensures LongestFirst(r)
  {
    if s == [] then []
    else
      assert s == [s[0]] + s[1..];
      InsertByLength(s[0], SortByLength(s[1..]))
  }

  /**
   * app.py's solving loop. The dictionary is a set, so it is visited in an unspecified
   * order; whatever that order is, the queue is ranked and holds each candidate once.
   * Returns the queue, `found_words` and `len(pangrams)`.
   */
  method Solve(allWords: set<string>, center: char, letters: set<char>)
    returns (sortedWords: seq<string>, foundWords: nat, pangramCount: nat)
    ensures RankedQueue(sortedWords, pangramCount, allWords, center, letters)
    ensures foundWords == |sortedWords|
  {
    var lettersSet := letters + {center};
    var validWords: seq<string> := [];
    var pangrams: seq<string> := [];
    var remaining := allWords;
    ghost var seen: set<string> := {};
    while remaining != {}
      invariant remaining + seen == allWords && remaining !! seen
      invariant multiset(pangrams) == multiset(PangramsOf(seen, center, letters))
      invariant multiset(validWords) == multiset(PlainsOf(seen, center, letters))
      decreases |remaining|
    {
      var word :| word in remaining;
      var wordSet := LetterSet(word);
      GroupsGrow(seen, word, center, letters);
      SourceTests(word, wordSet, center, letters, lettersSet);
      if center in word && wordSet - lettersSet == {} {
        if wordSet >= letters {
          assert multiset(pangrams + [word]) == multiset(pangrams) + multiset{word};
          pangrams := pangrams + [word];
        } else {
          assert multiset(validWords + [word]) == multiset(validWords) + multiset{word};
          validWords := validWords + [word];
        }
      }
      MoveWord(remaining, seen, word);
      remaining := remaining - {word};
      seen := seen + {word};
    }
    sortedWords := SortByLength(pangrams) + SortByLength(validWords);
    foundWords := |sortedWords|;
    pangramCount := |pangrams|;
    RankedFromGroups(pangrams, validWords, allWords, center, letters);
  }

  /** Sorting the two groups separately and concatenating them gives a ranked queue. */
  lemma RankedFromGroups(pangrams: seq<string>, plains: seq<string>, words: set<string>,
                         center: char, letters: set<char>)
    requires multiset(pangrams) == multiset(PangramsOf(words, center, letters))
    requires multiset(plains) == multiset(PlainsOf(words, center, letters))
    ensures RankedQueue(SortByLength(pangrams) + SortByLength(plains), |pangrams|, words, center, letters)
  {
    var p, n := SortByLength(pangrams), SortByLength(plains);
    assert |p| == |multiset(p)| == |multiset(pangrams)| == |pangrams|;
    assert (p + n)[..|pangrams|] == p && (p + n)[|pangrams|..] == n;
  }

  /** Moving a word from the unvisited to the visited words keeps their union and disjointness. */
  lemma MoveWord(remaining: set<string>, seen: set<string>, word: string)
    requires word in remaining && remaining !! seen
    ensures (remaining - {word}) + (seen + {word}) == remaining + seen
    ensures (remaining - {word}) !! (seen + {word})
  {
  }

  /** The loop's tests on `word` are `IsCandidate` and `IsPangram`. */
  lemma SourceTests(word: string, wordSet: set<char>, center: char, letters: set<char>, lettersSet: set<char>)
    requires wordSet == LetterSet(word) && lettersSet == letters + {center}
    ensures (center in word && wordSet - lettersSet == {}) == IsCandidate(word, center, letters)
    ensures (wordSet >= letters) == IsPangram(word, letters)
  {
    assert wordSet - lettersSet == {} <==> wordSet <= lettersSet;
  }

  /** Visiting one more, unvisited word adds it to exactly the group it belongs to. */
  lemma GroupsGrow(seen: set<string>, word: string, center: char, letters: set<char>)
    requires word !in seen
    ensures multiset(PangramsOf(seen + {word}, center, letters)) ==
            multiset(PangramsOf(seen, center, letters))
            + (if IsCandidate(word, center, letters) && IsPangram(word, letters) then multiset{word} else multiset{})
    ensures multiset(PlainsOf(seen + {word}, center, letters)) ==
            multiset(PlainsOf(seen, center, letters))
            + (if IsCandidate(word, center, letters) && !IsPangram(word, letters) then multiset{word} else multiset{})
  {
    if IsCandidate(word, center, letters) && IsPangram(word, letters) {
      assert PangramsOf(seen + {word}, center, letters) == PangramsOf(seen, center, letters) + {word};
      assert PlainsOf(seen + {word}, center, letters) == PlainsOf(seen, center, letters);
    } else if IsCandidate(word, center, letters) {
      assert PangramsOf(seen + {word}, center, letters) == PangramsOf(seen, center, letters);
      assert PlainsOf(seen + {word}, center, letters) == PlainsOf(seen, center, letters) + {word};
    } else {
      assert PangramsOf(seen + {word}, center, letters) == PangramsOf(seen, center, letters);
      assert PlainsOf(seen + {word}, center, letters) == PlainsOf(seen, center, letters);
    }
  }

  /**
   * Every candidate word is in the queue, and everything in the queue is a candidate
   * word from the dictionary.
   */
  lemma QueueMembership(q: seq<string>, k: int, words: set<string>, center: char, letters: set<char>, w: string)
    requires RankedQueue(q, k, words, center, letters)
    ensures w in q <==> w in words && IsCandidate(w, center, letters)
  {
    assert q == q[..k] + q[k..];
    assert w in q <==> w in multiset(q[..k]) || w in multiset(q[k..]);
  }

  /**
   * The first `k` entries are exactly the pangrams: every pangram comes before every plain
   * word in the queue.
   */
  lemma PangramsFirst(q: seq<string>, k: int, words: set<string>, center: char, letters: set<char>)
    requires RankedQueue(q, k, words, center, letters)
    ensures forall i :: 0 <= i < |q| ==> (IsPangram(q[i], letters) <==> i < k)
    ensures forall i, j :: 0 <= i < j < |q| && IsPangram(q[j], letters) ==> IsPangram(q[i], letters)
  {
    forall i | 0 <= i < |q| ensures IsPangram(q[i], letters) <==> i < k {
      if i < k {
        assert q[..k][i] in multiset(q[..k]);
      } else {
        assert q[k..][i - k] in multiset(q[k..]);
      }
    }
  }

  /** Each group is longest first; the whole queue is longest first within each group. */
  lemma LongestFirstWithinGroups(q: seq<string>, k: int, words: set<string>, center: char, letters: set<char>)
    requires RankedQueue(q, k, words, center, letters)
    ensures forall i, j :: 0 <= i < j < |q| && (j < k || k <= i) ==> |q[i]| >= |q[j]|
  {
    forall i, j | 0 <= i < j < |q| && (j < k || k <= i) ensures |q[i]| >= |q[j]| {
      if j < k {
        assert q[..k][i] == q[i] && q[..k][j] == q[j];
      } else {
        assert q[k..][i - k] == q[i] && q[k..][j - k] == q[j];
      }
    }
  }

  /**
   * The queue is a permutation of the candidate set: no duplicates, `found_words` is the
   * number of candidates, and `len(pangrams)` the number of pangram candidates.
   */
  lemma QueueIsPermutation(q: seq<string>, k: int, words: set<string>, center: char, letters: set<char>)
    requires RankedQueue(q, k, words, center, letters)
    ensures multiset(q) == multiset(Candidates(words, center, letters))
    ensures |q| == |Candidates(words, center, letters)|
    ensures k == |PangramsOf(words, center, letters)|
    ensures |q| - k == |PlainsOf(words, center, letters)|
    ensures forall i, j :: 0 <= i < j < |q| ==> q[i] != q[j]
  {
    var P, N := PangramsOf(words, center, letters), PlainsOf(words, center, letters);
    assert q == q[..k] + q[k..];
    assert Candidates(words, center, letters) == P + N && P !! N;
    assert multiset(P + N) == multiset(P) + multiset(N);
    assert |q[..k]| == |multiset(q[..k])| == |multiset(P)| == |P|;
    assert |q[k..]| == |multiset(q[k..])| == |multiset(N)| == |N|;
    NoDuplicatesFromSet(q, P + N);
  }

  /** A sequence with the multiset of a set holds each element once. */
  lemma NoDuplicatesFromSet(q: seq<string>, S: set<string>)
    requires multiset(q) == multiset(S)
    ensures forall i, j :: 0 <= i < j < |q| ==> q[i] != q[j]
  {
    forall i, j | 0 <= i < j < |q| ensures q[i] != q[j] {
      assert q == q[..j] + q[j..];
      assert q[..j][i] in multiset(q[..j]);
      assert multiset(q)[q[j]] == multiset(q[..j])[q[j]] + multiset(q[j..])[q[j]];
    }
  }

  /**
   * Since every candidate contains the center letter, using every grid letter is the same
   * as using exactly the allowed letters, center included.
   */
  lemma PangramUsesAllAllowed(word: string, center: char, letters: set<char>)
    requires IsCandidate(word, center, letters)
    ensures IsPangram(word, letters) <==> letters + {center} <= LetterSet(word)
    ensures IsPangram(word, letters) <==> LetterSet(word) == letters + {center}
  {
  }

  /**
   * Two longest-first orderings of the same words agree, position by position, on the
   * length of the word there: they can differ only by reordering words of equal length.
   */
  lemma {:induction false} SortedPermutationsAgreeOnLengths(a: seq<string>, b: seq<string>)
    requires LongestFirst(a) && LongestFirst(b) && multiset(a) == multiset(b)
    ensures |a| == |b|
    ensures forall i :: 0 <= i < |a| ==> |a[i]| == |b[i]|
    decreases |a|
  {
    assert |a| == |multiset(a)| == |multiset(b)| == |b|;
    if a != [] {
      var j := HeadsAgree(a, b);
      var b' := b[..j] + b[j + 1..];
      RemoveKeepsOrder(b, j);
      assert a == [a[0]] + a[1..];
      assert multiset(a[1..]) == multiset(a) - multiset{a[0]};
      SortedPermutationsAgreeOnLengths(a[1..], b');
      ShiftedAgreement(a, b, j);
    }
  }

  /**
   * If the tail of `a` agrees in length with `b` minus its `j`-th entry, and that entry is
   * as long as the common head, then `a` and `b` agree in length everywhere.
   */
  lemma ShiftedAgreement(a: seq<string>, b: seq<string>, j: nat)
    requires LongestFirst(b) && a != [] && |a| == |b| && j < |b|
    requires |b[j]| == |a[0]| == |b[0]|
    requires var b' := b[..j] + b[j + 1..];
             forall i :: 0 <= i < |a[1..]| ==> |a[1..][i]| == |b'[i]|
    ensures forall i :: 0 <= i < |a| ==> |a[i]| == |b[i]|
  {
    var b' := b[..j] + b[j + 1..];
    forall i | 1 <= i < |a| ensures |a[i]| == |b[i]| {
      assert a[1..][i - 1] == a[i];
      if i - 1 < j {
        assert b'[i - 1] == b[i - 1];
        assert |b[0]| >= |b[i - 1]| >= |b[i]| >= |b[j]|;
      } else {
        assert b'[i - 1] == b[i];
      }
    }
  }

  /** The first words of two longest-first orderings of the same words have equal length. */
  lemma HeadsAgree(a: seq<string>, b: seq<string>) returns (j: nat)
    requires LongestFirst(a) && LongestFirst(b) && multiset(a) == multiset(b) && a != []
    ensures j < |b| && b[j] == a[0] && |a[0]| == |b[0]|
  {
    assert a[0] in multiset(b) && b[0] in multiset(a);
    j :| 0 <= j < |b| && b[j] == a[0];
    var j' :| 0 <= j' < |a| && a[j'] == b[0];
  }

  /** Dropping one entry keeps a longest-first ordering and removes it from the multiset. */
  lemma RemoveKeepsOrder(b: seq<string>, j: nat)
    requires LongestFirst(b) && j < |b|
    ensures LongestFirst(b[..j] + b[j + 1..])
    ensures multiset(b[..j] + b[j + 1..]) == multiset(b) - multiset{b[j]}
  {
    var b' := b[..j] + b[j + 1..];
    assert b == b[..j] + [b[j]] + b[j + 1..];
    forall x, y | 0 <= x < y < |b'| ensures |b'[x]| >= |b'[y]| {
      var u := if x < j then x else x + 1;
      var v := if y < j then y else y + 1;
      assert b'[x] == b[u] && b'[y] == b[v];
    }
  }

  /**
   * Running the solver twice on the same dictionary and puzzle gives the same words, the
   * same split into pangrams and plain words, and the same word length at every position;
   * only the order among words of equal length in one group may differ.
   */
  lemma QueueDeterminedUpToTies(q1: seq<string>, k1: int, q2: seq<string>, k2: int,
                                words: set<string>, center: char, letters: set<char>)
    requires RankedQueue(q1, k1, words, center, letters)
    requires RankedQueue(q2, k2, words, center, letters)
    ensures k1 == k2 && |q1| == |q2|
    ensures multiset(q1) == multiset(q2)
    ensures forall i :: 0 <= i < |q1| ==> |q1[i]| == |q2[i]|
  {
    QueueIsPermutation(q1, k1, words, center, letters);
    QueueIsPermutation(q2, k2, words, center, letters);
    SortedPermutationsAgreeOnLengths(q1[..k1], q2[..k2]);
    SortedPermutationsAgreeOnLengths(q1[k1..], q2[k2..]);
    forall i | 0 <= i < |q1| ensures |q1[i]| == |q2[i]| {
      if i < k1 {
        assert q1[..k1][i] == q1[i] && q2[..k2][i] == q2[i];
      } else {
        assert q1[k1..][i - k1] == q1[i] && q2[k2..][i - k2] == q2[i];
      }
    }
  }

  /** The solver's half of the worked example: "cadet" is the pangram, "aced" the plain word. */
  lemma ExampleGroups()
    ensures PangramsOf({"aced", "cadet", "aide"}, 'a', {'a', 'c', 'd', 'e', 't'}) == {"cadet"}
    ensures PlainsOf({"aced", "cadet", "aide"}, 'a', {'a', 'c', 'd', 'e', 't'}) == {"aced"}
  {
    var letters := {'a', 'c', 'd', 'e', 't'};
    AllowedLetters("aced", 'a', letters);
    AllowedLetters("cadet", 'a', letters);
    ForeignLetter("aide", 'a', letters, 'i');
    assert 't' !in "aced";
  }

  /** A word with the center letter and only allowed letters is a candidate. */
  lemma AllowedLetters(w: string, center: char, letters: set<char>)
    requires center in w && forall k :: 0 <= k < |w| ==> w[k] in letters + {center}
    ensures IsCandidate(w, center, letters)
  {
    forall c | c in LetterSet(w) ensures c in letters + {center} {
      var k :| 0 <= k < |w| && w[k] == c;
    }
  }

  /** A word with a letter outside the grid is no candidate. */
  lemma ForeignLetter(w: string, center: char, letters: set<char>, c: char)
    requires c in w && c !in letters + {center}
    ensures !IsCandidate(w, center, letters)
  {
    assert c in LetterSet(w);
  }

  /**
   * The worked example: for the dictionary {"aced", "cadet", "aide"} and the puzzle with
   * center `a` and letters `a c d e t`, the only queue is "cadet" followed by "aced":
   * "aide" uses the letter `i`. `Dictionary.ExampleAced` and its neighbours show, line by
   * line, that each of these three words passes the dictionary filter and "tea" does not.
   */
  lemma ExamplePuzzle(q: seq<string>, k: int)
    requires RankedQueue(q, k, {"aced", "cadet", "aide"}, 'a', {'a', 'c', 'd', 'e', 't'})
    ensures q == ["cadet", "aced"] && k == 1
  {
    ExampleGroups();
    assert |q[..k]| == |multiset(q[..k])| == 1;
    assert |q[k..]| == |multiset(q[k..])| == 1;
    assert q[..k][0] in multiset(q[..k]) && q[k..][0] in multiset(q[k..]);
    assert q == q[..k] + q[k..];
  }
}
