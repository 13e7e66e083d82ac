// The Letter Boxed solver: a chain of words that together use every letter
// of the puzzle, each word starting with the last letter of the one before,
// and no word taking two consecutive letters from the same side ("triplet").
//
// `WordLink` is one position of the chain: its ranked candidates and a cursor
// over them. `WordChain` owns the triplets, the dictionary of valid words and
// the stack of links, and runs the depth-first search with backtracking.

module LetterBoxed {
  import opened Text
  import opened ChainMeasure

  // ---------------------------------------------------------------------
  // Words and letters
  // ---------------------------------------------------------------------

  /** The distinct letters of a string. */
  function LettersOf(w: string): set<char>
  {
    set c | c in w
  }

  /** `w.slice(-1)`: the last letter as a string, empty for the empty word. */
  function LastLetter(w: string): string
  {
    if w == [] then [] else [w[|w| - 1]]
  }

  /** `triplets.join("")`. */
  function Concat(triplets: seq<string>): string
  {
    if triplets == [] then [] else triplets[0] + Concat(triplets[1..])
  }

  /** Every letter of the puzzle: the set built from the joined triplets. */
  function AllLetters(triplets: seq<string>): set<char>
  {
    LettersOf(Concat(triplets))
  }

  /** The order-preserving filter behind `Array.prototype.filter`. */
  function Filter<T(!new)>(keep: T -> bool, s: seq<T>): (r: seq<T>)
    ensures |r| <= |s|
    ensures forall x :: x in r <==> x in s && keep(x)
  {
    if s == [] then [] else (if keep(s[0]) then [s[0]] else []) + Filter(keep, s[1..])
  }

  lemma {:induction false} FilterSnoc<T(!new)>(keep: T -> bool, s: seq<T>, x: T)
    ensures Filter(keep, s + [x]) == Filter(keep, s) + (if keep(x) then [x] else [])
  {
    if s != [] {
      assert (s + [x])[1..] == s[1..] + [x];
      FilterSnoc(keep, s[1..], x);
    }
  }

  lemma FilterCons<T(!new)>(keep: T -> bool, x: T, s: seq<T>)
    ensures Filter(keep, [x] + s) == (if keep(x) then [x] else []) + Filter(keep, s)
  {
    assert ([x] + s)[1..] == s;
  }

  /** Dropping an element the filter rejects makes the list strictly shorter. */
  lemma {:induction false} FilterDrops<T(!new)>(keep: T -> bool, s: seq<T>, x: T)
    requires x in s && !keep(x)
    ensures |Filter(keep, s)| < |s|
  {
    if s[0] != x {
      FilterDrops(keep, s[1..], x);
    }
  }

  // ---------------------------------------------------------------------
  // Word validity: WordChain.isValidWord
  // ---------------------------------------------------------------------

  /** The first triplet, in puzzle order, that holds `c` and is not `avoid`
      (the triplet the previous letter was found in, if any). */
  function FindTriplet(triplets: seq<string>, c: char, avoid: Option<string>): (r: Option<string>)
    ensures r.Some? ==> r.value in triplets && c in r.value && Some(r.value) != avoid
    ensures r.None? ==> forall t :: t in triplets && c in t ==> Some(t) == avoid
    ensures r.Some? ==>
      exists k :: 0 <= k < |triplets| && triplets[k] == r.value &&
                  forall j :: 0 <= j < k ==> !(c in triplets[j] && Some(triplets[j]) != avoid)
  {
    if triplets == [] then None
    else if c in triplets[0] && Some(triplets[0]) != avoid then Some(triplets[0])
    else FindTriplet(triplets[1..], c, avoid)
  }

  /** The letters of `rest` can be read one after the other, each from a
      triplet other than the one used for the letter before, starting after a
      letter read from `last`. */
  function ChainsFrom(triplets: seq<string>, rest: string, last: string): bool
    decreases |rest|
  {
    if rest == [] then true
    else match FindTriplet(triplets, rest[0], Some(last))
      case None => false
      case Some(t) => ChainsFrom(triplets, rest[1..], t)
  }

  /** What `isValidWord` accepts: more than three letters, the first letter in
      some triplet, each later letter in a triplet other than the previous
      letter's, triplets chosen first-match in puzzle order. */
  predicate ValidWord(triplets: seq<string>, word: string)
  {
    |word| > 3 &&
    match FindTriplet(triplets, word[0], None)
      case None => false
      case Some(t) => ChainsFrom(triplets, word[1..], t)
  }

  /** A word of three letters or fewer is never accepted. */
  lemma ShortWordsRejected(triplets: seq<string>, word: string)
    requires |word| <= 3
    ensures !ValidWord(triplets, word)
  {
  }

  /** No letter belongs to two different triplets. */
  predicate Disjoint(triplets: seq<string>)
  {
    forall i, j, c :: 0 <= i < j < |triplets| && c in triplets[i] ==> c !in triplets[j]
  }

  predicate InSomeTriplet(triplets: seq<string>, c: char)
  {
    exists t :: t in triplets && c in t
  }

  predicate SameTriplet(triplets: seq<string>, a: char, b: char)
  {
    exists t :: t in triplets && a in t && b in t
  }

  /** With disjoint triplets, a letter after a letter of `last` is found
      exactly when it lies in some triplet and not together with that letter. */
  lemma FindAfter(triplets: seq<string>, p: char, c: char, last: string)
    requires Disjoint(triplets) && last in triplets && p in last
    ensures FindTriplet(triplets, c, Some(last)).Some? <==>
      InSomeTriplet(triplets, c) && !SameTriplet(triplets, p, c)
  {
    var r := FindTriplet(triplets, c, Some(last));
    if r.None? && InSomeTriplet(triplets, c) {
      var t :| t in triplets && c in t;
      assert Some(t) == Some(last);
    }
  }

  /** `ChainsFrom` read as a property of the word: every letter from `i` on is
      on the puzzle, and no two neighbours from `i - 1` on share a triplet. */
  lemma {:induction false} ChainsFromMeans(triplets: seq<string>, word: string, i: nat, last: string)
    requires Disjoint(triplets) && 1 <= i <= |word| && last in triplets && word[i - 1] in last
    ensures ChainsFrom(triplets, word[i..], last) <==>
      (forall k :: i <= k < |word| ==> InSomeTriplet(triplets, word[k])) &&
      (forall k :: i - 1 <= k < |word| - 1 ==> !SameTriplet(triplets, word[k], word[k + 1]))
    decreases |word| - i
  {
    if i < |word| {
      FindAfter(triplets, word[i - 1], word[i], last);
      var r := FindTriplet(triplets, word[i], Some(last));
      assert word[i..][0] == word[i] && word[i..][1..] == word[i + 1..];
      if r.Some? {
        ChainsFromMeans(triplets, word, i + 1, r.value);
      }
    }
  }

  /** With pairwise-disjoint triplets, `isValidWord` accepts exactly the words
      of at least four letters, all on the puzzle, with no two neighbouring
      letters from the same triplet. */
  lemma ValidWordMeans(triplets: seq<string>, word: string)
    requires Disjoint(triplets)
    ensures ValidWord(triplets, word) <==>
      |word| >= 4 &&
      (forall k :: 0 <= k < |word| ==> InSomeTriplet(triplets, word[k])) &&
      (forall k :: 0 <= k < |word| - 1 ==> !SameTriplet(triplets, word[k], word[k + 1]))
  {
    if |word| >= 4 {
      var r := FindTriplet(triplets, word[0], None);
      if r.Some? {
        ChainsFromMeans(triplets, word, 1, r.value);
      }
    }
  }

  // ---------------------------------------------------------------------
  // Candidates and ranking: the WordLink constructor
  // ---------------------------------------------------------------------

  /** The test of the WordLink filter. With no previous word (null or empty,
      both falsy) every word passes; otherwise the word must differ from the
      previous word, start with its last letter and hold a desired letter. */
  predicate IsCandidate(previousWord: string, desired: set<char>, word: string)
    ensures IsCandidate(previousWord, desired, word) && previousWord != [] ==>
      word != [] && word != previousWord && Score(word, desired) > 0
  {
    previousWord == [] ||
    (word != previousWord && |word| > 0 && [word[0]] == LastLetter(previousWord) &&
     exists c :: c in desired && c in word)
  }

  function Candidates(previousWord: string, desired: set<char>, dictionary: seq<string>): seq<string>
  {
    Filter(w => IsCandidate(previousWord, desired, w), dictionary)
  }

  /** The number of distinct desired letters a word holds: none exactly when
      the word misses every desired letter, and never more than the desired
      letters. */
  function Score(w: string, desired: set<char>): (r: nat)
    ensures r == 0 <==> forall c :: c in desired ==> c !in w
    ensures r <= |desired|
  {
    var held := LettersOf(w) * desired;
    SubsetSize(held, desired);
    assert held == {} <==> forall c :: c in desired ==> c !in w by {
      if held != {} {
        var c :| c in held;
        assert c in desired && c in w;
      } else {
        forall c | c in desired ensures c !in w {
          assert c !in held;
        }
      }
    }
    |held|
  }

  lemma {:induction false} SubsetSize(a: set<char>, b: set<char>)
    requires a <= b
    ensures |a| <= |b|
    decreases |a|
  {
    if a != {} {
      var x :| x in a;
      SubsetSize(a - {x}, b - {x});
    }
  }

  /** Puts `w` in front of the first word scoring no more than it. */
  function InsertRanked(w: string, ws: seq<string>, desired: set<char>): (r: seq<string>)
    ensures |r| == |ws| + 1
  {
    if ws == [] || Score(ws[0], desired) <= Score(w, desired) then [w] + ws
    else [ws[0]] + InsertRanked(w, ws[1..], desired)
  }

  lemma {:induction false} InsertRankedMembers(w: string, ws: seq<string>, desired: set<char>, x: string)
    ensures x in InsertRanked(w, ws, desired) <==> x == w || x in ws
  {
    if ws != [] && Score(ws[0], desired) > Score(w, desired) {
      InsertRankedMembers(w, ws[1..], desired, x);
      assert ws == [ws[0]] + ws[1..];
    }
  }

  /** The stable sort by decreasing score that the constructor performs. */
  function Rank(ws: seq<string>, desired: set<char>): (r: seq<string>)
    ensures |r| == |ws|
  {
    if ws == [] then [] else InsertRanked(ws[0], Rank(ws[1..], desired), desired)
  }

  predicate RankedByScore(ws: seq<string>, desired: set<char>)
  {
    forall i, j :: 0 <= i < j < |ws| ==> Score(ws[i], desired) >= Score(ws[j], desired)
  }

  /** The words of one score, in list order. */
  function OfScore(ws: seq<string>, desired: set<char>, k: nat): seq<string>
  {
    if ws == [] then [] else (if Score(ws[0], desired) == k then [ws[0]] else []) + OfScore(ws[1..], desired, k)
  }

  lemma OfScoreCons(x: string, ws: seq<string>, desired: set<char>, k: nat)
    ensures OfScore([x] + ws, desired, k) == (if Score(x, desired) == k then [x] else []) + OfScore(ws, desired, k)
  {
    assert ([x] + ws)[1..] == ws;
  }

  lemma {:induction false} InsertRankedPermutes(w: string, ws: seq<string>, desired: set<char>)
    ensures multiset(InsertRanked(w, ws, desired)) == multiset([w] + ws)
  {
    if ws != [] && Score(ws[0], desired) > Score(w, desired) {
      InsertRankedPermutes(w, ws[1..], desired);
      assert ws == [ws[0]] + ws[1..];
      assert multiset([w] + ws) == multiset([ws[0]]) + multiset([w] + ws[1..]);
    }
  }

  lemma {:induction false} InsertRankedSorted(w: string, ws: seq<string>, desired: set<char>)
    requires RankedByScore(ws, desired)
    ensures RankedByScore(InsertRanked(w, ws, desired), desired)
  {
    var r := InsertRanked(w, ws, desired);
    if ws != [] && Score(ws[0], desired) > Score(w, desired) {
      var tail := InsertRanked(w, ws[1..], desired);
      InsertRankedSorted(w, ws[1..], desired);
      assert r == [ws[0]] + tail;
      forall x | x in tail ensures Score(x, desired) <= Score(ws[0], desired) {
        InsertRankedMembers(w, ws[1..], desired, x);
        if x != w {
          var m :| 0 <= m < |ws[1..]| && ws[1..][m] == x;
          assert ws[m + 1] == x;
        }
      }
      RankedCons(ws[0], tail, desired);
    }
  }

  /** A word scoring at least as much as every word of a ranked list may be
      put in front of it. */
  lemma RankedCons(x: string, ws: seq<string>, desired: set<char>)
    requires RankedByScore(ws, desired)
    requires forall y :: y in ws ==> Score(y, desired) <= Score(x, desired)
    ensures RankedByScore([x] + ws, desired)
  {
    var r := [x] + ws;
    forall i, j | 0 <= i < j < |r| ensures Score(r[i], desired) >= Score(r[j], desired) {
      assert r[j] == ws[j - 1];
      if i > 0 {
        assert r[i] == ws[i - 1];
      }
    }
  }

  /** Inserting keeps each score class in order, with the new word first. */
  lemma {:induction false} InsertRankedStable(w: string, ws: seq<string>, desired: set<char>, k: nat)
    ensures OfScore(InsertRanked(w, ws, desired), desired, k) == OfScore([w] + ws, desired, k)
  {
    if ws != [] && Score(ws[0], desired) > Score(w, desired) {
      var tail := InsertRanked(w, ws[1..], desired);
      var rest := OfScore(ws[1..], desired, k);
      assert InsertRanked(w, ws, desired) == [ws[0]] + tail;
      InsertRankedStable(w, ws[1..], desired, k);
      OfScoreCons(ws[0], tail, desired, k);
      OfScoreCons(w, ws[1..], desired, k);
      OfScoreCons(w, ws, desired, k);
      // The two words score differently, so at most one of them is kept.
      if Score(w, desired) == k {
        assert OfScore(ws, desired, k) == rest;
        assert OfScore([ws[0]] + tail, desired, k) == [w] + rest;
      } else {
        assert OfScore([w] + ws, desired, k) == OfScore(ws, desired, k);
        assert OfScore(tail, desired, k) == rest;
      }
    }
  }

  /** The ranking is a permutation of its input. */
  lemma {:induction false} RankPermutes(ws: seq<string>, desired: set<char>)
    ensures multiset(Rank(ws, desired)) == multiset(ws)
  {
    if ws != [] {
      RankPermutes(ws[1..], desired);
      InsertRankedPermutes(ws[0], Rank(ws[1..], desired), desired);
      assert ws == [ws[0]] + ws[1..];
    }
  }

  /** The ranking is ordered by non-increasing score. */
  lemma {:induction false} RankSorted(ws: seq<string>, desired: set<char>)
    ensures RankedByScore(Rank(ws, desired), desired)
  {
    if ws != [] {
      RankSorted(ws[1..], desired);
      InsertRankedSorted(ws[0], Rank(ws[1..], desired), desired);
    }
  }

  /** The ranking is stable: words of equal score keep their input order. */
  lemma {:induction false} RankStable(ws: seq<string>, desired: set<char>, k: nat)
    ensures OfScore(Rank(ws, desired), desired, k) == OfScore(ws, desired, k)
  {
    if ws != [] {
      var rest := Rank(ws[1..], desired);
      RankStable(ws[1..], desired, k);
      InsertRankedStable(ws[0], rest, desired, k);
      OfScoreCons(ws[0], rest, desired, k);
    }
  }

  /** Ranking keeps exactly the same words. */
  lemma RankMembers(ws: seq<string>, desired: set<char>)
    ensures |Rank(ws, desired)| == |ws|
    ensures forall w :: w in Rank(ws, desired) <==> w in ws
  {
    RankPermutes(ws, desired);
    assert |multiset(Rank(ws, desired))| == |multiset(ws)|;
    forall w ensures w in Rank(ws, desired) <==> w in ws {
      assert w in multiset(Rank(ws, desired)) <==> w in multiset(ws);
    }
  }

  /** `WordLink.currentWordEndingIsBad`'s filter: words whose last letter
      differs from `ending`. */
  function WithoutEnding(ws: seq<string>, ending: string): seq<string>
  {
    Filter(w => LastLetter(w) != ending, ws)
  }

  // ---------------------------------------------------------------------
  // One link's state, as a value
  // ---------------------------------------------------------------------

  /** What a `WordLink` holds: the word it follows ("" for the first link,
      where the source passes null), the letters it still wants, its ranked
      words (less any pruned since), and the cursor into them. */
  datatype LinkState = LinkState(previousWord: string, desired: set<char>, words: seq<string>, index: nat)

  /** A freshly built link: every candidate ranked, nothing pruned, the
      cursor on the first word. */
  function Fresh(previousWord: string, desired: set<char>, dictionary: seq<string>): LinkState
  {
    LinkState(previousWord, desired, Rank(Candidates(previousWord, desired, dictionary), desired), 0)
  }

  /** The word under the cursor, or "" once the cursor is past the end. */
  function Current(s: LinkState): string
  {
    if s.index < |s.words| then s.words[s.index] else ""
  }

  /** How many words, from the cursor on, are left to try. */
  function Left(s: LinkState): nat
  {
    if s.index < |s.words| then |s.words| - s.index else 0
  }

  /** The desired letters the current word leaves unused. */
  function Unused(s: LinkState): set<char>
  {
    s.desired - LettersOf(Current(s))
  }

  /** The current word uses every desired letter. */
  predicate Completes(s: LinkState)
  {
    s.desired <= LettersOf(Current(s))
  }

  function Advanced(s: LinkState): LinkState
  {
    s.(index := s.index + 1)
  }

  function Pruned(s: LinkState): LinkState
  {
    s.(words := WithoutEnding(s.words, LastLetter(Current(s))))
  }

  /** A link's words are dictionary words that passed its filter, no more of
      them than the dictionary holds. */
  predicate Built(s: LinkState, dictionary: seq<string>)
  {
    |s.words| <= |dictionary| &&
    forall w :: w in s.words ==> w in dictionary && IsCandidate(s.previousWord, s.desired, w)
  }

  /** A freshly built link keeps exactly the dictionary words that pass its
      filter. */
  lemma FreshIsBuilt(previousWord: string, desired: set<char>, dictionary: seq<string>)
    ensures Built(Fresh(previousWord, desired, dictionary), dictionary)
    ensures forall w :: w in Fresh(previousWord, desired, dictionary).words <==>
      w in dictionary && IsCandidate(previousWord, desired, w)
  {
    RankMembers(Candidates(previousWord, desired, dictionary), desired);
  }

  /** Pruning keeps a subset of the words and so keeps a link built. */
  lemma PrunedIsBuilt(s: LinkState, dictionary: seq<string>)
    requires Built(s, dictionary)
    ensures Built(Pruned(s), dictionary)
  {
  }

  // ---------------------------------------------------------------------
  // The search state: a stack of links
  // ---------------------------------------------------------------------

  predicate AllValid(triplets: seq<string>, dictionary: seq<string>)
  {
    forall w :: w in dictionary ==> ValidWord(triplets, w)
  }

  function ValidWords(triplets: seq<string>, dictionary: seq<string>): seq<string>
  {
    Filter(w => ValidWord(triplets, w), dictionary)
  }

  /** What the search keeps true of its stack: every link was built from the
      dictionary, the first one wants every letter of the puzzle, each later
      one follows the current word of the one below and wants the letters
      that word leaves unused, and every link below the top holds a word
      that is not vetoed and does not finish the puzzle. */
  ghost predicate Chain(triplets: seq<string>, dictionary: seq<string>, rejected: set<string>, ss: seq<LinkState>)
  {
    (forall i :: 0 <= i < |ss| ==> Built(ss[i], dictionary)) &&
    (|ss| > 0 ==> ss[0].previousWord == [] && ss[0].desired == AllLetters(triplets)) &&
    (forall i, j :: 0 <= i && j == i + 1 && j < |ss| ==>
       ss[j].previousWord == Current(ss[i]) && ss[j].desired == Unused(ss[i])) &&
    (forall i :: 0 <= i < |ss| - 1 ==>
       Current(ss[i]) != [] && Current(ss[i]) !in rejected && !Completes(ss[i]))
  }

  /** The top link holds a word that is not vetoed and finishes the puzzle. */
  predicate Solved(rejected: set<string>, ss: seq<LinkState>)
  {
    |ss| > 0 && Current(ss[|ss| - 1]) != [] && Current(ss[|ss| - 1]) !in rejected && Completes(ss[|ss| - 1])
  }

  /** The chain's current words, bottom to top. */
  function Words(ss: seq<LinkState>): (ws: seq<string>)
    ensures |ws| == |ss| && forall i :: 0 <= i < |ss| ==> ws[i] == Current(ss[i])
  {
    seq(|ss|, i requires 0 <= i < |ss| => Current(ss[i]))
  }

  function UsedLetters(words: seq<string>): set<char>
  {
    if words == [] then {} else UsedLetters(words[..|words| - 1]) + LettersOf(words[|words| - 1])
  }

  /** An answer to the puzzle: valid words, none vetoed, each starting with
      the last letter of the one before and differing from it, together
      using every letter of the puzzle. */
  predicate IsSolution(triplets: seq<string>, rejected: set<string>, words: seq<string>)
  {
    |words| > 0 &&
    (forall i :: 0 <= i < |words| ==> ValidWord(triplets, words[i]) && words[i] !in rejected) &&
    (forall i :: 1 <= i < |words| ==>
       words[i] != words[i - 1] && |words[i]| > 0 && [words[i][0]] == LastLetter(words[i - 1])) &&
    AllLetters(triplets) <= UsedLetters(words)
  }

  /** The per-link cursors: the digits of the termination measure. */
  function Lefts(ss: seq<LinkState>): (rs: seq<nat>)
    ensures |rs| == |ss| && forall i :: 0 <= i < |ss| ==> rs[i] == Left(ss[i])
  {
    seq(|ss|, i requires 0 <= i < |ss| => Left(ss[i]))
  }

  /** The stack read as a number: lower after every step of the search. */
  function Measure(triplets: seq<string>, dictionary: seq<string>, ss: seq<LinkState>): nat
  {
    Encode(Lefts(ss), |AllLetters(triplets)| + 1, |dictionary| + 1)
  }

  lemma {:induction false} InConcat(triplets: seq<string>, t: string, c: char)
    requires t in triplets && c in t
    ensures c in Concat(triplets)
  {
    if triplets[0] != t {
      InConcat(triplets[1..], t, c);
    }
  }

  lemma SmallerSubset(a: set<char>, b: set<char>, c: char)
    requires a <= b && c in b && c !in a
    ensures |a| < |b|
  {
    assert b == a + (b - a);
    assert a * (b - a) == {};
    assert c in b - a;
  }

  /** Every link wants fewer letters than the one below it, so the stack is
      never deeper than the puzzle has letters, plus one. */
  lemma {:induction false} ChainDepth(triplets: seq<string>, dictionary: seq<string>, rejected: set<string>,
                                      ss: seq<LinkState>, k: nat)
    requires AllValid(triplets, dictionary) && Chain(triplets, dictionary, rejected, ss) && k < |ss|
    ensures |ss[k].desired| + k <= |AllLetters(triplets)|
  {
    if k > 0 {
      ChainDepth(triplets, dictionary, rejected, ss, k - 1);
      var prev := ss[k - 1];
      var w := Current(prev);
      assert w in prev.words;
      var c: char;
      if k == 1 {
        var t := FindTriplet(triplets, w[0], None).value;
        InConcat(triplets, t, w[0]);
        c := w[0];
      } else {
        assert prev.previousWord == Current(ss[k - 2]) != [];
        assert IsCandidate(prev.previousWord, prev.desired, w);
        c :| c in prev.desired && c in w;
      }
      SmallerSubset(ss[k].desired, prev.desired, c);
    }
  }

  /** The stack never outgrows the measure's width. */
  lemma MeasureFits(triplets: seq<string>, dictionary: seq<string>, rejected: set<string>, ss: seq<LinkState>)
    requires AllValid(triplets, dictionary) && Chain(triplets, dictionary, rejected, ss)
    ensures |ss| <= |AllLetters(triplets)| + 1
    ensures Bounded(Lefts(ss), |dictionary| + 1)
  {
    if |ss| > 0 {
      ChainDepth(triplets, dictionary, rejected, ss, |ss| - 1);
    }
    forall i | 0 <= i < |ss| ensures Lefts(ss)[i] <= |dictionary| + 1 {
      assert Built(ss[i], dictionary);
    }
  }

  /** A bottom part of a chain is a chain. */
  lemma ChainPrefix(triplets: seq<string>, dictionary: seq<string>, rejected: set<string>, ss: seq<LinkState>, m: nat)
    requires Chain(triplets, dictionary, rejected, ss) && m <= |ss|
    ensures Chain(triplets, dictionary, rejected, ss[..m])
  {
  }

  /** The top link may change its words and cursor without breaking the
      chain, as long as it stays built from the same word and letters. */
  lemma ChainReplaceTop(triplets: seq<string>, dictionary: seq<string>, rejected: set<string>, ss: seq<LinkState>, t: LinkState)
    requires Chain(triplets, dictionary, rejected, ss) && |ss| > 0
    requires t.previousWord == ss[|ss| - 1].previousWord && t.desired == ss[|ss| - 1].desired
    requires Built(t, dictionary)
    ensures Chain(triplets, dictionary, rejected, ss[..|ss| - 1] + [t])
  {
    var n := |ss|;
    var next := ss[..n - 1] + [t];
    assert forall i :: 0 <= i < n - 1 ==> next[i] == ss[i];
  }

  // The three moves of the search. Each keeps the chain invariant and lowers
  // the measure.

  /** The search starts from a single link wanting every letter. */
  lemma StartChain(triplets: seq<string>, dictionary: seq<string>, rejected: set<string>)
    ensures Chain(triplets, dictionary, rejected, [Fresh([], AllLetters(triplets), dictionary)])
  {
    FreshIsBuilt([], AllLetters(triplets), dictionary);
  }

  /** Replacing the links above position `m` by one link changes the
      measure's digits the same way. */
  lemma LeftsSnoc(ss: seq<LinkState>, m: nat, t: LinkState)
    requires m <= |ss|
    ensures Lefts(ss[..m] + [t]) == Lefts(ss)[..m] + [Left(t)]
  {
    var a := Lefts(ss[..m] + [t]);
    var b := Lefts(ss)[..m] + [Left(t)];
    assert |a| == |b|;
    forall i | 0 <= i < |a| ensures a[i] == b[i] {
      if i < m {
        assert (ss[..m] + [t])[i] == ss[i];
      }
    }
  }

  /** Lowering the top link's count lowers the measure. */
  lemma MeasureTop(triplets: seq<string>, dictionary: seq<string>, ss: seq<LinkState>, t: LinkState)
    requires Bounded(Lefts(ss), |dictionary| + 1) && 0 < |ss| <= |AllLetters(triplets)| + 1
    requires Left(t) < Left(ss[|ss| - 1])
    ensures Measure(triplets, dictionary, ss[..|ss| - 1] + [t]) < Measure(triplets, dictionary, ss)
  {
    LeftsSnoc(ss, |ss| - 1, t);
    TopDecreases(Lefts(ss), Left(t), |AllLetters(triplets)| + 1, |dictionary| + 1);
  }

  /** Popping the top link and lowering the count below it lowers the
      measure. */
  lemma MeasurePop(triplets: seq<string>, dictionary: seq<string>, ss: seq<LinkState>, t: LinkState)
    requires Bounded(Lefts(ss), |dictionary| + 1) && 1 < |ss| <= |AllLetters(triplets)| + 1
    requires Left(t) < Left(ss[|ss| - 2])
    ensures Measure(triplets, dictionary, ss[..|ss| - 2] + [t]) < Measure(triplets, dictionary, ss)
  {
    LeftsSnoc(ss, |ss| - 2, t);
    PopAndDecrease(Lefts(ss), Left(t), |AllLetters(triplets)| + 1, |dictionary| + 1);
  }

  /** Pushing a link with fewer words than the dictionary lowers the
      measure, while the stack is below its full depth. */
  lemma MeasurePush(triplets: seq<string>, dictionary: seq<string>, ss: seq<LinkState>, t: LinkState)
    requires Bounded(Lefts(ss), |dictionary| + 1) && |ss| < |AllLetters(triplets)| + 1
    requires Left(t) < |dictionary| + 1
    ensures Measure(triplets, dictionary, ss + [t]) < Measure(triplets, dictionary, ss)
  {
    assert ss[..|ss|] == ss;
    LeftsSnoc(ss, |ss|, t);
    assert Lefts(ss)[..|ss|] == Lefts(ss);
    PushDecreases(Lefts(ss), Left(t), |AllLetters(triplets)| + 1, |dictionary| + 1);
  }

  /** Dropping the words that end like the current one drops at least the
      current word. */
  lemma PrunedFewer(s: LinkState)
    requires Current(s) != []
    ensures Left(Pruned(s)) < Left(s)
  {
    FilterDrops(w => LastLetter(w) != LastLetter(Current(s)), s.words, Current(s));
  }

  /** Skipping the top link's current word (the user vetoed it). */
  lemma NextWordStep(triplets: seq<string>, dictionary: seq<string>, rejected: set<string>, ss: seq<LinkState>)
    requires AllValid(triplets, dictionary) && Chain(triplets, dictionary, rejected, ss)
    requires |ss| > 0 && Current(ss[|ss| - 1]) != []
    ensures Chain(triplets, dictionary, rejected, ss[..|ss| - 1] + [Advanced(ss[|ss| - 1])])
    ensures Measure(triplets, dictionary, ss[..|ss| - 1] + [Advanced(ss[|ss| - 1])]) < Measure(triplets, dictionary, ss)
  {
    var n := |ss|;
    MeasureFits(triplets, dictionary, rejected, ss);
    ChainReplaceTop(triplets, dictionary, rejected, ss, Advanced(ss[n - 1]));
    MeasureTop(triplets, dictionary, ss, Advanced(ss[n - 1]));
  }

  /** Backtracking: the top link ran out of words, so it is popped and the
      link below drops every word ending like its current word. */
  lemma BacktrackStep(triplets: seq<string>, dictionary: seq<string>, rejected: set<string>, ss: seq<LinkState>)
    requires AllValid(triplets, dictionary) && Chain(triplets, dictionary, rejected, ss)
    requires |ss| > 1
    ensures Chain(triplets, dictionary, rejected, ss[..|ss| - 2] + [Pruned(ss[|ss| - 2])])
    ensures Measure(triplets, dictionary, ss[..|ss| - 2] + [Pruned(ss[|ss| - 2])]) < Measure(triplets, dictionary, ss)
  {
    var parent := ss[|ss| - 2];
    ChainPrune(triplets, dictionary, rejected, ss);
    MeasureFits(triplets, dictionary, rejected, ss);
    PrunedFewer(parent);
    MeasurePop(triplets, dictionary, ss, Pruned(parent));
  }

  /** Popping the top link and pruning the one below keeps the chain. */
  lemma ChainPrune(triplets: seq<string>, dictionary: seq<string>, rejected: set<string>, ss: seq<LinkState>)
    requires Chain(triplets, dictionary, rejected, ss) && |ss| > 1
    ensures Chain(triplets, dictionary, rejected, ss[..|ss| - 2] + [Pruned(ss[|ss| - 2])])
  {
    var n := |ss|;
    var next := ss[..n - 2] + [Pruned(ss[n - 2])];
    assert forall i :: 0 <= i < n - 2 ==> next[i] == ss[i];
    PrunedIsBuilt(ss[n - 2], dictionary);
  }

  /** Growing the chain: the top word is acceptable but does not finish the
      puzzle, so a link for the letters it leaves unused is pushed. */
  lemma ExtendStep(triplets: seq<string>, dictionary: seq<string>, rejected: set<string>, ss: seq<LinkState>)
    requires AllValid(triplets, dictionary) && Chain(triplets, dictionary, rejected, ss)
    requires |ss| > 0 && Current(ss[|ss| - 1]) != [] && Current(ss[|ss| - 1]) !in rejected
    requires !Completes(ss[|ss| - 1])
    ensures var top := ss[|ss| - 1];
      Chain(triplets, dictionary, rejected, ss + [Fresh(Current(top), Unused(top), dictionary)])
    ensures var top := ss[|ss| - 1];
      Measure(triplets, dictionary, ss + [Fresh(Current(top), Unused(top), dictionary)]) < Measure(triplets, dictionary, ss)
  {
    var n := |ss|;
    var top := ss[n - 1];
    var link := Fresh(Current(top), Unused(top), dictionary);
    FreshIsBuilt(Current(top), Unused(top), dictionary);
    ChainPush(triplets, dictionary, rejected, ss, link);
    MeasureFits(triplets, dictionary, rejected, ss);
    ChainDepth(triplets, dictionary, rejected, ss, n - 1);
    assert top.desired != {};
    MeasurePush(triplets, dictionary, ss, link);
  }

  /** A link built on the top word, wanting the letters it leaves unused,
      extends the chain. */
  lemma ChainPush(triplets: seq<string>, dictionary: seq<string>, rejected: set<string>, ss: seq<LinkState>, t: LinkState)
    requires Chain(triplets, dictionary, rejected, ss)
    requires |ss| > 0 && Current(ss[|ss| - 1]) != [] && Current(ss[|ss| - 1]) !in rejected
    requires !Completes(ss[|ss| - 1])
    requires t.previousWord == Current(ss[|ss| - 1]) && t.desired == Unused(ss[|ss| - 1]) && Built(t, dictionary)
    ensures Chain(triplets, dictionary, rejected, ss + [t])
  {
    var next := ss + [t];
    assert forall i :: 0 <= i < |ss| ==> next[i] == ss[i];
  }

  /** Each link wants exactly the puzzle letters the words below it leave
      unused. */
  lemma {:induction false} DesiredIsUnused(triplets: seq<string>, dictionary: seq<string>, rejected: set<string>,
                                           ss: seq<LinkState>, k: nat)
    requires Chain(triplets, dictionary, rejected, ss) && k < |ss|
    ensures ss[k].desired == AllLetters(triplets) - UsedLetters(Words(ss)[..k])
  {
    if k == 0 {
      assert Words(ss)[..0] == [];
    } else {
      DesiredIsUnused(triplets, dictionary, rejected, ss, k - 1);
      assert Words(ss)[..k][..k - 1] == Words(ss)[..k - 1];
    }
  }

  /** The chain's words are valid, not vetoed, and each follows on from the
      one before. */
  lemma ChainWordsLink(triplets: seq<string>, dictionary: seq<string>, rejected: set<string>, ss: seq<LinkState>)
    requires AllValid(triplets, dictionary) && Chain(triplets, dictionary, rejected, ss)
    requires Solved(rejected, ss)
    ensures forall i :: 0 <= i < |ss| ==> ValidWord(triplets, Words(ss)[i]) && Words(ss)[i] !in rejected
    ensures forall i :: 1 <= i < |ss| ==>
      Words(ss)[i] != Words(ss)[i - 1] && |Words(ss)[i]| > 0 && [Words(ss)[i][0]] == LastLetter(Words(ss)[i - 1])
  {
    var ws := Words(ss);
    forall i | 0 <= i < |ss| ensures ValidWord(triplets, ws[i]) && ws[i] !in rejected {
      assert ws[i] in ss[i].words;
    }
    forall i | 1 <= i < |ss|
      ensures ws[i] != ws[i - 1] && |ws[i]| > 0 && [ws[i][0]] == LastLetter(ws[i - 1])
    {
      assert ws[i] in ss[i].words;
    }
  }

  /** A stack whose top finishes the puzzle spells a solution. */
  lemma SolvedIsSolution(triplets: seq<string>, dictionary: seq<string>, rejected: set<string>, ss: seq<LinkState>)
    requires AllValid(triplets, dictionary) && Chain(triplets, dictionary, rejected, ss)
    requires Solved(rejected, ss)
    ensures IsSolution(triplets, rejected, Words(ss))
  {
    var n := |ss|;
    var ws := Words(ss);
    ChainWordsLink(triplets, dictionary, rejected, ss);
    DesiredIsUnused(triplets, dictionary, rejected, ss, n - 1);
    assert ws[..n] == ws;
    assert ws[..n - 1] == ws[..n][..n - 1];
  }

  // ---------------------------------------------------------------------
  // The search, as a function of the stack
  // ---------------------------------------------------------------------

  /** The inner loop of `recalculateSolution`: the cursor moves past every
      vetoed word, and the link is otherwise unchanged. */
  function SkipVetoed(s: LinkState, rejected: set<string>): (r: LinkState)
    ensures r == s.(index := r.index) && s.index <= r.index
    ensures Current(r) == [] || Current(r) !in rejected
    decreases Left(s)
  {
    if Current(s) != [] && Current(s) in rejected then SkipVetoed(Advanced(s), rejected) else s
  }

  /** Every word the inner loop skips is vetoed. */
  lemma {:induction false} SkippedIsVetoed(s: LinkState, rejected: set<string>, k: int)
    requires s.index <= k < SkipVetoed(s, rejected).index
    ensures k < |s.words| && s.words[k] in rejected
    decreases Left(s)
  {
    if k > s.index {
      SkippedIsVetoed(Advanced(s), rejected, k);
    }
  }

  /** The words of `s` from its cursor up to `end` are all vetoed. */
  predicate AllVetoed(s: LinkState, end: int, rejected: set<string>)
  {
    (s.index < end ==> end <= |s.words|) &&
    forall k :: s.index <= k < end ==> s.words[k] in rejected
  }

  lemma SkippedAreVetoed(s: LinkState, rejected: set<string>)
    ensures AllVetoed(s, SkipVetoed(s, rejected).index, rejected)
  {
    var end := SkipVetoed(s, rejected).index;
    if s.index < end {
      SkippedIsVetoed(s, rejected, end - 1);
    }
    forall k | s.index <= k < end
      ensures s.words[k] in rejected
    {
      SkippedIsVetoed(s, rejected, k);
    }
    assert AllVetoed(s, end, rejected);
  }

  /** One turn of the outer loop, once vetoed words are skipped on the top
      of `skipped`: an exhausted top link is popped and the link below, if
      any, pruned; a finishing word stops the search; any other word gets a
      fresh link for the letters it leaves unused. Gives whether the search
      stops there, and the stack it leaves. */
  function TurnFrom(dictionary: seq<string>, skipped: seq<LinkState>): (bool, seq<LinkState>)
    requires |skipped| > 0
  {
    var n := |skipped|;
    var top := skipped[n - 1];
    if Current(top) == [] then
      (false, if n > 1 then skipped[..n - 2] + [Pruned(skipped[n - 2])] else [])
    else if Completes(top) then
      (true, skipped)
    else
      (false, skipped + [Fresh(Current(top), Unused(top), dictionary)])
  }

  /** The turn when the top link has run out of words. */
  lemma TurnBacktracks(dictionary: seq<string>, skipped: seq<LinkState>, next: seq<LinkState>)
    requires |skipped| > 0 && Current(skipped[|skipped| - 1]) == []
    requires |skipped| > 1 ==> next == skipped[..|skipped| - 2] + [Pruned(skipped[|skipped| - 2])]
    requires |skipped| == 1 ==> next == []
    ensures TurnFrom(dictionary, skipped) == (false, next)
  {
  }

  /** The turn when the top link holds an acceptable word. */
  lemma TurnAdvances(dictionary: seq<string>, skipped: seq<LinkState>, done: bool, next: seq<LinkState>)
    requires |skipped| > 0 && Current(skipped[|skipped| - 1]) != []
    requires done == Completes(skipped[|skipped| - 1])
    requires done ==> next == skipped
    requires !done ==> next == skipped + [Fresh(Current(skipped[|skipped| - 1]), Unused(skipped[|skipped| - 1]), dictionary)]
    ensures TurnFrom(dictionary, skipped) == (done, next)
  {
  }

  /** The stack once the inner loop has skipped the top link's vetoed words. */
  function Skipped(rejected: set<string>, ss: seq<LinkState>): (r: seq<LinkState>)
    requires |ss| > 0
    ensures |r| == |ss| && r[..|ss| - 1] == ss[..|ss| - 1]
  {
    ss[..|ss| - 1] + [SkipVetoed(ss[|ss| - 1], rejected)]
  }

  /** One turn of the outer loop on the stack `ss`. */
  function SearchTurn(dictionary: seq<string>, rejected: set<string>, ss: seq<LinkState>): (bool, seq<LinkState>)
    requires |ss| > 0
  {
    TurnFrom(dictionary, Skipped(rejected, ss))
  }

  /** Skipping vetoed words keeps the chain and does not raise the measure. */
  lemma {:induction false} SkipChain(triplets: seq<string>, dictionary: seq<string>, rejected: set<string>, ss: seq<LinkState>)
    requires AllValid(triplets, dictionary) && Chain(triplets, dictionary, rejected, ss) && |ss| > 0
    ensures Chain(triplets, dictionary, rejected, Skipped(rejected, ss))
    ensures Measure(triplets, dictionary, Skipped(rejected, ss)) <= Measure(triplets, dictionary, ss)
    decreases Left(ss[|ss| - 1])
  {
    var n := |ss|;
    var top := ss[n - 1];
    if Current(top) != [] && Current(top) in rejected {
      var next := ss[..n - 1] + [Advanced(top)];
      NextWordStep(triplets, dictionary, rejected, ss);
      SkipChain(triplets, dictionary, rejected, next);
      assert next[..n - 1] == ss[..n - 1];
      assert SkipVetoed(top, rejected) == SkipVetoed(Advanced(top), rejected);
      assert Skipped(rejected, next) == Skipped(rejected, ss);
    } else {
      assert ss[..n - 1] + [top] == ss;
    }
  }

  /** Every turn of the search keeps the chain; it stops only on a solved
      chain, and otherwise lowers the measure or empties the stack. */
  lemma SearchTurnSound(triplets: seq<string>, dictionary: seq<string>, rejected: set<string>, ss: seq<LinkState>)
    requires AllValid(triplets, dictionary) && Chain(triplets, dictionary, rejected, ss) && |ss| > 0
    ensures Chain(triplets, dictionary, rejected, SearchTurn(dictionary, rejected, ss).1)
    ensures SearchTurn(dictionary, rejected, ss).0 ==> Solved(rejected, SearchTurn(dictionary, rejected, ss).1)
    ensures !SearchTurn(dictionary, rejected, ss).0 && SearchTurn(dictionary, rejected, ss).1 != [] ==>
      Measure(triplets, dictionary, SearchTurn(dictionary, rejected, ss).1) < Measure(triplets, dictionary, ss)
  {
    var skipped := Skipped(rejected, ss);
    var top := skipped[|ss| - 1];
    SkipChain(triplets, dictionary, rejected, ss);
    if Current(top) == [] {
      if |ss| > 1 {
        BacktrackStep(triplets, dictionary, rejected, skipped);
      }
    } else if !Completes(top) {
      ExtendStep(triplets, dictionary, rejected, skipped);
    }
  }

  /** The whole search from the stack `ss`: turns until it stops, giving the
      solved stack, or until the stack is empty. */
  ghost function Run(triplets: seq<string>, dictionary: seq<string>, rejected: set<string>, ss: seq<LinkState>): (r: seq<LinkState>)
    requires AllValid(triplets, dictionary) && Chain(triplets, dictionary, rejected, ss)
    ensures r == [] || (Chain(triplets, dictionary, rejected, r) && Solved(rejected, r))
    decreases if ss != [] then 1 else 0, Measure(triplets, dictionary, ss)
  {
    if ss == [] then []
    else
      SearchTurnSound(triplets, dictionary, rejected, ss);
      var (done, next) := SearchTurn(dictionary, rejected, ss);
      if done then next else Run(triplets, dictionary, rejected, next)
  }

  /** One turn of the search leaves the rest of the search to do. */
  lemma RunTurn(triplets: seq<string>, dictionary: seq<string>, rejected: set<string>, ss: seq<LinkState>,
                done: bool, next: seq<LinkState>)
    requires AllValid(triplets, dictionary) && Chain(triplets, dictionary, rejected, ss) && |ss| > 0
    requires (done, next) == SearchTurn(dictionary, rejected, ss)
    ensures Chain(triplets, dictionary, rejected, next)
    ensures done ==> Run(triplets, dictionary, rejected, ss) == next
    ensures !done ==> Run(triplets, dictionary, rejected, ss) == Run(triplets, dictionary, rejected, next)
  {
    SearchTurnSound(triplets, dictionary, rejected, ss);
  }

  /** `recalculateSolution`'s result: the search from a single link wanting
      every letter of the puzzle. */
  ghost function Solve(triplets: seq<string>, dictionary: seq<string>, rejected: set<string>): seq<LinkState>
    requires AllValid(triplets, dictionary)
  {
    StartChain(triplets, dictionary, rejected);
    Run(triplets, dictionary, rejected, [Fresh([], AllLetters(triplets), dictionary)])
  }

  /** The search either finds nothing or spells a solution of the puzzle. */
  lemma SolveSound(triplets: seq<string>, dictionary: seq<string>, rejected: set<string>)
    requires AllValid(triplets, dictionary)
    ensures var r := Solve(triplets, dictionary, rejected);
      r == [] || (Chain(triplets, dictionary, rejected, r) && Solved(rejected, r) &&
                  IsSolution(triplets, rejected, Words(r)))
  {
    var r := Solve(triplets, dictionary, rejected);
    if r != [] {
      SolvedIsSolution(triplets, dictionary, rejected, r);
    }
  }

  // ---------------------------------------------------------------------
  // WordLink
  // ---------------------------------------------------------------------

  class WordLink {
    var words: seq<string>
    var currentWordIndex: nat
    const desiredLetters: set<char>
    /** The word this link follows ("" for the first link). */
    ghost const previousWord: string

    ghost function State(): LinkState
      reads this
    {
      LinkState(previousWord, desiredLetters, words, currentWordIndex)
    }

    /** Keeps the dictionary words that may follow `previousWord` and ranks
        them by how many desired letters they hold. */
    constructor (previousWord: string, desiredLetters: set<char>, dictionary: seq<string>)
      ensures State() == Fresh(previousWord, desiredLetters, dictionary)
    {
      var ranked := Rank(Candidates(previousWord, desiredLetters, dictionary), desiredLetters);
      words := ranked;
      currentWordIndex := 0;
      this.desiredLetters := desiredLetters;
      this.previousWord := previousWord;
    }

    /** The word under the cursor, or "" once the cursor is past the end. */
    function CurrentWord(): (w: string)
      reads this
      ensures w == Current(State())
    {
      if currentWordIndex < |words| then words[currentWordIndex] else ""
    }

    /** Moves the cursor one step on; the words stay as they are. */
    method NextWord() returns (w: string)
      modifies this`currentWordIndex
      ensures State() == Advanced(old(State()))
      ensures w == Current(State())
    {
      currentWordIndex := currentWordIndex + 1;
      w := CurrentWord();
    }

    /** Drops every word ending like the current word, the current word
        included, keeping the order of the rest and leaving the cursor where
        it is. */
    method CurrentWordEndingIsBad()
      modifies this`words
      ensures State() == Pruned(old(State()))
    {
      var letter := LastLetter(CurrentWord());
      words := WithoutEnding(words, letter);
    }

    /** The desired letters the current word does not use. */
    function GetLetterStillUnusedAfterThisLink(): (r: set<char>)
      reads this
      ensures r <= desiredLetters
      ensures forall c :: c in r <==> c in desiredLetters && c !in CurrentWord()
      ensures r == Unused(State())
    {
      set c | c in desiredLetters && c !in CurrentWord()
    }

    /** True when the current word uses every desired letter. */
    predicate DoesCurrentWordCompleteChain()
      reads this
      ensures DoesCurrentWordCompleteChain() <==> Completes(State())
    {
      var r := GetLetterStillUnusedAfterThisLink();
      assert r == {} <==> desiredLetters <= LettersOf(CurrentWord()) by {
        if r == {} {
          forall c | c in desiredLetters ensures c in LettersOf(CurrentWord()) {
            assert c !in r;
          }
        }
      }
      |r| == 0
    }
  }

  // ---------------------------------------------------------------------
  // WordChain
  // ---------------------------------------------------------------------

  class WordChain {
    const challengeTriplets: seq<string>
    const dictionary: seq<string>
    /** Words the user has vetoed: created empty, and never changed by the
        solver itself. */
    const rejectedWords: set<string>
    var links: seq<WordLink>

    ghost predicate Valid()
      reads this
    {
      AllValid(challengeTriplets, dictionary)
    }

    /** Keeps the dictionary words the puzzle accepts, in order. */
    constructor (challengeTriplets: seq<string>, dictionary: seq<string>)
      ensures this.challengeTriplets == challengeTriplets
      ensures this.dictionary == ValidWords(challengeTriplets, dictionary)
      ensures rejectedWords == {} && links == []
      ensures Valid()
    {
      this.challengeTriplets := challengeTriplets;
      this.rejectedWords := {};
      links := [];
      var kept := [];
      var i := 0;
      while i < |dictionary|
        invariant 0 <= i <= |dictionary|
        invariant kept == ValidWords(challengeTriplets, dictionary[..i])
      {
        var ok := IsValidWord(challengeTriplets, dictionary[i]);
        FilterSnoc(w => ValidWord(challengeTriplets, w), dictionary[..i], dictionary[i]);
        assert dictionary[..i + 1] == dictionary[..i] + [dictionary[i]];
        if ok {
          kept := kept + [dictionary[i]];
        }
        i := i + 1;
      }
      assert dictionary[..i] == dictionary;
      this.dictionary := kept;
      new;
    }

    /** Decides `ValidWord` with the source's loops: one over the triplets
        for the first letter, then one over the triplets per later letter. */
    static method IsValidWord(challengeTriplets: seq<string>, word: string) returns (ok: bool)
      ensures ok == ValidWord(challengeTriplets, word)
    {
      var triplets := challengeTriplets;
      if |word| <= 3 {
        return false;
      }
      var lastTriplet := ScanTriplets(triplets, word[0], None);
      if lastTriplet == None {
        return false;
      }
      var i := 1;
      while i < |word|
        invariant 1 <= i <= |word|
        invariant lastTriplet.Some?
        invariant ValidWord(triplets, word) == ChainsFrom(triplets, word[i..], lastTriplet.value)
      {
        var letter := word[i];
        var next := ScanTriplets(triplets, letter, lastTriplet);
        assert word[i..][0] == letter && word[i..][1..] == word[i + 1..];
        if next == None {
          return false;
        }
        lastTriplet := next;
        i := i + 1;
      }
      return true;
    }

    /** One pass over the triplets: the first that holds `c` and is not the
        triplet to avoid (the previous letter's). */
    static method ScanTriplets(triplets: seq<string>, c: char, avoid: Option<string>)
      returns (found: Option<string>)
      ensures found == FindTriplet(triplets, c, avoid)
    {
      var k := 0;
      while k < |triplets|
        invariant 0 <= k <= |triplets|
        invariant FindTriplet(triplets, c, avoid) == FindTriplet(triplets[k..], c, avoid)
      {
        if c in triplets[k] && Some(triplets[k]) != avoid {
          return Some(triplets[k]);
        }
        assert triplets[k..][1..] == triplets[k + 1..];
        k := k + 1;
      }
      return None;
    }

    /** The states of the links, bottom to top. */
    ghost function Snapshot(): (ss: seq<LinkState>)
      reads this, links
      ensures |ss| == |links| && forall i :: 0 <= i < |links| ==> ss[i] == links[i].State()
    {
      seq(|links|, i reads this, links requires 0 <= i < |links| => links[i].State())
    }

    ghost predicate Distinct()
      reads this
    {
      forall i, j :: 0 <= i < j < |links| ==> links[i] != links[j]
    }

    /** `links` holds, bottom to top, links in the given states. */
    ghost predicate Mirrors(ss: seq<LinkState>)
      reads this, links
    {
      |links| == |ss| && forall i :: 0 <= i < |links| ==> links[i].State() == ss[i]
    }

    /** The search's inner loop: moves the top link's cursor past every
        vetoed word, leaving it on an acceptable word or past the end. */
    method SkipRejectedWords(currentLink: WordLink, ghost ss: seq<LinkState>) returns (word: string, ghost next: seq<LinkState>)
      requires (Searching(ss) == true)
      requires |links| > 0 && links[|links| - 1] == currentLink
      modifies currentLink`currentWordIndex
      ensures links == old(links) && (Searching(next) == true)
      ensures |next| == |ss| && next[..|ss| - 1] == ss[..|ss| - 1] && currentLink.State() == next[|ss| - 1]
      ensures next == Skipped(rejectedWords, ss)
      ensures AllVetoed(ss[|ss| - 1], next[|ss| - 1].index, rejectedWords)
      ensures word == Current(next[|next| - 1]) && (word == [] || word !in rejectedWords)
      ensures Measure(challengeTriplets, dictionary, next) <= Measure(challengeTriplets, dictionary, ss)
    {
      var n := |links|;
      word := currentLink.CurrentWord();
      next := ss;
      assert currentLink.State() == next[n - 1] by {
        assert Mirrors(ss);
      }
      while word != [] && word in rejectedWords
        invariant links == old(links)
        invariant (Searching(next) == true)
        invariant |next| == n && next[..n - 1] == ss[..n - 1]
        invariant word == Current(next[n - 1]) && currentLink.State() == next[n - 1]
        invariant Measure(challengeTriplets, dictionary, next) <= Measure(challengeTriplets, dictionary, ss)
        invariant SkipVetoed(next[n - 1], rejectedWords) == SkipVetoed(ss[n - 1], rejectedWords)
        decreases Left(next[n - 1])
      {
        ghost var before := next;
        word, next := SkipWord(currentLink, next);
        assert next[..n - 1] == before[..n - 1];
      }
      assert next == ss[..n - 1] + [next[n - 1]];
      SkippedAreVetoed(ss[n - 1], rejectedWords);
    }

    /** One turn of the inner loop: the top link moves on to its next word. */
    method SkipWord(currentLink: WordLink, ghost ss: seq<LinkState>) returns (word: string, ghost next: seq<LinkState>)
      requires (Searching(ss) == true)
      requires |links| > 0 && links[|links| - 1] == currentLink && Current(ss[|ss| - 1]) != []
      requires currentLink.State() == ss[|ss| - 1]
      modifies currentLink`currentWordIndex
      ensures (Searching(next) == true) && currentLink.State() == next[|next| - 1]
      ensures next == ss[..|ss| - 1] + [Advanced(ss[|ss| - 1])]
      ensures word == Current(next[|next| - 1])
      ensures Left(next[|next| - 1]) < Left(ss[|ss| - 1])
      ensures Measure(challengeTriplets, dictionary, next) < Measure(challengeTriplets, dictionary, ss)
    {
      var n := |links|;
      NextWordStep(challengeTriplets, dictionary, rejectedWords, ss);
      word := currentLink.NextWord();
      next := ss[..n - 1] + [Advanced(ss[n - 1])];
    }

    /** A dead end: pops the top link and, when a link is left below it,
        drops from that link every word ending like its current word. */
    method Backtrack(ghost ss: seq<LinkState>, ghost made: set<WordLink>) returns (ghost next: seq<LinkState>)
      requires (Searching(ss) == true) && Within(made)
      requires |links| > 0
      modifies this`links, if |links| > 1 then {links[|links| - 2]} else {}
      ensures links == old(links[..|links| - 1]) && (Searching(next) == true) && Within(made)
      ensures |ss| > 1 ==> next == ss[..|ss| - 2] + [Pruned(ss[|ss| - 2])]
      ensures |ss| == 1 ==> next == []
      ensures |links| > 0 ==> Measure(challengeTriplets, dictionary, next) < Measure(challengeTriplets, dictionary, ss)
    {
      var n := |links|;
      links := links[..n - 1];
      if n > 1 {
        BacktrackStep(challengeTriplets, dictionary, rejectedWords, ss);
        var currentLink := links[n - 2];
        currentLink.CurrentWordEndingIsBad();
        next := ss[..n - 2] + [Pruned(ss[n - 2])];
      } else {
        next := [];
      }
    }

    /** Grows the chain by `nextLink`, built for the words that may follow
        the top link's acceptable, unfinished word. */
    method PushLink(nextLink: WordLink, ghost ss: seq<LinkState>, ghost made: set<WordLink>) returns (ghost next: seq<LinkState>)
      requires (Searching(ss) == true) && Within(made)
      requires |ss| > 0 && nextLink !in links
      requires var top := ss[|ss| - 1];
        Current(top) != [] && Current(top) !in rejectedWords && !Completes(top) &&
        nextLink.State() == Fresh(Current(top), Unused(top), dictionary)
      modifies this`links
      ensures links == old(links) + [nextLink] && next == ss + [nextLink.State()]
      ensures (Searching(next) == true) && Within(made + {nextLink})
      ensures Measure(challengeTriplets, dictionary, next) < Measure(challengeTriplets, dictionary, ss)
    {
      ExtendStep(challengeTriplets, dictionary, rejectedWords, ss);
      links := links + [nextLink];
      next := ss + [nextLink.State()];
    }

    /** What holds between the turns of the search: the dictionary is valid,
        the links are distinct objects in the states `ss`, and `ss` is a
        chain.

        Contracts write it as `(Searching(ss) == true)`. The comparison means
        the same as `Searching(ss)`, but Dafny checks a bare predicate call in
        a postcondition or loop invariant conjunct by conjunct, unfolding
        `Chain`'s quantifiers into separate proof goals; the comparison keeps
        it one goal, proved by passing the callee's fact along. With the bare
        form the search loop of `RecalculateSolution` exhausts the verifier's
        resource limit. */
    ghost predicate Searching(ss: seq<LinkState>)
      reads this, links
    {
      Valid() && Distinct() && Mirrors(ss) && Chain(challengeTriplets, dictionary, rejectedWords, ss)
    }

    /** Every link is one of `made`: the links the search has created. */
    ghost predicate Within(made: set<WordLink>)
      reads this
    {
      forall i :: 0 <= i < |links| ==> links[i] in made
    }

    lemma MirroredSnapshot(ss: seq<LinkState>)
      requires Mirrors(ss)
      ensures Snapshot() == ss
    {
    }

    /** Whatever the search leaves on the stack solves the puzzle. */
    lemma SnapshotSolves()
      requires Valid() && Snapshot() == Solve(challengeTriplets, dictionary, rejectedWords)
      ensures links == [] || (Chain(challengeTriplets, dictionary, rejectedWords, Snapshot()) &&
                              Solved(rejectedWords, Snapshot()) &&
                              IsSolution(challengeTriplets, rejectedWords, Words(Snapshot())))
    {
      SolveSound(challengeTriplets, dictionary, rejectedWords);
    }

    /** One turn of the search loop: skip vetoed words, then backtrack on an
        exhausted link, stop on a finishing word, or push a new link. */
    method SearchStep(ghost ss: seq<LinkState>, ghost made: set<WordLink>) returns (done: bool, ghost next: seq<LinkState>, ghost made2: set<WordLink>)
      requires (Searching(ss) == true) && |links| > 0
      requires Within(made)
      modifies this`links, {links[|links| - 1]}, if |links| > 1 then {links[|links| - 2]} else {}
      ensures (Searching(next) == true)
      ensures (done, next) == SearchTurn(dictionary, rejectedWords, ss)
      ensures done ==> links == old(links) && (Solved(rejectedWords, next) == true)
      ensures Within(made2)
      ensures made2 == made || (|links| > 0 && made2 == made + {links[|links| - 1]} && fresh(links[|links| - 1]))
      ensures !done ==> (|links| == 0 || Measure(challengeTriplets, dictionary, next) < Measure(challengeTriplets, dictionary, ss))
    {
      var currentLink := links[|links| - 1];
      var word;
      ghost var skipped;
      word, skipped := SkipRejectedWords(currentLink, ss);
      done, next, made2 := ActOnWord(currentLink, word, skipped, made);
    }

    /** The rest of a turn, once vetoed words are skipped: an exhausted top
        link means backtracking, and an acceptable word means stopping or
        growing the chain. */
    method ActOnWord(currentLink: WordLink, word: string, ghost ss: seq<LinkState>, ghost made: set<WordLink>)
      returns (done: bool, ghost next: seq<LinkState>, ghost made2: set<WordLink>)
      requires (Searching(ss) == true) && Within(made)
      requires |links| > 0 && links[|links| - 1] == currentLink && currentLink.State() == ss[|ss| - 1]
      requires word == Current(ss[|ss| - 1]) && (word == [] || word !in rejectedWords)
      modifies this`links, if |links| > 1 then {links[|links| - 2]} else {}
      ensures (Searching(next) == true)
      ensures (done, next) == TurnFrom(dictionary, ss)
      ensures done ==> links == old(links) && (Solved(rejectedWords, next) == true)
      ensures Within(made2)
      ensures made2 == made || (|links| > 0 && made2 == made + {links[|links| - 1]} && fresh(links[|links| - 1]))
      ensures !done ==> (|links| == 0 || Measure(challengeTriplets, dictionary, next) < Measure(challengeTriplets, dictionary, ss))
    {
      if word == [] {
        next := Backtrack(ss, made);
        done, made2 := false, made;
        TurnBacktracks(dictionary, ss, next);
      } else {
        done, next, made2 := Advance(currentLink, word, ss, made);
        TurnAdvances(dictionary, ss, done, next);
      }
    }

    /** The top link holds an acceptable word: the search ends when it uses
        every letter still wanted, and otherwise a link for the letters it
        leaves unused is pushed. */
    method Advance(currentLink: WordLink, word: string, ghost ss: seq<LinkState>, ghost made: set<WordLink>)
      returns (done: bool, ghost next: seq<LinkState>, ghost made2: set<WordLink>)
      requires (Searching(ss) == true) && Within(made)
      requires |links| > 0 && links[|links| - 1] == currentLink && currentLink.State() == ss[|ss| - 1]
      requires word == Current(ss[|ss| - 1]) && word != [] && word !in rejectedWords
      modifies this`links
      ensures (Searching(next) == true)
      ensures done == Completes(ss[|ss| - 1])
      ensures done ==> links == old(links) && next == ss && (Solved(rejectedWords, next) == true)
      ensures !done ==> |links| == |old(links)| + 1 && links == old(links) + [links[|links| - 1]]
      ensures !done ==> next == ss + [Fresh(word, Unused(ss[|ss| - 1]), dictionary)]
      ensures Within(made2)
      ensures made2 == made || (|links| > 0 && made2 == made + {links[|links| - 1]} && fresh(links[|links| - 1]))
      ensures !done ==> Measure(challengeTriplets, dictionary, next) < Measure(challengeTriplets, dictionary, ss)
    {
      if currentLink.DoesCurrentWordCompleteChain() {
        done, next, made2 := true, ss, made;
      } else {
        var nextLink := new WordLink(word, currentLink.GetLetterStillUnusedAfterThisLink(), dictionary);
        next := PushLink(nextLink, ss, made);
        done, made2 := false, made + {nextLink};
      }
    }

    /** The search begins from one link wanting every letter of the puzzle. */
    method Start() returns (ghost ss: seq<LinkState>)
      requires Valid()
      modifies this`links
      ensures ss == [Fresh([], AllLetters(challengeTriplets), dictionary)]
      ensures (Searching(ss) == true) && |links| == 1 && fresh(links[0])
    {
      var first := new WordLink([], AllLetters(challengeTriplets), dictionary);
      links := [first];
      ss := [first.State()];
      StartChain(challengeTriplets, dictionary, rejectedWords);
    }

    /** Runs the search from scratch: grow the chain with each link's best
        remaining word, skip vetoed words, and on a dead end pop the link and
        drop from the one below every word ending like its current word. Ends
        with an empty chain (no solution found) or with a chain whose words
        solve the puzzle. */
    method RecalculateSolution()
      requires Valid()
      modifies this`links
      ensures Snapshot() == Solve(challengeTriplets, dictionary, rejectedWords)
      ensures links == [] || (Chain(challengeTriplets, dictionary, rejectedWords, Snapshot()) &&
                              Solved(rejectedWords, Snapshot()) &&
                              IsSolution(challengeTriplets, rejectedWords, Words(Snapshot())))
      ensures forall i :: 0 <= i < |links| ==> fresh(links[i])
    {
      ghost var ss := Start();
      ghost var made := {links[0]};
      ghost var result := Solve(challengeTriplets, dictionary, rejectedWords);
      var done := false;
      while !done && |links| > 0
        invariant (Searching(ss) == true) && fresh(made) && Within(made)
        invariant done ==> ss == result
        invariant !done ==> Run(challengeTriplets, dictionary, rejectedWords, ss) == result
        decreases !done, |links| > 0, Measure(challengeTriplets, dictionary, ss)
      {
        ghost var before := ss;
        done, ss, made := SearchStep(ss, made);
        RunTurn(challengeTriplets, dictionary, rejectedWords, before, done, ss);
      }
      MirroredSnapshot(ss);
      SnapshotSolves();
    }
  }
}
