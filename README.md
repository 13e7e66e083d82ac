# Website logic, modelled in Dafny

This project models the three pieces of logic in the TroyDev website repository
that are more than page glue.

- **The Letter Boxed solver** (`assets/scripts/letter-boxed-solver.js`, `letter_boxed.dfy`).
  - `WordLink` is one position of a word chain. It holds the dictionary words that may
    follow the previous word, ranked by how many wanted letters they hold, and a cursor
    over them. It can advance the cursor and prune every word with a given ending.
  - `WordChain` owns the puzzle's letter triplets, the dictionary of valid words and a
    stack of links. `recalculateSolution` runs a depth-first search with backtracking
    over that stack.
  - Both are Dafny classes whose methods update their fields as the source does. The
    search is proved to terminate. When it stops with a non-empty chain, that chain's
    words are proved to solve the puzzle.
  - The search is also written as a function of the stack of link states: `SearchTurn`
    is one pass of the outer loop, `Run` repeats it to the end and `Solve` starts it
    from one fresh link. Each method of the search is proved to make exactly the move
    these functions make, and `recalculateSolution` to end in the states `Solve` gives.
  - `chain_measure.dfy` holds the termination measure: the stack of per-link
    "candidates left" counters, read as the digits of one number.
- **Conway's Game of Life step** of the slideshow widget
  (`assets/scripts/widget-slideshow.js`, `game_of_life.dfy`). It is one pure
  next-generation function on a grid of columns, where off-grid cells are dead, plus the
  widget's `tick` that replaces the grid.
- **The site build script** (`autoHeader.py`, `auto_header.dfy`). It models:
  - page titles from file names;
  - the line-based section machine, which cuts the header, toolbar and footer out of the
    template and splices them into each page;
  - the YouTube URL rewrite;
  - the custom font, style and script entries;
  - the quote scanner that finds the links to check.

  `text.dfy` holds the string operations these use, written as Python behaves:
  - `in` on strings;
  - `str.replace`, which replaces every non-overlapping occurrence from left to right;
  - `str.split(" ")`;
  - `removesuffix`.

Where the source fails at run time, the model returns `None` instead. Examples are
`word[0]` on an empty word of a file name such as `a--b.html`, and a page whose
`<head>` needs that title. No precondition excludes those inputs.

## Model

| member | source | states |
|---|---|---|
| LetterBoxed.FindTriplet | assets/scripts/letter-boxed-solver.js:87-104 | The triplet chosen for a letter holds it and is not the avoided one, and it is the first such triplet in puzzle order: every earlier triplet lacks the letter or is the avoided one. No triplet is chosen only when every triplet holding the letter is the avoided one. |
| LetterBoxed.WordChain.ScanTriplets | assets/scripts/letter-boxed-solver.js:98-104 | The loop over the triplets, breaking at the first triplet that holds the letter and differs from the previous one, returns exactly `FindTriplet`'s choice. |
| LetterBoxed.WordChain.IsValidWord | assets/scripts/letter-boxed-solver.js:82-110 | The source's loops accept a word exactly when `ValidWord` holds. |
| LetterBoxed.ShortWordsRejected | assets/scripts/letter-boxed-solver.js:83-85 | A word of three letters or fewer is never accepted. |
| LetterBoxed.FindAfter | assets/scripts/letter-boxed-solver.js:98-104 | With pairwise-disjoint triplets, a letter after `p` finds a triplet iff it is in some triplet and not in `p`'s triplet. |
| LetterBoxed.ChainsFromMeans | assets/scripts/letter-boxed-solver.js:96-108 | With disjoint triplets, the later letters chain iff each is in some triplet and no two neighbours share a triplet. |
| LetterBoxed.ValidWordMeans | assets/scripts/letter-boxed-solver.js:82-110 | With disjoint triplets, a word is valid iff it has at least 4 letters, every letter is in a triplet, and no two adjacent letters share a triplet. |
| LetterBoxed.RankPermutes | assets/scripts/letter-boxed-solver.js:15-20 | Ranking the candidates is a permutation (same multiset). |
| LetterBoxed.RankSorted | assets/scripts/letter-boxed-solver.js:15-20 | Ranked words come in non-increasing order of distinct desired letters. |
| LetterBoxed.RankStable | assets/scripts/letter-boxed-solver.js:20 | For every score, the words with that score keep their dictionary order (the sort is stable). |
| LetterBoxed.RankMembers | assets/scripts/letter-boxed-solver.js:15-20 | Ranking keeps the length and exactly the same words. |
| LetterBoxed.Score | assets/scripts/letter-boxed-solver.js:16-18 | A word scores 0 exactly when it holds none of the desired letters, and never more than the number of desired letters. |
| LetterBoxed.IsCandidate | assets/scripts/letter-boxed-solver.js:12 | After a previous word, a word that passes the filter is non-empty, differs from the previous word and scores at least 1. |
| LetterBoxed.Rank | assets/scripts/letter-boxed-solver.js:20 | Ranking keeps the number of words; `RankPermutes`, `RankSorted` and `RankStable` state the rest. |
| LetterBoxed.InsertRanked | assets/scripts/letter-boxed-solver.js:20 | One insertion step of the stable sort makes the list one word longer. |
| LetterBoxed.InsertRankedPermutes | assets/scripts/letter-boxed-solver.js:20 | One insertion step of the stable sort adds exactly the inserted word. |
| LetterBoxed.InsertRankedSorted | assets/scripts/letter-boxed-solver.js:20 | One insertion step keeps a ranked list ranked. |
| LetterBoxed.InsertRankedStable | assets/scripts/letter-boxed-solver.js:20 | One insertion step puts the word ahead of the words of equal score, the place its earlier dictionary position gives it. |
| LetterBoxed.FreshIsBuilt | assets/scripts/letter-boxed-solver.js:11-23 | A new link's words are exactly the dictionary words that pass its filter. With no previous word that is all of them; otherwise each differs from the previous word, starts with its last letter and holds a desired letter. |
| LetterBoxed.PrunedIsBuilt | assets/scripts/letter-boxed-solver.js:45-48 | Pruning keeps a subset of the link's words, so they still pass its filter. |
| LetterBoxed.PrunedFewer | assets/scripts/letter-boxed-solver.js:45-47 | Pruning by the current word's ending removes at least the current word, so fewer words are left. |
| LetterBoxed.WordLink.constructor | assets/scripts/letter-boxed-solver.js:11-23 | The new link's words are the ranked candidates, and the cursor is 0. |
| LetterBoxed.WordLink.CurrentWord | assets/scripts/letter-boxed-solver.js:28-30 | `words[currentWordIndex]`, or "" once the index is past the end. |
| LetterBoxed.WordLink.NextWord | assets/scripts/letter-boxed-solver.js:35-38 | The cursor moves up by exactly one. The words are unchanged. The result is the new current word. |
| LetterBoxed.WordLink.CurrentWordEndingIsBad | assets/scripts/letter-boxed-solver.js:45-48 | The words become those whose last letter differs from the current word's, in their order. The cursor does not move. |
| LetterBoxed.WordLink.GetLetterStillUnusedAfterThisLink | assets/scripts/letter-boxed-solver.js:53-55 | The desired letters not in the current word. This is a subset of the desired letters. |
| LetterBoxed.WordLink.DoesCurrentWordCompleteChain | assets/scripts/letter-boxed-solver.js:60-62 | True iff no desired letter is left unused. |
| LetterBoxed.WordChain.constructor | assets/scripts/letter-boxed-solver.js:71-76 | The dictionary is filtered to the valid words in order. `rejectedWords` starts empty and `links` empty. |
| LetterBoxed.WordChain.Start | assets/scripts/letter-boxed-solver.js:120 | The stack becomes exactly one new link: no previous word, every puzzle letter wanted, all candidates ranked, cursor 0. The search invariant holds. |
| LetterBoxed.WordChain.SkipRejectedWords | assets/scripts/letter-boxed-solver.js:123-126 | The links stay the same objects and only the top link's cursor moves. The new stack is `Skipped` of the old one: the cursor stops at the first word that is not vetoed, or past the end. Every word passed over is vetoed. The word returned is the new current word, empty or not vetoed. The measure does not grow. |
| LetterBoxed.WordChain.SkipWord | assets/scripts/letter-boxed-solver.js:125 | One `nextWord` call on the top link keeps the invariant and lowers the measure. |
| LetterBoxed.WordChain.Backtrack | assets/scripts/letter-boxed-solver.js:127-132 | The top link is popped. With a link left below, the new stack is the old one without its top two links, followed by the link below with its words pruned by its current word's ending. With none left, the stack is empty. The invariant holds and the measure falls. |
| LetterBoxed.WordChain.PushLink | assets/scripts/letter-boxed-solver.js:136-137 | The new link is appended to `links` and its state to the stack; nothing else changes. The invariant holds and the measure falls. |
| LetterBoxed.WordChain.Advance | assets/scripts/letter-boxed-solver.js:133-138 | The search stops exactly when the top word uses every wanted letter, and then nothing changes and the chain is solved. Otherwise one link is pushed: a fresh link for that word and the letters it leaves unused. The measure then falls. |
| LetterBoxed.WordChain.ActOnWord | assets/scripts/letter-boxed-solver.js:127-138 | After skipping, the turn is exactly `TurnFrom`: backtrack on an exhausted top link, otherwise stop or push as `Advance` says. |
| LetterBoxed.WordChain.SearchStep | assets/scripts/letter-boxed-solver.js:122-138 | One pass of the outer loop does exactly what `SearchTurn` gives for the old stack, so it leaves the rest of the search to `Run`. It keeps the invariant, stops only with a solved chain, and otherwise lowers the measure or empties the stack. |
| LetterBoxed.WordChain.RecalculateSolution | assets/scripts/letter-boxed-solver.js:119-140 | Terminates. The links end in exactly the states `Solve` gives for the puzzle. `links` is empty, or the links form a search chain that is solved and whose current words are a solution: valid, not vetoed, each starting with the last letter of the one before, and all letters used. Every link is new. |
| LetterBoxed.WordChain.SnapshotSolves | assets/scripts/letter-boxed-solver.js:119-140 | When the links are in the states `Solve` gives, they are empty or a solved chain whose words solve the puzzle. |
| LetterBoxed.SkipVetoed | assets/scripts/letter-boxed-solver.js:124-126 | Skipping only moves the cursor forward, and stops on a word that is empty or not vetoed. |
| LetterBoxed.SkippedIsVetoed | assets/scripts/letter-boxed-solver.js:124-126 | Each word the skip passes over exists and is vetoed. |
| LetterBoxed.SkippedAreVetoed | assets/scripts/letter-boxed-solver.js:124-126 | All the words from the cursor to where the skip stops are vetoed. |
| LetterBoxed.SkipChain | assets/scripts/letter-boxed-solver.js:124-126 | Skipping vetoed words on the top link keeps the chain invariant and does not raise the measure. |
| LetterBoxed.TurnBacktracks | assets/scripts/letter-boxed-solver.js:127-132 | On an exhausted top link, a turn does not stop and pops the top link, pruning the one below if any. |
| LetterBoxed.TurnAdvances | assets/scripts/letter-boxed-solver.js:133-138 | On a word, a turn stops exactly when the word uses every wanted letter, and otherwise pushes a fresh link for it. |
| LetterBoxed.SearchTurnSound | assets/scripts/letter-boxed-solver.js:122-138 | Every turn keeps the chain invariant. It stops only on a solved chain, and otherwise lowers the measure or empties the stack. |
| LetterBoxed.RunTurn | assets/scripts/letter-boxed-solver.js:121-139 | After one turn, the search from the new stack ends where the search from the old one does; a stopping turn is the end. |
| LetterBoxed.Run | assets/scripts/letter-boxed-solver.js:121-139 | The outer loop run to the end, as a function of the stack: it gives the empty stack or a solved chain. |
| LetterBoxed.SolveSound | assets/scripts/letter-boxed-solver.js:119-140 | The whole search from one fresh link gives the empty stack, or a solved chain whose words are a solution of the puzzle. |
| LetterBoxed.ChainDepth | assets/scripts/letter-boxed-solver.js:12 | Each link deeper in the chain wants at least one letter fewer, so the depth is bounded by the number of distinct letters. |
| LetterBoxed.MeasureFits | assets/scripts/letter-boxed-solver.js:121-139 | The stack is at most letters+1 deep, and every counter is bounded by the dictionary size. |
| LetterBoxed.NextWordStep | assets/scripts/letter-boxed-solver.js:125 | Advancing the top cursor keeps the chain invariant and lowers the measure. |
| LetterBoxed.BacktrackStep | assets/scripts/letter-boxed-solver.js:128-131 | Popping and pruning the link below keeps the chain invariant and lowers the measure. |
| LetterBoxed.ChainPrune | assets/scripts/letter-boxed-solver.js:128-131 | Popping the top link and pruning the one below keeps the chain invariant. |
| LetterBoxed.ExtendStep | assets/scripts/letter-boxed-solver.js:136-137 | Pushing a link built from the top word keeps the chain invariant and lowers the measure. |
| LetterBoxed.ChainPush | assets/scripts/letter-boxed-solver.js:136-137 | A link that follows the top word and wants its unused letters extends the chain. |
| LetterBoxed.DesiredIsUnused | assets/scripts/letter-boxed-solver.js:53-55 | Each link wants exactly the puzzle letters that the words below it leave unused. |
| LetterBoxed.ChainWordsLink | assets/scripts/letter-boxed-solver.js:119-140 | In a solved chain every word is valid and not vetoed, and each later word differs from the one before and starts with its last letter. |
| LetterBoxed.SolvedIsSolution | assets/scripts/letter-boxed-solver.js:133-134 | A chain that stops the search is a solution of the puzzle. |
| LetterBoxed.MeasureTop | assets/scripts/letter-boxed-solver.js:125 | Fewer words left on the top link means a smaller measure. |
| LetterBoxed.MeasurePop | assets/scripts/letter-boxed-solver.js:128-131 | Popping while lowering the link below gives a smaller measure. |
| LetterBoxed.MeasurePush | assets/scripts/letter-boxed-solver.js:137 | Pushing a link below the depth bound gives a smaller measure. |
| ChainMeasure.EncodeBound | assets/scripts/letter-boxed-solver.js:121-139 | A stack of bounded counters encodes to less than `(pad+1)^n`. |
| ChainMeasure.EncodeLexLess | assets/scripts/letter-boxed-solver.js:121-139 | A lexicographically smaller stack has a smaller encoding. |
| ChainMeasure.TopDecreases | assets/scripts/letter-boxed-solver.js:125 | Lowering the top counter lowers the encoding. |
| ChainMeasure.PopAndDecrease | assets/scripts/letter-boxed-solver.js:128-131 | Popping the top while lowering the counter below lowers the encoding. |
| ChainMeasure.PushDecreases | assets/scripts/letter-boxed-solver.js:137 | Pushing a counter lowers the encoding. |
| GameOfLife.Neighbours | assets/scripts/widget-slideshow.js:66-75 | A neighbour count is at most 8. |
| GameOfLife.NeighboursCountsLiveSet | assets/scripts/widget-slideshow.js:66-75 | The count is the number of live in-grid cells among the 8 surrounding positions. Off-grid cells are dead and there is no wrap-around. |
| GameOfLife.NeighboursInListOrder | assets/scripts/widget-slideshow.js:66-75 | Counting the eight positions in the source's list order gives the same count. |
| GameOfLife.NextGeneration | assets/scripts/widget-slideshow.js:62-83 | The new grid has the same columns and column lengths. Each cell follows the rule applied to the old grid only. |
| GameOfLife.Survival | assets/scripts/widget-slideshow.js:76-77 | A live cell stays alive iff it has 2 or 3 live neighbours. |
| GameOfLife.Birth | assets/scripts/widget-slideshow.js:78-79 | A dead cell comes alive iff it has exactly 3 live neighbours. |
| GameOfLife.AllDeadStaysDead | assets/scripts/widget-slideshow.js:76-79 | An all-dead grid stays all dead. |
| GameOfLife.ConwaysGameOfLife.constructor | assets/scripts/widget-slideshow.js:30-37 | The grid starts empty. |
| GameOfLife.ConwaysGameOfLife.Tick | assets/scripts/widget-slideshow.js:62-64 | The grid is replaced by the next generation of the old grid. |
| AutoHeader.Capital | autoHeader.py:119 | A lower-case ASCII letter becomes the matching upper-case letter. Any other character is kept. |
| AutoHeader.TitleWords | autoHeader.py:116 | There is at least one word, no word holds a space or a hyphen, and the words joined by spaces give the name back with hyphens read as spaces and without ".html". |
| AutoHeader.FilenameToTitle | autoHeader.py:109-121 | "index.html" gives "Projects". Otherwise the result is `Title`: None if some word is empty, where the source raises IndexError. |
| AutoHeader.CapitalizeWords | autoHeader.py:115-121 | The loop appends each word with its first character capitalised, a space before all but the first. It stops with None at an empty word. |
| AutoHeader.TitleWordsRoundTrip | autoHeader.py:109-121 | Splitting a title at spaces gives back the words of the name, with hyphens read as spaces and ".html" dropped. Each word has only its first character capitalised and the rest unchanged. No hyphen is left. |
| AutoHeader.CapitalizedRoundTrip | autoHeader.py:116-120 | Words without spaces or hyphens, capitalised and joined by single spaces, split back into the capitalised words. |
| AutoHeader.DoubledHyphenFails | autoHeader.py:116-119 | A name with two hyphens in a row has an empty word, so the title fails. |
| AutoHeader.GetTemplateSections | autoHeader.py:125-153 | The loop gathers, for each of header, toolbar and footer, exactly the lines `Gathered` assigns to it, in order. |
| AutoHeader.SectionOfMeans | autoHeader.py:130-151 | A template line belongs to a section iff some earlier-or-equal line opens that section and no closing line comes in between. This covers the opening and closing markers themselves. |
| AutoHeader.TemplateNeverSurplus | autoHeader.py:130-151 | The template walk never enters the surplus state. |
| AutoHeader.Entered | autoHeader.py:40-45 | An opening marker enters a section; any other line leaves the state as it was. |
| AutoHeader.YouTubeFix | autoHeader.py:34-37 | Only lines containing both "youtube" and "<iframe" change. A changed line is the line with "youtube.com" made "youtube-nocookie.com" and then "http://" made "https://", and contains no "http://". |
| AutoHeader.PlayerRewrite | autoHeader.py:35-37 | The three replacements come to the first two, and leave no "http://". |
| AutoHeader.ThirdReplaceIdle | autoHeader.py:37 | With no "http://" left, the third replacement changes nothing. |
| AutoHeader.RewriteYouTube | autoHeader.py:34-37 | The replacements, made in source order, give the fixed line. |
| AutoHeader.FixedAt | autoHeader.py:32-37 | Every page line is fixed on its own, independently of the other lines. |
| AutoHeader.ProcessPage | autoHeader.py:26-67 | The page fails exactly when its `<head>` line needs a title that fails. Otherwise the result is the page built line by line from the fixed lines. |
| AutoHeader.PageLine | autoHeader.py:40-67 | One line of the page step either stops because the title fails at `<head>`, or moves the section state and appends that line's output. |
| AutoHeader.InsertHeader | autoHeader.py:49-53 | The header is appended, then the title and the font, style and script placeholders are replaced in that order. |
| AutoHeader.PageSplices | autoHeader.py:40-67 | Without a `<head>` line, the page is its lines outside every section, copied unchanged, plus each section replaced once by its template. The rest of the section, up to and including its closing line, is dropped. |
| AutoHeader.PageSectionTracksTemplate | autoHeader.py:40-67 | The page walk is outside every section exactly when the template walk over the same lines is. Otherwise it is skipping surplus lines. |
| AutoHeader.PieceEmitted | autoHeader.py:47-64 | For a line other than `<head>`, a page step appends that line's piece: the template at an opener, the line outside sections, nothing otherwise. |
| AutoHeader.CustomFontEntry | autoHeader.py:85-89 | The entry is empty iff the font file does not exist. |
| AutoHeader.CustomStyleEntry | autoHeader.py:93-97 | The entry is empty iff the style file does not exist. |
| AutoHeader.CustomScriptEntry | autoHeader.py:101-105 | The entry is empty iff the script file does not exist. |
| AutoHeader.Pages | autoHeader.py:27 | A name is processed iff it is listed, ends with ".html" and does not start with "template". |
| AutoHeader.PySlice | autoHeader.py:194-195 | In-range bounds slice directly. Negative bounds count from the end, as Python does. |
| AutoHeader.ScanLinks | autoHeader.py:173-208 | The scan's reports are those of the page's quote pairs, in order: first quote with second, third with fourth, and so on. |
| AutoHeader.CloseQuote | autoHeader.py:189-201 | At a closing quote, the report for the pair is appended. There is one only when the four characters that end just before the character preceding the opening quote are "href" or " src" (the `href` of `href="`). The reports stay those of the pairs seen so far. |
| AutoHeader.ReportFor | autoHeader.py:194-203 | At most one report. There is one exactly when the four characters that end just before the character preceding the opening quote, sliced as Python does, are "href" or " src". A report sits at the closing quote's line and column and is classed web by its own link text. |
| AutoHeader.ScanPairsAll | autoHeader.py:183-192 | The states the scanner passes through pair the quotes in order. |
| AutoHeader.PairsAreQuoted | autoHeader.py:183-192 | Each pair is two quotes with no quote between them. |
| AutoHeader.ReportFromSomePair | autoHeader.py:189-203 | Every report comes from one of the quote pairs. |
| AutoHeader.ReportMeans | autoHeader.py:194-203 | A report follows an "href" or " src" attribute: the four characters that end just before the character preceding the opening quote. The character preceding the quote is not checked. It carries the text between the quotes and the line and column of the closing quote. It is web iff the link contains "http", "https" or "www". |
| AutoHeader.WebIff | autoHeader.py:200 | A link is web iff it contains "http" or "www". Testing for "https" adds nothing. |
| AutoHeader.ColAtMeans | autoHeader.py:204-208 | The column is one more than the number of characters since the last newline. |
| AutoHeader.QuotesExact | autoHeader.py:183-192 | The quote positions are exactly the quote characters, in increasing order. |
| Text.ContainsAt | autoHeader.py:34 | `p in s` holds exactly when some window of `s` spells `p`. |
| Text.ReplaceAll | autoHeader.py:35-37 | Replacing a pattern by a text of the same length keeps the length. |
| Text.ReplacedChars | autoHeader.py:116 | Every character of the result comes from the input or the replacement. A one-character pattern is gone unless the replacement brings it back. |
| Text.Split | autoHeader.py:116 | There is always one piece at least, and no piece holds the separator. |
| Text.JoinHasSeparator | autoHeader.py:116-120 | Joining separator-free pieces puts a separator in the result exactly when there are two pieces or more. |
| Text.UpgradeLeavesNoHttp | autoHeader.py:36 | After replacing "http://" with "https://", no "http://" is left. |
| Text.SplitJoin | autoHeader.py:116 | Joining the pieces of a split gives the string back. No piece holds the separator. |
| Text.JoinSplit | autoHeader.py:116 | Splitting a join of separator-free pieces gives the pieces back. |
| Text.RemoveSuffix | autoHeader.py:116 | The suffix is removed iff present. Otherwise the string is unchanged. |
| Text.ReplaceAbsent | autoHeader.py:37 | Replacing a pattern that does not occur changes nothing. |

## Left out

- The UI half of the Letter Boxed solver is not part of this model: letter validation with
  a Unicode regular expression, dictionary download, puzzle set-up with a random shuffle,
  and DOM layout. It is browser I/O, randomness and floating point.
- `WordChain.getLinks` returns the `links` field itself. The model's callers read `links`
  directly.
- `rejectedWords` is never filled in the source, which creates it empty and never
  reassigns it. It is a constant field that the constructor sets to the empty set, and
  the search treats it as any fixed set.
- `null` as the first link's previous word is modelled as "". Both are falsy, and the
  filter treats them alike.
- LetterBoxed.WordChain.RecalculateSolution: the result is proved to be the one `Solve`
  gives and to be sound, not complete.
  Pruning by word ending can drop a word that would have led to a solution, so the source
  gives no completeness to prove.
- JavaScript strings are UTF-16 sequences. The model takes them as sequences of characters.
- The rest of the slideshow is not part of this model: frame timing, the canvas, random
  grids, Boids and Flappy Bird. It is floating point, randomness and drawing. `reset`,
  which fills the grid at random and ticks twice, is one of these.
- `str.capitalize` is modelled on ASCII letters only. Other characters are kept as they are.
- File and directory I/O in the build script are left out: `os.listdir`, opening, seeking,
  writing and truncating files. Pages and the template are given as their lines, each
  with its trailing newline.
- `os.path.exists` in the custom entries becomes a boolean parameter.
- The link checks are left out: `checkLocalLink` (a path join and `os.path.exists`) and
  `checkWebLink` (an HTTP request). The scanner reports each link with its line, column
  and web-or-local class, as numbers rather than the `name:line:column` string.
- The path rewriting for pages outside the top directory is plain replace-all glue and
  is not modelled. That is `dir != "."`, `autoHeader.py:69-75`.
- AutoHeader.ProcessPage: the call to `checkLocalLinks` on the result is not chained;
  `ScanLinks` models that scan on any page text.
- AutoHeader.PageSplices: the splice picture is proved for pages without a `<head>`
  line. With one, `ProcessPage` and `PageLine` state the header step, which
  `InsertHeader` describes.
- `movingShapes.py`, `toolbar.js`, `index.js`, `shared.js` and the PHP page are not part
  of this model. They are random CSS, DOM glue and includes.
