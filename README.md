# A verified model of the personal site's puzzle solvers and small rules

This project models, in Dafny, the computational core of a personal web site
and two of its data scripts:

- **Word Hunt**: a 4×4 letter board.
  - A web worker builds a prefix trie of a word list.
  - It runs a depth-first search over paths of touching cells that visit no cell twice, pruned by the trie.
  - It keeps the first path found for each word of at least three letters.
  - It ranks the words longest first, then in ascending order.
- **Anagrams**: six letters.
  - The worker keeps every dictionary word of at least three characters that the letters can spell (counting letters with repeats).
  - It ranks the words the same way.
- **The two pages' main threads**:
  - the queue of requests held until the worker reports `init`;
  - the in-flight guard of Word Hunt;
  - word-list loading (`split(/\r?\n/)`, `trim`, drop empties);
  - the result display and the previous/next navigation round the list;
  - the letter grid of Anagrams.
- **The site script**:
  - the Konami-code key matcher, which adds the rainbow class on a detection;
  - the ASCII box drawn around the content.
- **The predator–prey simulation**:
  - `randint`;
  - one generation step, with its inner loop over a coyote count that changes while the loop runs;
  - the latest-count lookups and the rows the page pushes.
- **The bike-share page's helpers**:
  - looking up a statistic row;
  - the hour labels and the net-flow text;
  - the time-of-day band and rate multiplier.
- **The statistics script's `categorize_time_of_day`**.
- **The transit-tap script's `get_rail_tap_history`**:
  - the rail-tap filtering;
  - the parsing of a route text such as `Red-SS-Clark/Lake` or `Orange_Roosevelt` into a line and a station;
  - the `KeyError` and missing-path cases, which give the empty list.

Code that changes state step by step is modelled as classes with `modifies` frames. This covers:

- the trie nodes;
- the board search with its `visited` matrix and path stack;
- the two workers;
- both page scripts;
- the key listener;
- the simulation's arrays.

Each such method is proved against a specification function: the trie against the set of words it holds, the search against a pure trace of the recursion, the pages against the messages they post. The remaining code is modelled with functions and lemmas.

Each file holds one module:

- `Wrappers`: `Option`.
- `Ranking`: the comparator and a stable sort.
- `Trie`.
- `WordGrid`: the pure specification of the board search.
- `WordhuntWorker`.
- `AnagramsWorker`.
- `WordList`: parsing the word list.
- `Pages`: index arithmetic and status texts that both pages share.
- `WordhuntPage`.
- `AnagramsPage`.
- `Base`: the site script.
- `Sim`.
- `Divvy`.
- `DivvyStats`.
- `CtaTaps`.

## Model

| member | source | states |
|---|---|---|
| Ranking.CompareIsTotalOrder | projects/wordhunt/js/wordhunt_worker.js:100-103 | The ranking comparator is zero exactly on equal words, antisymmetric and transitive, so it is a total order. |
| Ranking.PrecedesMeaning | projects/anagrams/js/anagrams_worker.js:86-89 | A word ranks before another exactly when it is longer, or has the same length and is ordinally smaller. |
| Ranking.LexCompare | projects/anagrams/js/anagrams_worker.js:88 | The three-way word comparison returns only -1, 0 or 1. |
| Ranking.SortByRankCorrect | projects/anagrams/js/anagrams_worker.js:86-89 | Sorting returns a permutation (same multiset) of its input, in ranking order. |
| Ranking.SortByRankElements | projects/wordhunt/js/wordhunt_worker.js:99-103 | Sorting keeps exactly the elements of its input. |
| Ranking.SortByRankStrict | projects/wordhunt/js/wordhunt_worker.js:99-104 | When no two elements share a word, every earlier word of the sorted output ranks strictly before every later one. |
| Trie.TrieNode.constructor | projects/wordhunt/js/wordhunt_worker.js:6-11 | A new node has no children and is not a word. |
| Trie.Trie.constructor | projects/wordhunt/js/wordhunt_worker.js:46-48 | A new trie is a lone root that holds no word. |
| Trie.Trie.Insert | projects/wordhunt/js/wordhunt_worker.js:13-22 | The trie afterwards holds exactly the old words plus `w`. The root is unchanged. Inserting a prefix of a stored word creates no node. |
| Trie.Trie.Descend | projects/wordhunt/js/wordhunt_worker.js:15-19 | One step follows the child for `w[i]`, creating it when missing, and reaches the node spelling `w[..i+1]`. Nothing is created when `w` already begins a stored word. |
| Trie.Trie.AddChild | projects/wordhunt/js/wordhunt_worker.js:16-18 | A fresh child hangs under the node for the spelling `s`, keyed by `c`, and is recorded under `s + [c]` while the invariant holds. |
| Trie.Trie.MarkWord | projects/wordhunt/js/wordhunt_worker.js:21 | Setting the terminal flag adds exactly `w` to the stored words. |
| Trie.Trie.IsPrefix | projects/wordhunt/js/wordhunt_worker.js:24-33 | The answer is true exactly when the string is empty or begins some stored word. |
| Trie.Trie.IsWord | projects/wordhunt/js/wordhunt_worker.js:35-44 | The answer is true exactly when the string is a stored word. |
| Trie.BuildTrie | projects/wordhunt/js/wordhunt_worker.js:46-52 | A fresh, well-formed trie holds exactly the set of words in the list. |
| Trie.WordIsPrefix | projects/anagrams/js/anagrams_worker.js:24-44 | A word the trie accepts is also a prefix it accepts. |
| WordGrid.AdjacentIffMove | projects/wordhunt/js/wordhunt_worker.js:66-72 | The eight moves reach exactly the cells that touch a cell horizontally, vertically or diagonally. |
| WordGrid.CellText | projects/wordhunt/js/wordhunt_worker.js:58-64 | On a board text of 16 characters or more, a cell holds the character at position 4·row+col; on a shorter text, a missing position gives "undefined". |
| WordGrid.CapNeverCuts | projects/wordhunt/js/wordhunt_worker.js:75-76 | The depth cap of 16 removes nothing. A call beyond it follows a 16-cell simple path, so every move from there is already visited. |
| WordGrid.BoardResultsSound | projects/wordhunt/js/wordhunt_worker.js:54-105 | Every result is a dictionary word of at least three characters, spelled by the board along a simple path. On a full board the path has one cell per letter. |
| WordGrid.BoardResultsComplete | projects/wordhunt/js/wordhunt_worker.js:74-97 | Every dictionary word of at least three characters spelled along some simple path is a key of the results, so trie pruning loses no word. |
| WordGrid.BoardResultsOrdered | projects/wordhunt/js/wordhunt_worker.js:99-104 | Each word appears once, and the results are in ranking order. |
| WordGrid.BoardResultsFirstPath | projects/wordhunt/js/wordhunt_worker.js:81-84 | Each word carries the path of its first completion in search order: row-major start cells, then the moves in their listed order. |
| WordGrid.BoardResultsEmptyDictionary | projects/wordhunt/js/wordhunt_worker.js:78 | An empty dictionary finds nothing on any board. |
| WordGrid.AddAllKeys | projects/wordhunt/js/wordhunt_worker.js:82-84 | The `found` map's keys are its old keys plus every word met. |
| WordGrid.AddAllFirst | projects/wordhunt/js/wordhunt_worker.js:82-84 | A later completion of a word never replaces the path stored for that word. |
| WordhuntWorker.BuildBoard | projects/wordhunt/js/wordhunt_worker.js:58-64 | The 4×4 array's cell (i, j) holds the cell text of board position 4i+j. |
| WordhuntWorker.BoardSearch.Recurse | projects/wordhunt/js/wordhunt_worker.js:74-91 | The call appends to `found` exactly the completions its specification trace lists, in order. It restores `visited` and the path stack. |
| WordhuntWorker.BoardSearch.Enter | projects/wordhunt/js/wordhunt_worker.js:79-90 | On an accepted cell: mark, push, record, make the eight calls, unmark and pop. `found` gains the trace of the cell. |
| WordhuntWorker.BoardSearch.Record | projects/wordhunt/js/wordhunt_worker.js:81-84 | A trie word of at least three characters is added with a copy of the path unless it is already a key; otherwise `found` is unchanged. |
| WordhuntWorker.BoardSearch.Explore | projects/wordhunt/js/wordhunt_worker.js:86-88 | The eight recursive calls add the completions met through the eight moves, in move order. |
| WordhuntWorker.FindWordsInBoard | projects/wordhunt/js/wordhunt_worker.js:54-105 | The imperative search returns exactly the specification's board results for the words the trie holds. |
| WordhuntWorker.Worker.OnMessage | projects/wordhunt/js/wordhunt_worker.js:107-123 | `init` replaces the list and builds a trie holding exactly those words, then replies success. `search` before `init` gives no words and "Trie not initialized". `search` after gives the board results with no error. Other messages change nothing. |
| AnagramsWorker.CountOccurrences | projects/anagrams/js/anagrams_worker.js:59-62 | The table maps every value of the sequence to its number of occurrences, and nothing else. |
| AnagramsWorker.CanMakeWord | projects/anagrams/js/anagrams_worker.js:64-76 | The answer is true exactly when no character of the word occurs in it more often than its one-character letter occurs among the letters. |
| AnagramsWorker.FindWordsFromLetters | projects/anagrams/js/anagrams_worker.js:54-92 | The loop over the word list returns exactly the specification's ranked result set. |
| AnagramsWorker.LetterResultsMembers | projects/anagrams/js/anagrams_worker.js:79-83 | A word is a result iff it is in the list, has at least three characters, fits in the letters and is a trie word. |
| AnagramsWorker.LetterResultsOrdered | projects/anagrams/js/anagrams_worker.js:56-89 | Each result appears once, even when the list repeats it, and the results are in ranking order. |
| AnagramsWorker.LetterResultsFit | projects/anagrams/js/anagrams_worker.js:70-74 | Each character of a result occurs among the letters at least as often as in the word. |
| AnagramsWorker.MissingLetterRejects | projects/anagrams/js/anagrams_worker.js:71 | A word containing a character absent from the letters is never a result. |
| AnagramsWorker.Worker.OnMessage | projects/anagrams/js/anagrams_worker.js:94-110 | `init` replaces the list and builds a trie holding exactly those words, then replies success. `search` before `init` gives no words and "Trie not initialized". `search` after gives the letter results. Other messages change nothing. |
| AnagramsWorker.WorkerResultsMembers | projects/anagrams/js/anagrams_worker.js:79-80 | With the trie built from the list itself, a result is exactly a listed word of at least three characters that fits in the letters. |
| WordList.TrimEnds | projects/wordhunt/js/index.js:336 | A trimmed string neither starts nor ends with a JavaScript white-space or line-terminator character. |
| WordList.TrimIdempotent | projects/anagrams/js/index.js:242 | Trimming twice is the same as trimming once. |
| WordList.TrimMembers | projects/wordhunt/js/index.js:336 | Trimming only removes characters, so every character kept occurs in the input. |
| WordList.SplitLinesCount | projects/wordhunt/js/index.js:335 | Splitting on the newline pattern gives one line more than the text has line feeds. |
| WordList.SplitLinesNoNewline | projects/anagrams/js/index.js:241 | No line holds a line feed. |
| WordList.ParseWordListWords | projects/wordhunt/js/index.js:335-336 | Every parsed word is non-empty, already trimmed and free of line feeds. |
| WordList.ParseWordListAppend | projects/anagrams/js/index.js:241-242 | The words of two texts joined by a line feed are the words of the first followed by the words of the second, so line order is kept. |
| WordList.ParseSingleLine | projects/wordhunt/js/index.js:335-336 | A text without line feeds gives its trimmed self, or nothing when that is empty. |
| WordList.KeepDropCarriageReturn | projects/wordhunt/js/index.js:335-336 | A CRLF line gives the same word as the LF one. |
| Pages.JsRem | projects/wordhunt/js/index.js:276 | The JavaScript remainder takes the sign of the dividend and is smaller in magnitude than the divisor. |
| Pages.NextIndex | projects/wordhunt/js/index.js:282 | For a valid index of a non-empty list, the next index is valid: one more, or 0 after the last. |
| Pages.PrevIndex | projects/anagrams/js/index.js:193 | For a valid index of a non-empty list, the previous index is valid: one less, or the last after 0. |
| Pages.PrevNextInverse | projects/anagrams/js/index.js:191-201 | Previous undoes next and next undoes previous. |
| Pages.AdvanceWraps | projects/wordhunt/js/index.js:280-284 | k ≤ n presses of next move k places round the list, wrapping once. |
| Pages.FullCycle | projects/anagrams/js/index.js:197-201 | n presses of next on a list of n words return to the starting word. |
| Pages.MapSeq | projects/wordhunt/js/index.js:45-48 | The queued requests become one message each, in queue order, for both pages' queues. |
| WordhuntPage.ShownPathCells | projects/wordhunt/js/index.js:268-271 | Showing a result lights exactly the cells of its path, as many as the path has cells. On a full board that is one cell per letter of the word. |
| WordhuntPage.Page.constructor | projects/wordhunt/js/index.js:1-35 | The page state as loaded: default board, nothing loaded or started, no worker, nothing queued or posted. |
| WordhuntPage.Page.SendBoardToWorker | projects/wordhunt/js/index.js:65-72 | Before the worker is ready the board joins the end of the queue. Once it is ready, one search is posted and marked in flight. Nothing else changes. |
| WordhuntPage.Page.FindWordsInBoard | projects/wordhunt/js/index.js:286-290 | Nothing is sent before the list is loaded or while a search is in flight. Otherwise the current board is queued or posted. |
| WordhuntPage.Page.DisplayWordAtIndex | projects/wordhunt/js/index.js:252-272 | With no words the page shows "No words found" and no highlights. An out-of-range index clears the highlights only. Otherwise it shows the word, "Showing word i+1 of n" and the path's cells. |
| WordhuntPage.Page.OnWorkerMessage | projects/wordhunt/js/index.js:40-62 | On `init` the worker is ready, and every queued board is posted in order, none dropped. On `search` the in-flight flag clears, and the reply's words, its count and its first word are shown; an error gives the empty list. |
| WordhuntPage.Page.DrainQueue | projects/wordhunt/js/index.js:43-46 | The queue empties, and the posted messages gain exactly one search per queued board, in order. |
| WordhuntPage.Page.ShowNextWord | projects/wordhunt/js/index.js:280-284 | With words, the index moves one place forward (wrapping) and that word is shown; with none, nothing changes. |
| WordhuntPage.Page.ShowPrevWord | projects/wordhunt/js/index.js:274-278 | With words, the index moves one place back (wrapping) and that word is shown; with none, nothing changes. |
| WordhuntPage.Page.ClearWordList | projects/wordhunt/js/index.js:292-299 | No words, index 0, nothing shown or highlighted; the rest of the state is unchanged. |
| WordhuntPage.Page.ResetBoard | projects/wordhunt/js/index.js:241-250 | The default board, an empty list, the reset status, and a search request for the board under the guard. |
| WordhuntPage.Page.ClearBoard | projects/wordhunt/js/index.js:230-239 | An all-'A' board, an empty list, the cleared status, and a search request for the board under the guard. |
| WordhuntPage.Page.LoadWordList | projects/wordhunt/js/index.js:327-351 | A first load keeps the parsed list and posts `init` with it, with the matching status. A failed fetch keeps an empty list and posts nothing. Later calls change nothing. |
| WordhuntPage.Page.InitWorker | projects/wordhunt/js/index.js:37-39 | The worker exists afterwards; nothing else changes. |
| WordhuntPage.Page.StartGame | projects/wordhunt/js/index.js:416-426 | The first call loads the list; when it gives words, it resets the board and queues the default board for the worker. If the list was already loaded, the list is kept and, when it has words, the board is reset. Later calls change nothing. |
| AnagramsPage.OrA | projects/anagrams/js/index.js:173 | The empty cell text falls back to "A"; any other text is kept. |
| AnagramsPage.CellText | projects/anagrams/js/index.js:88 | A cell shows its letter when that is present and non-empty, "A" otherwise; the result is never empty. |
| AnagramsPage.DefaultGrid | projects/anagrams/js/index.js:5 | With the default letters the grid shows P, A, I, N, T, S. |
| AnagramsPage.Page.constructor | projects/anagrams/js/index.js:1-32 | The page as loaded: six "A" cells, no letters, nothing loaded or started, nothing queued. |
| AnagramsPage.Page.SendLettersToWorker | projects/anagrams/js/index.js:67-73 | Before the worker is ready the letters join the end of the queue. Afterwards one search is posted. Nothing else changes. |
| AnagramsPage.Page.FindWordsFromLetters | projects/anagrams/js/index.js:218-222 | Once the list is loaded every call sends the current letters on; there is no in-flight guard. |
| AnagramsPage.Page.CreateLettersGrid | projects/anagrams/js/index.js:75-98 | Six cells, cell i showing the i-th letter or "A". |
| AnagramsPage.Page.UpdateLettersString | projects/anagrams/js/index.js:169-176 | The current letters become exactly the cells' texts, in order. |
| AnagramsPage.Page.DisplayWordAtIndex | projects/anagrams/js/index.js:178-189 | With no words the page shows "No words found". An out-of-range index changes nothing. Otherwise it shows the word and its place in the list. |
| AnagramsPage.Page.OnWorkerMessage | projects/anagrams/js/index.js:38-64 | On `init` the worker is ready and every queued letter list is posted in order. On `search` an error empties the list; success shows the words, their count and the first word. |
| AnagramsPage.Page.DrainQueue | projects/anagrams/js/index.js:43-46 | The queue empties, and the posted messages gain exactly one search per queued list, in order. |
| AnagramsPage.Page.ShowNextWord | projects/anagrams/js/index.js:197-201 | With words, the index moves one place forward (wrapping); with none, nothing changes. |
| AnagramsPage.Page.ShowPrevWord | projects/anagrams/js/index.js:191-195 | With words, the index moves one place back (wrapping); with none, nothing changes. |
| AnagramsPage.Page.ClearWordList | projects/anagrams/js/index.js:209-216 | No words, index 0, a zero count and nothing shown; the rest is unchanged. |
| AnagramsPage.Page.LoadWordList | projects/anagrams/js/index.js:233-256 | A first load keeps the parsed list and posts `init` with it. A failed fetch keeps an empty list. Later calls change nothing. |
| AnagramsPage.Page.InitWorker | projects/anagrams/js/index.js:35-37 | The worker exists afterwards; nothing else changes. |
| AnagramsPage.Page.StartGame | projects/anagrams/js/index.js:317-338 | The first call loads the list, falls back to the default letters only when there are none, rebuilds the grid and requests the letters' words. If the list was already loaded, the list is kept and the request is queued or posted, depending on whether the worker is ready. Later calls change nothing. |
| Base.Step | js/base.js:269-278 | The next position is below 10. A detection happens exactly at position 9 on the last code key, and resets to 0. A mismatch resets to 0; a match short of the end advances by one. |
| Base.Run | js/base.js:6 | The matcher position after any key sequence is below the code length. |
| Base.RunSuffix | js/base.js:266-279 | The position counts the last keys seen, and those keys are the start of the code. |
| Base.FiresMeansCode | js/base.js:272-274 | A detection means the last ten keys were exactly the code. |
| Base.CodeFires | js/base.js:54-60 | From position 0, typing the code detects exactly once and returns the position to 0. |
| Base.FeedPrefix | js/base.js:269-271 | From position 0, the first i < 10 code keys advance the position to i without a detection. |
| Base.StaysReset | js/base.js:276-278 | At position 0, keys other than `ArrowUp` keep the position at 0 and detect nothing. |
| Base.ExtraFirstKeyMisses | js/base.js:269-278 | The matcher does not back up: `ArrowUp` followed by the code ends with the code but detects nothing. |
| Base.ThreeUps | js/base.js:55-56 | Three `ArrowUp`s leave the position at 0. |
| Base.KonamiListener.constructor | js/base.js:6 | The position starts at 0, with no keys seen and no rainbow class. |
| Base.KonamiListener.OnKeyDown | js/base.js:242-245 | The keys seen gain the key, and the position stays the specification's run. The rainbow class is set from then on exactly when this or an earlier key completed the code. |
| Base.Repeat | js/base.js:160 | The repeated text has length n and consists of the character only. |
| Base.DrawAsciiBox | js/base.js:156-167 | A negative width count throws, giving nothing. Otherwise the text is the border, one row per side count (none when that is not positive) and the border, each line followed by a line feed. |
| Base.BoxShape | js/base.js:160-166 | The box has max(k, 0)+2 lines: the same border first and last, `\|`-spaces-`\|` rows between, every line n+2 characters wide. |
| Base.JoinSplit | js/base.js:160-166 | Lines without line feeds, each followed by one, split back into the same lines plus an empty last one. |
| Base.BoxText | js/base.js:156-167 | The box text splits into exactly its lines. |
| Sim.Randint | sim/js/sim.js:12-16 | With ordered bounds the draw lies between them, both inclusive. |
| Sim.RandintReversed | sim/js/sim.js:12-16 | With the bounds reversed the draw lies above the upper bound and at most the lower one. |
| Sim.CeilSixteenth | sim/js/sim.js:55 | The result is the smallest q with 16q ≥ mice. |
| Sim.DrawRange | sim/js/sim.js:55-58 | With at least two mice the draw lies in [0, ceil(mice/16)]. With fewer, the draw always leaves at most one mouse, so the turn is skipped. |
| Sim.Turn | sim/js/sim.js:55-73 | If a turn would leave at most one mouse, nothing changes. Otherwise the mice drop by the draw. A hungry coyote starves unless it is the last one. A well-fed coyote adds its pups. |
| Sim.Pups | sim/js/sim.js:67-73 | No pups below the reproduction threshold. Otherwise at most the pup limit and at most the floored quotient, and the quotient itself when below the limit, so exactly the quotient capped at the limit. |
| Sim.TurnProgress | sim/js/sim.js:54-73 | With a need of zero or more, a turn either eats a mouse or does not grow the pack. |
| Sim.EndlessHunt | sim/js/sim.js:54-73 | With a need of -10, one mouse per pup, a limit of ten and every draw 0, two mice stay two and each pass adds ten coyotes. The loop bound then stays ahead of `j` for ever. |
| Sim.TurnKeepsCoyotes | sim/js/sim.js:61-66 | A turn never removes the last coyote and removes at most one. |
| Sim.HuntKeepsCoyotes | sim/js/sim.js:54-74 | Starting with at least one coyote, the hunt ends with at least one. |
| Sim.HuntKeepsMice | sim/js/sim.js:56-59 | With at least two mice, the hunt leaves at least two and never more than it started with. |
| Sim.GenerationsNumbered | sim/js/sim.js:53-79 | One row per generation, numbered consecutively after the last row. The first row holds the hunt's surviving mice times the multiplier and the pack after the hunt, and the later rows are the generations from that row. |
| Sim.GenerationsKeepCoyotes | sim/js/sim.js:53-79 | Starting with at least one coyote, no row has fewer than one. |
| Sim.LatestMice | sim/js/sim.js:32-44 | With no rows, the starting value. Otherwise the last row's mice when positive, and nothing exactly when they are not. |
| Sim.LatestCoyotes | sim/js/sim.js:18-30 | With no rows, the starting value. Otherwise the last row's coyotes when positive, and nothing exactly when they are not. |
| Sim.OrStarting | sim/js/sim.js:47-48 | A missing or zero count falls back to the starting value; any other count is kept. |
| Sim.HuntLoop | sim/js/sim.js:54-74 | The imperative loop, whose bound moves, returns the counts of the specification's hunt. |
| Sim.Simulation.SimulateGenerations | sim/js/sim.js:46-83 | The rows gain exactly the specification's generations from the latest counts. The generation numbers gain the new rows' numbers, in order. |
| DivvyStats.CategorizeTimeOfDay | scripts/fetch_divvy_stats.py:164-172 | The band is one of the four, and each band is chosen exactly for its hour range: 5–11, 12–16, 17–20, otherwise night. |
| DivvyStats.BandsDistinct | scripts/fetch_divvy_stats.py:164-172 | The four band names are pairwise different. |
| Divvy.GetStatItemByKeyValue | projects/divvy/js/index.js:16-25 | An absent statistic gives nothing. Otherwise the result is the first element whose field equals the value, and nothing exactly when none does. |
| Divvy.NatText | projects/divvy/js/index.js:182 | Decimal text is non-empty digits without a leading zero. |
| Divvy.NatTextValue | projects/divvy/js/index.js:160 | Reading the decimal text back gives the number. |
| Divvy.HourLabel | projects/divvy/js/index.js:180-182 | Each hour of the day is labelled by its twelve-hour clock hour followed by A before noon, P from noon. |
| Divvy.HourLabelInjective | projects/divvy/js/index.js:180-182 | Different hours of the day get different labels. |
| Divvy.FlowText | projects/divvy/js/index.js:160 | A positive flow gets a `+` before its number; any other flow is its plain number. |
| Divvy.FlowTextValue | projects/divvy/js/index.js:160 | The text starts with `+` exactly for positive flows and `-` exactly for negative ones, and reads back as the flow. |
| Divvy.CurrentTimeOfDay | projects/divvy/js/index.js:622-628 | The band is one of the four names. |
| Divvy.SameBands | projects/divvy/js/index.js:622-628 | The page's bands agree with the statistics script's bands hour for hour. |
| Divvy.RateMultiplier | projects/divvy/js/index.js:631-634 | The multiplier is the band's rate when present and non-zero, 1 otherwise, and never 0. |
| Divvy.RateFollowsBand | projects/divvy/js/index.js:631-634 | The multiplier is the rate of the band the script assigns to that hour. |
| CtaTaps.Split1 | scripts/fetch_last_cta_tap.py:229 | The split gives two parts exactly when the separator occurs; the parts rejoin to the text, and the first holds no separator. |
| CtaTaps.ReplaceChar | scripts/fetch_last_cta_tap.py:232 | Every `_` becomes a space, position by position. |
| CtaTaps.RemoveAll | scripts/fetch_last_cta_tap.py:242 | Deleting `SS-` never lengthens the text. |
| CtaTaps.RemoveAbsent | scripts/fetch_last_cta_tap.py:242 | A text without `SS-` is left as it is. |
| CtaTaps.RemoveOnePass | scripts/fetch_last_cta_tap.py:242 | The single pass can leave `SS-` behind (`SSSS--` gives `SS-`). |
| CtaTaps.ParseRoute | scripts/fetch_last_cta_tap.py:227-246 | With `_` and no `-`, split at the first `_` and space the station. Otherwise, with `-`, split at the first `-`, space the station and drop `SS-`. With neither, give "Unknown" and the whole route. |
| CtaTaps.RouteLine | scripts/fetch_last_cta_tap.py:229-240 | The line is the text before the first separator, and the route is the line, the separator and the raw station. |
| CtaTaps.GetRailTapHistory | scripts/fetch_last_cta_tap.py:209-261 | A missing data path gives the empty list; otherwise the result is the specification's scan, or the empty list when a transaction raises. |
| CtaTaps.RailTransactions | scripts/fetch_last_cta_tap.py:216-220 | A transaction is kept exactly when it is a rail use or transfer. |
| CtaTaps.ScanFails | scripts/fetch_last_cta_tap.py:216-222 | The scan fails exactly when some transaction raises a `KeyError`. |
| CtaTaps.ScanEntries | scripts/fetch_last_cta_tap.py:248-255 | Without a failure there is one entry per rail tap, in order, with the parsed line and station, the formatted date and the route text. |
| CtaTaps.NoRailTaps | scripts/fetch_last_cta_tap.py:216-220 | Transactions that are not rail taps give no entries. |

## Left out

- The DOM, CSS classes other than the rainbow flag, timers, cell editing by keyboard or touch, and `console` logging are not modelled. The pages' state is modelled as explicit fields: shown word, highlighted cells, status, grid texts.
- The worker and the page run concurrently and talk through `postMessage`, and `await` can interleave. The model treats each handler as one atomic call and records posted messages in a sequence.
- `fetch` is an input: the text of the word list, or nothing when the request fails.
- `Math.random` is an input: a function from the draw number to a value in [0, 1).
- `new Date().getHours()` is an input: the hour.
- `localeCompare` is modelled as ordinal character comparison. Its locale collation order is not modelled.
- String lengths count characters (code points), not UTF-16 code units.
- A JavaScript `Map` or `Set` is modelled as an insertion-ordered sequence of distinct keys.
- `localStorage`, the charts, `drawImage` and the page's canvas are not modelled.
- `getCharacterDimensions` and `Math.round` are not modelled. `DrawAsciiBox` takes the two integer character counts directly.
- Sim.Params.Sane: the page reads its inputs with `Number` and checks none of them; the model assumes a need of zero or more and at least one surplus mouse per pup. A negative need can make the inner loop endless (see Findings), so `Hunt` cannot be a terminating function there. A share of zero or less divides by zero, or by a negative number, where `Math.floor` and Dafny's division disagree. Fractional and `NaN` inputs are not modelled, and counts are integers.
- Sim.TurnKeepsCoyotes, Sim.HuntKeepsCoyotes, Sim.GenerationsKeepCoyotes: stated only for a non-negative pup limit. A negative limit subtracts coyotes and can empty the pack.
- `format_date` of the transit script is a parameter, as is `print`.
- Transaction values are strings; values of other JSON types are not modelled. The network, login and file writing of both Python scripts are not modelled.
- Divvy: statistic values are strings or integers, and rates are reals without `NaN`. A missing `divvyStats.stats` raises a `TypeError`, which is not modelled. The float formatting of the page's other numbers is not modelled.
- The trie functions duplicated in `projects/wordhunt/js/index.js` are not called by the search and are not modelled. The worker's copies are.
- WordhuntPage.Page.OnWorkerMessage: after an error reply, `displayWordAtIndex` overwrites the error status with "No words found". The model states the final status.
- The battle-royale project and the language-statistics script are not part of this model.

## Findings

| source | as written | input that shows it | evidently intended | confidence | as-written member | corrected member |
|---|---|---|---|---|---|---|
| sim/js/sim.js:49, 54-73 | The inner loop `j < coyote_count` trusts the "mice to live" input, and with a negative need a coyote that catches nothing still has a surplus and breeds. | need -10, one mouse per pup, at most ten pups, two mice, every `Math.random()` below 0.5: each pass adds ten coyotes and `j` never reaches the bound | a need of zero or more, under which each pass eats a mouse or does not grow the pack, so the loop ends | not executed; medium (it needs a negative input, which the page accepts) | Sim.EndlessHunt | Sim.TurnProgress |
