# Jeopardy board: a Dafny model

This project models the game logic of a small browser trivia game (`jeopardy.js`).
The page keeps a list `categories`; each category has a title and a list of clues, and
each clue has a question, an answer and a `showing` field. The game

- builds a table: a header cell per category holding its title, and
  `NUM_QUESTIONS_PER_CAT` (5) rows of `NUM_CATEGORIES` (6) cells, each with the id
  `"<catIndex>-<clueIndex>"` and the text `"?"` (`fillTable`);
- on a click, splits the clicked cell's id on `"-"`, advances that clue's reveal state
  (hidden, then question, then answer) and writes the question or answer into the cell;
  a click on a clue whose answer already shows is ignored (`handleClick`);
- on start and restart, empties `categories` and pushes one category per sampled id,
  each with its title and its sampled clues set to hidden, then redraws the table
  (`getCategory`, `setupAndStart`).

Modules:

- `Wrappers` (`wrappers.dfy`): `Option`, standing for JavaScript's `undefined`.
- `CellIds` (`cell_ids.dfy`): decimal rendering of an index, `String.prototype.split`
  with `Join` as its left inverse, array lookup by a string key, and the cell id encode/decode
  pair with its round trip.
- `Clues` (`clues.dfy`): the clue and category values, the reveal transition `Reveal`
  with iterated clicks, and the mapping of raw service clues done by `getCategory`.
- `Board` (`board.dfy`): the table body as rows of cells (id and text), and writing
  a text into the cell with a given id.
- `Jeopardy` (`jeopardy.dfy`): the class `Game` holding `categories`, the header and
  the body, with `FillTable`, `Click`, `HandleClick` and `SetupAndStart`, and the
  pure specification `Assemble` of a rebuilt category list.

The trivia service and the random sampling are inputs: `SetupAndStart` receives the
already-sampled category ids, the service's answers as a map from id to category (an
id missing from the map is a request the service rejects) and, for each id, the clues
the random sample picked, which are a sub-multiset of the clues in that id's response.

The table state agrees with the categories (`Jeopardy.Agrees`, `Game.Ready`): every
clue cell shows `"?"`, the question or the answer according to its clue's reveal state.
A successful start establishes this when every shown category has at least five clues,
and every click keeps it.

Two behaviours of the code that are easy to miss:

- `categories` is not always empty or six long. A rejected category request ends
  `setupAndStart` after `categories = []`, so the list holds the categories pushed
  before the failure. The old table stays in the page and `fillTable` is not run.
  `Game.SetupAndStart` states exactly this.
- The code never checks how many ids or clues `_.sampleSize` returns. The model
  therefore requires at least six ids, because `fillTable` reads six titles. It
  promises that the board agrees with the categories only when each of the first six
  categories has at least five clues. With fewer clues the code still draws 30 "?"
  cells.

## Model

The functions that transcribe the code directly (`CellIds.CellId` for the id template
at jeopardy.js:90, `CellIds.Split` and `CellIds.Decode` for the split and lookups at
jeopardy.js:106-107, `Board.UpdateCell` for the cell write at jeopardy.js:122,
`Jeopardy.Assemble` for the rebuild loop at jeopardy.js:139-143) have no rows of their
own. The table lists the lemmas and contracts that state what they do.

| member | source | states |
|---|---|---|
| `CellIds.NatToString` | Assesment2Jeopardy/section-1/jeopardy/jeopardy.js:90 | an index renders as canonical decimal digits (no leading zero) and never contains the separator "-" |
| `CellIds.ParseIndexIff` | Assesment2Jeopardy/section-1/jeopardy/jeopardy.js:106-107 | a string key picks array element n exactly when it is the decimal rendering of n |
| `CellIds.SplitJoin` | Assesment2Jeopardy/section-1/jeopardy/jeopardy.js:106 | joining the pieces of `split` with the separator gives back the string, and no piece contains the separator |
| `CellIds.SplitCellId` | Assesment2Jeopardy/section-1/jeopardy/jeopardy.js:90-106 | splitting a cell id on "-" gives exactly the two rendered indices |
| `CellIds.DecodeCellId` | Assesment2Jeopardy/section-1/jeopardy/jeopardy.js:90-107 | splitting the id built as catIndex-clueIndex and looking up the pieces gives back (catIndex, clueIndex) |
| `CellIds.CellIdInjective` | Assesment2Jeopardy/section-1/jeopardy/jeopardy.js:90 | two cells have the same id if and only if they have the same category and clue index |
| `CellIds.DecodeSound` | Assesment2Jeopardy/section-1/jeopardy/jeopardy.js:106-107 | an id that decodes to (c, r) has the renderings of c and r as its first two pieces, and is the cell id of (c, r) when it has exactly two pieces |
| `Clues.Reveal` | Assesment2Jeopardy/section-1/jeopardy/jeopardy.js:111-119 | a click on a hidden clue or one showing its question moves it one step forward and writes the new face (question, answer); a click on an answered clue is ignored and changes nothing; question and answer never change |
| `Clues.AnswerIsFinal` | Assesment2Jeopardy/section-1/jeopardy/jeopardy.js:99-101 | once the answer shows, any number of further clicks leaves the clue unchanged and writes nothing |
| `Clues.ClicksMonotone` | Assesment2Jeopardy/section-1/jeopardy/jeopardy.js:111-116 | clicks never move a clue back to an earlier state and never alter its question or answer |
| `Clues.HiddenClueClicks` | Assesment2Jeopardy/section-1/jeopardy/jeopardy.js:111-119 | from a hidden clue, n clicks write the question, then the answer, then nothing, and from the second click on the answer shows |
| `Clues.FreshClues` | Assesment2Jeopardy/section-1/jeopardy/jeopardy.js:56-60 | the mapped clues are one per raw clue, in order, with the same question and answer and showing hidden |
| `Clues.GetCategory` | Assesment2Jeopardy/section-1/jeopardy/jeopardy.js:51-63 | the category keeps the response's title, has one clue per picked clue, and every clue is hidden |
| `Clues.GetCategoryKeepsClues` | Assesment2Jeopardy/section-1/jeopardy/jeopardy.js:56-62 | forgetting the reveal state of the category's clues gives back exactly the picked clues |
| `Board.LaidIdsDistinct` | Assesment2Jeopardy/section-1/jeopardy/jeopardy.js:87-93 | all body cells have distinct ids, and each cell's id decodes to its own (category, clue) position |
| `Board.UpdateCellAt` | Assesment2Jeopardy/section-1/jeopardy/jeopardy.js:122 | writing to the id of cell (c, r) changes that cell's text and no other cell's text or id |
| `Jeopardy.SetClue` | Assesment2Jeopardy/section-1/jeopardy/jeopardy.js:107-116 | replacing one clue keeps every title, every list length and every other clue |
| `Jeopardy.FirstMissing` | Assesment2Jeopardy/section-1/jeopardy/jeopardy.js:141-142 | the loop stops at the first id the service rejects: all ids before it are served and that one is not |
| `Jeopardy.AssembleSpec` | Assesment2Jeopardy/section-1/jeopardy/jeopardy.js:139-143 | the rebuilt list has one category per id, in id order, the i-th being `getCategory` of the i-th id's response |
| `Jeopardy.RestartDiscardsProgress` | Assesment2Jeopardy/section-1/jeopardy/jeopardy.js:139-143 | after a rebuild each category has its id's title and picked clues, and every clue is hidden, whatever was revealed before |
| `Jeopardy.FreshTableAgrees` | Assesment2Jeopardy/section-1/jeopardy/jeopardy.js:80-93 | a freshly drawn table (titles, ids, all "?") agrees with categories whose clues are all hidden |
| `Jeopardy.RebuiltTableAgrees` | Assesment2Jeopardy/section-1/jeopardy/jeopardy.js:139-145 | after a rebuild in which every request is served and a fresh `fillTable`, the table agrees with the categories when each of the first six has at least five clues |
| `Jeopardy.ClickKeepsAgreement` | Assesment2Jeopardy/section-1/jeopardy/jeopardy.js:111-122 | after a click, every cell still shows its clue's face: the clicked cell its new face, the others as before |
| `Jeopardy.Game.constructor` | Assesment2Jeopardy/section-1/jeopardy/jeopardy.js:25 | the page starts with no categories and an empty table |
| `Jeopardy.Game.FillTable` | Assesment2Jeopardy/section-1/jeopardy/jeopardy.js:76-94 | the header holds the first six categories' titles in order; the body has 5 rows of 6 cells, cell (c, r) with id "c-r" and text "?"; categories are untouched |
| `Jeopardy.Game.Click` | Assesment2Jeopardy/section-1/jeopardy/jeopardy.js:104-123 | the message is the reveal transition's; only the addressed clue changes; the addressed cell gets the message and nothing else changes; a drawn board stays in agreement with the categories |
| `Jeopardy.Game.HandleClick` | Assesment2Jeopardy/section-1/jeopardy/jeopardy.js:104-107 | a click on an element whose id decodes to the indices of an existing clue acts on that clue; any other id (such as "", or indices past the lists) throws a `TypeError` and changes nothing |
| `Jeopardy.Game.SetupAndStart` | Assesment2Jeopardy/section-1/jeopardy/jeopardy.js:134-148 | categories become the list built from the ids up to the first rejected request; the run succeeds exactly when none is rejected, and then the table is redrawn (six titles, 5 rows of 6 "?" cells) and, when each of the first six categories has at least five clues, agrees with the categories; otherwise the old table stays |

## Left out

- `getCategoryIds` (jeopardy.js:33-37): a request to the trivia service followed by a random sample. Its result is the `catIds` input of `SetupAndStart`. A failure of that request happens before `categories` is emptied, so it changes nothing.
- The HTTP requests of `getCategory` and the `BASE_API_URL` strings. The service's answers are a map from category id to response, and a missing id stands for a rejected request.
- `_.sampleSize` (jeopardy.js:36, 55): random and from a library. The picked clues are an input, required only to be drawn from that category's clues without replacement. The model does not assume that there are exactly five or six of them.
- Spinner and table visibility (`.toggle()`, jeopardy.js:26, 135-136, 146-147) are not modelled. Each `.toggle()` flips visibility: lines 135-136 run at the start of every run and lines 146-147 only when the run succeeds. A rejected run therefore leaves the table hidden only when the run before it succeeded. After two rejected runs in a row the stale table shows again, and a click on it is `Click` (through `HandleClick`) on the partly rebuilt `categories`: it writes the new clue's text into the old cell, or throws a `TypeError` for a category index past the last one pushed. The model records that the table is left as it was and does not track whether it is visible.
- Event wiring (jeopardy.js:152-160) and the asynchronous ordering of awaited calls. This includes clicks arriving while `setupAndStart` is still running and two overlapping runs. Each modelled operation runs to completion.
- jQuery and the DOM: the table is a header list and a body of rows of (id, text) cells. Writing a cell with `.html` puts the text there as-is. The model does not interpret HTML markup inside a question or answer.
- Answers that the service sends as numbers are modelled as strings.
- Clicks whose id does not address a clue crash the code with a `TypeError` before anything changes. Such an id can be "" (an element inside a cell that holds written markup) or have indices past the lists. `HandleClick` models this: it reports `thrown` and changes nothing. `Click`, which takes the indices directly, requires them in range. A board with fewer than six categories also crashes `fillTable`; that case is a precondition of `FillTable` and `SetupAndStart`.
- The thrown `TypeError` itself propagates to the browser's event loop, which is not modelled; `HandleClick` only reports that it was thrown.
- Keys are parsed without JavaScript's upper bound on array indices (2^32 - 2). The lists here are far shorter than that.
