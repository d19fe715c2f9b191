# Readlify book library — verified model of the book collection

The page keeps its books in one in-memory list, `books`, and a saved copy in
`localStorage`. This model covers the parts of `js/script.js` that read or change that list:

- the multi-title save handler;
- deleting a book;
- the newest-first render;
- the search box;
- the category list built from tags;
- the category filter.

The project has four modules:

- `Text` models the JavaScript string operations the handlers use: `trim`,
  `split(',')`, `toLowerCase` (ASCII letters only) and `includes`.
  - `Split` and `Join` are proved to be inverses.
  - `Includes` is proved equal to "occurs at some position".
- `Seqs` holds a generic `Array.prototype.filter` and its facts: membership,
  multiplicity, order, and the all-pass and congruence cases.
- `Books` holds the book record and the pure operations:
  - deleting by id;
  - the stable newest-first sort;
  - the search test;
  - the category list (a de-duplicated, first-occurrence list of non-blank tags);
  - the category filter.
- `Library` holds the save form and the batch of books it produces. Its class
  `BookStore` has two fields: `books`, the in-memory list, and `stored`, the
  saved list. Its methods are the save, delete, render and search handlers.
  The invariant `Valid()` says that ids are unique and that `stored` holds
  the same books as `books`.
  - The handlers `OnSave`, `DeleteBook` and `Render` keep `Valid()`.
    `OnSearch` changes nothing.
  - `SaveBatch` and `Persist` are inner steps of `OnSave`. `SaveBatch` grows
    `books` and leaves `stored` behind, so it breaks the multiset half of
    `Valid()`; it keeps ids unique. `Persist` then restores `Valid()`.

Ids come from `Date.now() + Math.random()`, and `createdAt` from the clock.
Here both are supplied by the caller, one per new book:

- ids are integers, pairwise distinct and unused by the store;
- timestamps are opaque strings.

The save handler creates one book for every comma-separated title piece. That
includes empty pieces after the first, as in `"Dune,,Emma"`. Only an empty
first piece refuses the save. The model follows the code here, not a reading
of "one book per non-empty title".

## Model

| member | source | states |
|---|---|---|
| Text.Trim | js/script.js:66-70 | `trim` never lengthens its input |
| Text.TrimKeeps | js/script.js:80-81 | `trim` only removes characters: every character of the result occurs in the input |
| Text.TrimShape | js/script.js:66-70 | `trim` removes only whitespace, and only at the two ends; a non-empty result neither starts nor ends with whitespace |
| Text.TrimEmptyIff | js/script.js:192 | `trim` gives the empty string exactly when the input is all whitespace |
| Text.TrimIdempotent | js/script.js:192 | trimming a tags value already trimmed on save (line 69) changes nothing |
| Text.Split | js/script.js:66-67 | `split(',')` yields one more piece than there are commas, and no piece contains a comma |
| Text.JoinSplit | js/script.js:66-67 | joining the split pieces with ',' gives back the input |
| Text.SplitJoin | js/script.js:66-67 | splitting a join of comma-free pieces gives back the pieces |
| Text.FirstPieceEmptyIff | js/script.js:72 | the first piece is empty exactly when the input is empty or starts with ',' |
| Text.FirstPieceIsPrefix | js/script.js:66 | the first piece is the start of the input |
| Text.Lower | js/script.js:150 | `toLowerCase` keeps the length and lowercases each ASCII capital |
| Text.LowerIdempotent | js/script.js:150-152 | lowercasing twice is lowercasing once, and no ASCII capital is left |
| Text.Includes | js/script.js:152-154 | `includes` can hold only when the query is no longer than the string |
| Text.IncludesIff | js/script.js:152-154 | `includes` holds exactly when the query occurs at some position |
| Text.IncludesEmpty | js/script.js:152 | every string includes the empty query |
| Seqs.Filter | js/script.js:126 | `filter` keeps exactly the elements that pass, and the result is no longer than the input |
| Seqs.FilterCounts | js/script.js:126 | an element that passes occurs in the result as often as in the input |
| Seqs.FilterIsSubsequence | js/script.js:126 | `filter` keeps the input order |
| Seqs.FilterAll | js/script.js:126 | when every element passes, `filter` returns the input |
| Seqs.FilterCongruent | js/script.js:151-155 | two tests that agree on every element select the same result |
| Seqs.SubsequenceDistinctBy | js/script.js:126 | dropping elements cannot create a repeated key |
| Seqs.SubsequenceMembers | js/script.js:126 | dropping elements keeps every remaining element a member of the original |
| Books.AppendFreshUnique | js/script.js:77-89 | pushing a book whose id is unused keeps ids unique |
| Books.WithoutId | js/script.js:126 | after the delete filter no book has the id, and every other book is kept |
| Books.WithoutIdCounts | js/script.js:126 | every other book occurs as often as before |
| Books.WithoutIdKeepsOrder | js/script.js:126 | the remaining books keep their order |
| Books.WithoutAbsentId | js/script.js:126 | deleting an id nobody has changes nothing |
| Books.WithoutIdUnique | js/script.js:126 | deleting keeps ids unique |
| Books.InsertByIdDesc | js/script.js:145 | inserting one book into the sorted list adds exactly that book (multiset) |
| Books.InsertKeepsSorted | js/script.js:145 | inserting into a newest-first list keeps it newest first |
| Books.SortByIdDesc | js/script.js:145 | `sort((a, b) => b.id - a.id)` orders by id descending and is a permutation of the input |
| Books.SortHasId | js/script.js:145 | sorting neither adds nor loses an id |
| Books.InsertWithId | js/script.js:145 | insertion keeps the relative order of books sharing an id |
| Books.SortStable | js/script.js:145 | the sort is stable: books with equal ids keep their relative order |
| Books.InsertUnique | js/script.js:145 | insertion keeps ids unique when the new id is fresh |
| Books.SortUnique | js/script.js:145 | sorting keeps ids unique |
| Books.Prepended | js/script.js:112 | `forEach(addBookCard)` with `board.prepend`: the board holds exactly the cards handed over, each once |
| Books.PrependedReverses | js/script.js:112 | prepending each card in turn puts the cards on the board in reverse order |
| Books.PrependedShowsOldestFirst | js/script.js:145 | cards handed over newest first are shown with ids increasing |
| Books.PrependedBoardExample | js/script.js:145 | with ids 1 and 2, the sort gives [2, 1] and the top card is id 1 |
| Books.Matches | js/script.js:151-155 | the empty query matches every book, and a match needs a title, author or tags value at least as long as the query |
| Books.Search | js/script.js:151-155 | the result holds exactly the store's books that match the lowercased query in title, non-empty author or non-empty tags |
| Books.SearchKeepsOrder | js/script.js:151-155 | search results keep the store order |
| Books.SearchEmptyQuery | js/script.js:150-155 | the empty query returns the whole store |
| Books.SearchIgnoresCase | js/script.js:150-155 | a query and its lowercase form give the same result |
| Books.IsBlankIff | js/script.js:192 | blank tags are exactly those failing `tag && tag.trim() !== ''` |
| Books.Categories | js/script.js:191-193 | the category list has no duplicates |
| Books.CategoriesMembers | js/script.js:191-193 | every category is some book's non-blank tags value, and every non-blank tags value is a category |
| Books.CategoriesPrefix | js/script.js:192 | the categories of a prefix of the store are a prefix of its categories |
| Books.CategoriesFirstOccurrence | js/script.js:192 | categories are listed in order of first occurrence in the store |
| Books.ByCategory | js/script.js:217 | the filter keeps exactly the books whose tags equal the category |
| Books.ByCategoryKeepsOrder | js/script.js:217 | the category filter keeps the store order |
| Books.CategoryNotEmpty | js/script.js:217-219 | for the store the category list was built from, every listed category shows at least one book |
| Library.Titles | js/script.js:66 | there is always at least one title piece |
| Library.Authors | js/script.js:67 | there is always at least one author piece |
| Library.AuthorAt | js/script.js:81 | the author given to a book never contains a comma |
| Library.Accepted | js/script.js:72 | an accepted save has a non-empty trimmed title input |
| Library.NewBook | js/script.js:78-87 | a new book's title and author contain no comma, and the first book of an accepted save has a non-empty title |
| Library.AcceptedIff | js/script.js:66-75 | the save is refused exactly when the trimmed title input is empty or starts with ',' |
| Library.FirstTitleNotEmpty | js/script.js:72-80 | in an accepted save, the first book's title is not empty |
| Library.BatchPrefix | js/script.js:77-89 | the first n books of the batch are the books for title pieces 0..n-1, in order |
| Library.Batch | js/script.js:77-89 | one book per title piece, in order; book i carries id i and trimmed title piece i |
| Library.BatchFields | js/script.js:81-86 | book i gets author piece i trimmed (empty when missing); status, trimmed tags, trimmed notes and image come from the form; `createdAt` is timestamp i |
| Library.BatchPrefixFresh | js/script.js:77-89 | the id given to title piece i is used neither by earlier books nor by earlier pieces |
| Library.BookStore.Load | js/script.js:21 | the store starts with the saved list, in memory and saved alike |
| Library.BookStore.Persist | js/script.js:133-135 | the saved copy becomes the in-memory list, which restores the invariant when ids are unique |
| Library.BookStore.SaveBatch | js/script.js:65-89 | a refused save changes nothing; an accepted save appends the batch after the old books; ids stay unique |
| Library.BookStore.Render | js/script.js:138-146 | the store is sorted in place newest first and shown in that order; the saved copy is untouched and the invariant holds |
| Library.BookStore.OnSave | js/script.js:65-92 | a refused save changes nothing; an accepted save persists old books plus the batch, and memory is that list sorted newest first |
| Library.BookStore.DeleteBook | js/script.js:124-130 | the saved copy is the store without the id, memory is that sorted newest first, and no book with the id is left |
| Library.BookStore.OnSearch | js/script.js:149-157 | the books shown are the search result under the stable newest-first sort: exactly the matching books, as often as they match, newest first; the store is not changed |

## Left out

- Cards, the board element, the empty-state message, the modal, the ESC key,
  the loader, the theme toggle and the year in the footer are page
  presentation. The board's order is modelled only through `Books.Prepended`.
- Image upload through `FileReader` is left out. The image is a field of the
  save form: whatever `uploadedImage` holds, or empty.
- `localStorage` and JSON encoding are left out. `stored` holds the list that
  `saveToLocalStorage` would write, assuming encoding then decoding is the
  identity.
- `confirm` and `alert`: `DeleteBook` is the confirmed branch, and a cancelled
  delete does nothing. The save's alert is the refused result.
- `Date.now() + Math.random()` and `new Date().toISOString()` are supplied by
  the caller.
  - Ids are integers here, while the page uses fractional numbers.
  - The page's uniqueness is probabilistic. Here it is a precondition.
- `deleteBook(${book.id})` prints the id into HTML and parses it again.
  ECMAScript's number-to-string conversion makes that round trip exact, so
  the model passes the id through unchanged.
- `clearModal` and `closeModal` after a save only reset the form, and are left out.
- Text.Lower: `toLowerCase` is modelled for ASCII capitals only. Other Unicode
  case mappings are not modelled.
- Books.SortByIdDesc: the engine's sort is modelled as a stable insertion
  sort. ECMAScript requires `Array.prototype.sort` to be stable, so only the
  algorithm differs.
- Library.BookStore.Load requires unique ids in the saved list. The page does
  not check this. It holds for lists the page itself saved, given distinct
  ids.
- The category list is built once, when the categories link is clicked.
  Deleting from the category board (js/script.js:235) can remove the last
  book of a category, and the list is not rebuilt. Clicking that category
  then shows "No books in this category.". Books.CategoryNotEmpty speaks only
  of the store the list was built from; the stale list is not modelled.
- The search results and the category board are not modelled as cards.
  - Search results go through the same prepending render.
  - The category board appends its cards in store order.
- Library.BookStore.OnSearch returns the sorted result list. It does not
  return the reversed board order described under Findings.

## Findings

| source | as written | input that shows it | evidently intended | confidence | as-written member | corrected member |
|---|---|---|---|---|---|---|
| js/script.js:112 | `renderBooks` sorts newest first (`b.id - a.id`), then `addBookCard` calls `board.prepend(card)` for each card, so the last card handed over (the oldest) ends up on top | two books with ids 1 and 2: the sort gives [2, 1], and after the prepends the board reads 1, 2 | the newest book on top, in the order the sort produces | not executed | Books.PrependedBoardExample | Library.BookStore.Render |
