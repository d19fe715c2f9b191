/** The page's global `books` list, its persisted copy, and the event handlers
    of js/script.js that change or read them. */
module Library {
  import opened Text
  import opened Seqs
  import opened Books

  /** The raw values of the add-book form; the image is whatever the upload
      left in `uploadedImage` (empty when none). */
  datatype SaveForm = SaveForm(
    titleInput: String,
    authorInput: String,
    status: String,
    tagsInput: String,
    notesInput: String,
    image: String)

  /** `bookTitle.value.trim().split(',')` */
  function Titles(f: SaveForm): (r: seq<String>)
    ensures |r| >= 1
  {
    Split(Trim(f.titleInput), ',')
  }

  /** `bookAuthor.value.trim().split(',')` */
  function Authors(f: SaveForm): (r: seq<String>)
    ensures |r| >= 1
  {
    Split(Trim(f.authorInput), ',')
  }

  /** `authors[index]?.trim() || ''`: the matching author piece, or empty
      when there are fewer author pieces than titles. */
  function AuthorAt(f: SaveForm, i: nat): (r: String)
    ensures ',' !in r
  {
    if i < |Authors(f)| then
      TrimKeeps(Authors(f)[i]);
      Trim(Authors(f)[i])
    else []
  }

  /** The save is not refused: `titles[0]` is not empty. */
  predicate Accepted(f: SaveForm)
    ensures Accepted(f) ==> Trim(f.titleInput) != []
  {
    Titles(f)[0] != []
  }

  /** The save is refused exactly when the trimmed title input is empty or starts with a comma. */
  lemma AcceptedIff(f: SaveForm)
    ensures Accepted(f) <==> Trim(f.titleInput) != [] && Trim(f.titleInput)[0] != ','
  {
    FirstPieceEmptyIff(Trim(f.titleInput), ',');
  }

  /** An accepted save gives its first book a non-empty title. */
  lemma FirstTitleNotEmpty(f: SaveForm)
    requires Accepted(f)
    ensures Trim(Titles(f)[0]) != []
  {
    var s := Trim(f.titleInput);
    var p := Titles(f)[0];
    FirstPieceIsPrefix(s, ',');
    TrimShape(f.titleInput);
    assert p[0] == s[0];
    TrimEmptyIff(p);
  }

  /** The book made for title piece i: its own title and author, everything
      else shared by the batch, id and timestamp supplied by the caller. */
  function NewBook(f: SaveForm, i: nat, id: int, stamp: String): (b: Book)
    requires i < |Titles(f)|
    ensures ',' !in b.title && ',' !in b.author
    ensures i == 0 && Accepted(f) ==> b.title != []
  {
    var b := Book(id, Trim(Titles(f)[i]), AuthorAt(f, i), f.status, Trim(f.tagsInput), Trim(f.notesInput), f.image, stamp);
    assert i == 0 && Accepted(f) ==> b.title != [] by {
      if i == 0 && Accepted(f) {
        FirstTitleNotEmpty(f);
      }
    }
    TrimKeeps(Titles(f)[i]);
    b
  }

  /** The books made for the first n title pieces, in input order. */
  function BatchPrefix(f: SaveForm, ids: seq<int>, stamps: seq<String>, n: nat): (r: seq<Book>)
    requires n <= |Titles(f)| && |ids| >= n && |stamps| >= n
    ensures |r| == n
    ensures forall i :: 0 <= i < n ==> r[i] == NewBook(f, i, ids[i], stamps[i])
  {
    if n == 0 then [] else BatchPrefix(f, ids, stamps, n - 1) + [NewBook(f, n - 1, ids[n - 1], stamps[n - 1])]
  }

  /** One book per title piece, in input order; empty pieces are not skipped. */
  function Batch(f: SaveForm, ids: seq<int>, stamps: seq<String>): (r: seq<Book>)
    requires |ids| >= |Titles(f)| && |stamps| >= |Titles(f)|
    ensures |r| == |Titles(f)|
    ensures forall i :: 0 <= i < |r| ==> r[i].id == ids[i] && r[i].title == Trim(Titles(f)[i])
  {
    BatchPrefix(f, ids, stamps, |Titles(f)|)
  }

  /** Every book of a batch carries the form's shared fields, and the author
      of the matching author piece; extra author pieces are ignored. */
  lemma BatchFields(f: SaveForm, ids: seq<int>, stamps: seq<String>, i: nat)
    requires |ids| >= |Titles(f)| && |stamps| >= |Titles(f)| && i < |Titles(f)|
    ensures Batch(f, ids, stamps)[i].author == (if i < |Authors(f)| then Trim(Authors(f)[i]) else [])
    ensures Batch(f, ids, stamps)[i].status == f.status
    ensures Batch(f, ids, stamps)[i].tags == Trim(f.tagsInput)
    ensures Batch(f, ids, stamps)[i].notes == Trim(f.notesInput)
    ensures Batch(f, ids, stamps)[i].image == f.image
    ensures Batch(f, ids, stamps)[i].createdAt == stamps[i]
  {
  }

  /** The id handed to title piece i is used neither by the earlier books
      nor by the pieces before it. */
  lemma BatchPrefixFresh(f: SaveForm, ids: seq<int>, stamps: seq<String>, before: seq<Book>, i: nat)
    requires i < |Titles(f)| && |ids| >= |Titles(f)| && |stamps| >= |Titles(f)|
    requires Distinct(ids) && forall id :: id in ids ==> !HasId(before, id)
    ensures !HasId(before + BatchPrefix(f, ids, stamps, i), ids[i])
  {
    var batch := BatchPrefix(f, ids, stamps, i);
    var all := before + batch;
    assert ids[i] in ids;
    forall k | 0 <= k < |all| ensures all[k].id != ids[i] {
      if k < |before| {
        assert all[k] in before;
      } else {
        assert all[k] == batch[k - |before|];
      }
    }
  }

  class BookStore {
    /** The in-memory `books` array. */
    var books: seq<Book>
    /** The list saved in `localStorage` under the key "books". */
    var stored: seq<Book>

    /** Ids are unique, and the saved copy holds the same books as memory
        (the order may differ: rendering sorts memory only). */
    ghost predicate Valid()
      reads this
    {
      UniqueIds(books) && multiset(stored) == multiset(books)
    }

    /** `JSON.parse(localStorage.getItem('books') || '[]')`: the caller passes
        the saved list, or [] when nothing was saved. */
    constructor Load(persisted: seq<Book>)
      requires UniqueIds(persisted)
      ensures Valid()
      ensures books == persisted && stored == persisted
    {
      books := persisted;
      stored := persisted;
    }

    /** `saveToLocalStorage()` */
    method Persist()
      modifies this`stored
      ensures stored == books
      ensures UniqueIds(books) ==> Valid()
    {
      stored := books;
    }

    /** The validation and the `forEach` push of the save handler: refused
        when the first title piece is empty, otherwise one new book per title
        piece appended to the end, earlier books untouched. */
    method SaveBatch(f: SaveForm, ids: seq<int>, stamps: seq<String>) returns (saved: bool)
      requires UniqueIds(books)
      requires |ids| >= |Titles(f)| && |stamps| >= |Titles(f)|
      requires Distinct(ids) && forall id :: id in ids ==> !HasId(books, id)
      modifies this`books
      ensures saved == Accepted(f)
      ensures !saved ==> books == old(books)
      ensures saved ==> books == old(books) + Batch(f, ids, stamps)
      ensures UniqueIds(books)
    {
      var titles := Split(Trim(f.titleInput), ',');
      var authors := Split(Trim(f.authorInput), ',');
      var tags := Trim(f.tagsInput);
      var notes := Trim(f.notesInput);
      if titles[0] == [] {
        return false;
      }
      for i := 0 to |titles|
        invariant books == old(books) + BatchPrefix(f, ids, stamps, i)
        invariant UniqueIds(books)
      {
        var author := if i < |authors| then Trim(authors[i]) else [];
        var book := Book(ids[i], Trim(titles[i]), author, f.status, tags, notes, f.image, stamps[i]);
        assert book == NewBook(f, i, ids[i], stamps[i]);
        BatchPrefixFresh(f, ids, stamps, old(books), i);
        AppendFreshUnique(books, book);
        books := books + [book];
      }
      return true;
    }

    /** `renderBooks()` with its default argument: sorts the store itself
        newest first. `shown` is the newest-first display the sort is meant
        to produce; the page's board holds `Prepended(shown)`, its reverse. */
    method Render() returns (shown: seq<Book>)
      requires Valid()
      modifies this`books
      ensures Valid() && stored == old(stored)
      ensures books == SortByIdDesc(old(books))
      ensures shown == books && SortedByIdDesc(shown)
    {
      if |books| == 0 {
        return [];
      }
      SortUnique(books);
      books := SortByIdDesc(books);
      shown := books;
    }

    /** The save button handler: save the batch, persist it, re-render. A
        refused save changes nothing. */
    method OnSave(f: SaveForm, ids: seq<int>, stamps: seq<String>) returns (saved: bool)
      requires Valid()
      requires |ids| >= |Titles(f)| && |stamps| >= |Titles(f)|
      requires Distinct(ids) && forall id :: id in ids ==> !HasId(books, id)
      modifies this
      ensures Valid()
      ensures saved == Accepted(f)
      ensures !saved ==> books == old(books) && stored == old(stored)
      ensures saved ==> stored == old(books) + Batch(f, ids, stamps)
      ensures saved ==> books == SortByIdDesc(stored)
    {
      saved := SaveBatch(f, ids, stamps);
      if saved {
        Persist();
        var _ := Render();
      }
    }

    /** `deleteBook(id)` once the user has confirmed: drop every book with
        that id, persist, re-render. */
    method DeleteBook(id: int)
      requires Valid()
      modifies this
      ensures Valid()
      ensures stored == WithoutId(old(books), id)
      ensures books == SortByIdDesc(stored)
      ensures !HasId(books, id)
    {
      WithoutIdUnique(books, id);
      books := WithoutId(books, id);
      Persist();
      var _ := Render();
      SortHasId(stored, id);
    }

    /** The search box handler: the matching books, shown newest first. */
    method OnSearch(query: String) returns (shown: seq<Book>)
      ensures shown == SortByIdDesc(Search(books, query))
      ensures SortedByIdDesc(shown)
      ensures multiset(shown) == multiset(Search(books, query))
      ensures forall b :: b in shown <==> b in books && Matches(b, query)
    {
      var found := Search(books, query);
      shown := SortByIdDesc(found);
      forall b ensures b in shown <==> b in found {
        assert b in shown <==> b in multiset(shown);
        assert b in found <==> b in multiset(found);
      }
    }
  }
}
