/** The book records of the library page and the pure queries over the list of
    books in js/script.js: delete-by-id filtering, display ordering, search,
    categories and the category filter. */
module Books {
  import opened Text
  import opened Seqs

  /** One entry as the save handler builds it. Ids are integers here; the page
      uses `Date.now() + Math.random()`. */
  datatype Book = Book(
    id: int,
    title: String,
    author: String,
    status: String,
    tags: String,
    notes: String,
    image: String,
    createdAt: String)

  function IdOf(b: Book): int { b.id }

  /** No two books of the list share an id. */
  predicate UniqueIds(s: seq<Book>) {
    forall i, j :: 0 <= i < j < |s| ==> s[i].id != s[j].id
  }

  predicate HasId(s: seq<Book>, id: int) {
    exists b :: b in s && b.id == id
  }

  /** Appending a book with an id nobody has keeps ids unique. */
  lemma AppendFreshUnique(s: seq<Book>, x: Book)
    requires UniqueIds(s) && !HasId(s, x.id)
    ensures UniqueIds(s + [x])
  {
    forall i | 0 <= i < |s| ensures s[i].id != x.id {
      assert s[i] in s;
    }
  }

  // ----- Delete by id -----

  /** `books.filter(b => b.id !== id)`: no book with that id is left, and every
      other book is kept as often as before. */
  function WithoutId(s: seq<Book>, id: int): (r: seq<Book>)
    ensures !HasId(r, id)
    ensures forall b :: b in s && b.id != id ==> b in r
  {
    Filter(s, (b: Book) => b.id != id)
  }

  /** Deleting keeps every other book as often as it occurred. */
  lemma WithoutIdCounts(s: seq<Book>, id: int, b: Book)
    requires b.id != id
    ensures multiset(WithoutId(s, id))[b] == multiset(s)[b]
  {
    FilterCounts(s, (b: Book) => b.id != id, b);
  }

  /** Deleting keeps the other books in their relative order. */
  lemma WithoutIdKeepsOrder(s: seq<Book>, id: int)
    ensures IsSubsequence(WithoutId(s, id), s)
  {
    FilterIsSubsequence(s, (b: Book) => b.id != id);
  }

  /** Deleting an id nobody has leaves the list as it was. */
  lemma WithoutAbsentId(s: seq<Book>, id: int)
    requires !HasId(s, id)
    ensures WithoutId(s, id) == s
  {
    FilterAll(s, (b: Book) => b.id != id);
  }

  /** Deleting keeps ids unique. */
  lemma WithoutIdUnique(s: seq<Book>, id: int)
    requires UniqueIds(s)
    ensures UniqueIds(WithoutId(s, id))
  {
    WithoutIdKeepsOrder(s, id);
    assert DistinctBy(s, IdOf);
    SubsequenceDistinctBy(WithoutId(s, id), s, IdOf);
    var r := WithoutId(s, id);
    assert forall i, j :: 0 <= i < j < |r| ==> IdOf(r[i]) != IdOf(r[j]);
  }

  // ----- Display ordering -----

  /** Ids never increase from left to right: newest first. */
  predicate SortedByIdDesc(s: seq<Book>) {
    forall i, j :: 0 <= i < j < |s| ==> s[i].id >= s[j].id
  }

  /** Places x in front of the first book whose id is not greater than x's. */
  function InsertByIdDesc(x: Book, s: seq<Book>): (r: seq<Book>)
    ensures multiset(r) == multiset(s) + multiset{x}
  {
    if s == [] || s[0].id <= x.id then [x] + s
    else
      assert s == [s[0]] + s[1..];
      [s[0]] + InsertByIdDesc(x, s[1..])
  }

  lemma {:induction false} InsertKeepsSorted(x: Book, s: seq<Book>)
    requires SortedByIdDesc(s)
    ensures SortedByIdDesc(InsertByIdDesc(x, s))
  {
    if s != [] && s[0].id > x.id {
      InsertKeepsSorted(x, s[1..]);
      var t := InsertByIdDesc(x, s[1..]);
      forall j | 0 <= j < |t| ensures s[0].id >= t[j].id {
        assert t[j] in multiset(t);
        if t[j] != x {
          assert t[j] in s[1..];
          var m :| 0 <= m < |s[1..]| && s[1..][m] == t[j];
          assert s[m + 1] == t[j];
        }
      }
    }
  }

  /** `books.sort((a, b) => b.id - a.id)`, a stable sort by id, newest first:
      sorted and a permutation of the input. */
  function SortByIdDesc(s: seq<Book>): (r: seq<Book>)
    ensures SortedByIdDesc(r)
    ensures multiset(r) == multiset(s)
  {
    if s == [] then []
    else
      assert s == [s[0]] + s[1..];
      var t := SortByIdDesc(s[1..]);
      InsertKeepsSorted(s[0], t);
      InsertByIdDesc(s[0], t)
  }

  /** Sorting neither adds nor loses an id. */
  lemma SortHasId(s: seq<Book>, id: int)
    ensures HasId(SortByIdDesc(s), id) <==> HasId(s, id)
  {
    var r := SortByIdDesc(s);
    if HasId(r, id) {
      var b :| b in r && b.id == id;
      assert b in multiset(r);
    }
    if HasId(s, id) {
      var b :| b in s && b.id == id;
      assert b in multiset(s);
    }
  }

  /** The books carrying id k, in list order. */
  function WithId(s: seq<Book>, k: int): seq<Book> {
    Filter(s, (b: Book) => b.id == k)
  }

  lemma {:induction false} InsertWithId(x: Book, t: seq<Book>, k: int)
    ensures WithId(InsertByIdDesc(x, t), k) == (if x.id == k then [x] else []) + WithId(t, k)
  {
    if t != [] && t[0].id > x.id {
      InsertWithId(x, t[1..], k);
      assert ([t[0]] + InsertByIdDesc(x, t[1..]))[1..] == InsertByIdDesc(x, t[1..]);
    } else {
      assert ([x] + t)[1..] == t;
    }
  }

  /** Stability: books with equal ids keep their relative order. */
  lemma {:induction false} SortStable(s: seq<Book>, k: int)
    ensures WithId(SortByIdDesc(s), k) == WithId(s, k)
  {
    if s != [] {
      SortStable(s[1..], k);
      InsertWithId(s[0], SortByIdDesc(s[1..]), k);
    }
  }

  lemma {:induction false} InsertUnique(x: Book, t: seq<Book>)
    requires UniqueIds(t) && !HasId(t, x.id)
    ensures UniqueIds(InsertByIdDesc(x, t))
  {
    if t != [] && t[0].id > x.id {
      assert !HasId(t[1..], x.id) by {
        forall b | b in t[1..] ensures b.id != x.id { assert b in t; }
      }
      assert UniqueIds(t[1..]) by {
        forall i, j | 0 <= i < j < |t[1..]| ensures t[1..][i].id != t[1..][j].id {
          assert t[1..][i] == t[i + 1] && t[1..][j] == t[j + 1];
        }
      }
      InsertUnique(x, t[1..]);
      var u := InsertByIdDesc(x, t[1..]);
      forall j | 0 <= j < |u| ensures u[j].id != t[0].id {
        assert u[j] in multiset(u);
        if u[j] != x {
          assert u[j] in t[1..];
          var m :| 0 <= m < |t[1..]| && t[1..][m] == u[j];
          assert t[m + 1] == u[j];
        }
      }
    }
  }

  /** Sorting keeps ids unique. */
  lemma {:induction false} SortUnique(s: seq<Book>)
    requires UniqueIds(s)
    ensures UniqueIds(SortByIdDesc(s))
  {
    if s != [] {
      assert UniqueIds(s[1..]) by {
        forall i, j | 0 <= i < j < |s[1..]| ensures s[1..][i].id != s[1..][j].id {
          assert s[1..][i] == s[i + 1] && s[1..][j] == s[j + 1];
        }
      }
      SortUnique(s[1..]);
      var t := SortByIdDesc(s[1..]);
      forall b | b in t ensures b.id != s[0].id {
        assert b in multiset(s[1..]);
        var m :| 0 <= m < |s[1..]| && s[1..][m] == b;
        assert s[m + 1] == b;
      }
      InsertUnique(s[0], t);
    }
  }

  /** What `forEach(addBookCard)` leaves on the board: each card is prepended,
      so the last card handed over ends up on top. */
  function Prepended(cards: seq<Book>): (board: seq<Book>)
    ensures |board| == |cards|
    ensures multiset(board) == multiset(cards)
  {
    if cards == [] then []
    else
      assert cards == [cards[0]] + cards[1..];
      Prepended(cards[1..]) + [cards[0]]
  }

  /** The board holds the cards in reverse order. */
  lemma {:induction false} PrependedReverses(cards: seq<Book>)
    ensures |Prepended(cards)| == |cards|
    ensures forall i :: 0 <= i < |cards| ==> Prepended(cards)[i] == cards[|cards| - 1 - i]
  {
    if cards != [] {
      PrependedReverses(cards[1..]);
    }
  }

  /** Cards handed over newest first end up on the board oldest first. */
  lemma PrependedShowsOldestFirst(cards: seq<Book>)
    requires SortedByIdDesc(cards)
    ensures |Prepended(cards)| == |cards|
    ensures forall i, j :: 0 <= i < j < |cards| ==> Prepended(cards)[i].id <= Prepended(cards)[j].id
  {
    PrependedReverses(cards);
  }

  /** Two books, ids 1 then 2: after the newest-first sort and the prepends,
      the older book is the top card. */
  lemma PrependedBoardExample(older: Book, newer: Book)
    requires older.id == 1 && newer.id == 2
    ensures SortByIdDesc([older, newer]) == [newer, older]
    ensures Prepended(SortByIdDesc([older, newer]))[0] == older
  {
    assert SortByIdDesc([newer]) == [newer];
    assert [older, newer][1..] == [newer];
    assert [newer, older][1..] == [older];
    assert Prepended([older]) == [older];
    assert Prepended([newer, older]) == [older, newer];
  }

  // ----- Search -----

  /** The search test: the lowercased query occurs in the lowercased title, or
      in the author or the tags when those are not empty. */
  predicate Matches(b: Book, query: String)
    ensures query == [] ==> Matches(b, query)
    ensures Matches(b, query) ==> |query| <= |b.title| || |query| <= |b.author| || |query| <= |b.tags|
  {
    var q := Lower(query);
    Includes(Lower(b.title), q) ||
    (b.author != [] && Includes(Lower(b.author), q)) ||
    (b.tags != [] && Includes(Lower(b.tags), q))
  }

  /** The books of the store that match the query. */
  function Search(books: seq<Book>, query: String): (r: seq<Book>)
    ensures forall b :: b in r ==> b in books && Matches(b, query)
    ensures forall b :: b in books && Matches(b, query) ==> b in r
  {
    Filter(books, (b: Book) => Matches(b, query))
  }

  /** Search results keep the store's order. */
  lemma SearchKeepsOrder(books: seq<Book>, query: String)
    ensures IsSubsequence(Search(books, query), books)
  {
    FilterIsSubsequence(books, (b: Book) => Matches(b, query));
  }

  /** The empty query returns the whole store. */
  lemma SearchEmptyQuery(books: seq<Book>)
    ensures Search(books, []) == books
  {
    forall b | b in books ensures Matches(b, []) {
      IncludesEmpty(Lower(b.title));
    }
    FilterAll(books, (b: Book) => Matches(b, []));
  }

  /** The case of the query does not matter. */
  lemma SearchIgnoresCase(books: seq<Book>, query: String)
    ensures Search(books, Lower(query)) == Search(books, query)
  {
    LowerIdempotent(query);
    FilterCongruent(books, (b: Book) => Matches(b, Lower(query)), (b: Book) => Matches(b, query));
  }

  // ----- Categories -----

  /** The tags value is empty or whitespace only. */
  predicate IsBlank(t: String) {
    AllWhitespace(t)
  }

  /** IsBlank is exactly the failure of the category test `tag && tag.trim() !== ''`. */
  lemma IsBlankIff(t: String)
    ensures IsBlank(t) <==> t == [] || Trim(t) == []
  {
    TrimEmptyIff(t);
  }

  predicate HasTag(books: seq<Book>, t: String) {
    exists b :: b in books && b.tags == t
  }

  /** `[...new Set(books.map(b => b.tags).filter(...))]`: the non-blank tags
      values, each once, in the order they first occur. */
  function Categories(books: seq<Book>): (r: seq<String>)
    ensures Distinct(r)
  {
    if books == [] then []
    else
      var r := Categories(books[..|books| - 1]);
      var t := books[|books| - 1].tags;
      if !IsBlank(t) && t !in r then r + [t] else r
  }

  /** Every category is some book's non-blank tags value, and every non-blank
      tags value of the store is a category. */
  lemma {:induction false} CategoriesMembers(books: seq<Book>)
    ensures forall c :: c in Categories(books) ==> !IsBlank(c) && HasTag(books, c)
    ensures forall b :: b in books && !IsBlank(b.tags) ==> b.tags in Categories(books)
  {
    if books != [] {
      var init := books[..|books| - 1];
      var last := books[|books| - 1];
      assert books == init + [last];
      CategoriesMembers(init);
      forall c | c in Categories(init) ensures HasTag(books, c) {
        var b :| b in init && b.tags == c;
        assert b in books;
      }
    }
  }

  /** The categories of a prefix of the store are a prefix of its categories. */
  lemma {:induction false} CategoriesPrefix(books: seq<Book>, n: nat)
    requires n <= |books|
    ensures Categories(books[..n]) <= Categories(books)
    decreases |books| - n
  {
    if n < |books| {
      var m := |books| - 1;
      assert books[..m][..n] == books[..n];
      CategoriesPrefix(books[..m], n);
      var r := Categories(books[..m]);
      assert Categories(books) == r || Categories(books) == r + [books[m].tags];
    } else {
      assert books[..n] == books;
    }
  }

  /** First-occurrence order: whenever category i comes before category j,
      every prefix of the store that contains j's tags value contains i's. */
  lemma CategoriesFirstOccurrence(books: seq<Book>, i: nat, j: nat, n: nat)
    requires i < j < |Categories(books)| && n <= |books|
    requires HasTag(books[..n], Categories(books)[j])
    ensures HasTag(books[..n], Categories(books)[i])
  {
    var r := Categories(books);
    var c := Categories(books[..n]);
    CategoriesPrefix(books, n);
    CategoriesMembers(books);
    CategoriesMembers(books[..n]);
    var b :| b in books[..n] && b.tags == r[j];
    assert r[j] in c;
    var k :| 0 <= k < |c| && c[k] == r[j];
    assert r[k] == r[j];
    assert k == j;
    assert r[i] == c[i];
  }

  // ----- Category filter -----

  /** `books.filter(b => b.tags === tag)`: exactly the books tagged tag. */
  function ByCategory(books: seq<Book>, tag: String): (r: seq<Book>)
    ensures forall b :: b in r ==> b in books && b.tags == tag
    ensures forall b :: b in books && b.tags == tag ==> b in r
  {
    Filter(books, (b: Book) => b.tags == tag)
  }

  /** The category filter keeps the store's order. */
  lemma ByCategoryKeepsOrder(books: seq<Book>, tag: String)
    ensures IsSubsequence(ByCategory(books, tag), books)
  {
    FilterIsSubsequence(books, (b: Book) => b.tags == tag);
  }

  /** Every listed category shows at least one book. */
  lemma CategoryNotEmpty(books: seq<Book>, c: String)
    requires c in Categories(books)
    ensures ByCategory(books, c) != []
  {
    CategoriesMembers(books);
    var b :| b in books && b.tags == c;
    assert b in ByCategory(books, c);
  }
}
