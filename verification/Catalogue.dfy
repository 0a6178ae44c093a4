/**
 * The pure list logic of the book list page: normalising image paths when
 * the books arrive, filtering by search term and genre, and building the
 * genre choices. Fields a book may lack are `Option`s.
 */
module Catalogue {
  import opened Wrappers
  import opened Text
  import BookSchema

  /** `book.author` is either the populated Author document, a string, or absent. */
  datatype Author = AuthorDocument(name: Option<string>) | AuthorText(text: string) | NoAuthor

  datatype Book = Book(
    id: string,
    title: Option<string>,
    author: Author,
    genre: Option<string>,
    summary: Option<string>,
    copiesAvailable: real,
    image: Option<string>)

  // ---------------------------------------------------------------------
  // Generic filtering

  /** `s.filter(p)` on a list of books. */
  function Filter(s: seq<Book>, p: Book -> bool): (r: seq<Book>)
    ensures |r| <= |s|
    ensures forall x :: x in r <==> x in s && p(x)
    decreases |s|
  {
    if s == [] then []
    else if p(s[0]) then [s[0]] + Filter(s[1..], p)
    else Filter(s[1..], p)
  }

  /** `idx` lists increasing positions of `s`, and `r` holds the elements at them. */
  ghost predicate PicksInOrder<T>(r: seq<T>, s: seq<T>, idx: seq<nat>)
  {
    && |idx| == |r|
    && (forall i :: 0 <= i < |idx| ==> idx[i] < |s| && r[i] == s[idx[i]])
    && (forall i, j :: 0 <= i < j < |idx| ==> idx[i] < idx[j])
  }

  /**
   * `r` is `s` with exactly the elements failing `p` taken out: it picks,
   * in their original order, the positions whose element satisfies `p`.
   */
  ghost predicate KeepsExactly<T>(r: seq<T>, s: seq<T>, p: T -> bool)
  {
    exists idx: seq<nat> ::
      PicksInOrder(r, s, idx) && forall k :: 0 <= k < |s| ==> (k in idx <==> p(s[k]))
  }

  function Shift(idx: seq<nat>): (r: seq<nat>)
    ensures |r| == |idx| && forall i :: 0 <= i < |idx| ==> r[i] == idx[i] + 1
  {
    seq(|idx|, i requires 0 <= i < |idx| => idx[i] + 1)
  }

  /** Positions picked in the tail of a list are positions one further in the list. */
  lemma ShiftPicks<T>(r: seq<T>, s: seq<T>, idx: seq<nat>)
    requires s != [] && PicksInOrder(r, s[1..], idx)
    ensures PicksInOrder(r, s, Shift(idx))
    ensures PicksInOrder([s[0]] + r, s, [0] + Shift(idx))
    ensures forall k :: 0 < k < |s| ==> (k in Shift(idx) <==> k - 1 in idx)
    ensures 0 !in Shift(idx)
  {
  }

  /** The positions of `s` whose element satisfies `p`, in increasing order. */
  function KeptPositions(s: seq<Book>, p: Book -> bool): (idx: seq<nat>)
    decreases |s|
  {
    if s == [] then []
    else if p(s[0]) then [0] + Shift(KeptPositions(s[1..], p))
    else Shift(KeptPositions(s[1..], p))
  }

  /** The kept positions pick out the filtered list, and are exactly the positions satisfying `p`. */
  lemma {:induction false} KeptPositionsPick(s: seq<Book>, p: Book -> bool)
    ensures PicksInOrder(Filter(s, p), s, KeptPositions(s, p))
    ensures forall k :: 0 <= k < |s| ==> (k in KeptPositions(s, p) <==> p(s[k]))
    decreases |s|
  {
    if s != [] {
      var tail := s[1..];
      KeptPositionsPick(tail, p);
      ShiftPicks(Filter(tail, p), s, KeptPositions(tail, p));
      assert forall k :: 0 < k < |s| ==> tail[k - 1] == s[k];
    }
  }

  /** The filtered list is the order-preserving selection of the elements satisfying `p`. */
  lemma FilterKeepsExactly(s: seq<Book>, p: Book -> bool)
    ensures KeepsExactly(Filter(s, p), s, p)
  {
    KeptPositionsPick(s, p);
  }

  /** Filtering with a predicate that passes everything changes nothing. */
  lemma {:induction false} FilterAll(s: seq<Book>, p: Book -> bool)
    requires forall x :: x in s ==> p(x)
    ensures Filter(s, p) == s
    decreases |s|
  {
    if s != [] {
      FilterAll(s[1..], p);
    }
  }

  /** Filtering twice is filtering once with both predicates. */
  lemma {:induction false} FilterTwice(s: seq<Book>, p: Book -> bool, q: Book -> bool, both: Book -> bool)
    requires forall x :: both(x) == (p(x) && q(x))
    ensures Filter(Filter(s, p), q) == Filter(s, both)
    decreases |s|
  {
    if s != [] {
      FilterTwice(s[1..], p, q, both);
    }
  }

  // ---------------------------------------------------------------------
  // filterBooks

  /** What the search compares against: the author's name, or the author string. */
  function AuthorSearchText(a: Author): Option<string>
  {
    match a
    case AuthorDocument(name) => name
    case AuthorText(text) => Some(text)
    case NoAuthor => None
  }

  /** `field?.toLowerCase().includes(term.toLowerCase())`, false when the field is absent. */
  function FieldIncludes(field: Option<string>, term: string): (b: bool)
    ensures b <==> field.Some? && exists i :: OccursAt(Lower(term), Lower(field.value), i)
  {
    field.Some? && Includes(Lower(field.value), Lower(term))
  }

  /** The search callback: the term occurs in the title or in the author, ignoring case. */
  function MatchesSearch(b: Book, term: string): bool
  {
    FieldIncludes(b.title, term) || FieldIncludes(AuthorSearchText(b.author), term)
  }

  /** The genre callback: `book.genre === selectedGenre`. */
  function MatchesGenre(b: Book, genre: string): bool
  {
    b.genre == Some(genre)
  }

  /** Whether a book is shown for the given term and genre choice. */
  function Shown(b: Book, term: string, genre: string): bool
  {
    (term == "" || MatchesSearch(b, term)) && (genre == "all" || MatchesGenre(b, genre))
  }

  /**
   * `filterBooks`: the search filter applies only when the term is not
   * empty, the genre filter only when the choice is not "all".
   */
  function FilterBooks(books: seq<Book>, term: string, genre: string): (r: seq<Book>)
    ensures term == "" && genre == "all" ==> r == books
    ensures forall b :: b in r <==> b in books && Shown(b, term, genre)
  {
    var searched := if term != "" then Filter(books, b => MatchesSearch(b, term)) else books;
    if genre != "all" then Filter(searched, b => MatchesGenre(b, genre)) else searched
  }

  /**
   * The two filter stages together keep, in their original order, exactly
   * the books that are shown.
   */
  lemma FilterBooksKeepsExactly(books: seq<Book>, term: string, genre: string)
    ensures KeepsExactly(FilterBooks(books, term, genre), books, b => Shown(b, term, genre))
  {
    var shown := b => Shown(b, term, genre);
    var search := b => MatchesSearch(b, term);
    var byGenre := b => MatchesGenre(b, genre);
    if term != "" && genre != "all" {
      FilterTwice(books, search, byGenre, shown);
    } else if term != "" {
      FilterTwice(books, search, _ => true, shown);
      FilterAll(Filter(books, search), _ => true);
    } else if genre != "all" {
      FilterTwice(books, _ => true, byGenre, shown);
      FilterAll(books, _ => true);
    } else {
      FilterAll(books, shown);
    }
    FilterKeepsExactly(books, shown);
  }

  /**
   * A book passes the search exactly when the lower-cased term occurs in
   * its lower-cased title or lower-cased author name.
   */
  lemma SearchMeaning(b: Book, term: string)
    ensures MatchesSearch(b, term) <==>
      || (b.title.Some? && exists i :: OccursAt(Lower(term), Lower(b.title.value), i))
      || (b.author.AuthorDocument? && b.author.name.Some? &&
            exists i :: OccursAt(Lower(term), Lower(b.author.name.value), i))
      || (b.author.AuthorText? && exists i :: OccursAt(Lower(term), Lower(b.author.text), i))
  {
  }

  // ---------------------------------------------------------------------
  // The genre choices

  /** `self.indexOf(x)`: the first position of `x`, or -1. */
  function IndexOf<T(==)>(s: seq<T>, x: T): (i: int)
    ensures -1 <= i < |s|
    ensures i == -1 <==> x !in s
    ensures 0 <= i ==> s[i] == x && forall j :: 0 <= j < i ==> s[j] != x
    decreases |s|
  {
    if s == [] then -1
    else if s[0] == x then 0
    else
      var i := IndexOf(s[1..], x);
      if i == -1 then -1 else i + 1
  }

  /** `genre && self.indexOf(genre) === index` applied from position `k` on. */
  function FirstOccurrencesFrom(s: seq<Option<string>>, k: nat): (r: seq<string>)
    requires k <= |s|
    decreases |s| - k
  {
    if k == |s| then []
    else if s[k].Some? && s[k].value != "" && IndexOf(s, s[k]) == k then [s[k].value] + FirstOccurrencesFrom(s, k + 1)
    else FirstOccurrencesFrom(s, k + 1)
  }

  function GenresOf(books: seq<Book>): (g: seq<Option<string>>)
    ensures |g| == |books| && forall i :: 0 <= i < |books| ==> g[i] == books[i].genre
  {
    seq(|books|, i requires 0 <= i < |books| => books[i].genre)
  }

  /** The genre choices: "all", then the genres of the books as the page builds them. */
  function GenreChoices(books: seq<Book>): seq<string>
  {
    ["all"] + FirstOccurrencesFrom(GenresOf(books), 0)
  }

  /** Every genre listed from `k` on is non-empty and first occurs at or after `k`. */
  lemma {:induction false} FirstOccurrencesFromSound(s: seq<Option<string>>, k: nat)
    requires k <= |s|
    ensures forall i :: 0 <= i < |FirstOccurrencesFrom(s, k)| ==>
      FirstOccurrencesFrom(s, k)[i] != "" && k <= IndexOf(s, Some(FirstOccurrencesFrom(s, k)[i]))
    decreases |s| - k
  {
    if k < |s| {
      FirstOccurrencesFromSound(s, k + 1);
      if s[k].Some? && s[k].value != "" && IndexOf(s, s[k]) == k {
        assert Some(s[k].value) == s[k];
      }
    }
  }

  /** Every non-empty genre first occurring at or after `k` is listed. */
  lemma {:induction false} FirstOccurrencesFromComplete(s: seq<Option<string>>, k: nat, j: nat)
    requires k <= j < |s| && s[j].Some? && s[j].value != "" && k <= IndexOf(s, s[j])
    ensures s[j].value in FirstOccurrencesFrom(s, k)
    decreases |s| - k
  {
    if IndexOf(s, s[j]) == k {
      assert s[k] == s[j];
    } else {
      FirstOccurrencesFromComplete(s, k + 1, j);
    }
  }

  /** The genres listed from `k` on are ordered by where each first occurs. */
  lemma {:induction false} FirstOccurrencesFromOrdered(s: seq<Option<string>>, k: nat)
    requires k <= |s|
    ensures forall i, j :: 0 <= i < j < |FirstOccurrencesFrom(s, k)| ==>
      IndexOf(s, Some(FirstOccurrencesFrom(s, k)[i])) < IndexOf(s, Some(FirstOccurrencesFrom(s, k)[j]))
    decreases |s| - k
  {
    if k < |s| {
      FirstOccurrencesFromOrdered(s, k + 1);
      FirstOccurrencesFromSound(s, k + 1);
      var rest := FirstOccurrencesFrom(s, k + 1);
      if s[k].Some? && s[k].value != "" && IndexOf(s, s[k]) == k {
        var r := FirstOccurrencesFrom(s, k);
        assert r == [s[k].value] + rest;
        assert IndexOf(s, Some(r[0])) == k by { assert Some(s[k].value) == s[k]; }
        forall i, j | 0 <= i < j < |r|
          ensures IndexOf(s, Some(r[i])) < IndexOf(s, Some(r[j]))
        {
          assert r[j] == rest[j - 1];
          if i > 0 {
            assert r[i] == rest[i - 1];
          }
        }
      }
    }
  }

  /**
   * The genre choices start with "all", followed by every non-empty genre
   * of the books exactly once, ordered by where each first occurs.
   */
  lemma GenreChoicesSpec(books: seq<Book>)
    ensures var c := GenreChoices(books);
      && c[0] == "all"
      && (forall i :: 1 <= i < |c| ==> c[i] != "" && exists b :: b in books && b.genre == Some(c[i]))
      && (forall b :: b in books && b.genre.Some? && b.genre.value != "" ==> b.genre.value in c[1..])
      && (forall i, j :: 1 <= i < j < |c| ==> c[i] != c[j])
      && (forall i, j :: 1 <= i < j < |c| ==>
            IndexOf(GenresOf(books), Some(c[i])) < IndexOf(GenresOf(books), Some(c[j])))
  {
    var g := GenresOf(books);
    var c := GenreChoices(books);
    FirstOccurrencesFromSound(g, 0);
    FirstOccurrencesFromOrdered(g, 0);
    assert c[1..] == FirstOccurrencesFrom(g, 0);
    forall i | 1 <= i < |c|
      ensures exists b :: b in books && b.genre == Some(c[i])
    {
      var k := IndexOf(g, Some(c[i]));
      assert books[k] in books && books[k].genre == Some(c[i]);
    }
    forall b | b in books && b.genre.Some? && b.genre.value != ""
      ensures b.genre.value in c[1..]
    {
      var j :| 0 <= j < |books| && books[j] == b;
      assert g[j] == b.genre;
      FirstOccurrencesFromComplete(g, 0, j);
    }
  }

  // ---------------------------------------------------------------------
  // Image paths

  const PlaceholderImage: string := "/placeholder-book.jpg"
  const UploadsPrefix: string := "/uploads/"

  /** The path the page shows for a stored image value. */
  function DisplayImage(image: Option<string>): (p: string)
    ensures image.None? || image == Some("") ==> p == PlaceholderImage
    ensures image.Some? && StartsWith(image.value, "http") ==> p == image.value
    ensures image.Some? && image.value != "" && !StartsWith(image.value, "http") ==>
      StartsWith(p, UploadsPrefix) && p[|UploadsPrefix|..] == image.value
  {
    if image.None? || image.value == "" then PlaceholderImage
    else if StartsWith(image.value, "http") then image.value
    else UploadsPrefix + image.value
  }

  /** `booksData.map(book => ({...book, image: ...}))`: only the image changes. */
  function NormaliseImages(books: seq<Book>): (r: seq<Book>)
    ensures |r| == |books|
    ensures forall i :: 0 <= i < |books| ==>
      r[i].image == Some(DisplayImage(books[i].image)) && r[i].(image := books[i].image) == books[i]
  {
    seq(|books|, i requires 0 <= i < |books| => books[i].(image := Some(DisplayImage(books[i].image))))
  }

  /**
   * The page tells URLs from uploaded names by the prefix "http" alone, so
   * a filename the schema accepts but that starts with "http" is shown as
   * it is, not under the uploads directory.
   */
  lemma HttpNamedFileNotUnderUploads(v: string)
    requires BookSchema.IsValidImage(v) && !BookSchema.IsUrl(v) && StartsWith(v, "http")
    ensures DisplayImage(Some(v)) == v
    ensures !StartsWith(DisplayImage(Some(v)), UploadsPrefix)
  {
    assert v[0] == "http"[0] != UploadsPrefix[0];
  }

  /** Such filenames exist: "http-cover.jpg" is a valid image that is not a URL. */
  lemma HttpNamedFileAccepted()
    ensures BookSchema.IsValidImage("http-cover.jpg") && !BookSchema.IsUrl("http-cover.jpg")
    ensures StartsWith("http-cover.jpg", "http")
  {
    assert BookSchema.SplitsAsFileName("http-cover.jpg", 10);
    assert "http-cover.jpg"[4] == '-' != ':';
  }
}
