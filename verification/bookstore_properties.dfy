/**
  What each bookstore query promises, stated against the store rather than
  against the pipeline that computes it.
 */
module BookstoreProperties {
  import opened Linq
  import opened LinqOrdering
  import opened LinqGrouping
  import opened Text
  import opened Bookstore

  // ---------------------------------------------------------------------------
  // Filters
  // ---------------------------------------------------------------------------

  /** Exactly the books of the given year, each as often as it is stored, in store order. */
  lemma BooksPublishedInYearSpec(books: seq<Book>, year: int)
    ensures forall b :: b in BooksPublishedInYear(books, year) <==> b in books && b.yearPublished == year
    ensures forall b :: multiset(BooksPublishedInYear(books, year))[b] == (if b.yearPublished == year then multiset(books)[b] else 0)
    ensures Subsequence(BooksPublishedInYear(books, year), books)
  {
    WhereSpec(books, PublishedIn(year));
    forall b: Book
      ensures PublishedIn(year)(b) <==> b.yearPublished == year
    {
      assert KeyIs(YearOf, year)(b) == (YearOf(b) == year);
    }
  }

  /**
    Both bounds are inclusive and are whole currency units; a range whose
    lower bound exceeds its upper bound selects nothing.
   */
  lemma BooksWithPriceBetweenSpec(books: seq<Book>, min: int, max: int)
    ensures forall b :: b in BooksWithPriceBetween(books, min, max) <==>
      b in books && min * CentsPerUnit <= b.price <= max * CentsPerUnit
    ensures forall b :: multiset(BooksWithPriceBetween(books, min, max))[b] == (if min * CentsPerUnit <= b.price <= max * CentsPerUnit then multiset(books)[b] else 0)
    ensures Subsequence(BooksWithPriceBetween(books, min, max), books)
    ensures min > max ==> BooksWithPriceBetween(books, min, max) == []
  {
    WhereSpec(books, PricedWithin(min, max));
    if min > max {
      WhereNone(books, PricedWithin(min, max));
    }
  }

  /** The books whose title has `str` as a contiguous substring, in store order. */
  lemma BooksWithTitleContainingSpec(books: seq<Book>, str: string)
    ensures forall b :: b in BooksWithTitleContaining(books, str) <==>
      b in books && exists i :: OccursAt(b.title, str, i)
    ensures forall b :: multiset(BooksWithTitleContaining(books, str))[b] == (if Contains(b.title, str) then multiset(books)[b] else 0)
    ensures Subsequence(BooksWithTitleContaining(books, str), books)
    ensures str == [] ==> BooksWithTitleContaining(books, str) == books
  {
    WhereSpec(books, TitleContains(str));
    if str == [] {
      forall i | 0 <= i < |books|
        ensures TitleContains(str)(books[i])
      {
        assert OccursAt(books[i].title, str, 0);
      }
      WhereAll(books, TitleContains(str));
    }
  }

  /** The books whose title is strictly longer than `length`, in store order. */
  lemma BooksWithTitleLongerThanSpec(books: seq<Book>, length: int)
    ensures forall b :: b in BooksWithTitleLongerThan(books, length) <==> b in books && |b.title| > length
    ensures forall b :: multiset(BooksWithTitleLongerThan(books, length))[b] == (if |b.title| > length then multiset(books)[b] else 0)
    ensures Subsequence(BooksWithTitleLongerThan(books, length), books)
    ensures length < 0 ==> BooksWithTitleLongerThan(books, length) == books
  {
    WhereSpec(books, TitleLongerThan(length));
    if length < 0 {
      WhereAll(books, TitleLongerThan(length));
    }
  }

  // ---------------------------------------------------------------------------
  // PrintMostExpensiveBook
  // ---------------------------------------------------------------------------

  /**
    An empty store prints "No books found."; otherwise the chosen book costs at
    least as much as every other, and among equally priced books it is the last
    one in store order. The returned index locates it in the store.
   */
  lemma MostExpensiveBookSpec(books: seq<Book>, renderPrice: Cents -> string) returns (i: nat)
    ensures |books| == 0 ==> MostExpensiveBookOutput(books, renderPrice) == ["Most expensive book:", NoBooksFound]
    ensures |books| > 0 ==> i < |books| && MostExpensiveBook(books) == Some(books[i])
    ensures |books| > 0 ==> forall j :: 0 <= j < |books| ==> books[j].price <= books[i].price
    ensures |books| > 0 ==> forall j :: i < j < |books| ==> books[j].price < books[i].price
  {
    if |books| > 0 {
      i := OrderByLast(books, PriceOf);
    } else {
      i := 0;
    }
  }

  // ---------------------------------------------------------------------------
  // PrintBooksPricedAboveAverage
  // ---------------------------------------------------------------------------

  /**
    `Average` fails on an empty store; otherwise a book is kept exactly when
    its price exceeds the mean price, and the kept books stay in store order.
   */
  lemma BooksPricedAboveAverageSpec(books: seq<Book>)
    ensures BooksPricedAboveAverage(books).Failure? <==> |books| == 0
    ensures |books| == 0 ==> BooksPricedAboveAverage(books).error == NoElements
    ensures |books| > 0 ==> forall b :: b in BooksPricedAboveAverage(books).value <==>
      b in books && b.price as real > Sum(books, PriceOf) as real / |books| as real
    ensures |books| > 0 ==> forall b :: multiset(BooksPricedAboveAverage(books).value)[b] == (if b.price as real > Sum(books, PriceOf) as real / |books| as real then multiset(books)[b] else 0)
    ensures |books| > 0 ==> Subsequence(BooksPricedAboveAverage(books).value, books)
  {
    if |books| > 0 {
      var n, total := |books|, Sum(books, PriceOf);
      WhereSpec(books, AboveAverage(total, n));
      forall b: Book
        ensures AboveAverage(total, n)(b) <==> b.price as real > total as real / n as real
      {
        MeanComparison(b.price, total, n);
      }
    }
  }

  /** `p > s / n` and `p * n > s` agree for a positive count `n`. */
  lemma MeanComparison(p: int, s: int, n: int)
    requires n > 0
    ensures p * n > s <==> p as real > s as real / n as real
  {
    var avg := s as real / n as real;
    assert avg * n as real == s as real;
    assert (p * n) as real == p as real * n as real;
    if p as real > avg {
      assert p as real * n as real > avg * n as real;
    }
    if p as real <= avg {
      assert p as real * n as real <= avg * n as real;
    }
  }

  // ---------------------------------------------------------------------------
  // Joins of books with their authors
  // ---------------------------------------------------------------------------

  /**
    With the store's keys in force, joining the books with the authors forms
    one row per book, in store order, combining the book with its author.
   */
  lemma {:induction false} OneRowPerBook<R>(books: seq<Book>, authors: seq<Author>, sel: (Book, Author) -> R)
    requires UniqueAuthorIds(authors) && EveryBookHasAuthor(books, authors)
    ensures |Join(books, authors, AuthorIdOf, IdOf, sel)| == |books|
    ensures forall i :: 0 <= i < |books| ==>
      exists j :: 0 <= j < |authors| && authors[j].id == books[i].authorId
        && Join(books, authors, AuthorIdOf, IdOf, sel)[i] == sel(books[i], authors[j])
    decreases |books|
  {
    if |books| > 0 {
      var b := books[0];
      var j :| 0 <= j < |authors| && authors[j].id == b.authorId;
      var rest := books[1..];
      var rows, later := Join(books, authors, AuthorIdOf, IdOf, sel), Join(rest, authors, AuthorIdOf, IdOf, sel);
      assert rows == [sel(b, authors[j])] + later by {
        MatchesUnique(b, authors, AuthorIdOf, IdOf, sel, j);
        JoinCons(books, authors, AuthorIdOf, IdOf, sel);
      }
      assert EveryBookHasAuthor(rest, authors) by {
        BooksTailHaveAuthors(books, authors);
      }
      OneRowPerBook(rest, authors, sel);
      RowsShift(books, authors, sel, j, rows, later);
    }
  }

  lemma BooksTailHaveAuthors(books: seq<Book>, authors: seq<Author>)
    requires |books| > 0 && EveryBookHasAuthor(books, authors)
    ensures EveryBookHasAuthor(books[1..], authors)
  {
    forall i | 0 <= i < |books| - 1
      ensures exists j :: 0 <= j < |authors| && authors[j].id == books[1..][i].authorId
    {
      assert books[1..][i] == books[i + 1];
    }
    var rest := books[1..];
    assert forall i :: 0 <= i < |rest| ==> exists j :: 0 <= j < |authors| && authors[j].id == rest[i].authorId;
  }

  /** The rows for the books after the first, shifted behind the first book's row. */
  lemma RowsShift<R>(books: seq<Book>, authors: seq<Author>, sel: (Book, Author) -> R, j: nat, rows: seq<R>, later: seq<R>)
    requires |books| > 0 && j < |authors| && authors[j].id == books[0].authorId
    requires rows == [sel(books[0], authors[j])] + later && |later| == |books| - 1
    requires forall i :: 0 <= i < |books| - 1 ==>
      exists j :: 0 <= j < |authors| && authors[j].id == books[1..][i].authorId && later[i] == sel(books[1..][i], authors[j])
    ensures |rows| == |books|
    ensures forall i :: 0 <= i < |books| ==>
      exists j :: 0 <= j < |authors| && authors[j].id == books[i].authorId && rows[i] == sel(books[i], authors[j])
  {
    forall i | 0 < i < |books|
      ensures exists j :: 0 <= j < |authors| && authors[j].id == books[i].authorId && rows[i] == sel(books[i], authors[j])
    {
      assert books[i] == books[1..][i - 1];
      assert rows[i] == later[i - 1];
    }
  }

  /** A row for every pair of a book and an author whose `Id` is the book's `AuthorId`, and no other rows. */
  lemma AuthorsAndTheirBooksMembership(books: seq<Book>, authors: seq<Author>)
    ensures forall x :: x in AuthorsAndTheirBooks(books, authors) <==>
      exists b, a :: b in books && a in authors && b.authorId == a.id
        && x == BookWithAuthor(b.title, b.price, b.yearPublished, a.name)
  {
    JoinMembership(books, authors, AuthorIdOf, IdOf, WithAuthor);
  }

  /** With the store's keys in force, the listing has exactly one row per book, in store order. */
  lemma AuthorsAndTheirBooksPerBook(books: seq<Book>, authors: seq<Author>)
    requires UniqueAuthorIds(authors) && EveryBookHasAuthor(books, authors)
    ensures |AuthorsAndTheirBooks(books, authors)| == |books|
    ensures forall i :: 0 <= i < |books| ==>
      exists a :: a in authors && a.id == books[i].authorId
        && AuthorsAndTheirBooks(books, authors)[i] == BookWithAuthor(books[i].title, books[i].price, books[i].yearPublished, a.name)
  {
    OneRowPerBook(books, authors, WithAuthor);
    var r := AuthorsAndTheirBooks(books, authors);
    forall i | 0 <= i < |books|
      ensures exists a :: a in authors && a.id == books[i].authorId && r[i] == BookWithAuthor(books[i].title, books[i].price, books[i].yearPublished, a.name)
    {
      var j :| 0 <= j < |authors| && authors[j].id == books[i].authorId && r[i] == WithAuthor(books[i], authors[j]);
      assert authors[j] in authors;
    }
  }

  /** The joined rows whose author name is exactly `authorName`, in join order. */
  lemma BooksByAuthorNameSpec(books: seq<Book>, authors: seq<Author>, authorName: string)
    ensures forall x :: x in BooksByAuthorName(books, authors, authorName) <==>
      exists b, a :: b in books && a in authors && b.authorId == a.id && a.name == authorName
        && x == BookWithAuthor(b.title, b.price, b.yearPublished, a.name)
    ensures forall x :: multiset(BooksByAuthorName(books, authors, authorName))[x] == (if x.authorName == authorName then multiset(AuthorsAndTheirBooks(books, authors))[x] else 0)
    ensures Subsequence(BooksByAuthorName(books, authors, authorName), AuthorsAndTheirBooks(books, authors))
  {
    AuthorsAndTheirBooksMembership(books, authors);
    WhereSpec(AuthorsAndTheirBooks(books, authors), ByAuthorNamed(authorName));
  }

  /** The titles of the books whose author's name starts with `initial`, paired with that name. */
  lemma BooksByAuthorsStartingWithSpec(authors: seq<Author>, books: seq<Book>, initial: char)
    ensures forall x :: x in BooksByAuthorsStartingWith(authors, books, initial) <==>
      exists a, b :: a in authors && b in books && a.id == b.authorId && |a.name| > 0 && a.name[0] == initial
        && x == TitleAuthor(b.title, a.name)
    ensures forall t, n :: multiset(BooksByAuthorsStartingWith(authors, books, initial))[TitleAuthor(t, n)] == Sum(books, TitleRows(authors, initial, t, n))
  {
    forall t, n
      ensures multiset(BooksByAuthorsStartingWith(authors, books, initial))[TitleAuthor(t, n)]
        == Sum(books, TitleRows(authors, initial, t, n))
    {
      StartingWithRows(authors, books, initial, t, n);
    }
    forall x | x in BooksByAuthorsStartingWith(authors, books, initial)
      ensures exists a, b :: (a in authors && b in books && a.id == b.authorId && |a.name| > 0 && a.name[0] == initial
        && x == TitleAuthor(b.title, a.name))
    {
      StartingWithSound(authors, books, initial, x);
    }
    forall a, b | a in authors && b in books && a.id == b.authorId && |a.name| > 0 && a.name[0] == initial
      ensures TitleAuthor(b.title, a.name) in BooksByAuthorsStartingWith(authors, books, initial)
    {
      var picked := Where(authors, NameStartsWith(initial));
      assert NameStartsWith(initial)(a);
      WhereKeeps(authors, NameStartsWith(initial), a);
      JoinContains(picked, books, IdOf, AuthorIdOf, TitleAuthorOf, a, b);
    }
  }

  /** The authors of book `b` named `n`, where `n` starts with `initial`. */
  function WroteAs(b: Book, initial: char, n: string): Author -> bool {
    (a: Author) => a.id == b.authorId && a.name == n && StartsWith(a.name, initial)
  }

  /** For a book titled `t`, how many such authors wrote it; nothing for any other book. */
  function TitleRows(authors: seq<Author>, initial: char, t: string, n: string): Book -> int {
    (b: Book) => if b.title == t then Count(authors, WroteAs(b, initial, n)) else 0
  }

  /** A title/name row appears once per pair of a book with that title and an author of it with that name. */
  lemma StartingWithRows(authors: seq<Author>, books: seq<Book>, initial: char, t: string, n: string)
    ensures multiset(BooksByAuthorsStartingWith(authors, books, initial))[TitleAuthor(t, n)] == Sum(books, TitleRows(authors, initial, t, n))
  {
    var picked := Where(authors, NameStartsWith(initial));
    var v := TitleAuthor(t, n);
    JoinMultiplicityByInner(picked, books, IdOf, AuthorIdOf, TitleAuthorOf, v);
    forall i | 0 <= i < |books|
      ensures RowsWith(picked, IdOf, AuthorIdOf, TitleAuthorOf, v)(books[i]) == TitleRows(authors, initial, t, n)(books[i])
    {
      BookTitleRows(authors, picked, books[i], initial, t, n);
    }
    SumSame(books, RowsWith(picked, IdOf, AuthorIdOf, TitleAuthorOf, v), TitleRows(authors, initial, t, n));
  }

  /** One book contributes the row once per author of it named `n` starting with `initial`, if it is titled `t`. */
  lemma BookTitleRows(authors: seq<Author>, picked: seq<Author>, b: Book, initial: char, t: string, n: string)
    requires picked == Where(authors, NameStartsWith(initial))
    ensures RowsWith(picked, IdOf, AuthorIdOf, TitleAuthorOf, TitleAuthor(t, n))(b) == TitleRows(authors, initial, t, n)(b)
  {
    var v := TitleAuthor(t, n);
    var pairs := PairsInto(b, IdOf, AuthorIdOf, TitleAuthorOf, v);
    assert RowsWith(picked, IdOf, AuthorIdOf, TitleAuthorOf, v)(b) == Count(picked, pairs);
    if b.title == t {
      forall a: Author
        ensures WroteAs(b, initial, n)(a) == (NameStartsWith(initial)(a) && pairs(a))
      {
        assert IdOf(a) == a.id && AuthorIdOf(b) == b.authorId && TitleAuthorOf(a, b) == TitleAuthor(b.title, a.name);
        assert pairs(a) == (IdOf(a) == AuthorIdOf(b) && TitleAuthorOf(a, b) == v);
      }
      WhereWhere(authors, NameStartsWith(initial), pairs, WroteAs(b, initial, n));
      assert TitleRows(authors, initial, t, n)(b) == Count(authors, WroteAs(b, initial, n));
    } else {
      forall i | 0 <= i < |picked|
        ensures !pairs(picked[i])
      {
        assert TitleAuthorOf(picked[i], b).title != t;
      }
      WhereNone(picked, pairs);
      assert TitleRows(authors, initial, t, n)(b) == 0;
    }
  }

  lemma StartingWithSound(authors: seq<Author>, books: seq<Book>, initial: char, x: TitleAuthor)
    requires x in BooksByAuthorsStartingWith(authors, books, initial)
    ensures exists a, b :: (a in authors && b in books && a.id == b.authorId && |a.name| > 0 && a.name[0] == initial
      && x == TitleAuthor(b.title, a.name))
  {
    var picked := Where(authors, NameStartsWith(initial));
    JoinMembership(picked, books, IdOf, AuthorIdOf, TitleAuthorOf);
    var a, b :| a in picked && b in books && IdOf(a) == AuthorIdOf(b) && x == TitleAuthorOf(a, b);
    WhereSpec(authors, NameStartsWith(initial));
    assert a in authors && NameStartsWith(initial)(a);
  }

  // ---------------------------------------------------------------------------
  // PrintAuthorsWithBooksPricedOver
  // ---------------------------------------------------------------------------

  /**
    Each name at most once, and a name is listed exactly when an author with
    that name has a book priced strictly above the threshold.
   */
  lemma AuthorsWithBooksPricedOverSpec(books: seq<Book>, authors: seq<Author>, threshold: Cents)
    ensures NoDuplicates(AuthorsWithBooksPricedOver(books, authors, threshold))
    ensures forall n :: n in AuthorsWithBooksPricedOver(books, authors, threshold) <==>
      exists b, a :: b in books && a in authors && b.authorId == a.id && b.price > threshold && a.name == n
  {
    var names := Select(Where(Join(books, authors, AuthorIdOf, IdOf, NamePriced), PricedOver(threshold)), NameOfRow);
    var r := AuthorsWithBooksPricedOver(books, authors, threshold);
    PricedOverNames(books, authors, threshold);
    forall n
      ensures n in r <==> n in names
    {
      if n in r {
        var i :| 0 <= i < |r| && r[i] == n;
      }
      if n in names {
        var i :| 0 <= i < |names| && names[i] == n;
      }
    }
  }

  /** Before deduplication: the names of the joined rows priced over the threshold. */
  lemma PricedOverNames(books: seq<Book>, authors: seq<Author>, threshold: Cents)
    ensures forall n :: n in Select(Where(Join(books, authors, AuthorIdOf, IdOf, NamePriced), PricedOver(threshold)), NameOfRow) <==>
      exists b, a :: b in books && a in authors && b.authorId == a.id && b.price > threshold && a.name == n
  {
    forall n | n in Select(Where(Join(books, authors, AuthorIdOf, IdOf, NamePriced), PricedOver(threshold)), NameOfRow)
      ensures exists b, a :: b in books && a in authors && b.authorId == a.id && b.price > threshold && a.name == n
    {
      PricedOverNameSound(books, authors, threshold, n);
    }
    forall n, b, a | b in books && a in authors && b.authorId == a.id && b.price > threshold && a.name == n
      ensures n in Select(Where(Join(books, authors, AuthorIdOf, IdOf, NamePriced), PricedOver(threshold)), NameOfRow)
    {
      PricedOverNameComplete(books, authors, threshold, n, b, a);
    }
  }

  /** A listed name belongs to an author with a book over the threshold. */
  lemma PricedOverNameSound(books: seq<Book>, authors: seq<Author>, threshold: Cents, n: string)
    requires n in Select(Where(Join(books, authors, AuthorIdOf, IdOf, NamePriced), PricedOver(threshold)), NameOfRow)
    ensures exists b, a :: b in books && a in authors && b.authorId == a.id && b.price > threshold && a.name == n
  {
    var joined := Join(books, authors, AuthorIdOf, IdOf, NamePriced);
    var over := Where(joined, PricedOver(threshold));
    var i :| 0 <= i < |over| && Select(over, NameOfRow)[i] == n;
    var row := over[i];
    WhereFrom(joined, PricedOver(threshold), row);
    assert row in joined && row.price > threshold;
    JoinMembership(books, authors, AuthorIdOf, IdOf, NamePriced);
    var b, a :| b in books && a in authors && AuthorIdOf(b) == IdOf(a) && row == NamePriced(b, a);
    assert b.authorId == a.id && b.price > threshold && a.name == n;
  }
  /** An author with a book over the threshold has their name listed. */
  lemma PricedOverNameComplete(books: seq<Book>, authors: seq<Author>, threshold: Cents, n: string, b: Book, a: Author)
    requires b in books && a in authors && b.authorId == a.id && b.price > threshold && a.name == n
    ensures n in Select(Where(Join(books, authors, AuthorIdOf, IdOf, NamePriced), PricedOver(threshold)), NameOfRow)
  {
    var joined := Join(books, authors, AuthorIdOf, IdOf, NamePriced);
    var over := Where(joined, PricedOver(threshold));
    var row := NamePriced(b, a);
    JoinMembership(books, authors, AuthorIdOf, IdOf, NamePriced);
    assert row in joined;
    WhereSpec(joined, PricedOver(threshold));
    assert row in over;
    var i :| 0 <= i < |over| && over[i] == row;
    assert Select(over, NameOfRow)[i] == n;
  }

  // ---------------------------------------------------------------------------
  // PrintBooksAndAuthorsWithPriceLessThan
  // ---------------------------------------------------------------------------

  /**
    The rows of books cheaper than the threshold with their authors, sorted by
    price; rows of equal price keep the order of the join.
   */
  lemma BooksAndAuthorsWithPriceLessThanSpec(books: seq<Book>, authors: seq<Author>, threshold: Cents)
    ensures SortedBy(BooksAndAuthorsWithPriceLessThan(books, authors, threshold), RowPrice)
    ensures multiset(BooksAndAuthorsWithPriceLessThan(books, authors, threshold)) == multiset(CheapBooksWithAuthors(books, authors, threshold))
    ensures forall x :: x in BooksAndAuthorsWithPriceLessThan(books, authors, threshold) <==>
      exists b, a :: b in books && a in authors && b.authorId == a.id && b.price < threshold
        && x == TitleAuthorPrice(b.title, a.name, b.price)
    ensures forall p ::
      Where(BooksAndAuthorsWithPriceLessThan(books, authors, threshold), KeyIs(RowPrice, p)) == Where(CheapBooksWithAuthors(books, authors, threshold), KeyIs(RowPrice, p))
  {
    var rows := CheapBooksWithAuthors(books, authors, threshold);
    OrderBySorted(rows, RowPrice);
    OrderByPermutes(rows, RowPrice);
    OrderByMembership(rows, RowPrice);
    CheapBooksWithAuthorsMembership(books, authors, threshold);
    forall p
      ensures Where(BooksAndAuthorsWithPriceLessThan(books, authors, threshold), KeyIs(RowPrice, p)) == Where(rows, KeyIs(RowPrice, p))
    {
      OrderByStable(rows, RowPrice, p);
    }
  }

  /** Before sorting: one row per pair of a book under the threshold and its author. */
  lemma CheapBooksWithAuthorsMembership(books: seq<Book>, authors: seq<Author>, threshold: Cents)
    ensures forall x :: x in CheapBooksWithAuthors(books, authors, threshold) <==>
      exists b, a :: b in books && a in authors && b.authorId == a.id && b.price < threshold
        && x == TitleAuthorPrice(b.title, a.name, b.price)
  {
    forall x | x in CheapBooksWithAuthors(books, authors, threshold)
      ensures exists b, a ::
        b in books && a in authors && b.authorId == a.id && b.price < threshold && x == TitleAuthorPrice(b.title, a.name, b.price)
    {
      var cheap := Where(books, PricedUnder(threshold));
      JoinMembership(cheap, authors, AuthorIdOf, IdOf, TitleAuthorPriceOf);
      var b, a :| b in cheap && a in authors && AuthorIdOf(b) == IdOf(a) && x == TitleAuthorPriceOf(b, a);
      WhereFrom(books, PricedUnder(threshold), b);
      assert b in books && b.price < threshold;
    }
    forall b, a | b in books && a in authors && b.authorId == a.id && b.price < threshold
      ensures TitleAuthorPrice(b.title, a.name, b.price) in CheapBooksWithAuthors(books, authors, threshold)
    {
      var cheap := Where(books, PricedUnder(threshold));
      assert PricedUnder(threshold)(b);
      WhereKeeps(books, PricedUnder(threshold), b);
      JoinMembership(cheap, authors, AuthorIdOf, IdOf, TitleAuthorPriceOf);
      assert TitleAuthorPriceOf(b, a) in CheapBooksWithAuthors(books, authors, threshold);
    }
  }

  // ---------------------------------------------------------------------------
  // PrintAllAuthorsInAgeRangeInOrder
  // ---------------------------------------------------------------------------

  /**
    The authors aged within the inclusive range, each as often as stored,
    youngest first; authors of the same age keep their store order.
   */
  lemma AuthorsInAgeRangeInOrderSpec(authors: seq<Author>, min: int, max: int)
    ensures SortedBy(AuthorsInAgeRangeInOrder(authors, min, max), AgeOf)
    ensures forall a ::
      multiset(AuthorsInAgeRangeInOrder(authors, min, max))[a] == (if min <= a.age <= max then multiset(authors)[a] else 0)
    ensures forall age :: min <= age <= max ==>
      Where(AuthorsInAgeRangeInOrder(authors, min, max), KeyIs(AgeOf, age)) == Where(authors, KeyIs(AgeOf, age))
  {
    var inRange := Where(authors, AgedWithin(min, max));
    OrderBySorted(inRange, AgeOf);
    OrderByPermutes(inRange, AgeOf);
    WhereMultiset(authors, AgedWithin(min, max));
    forall age | min <= age <= max
      ensures Where(AuthorsInAgeRangeInOrder(authors, min, max), KeyIs(AgeOf, age)) == Where(authors, KeyIs(AgeOf, age))
    {
      AgeRangeKeepsAgeGroup(authors, min, max, age);
    }
  }

  /** The authors of one age inside the range come out in the order they were stored. */
  lemma AgeRangeKeepsAgeGroup(authors: seq<Author>, min: int, max: int, age: int)
    requires min <= age <= max
    ensures Where(AuthorsInAgeRangeInOrder(authors, min, max), KeyIs(AgeOf, age)) == Where(authors, KeyIs(AgeOf, age))
  {
    var inRange := Where(authors, AgedWithin(min, max));
    OrderByStable(inRange, AgeOf, age);
    forall a: Author
      ensures KeyIs(AgeOf, age)(a) ==> AgedWithin(min, max)(a)
    {
      assert KeyIs(AgeOf, age)(a) == (AgeOf(a) == age);
    }
    WhereOfWhere(authors, AgedWithin(min, max), KeyIs(AgeOf, age));
  }

  // ---------------------------------------------------------------------------
  // Per-author groups joined with the authors
  // ---------------------------------------------------------------------------

  /** The books of one author, in store order: the group `GroupBy(AuthorId)` forms for `id`. */
  function BooksOf(books: seq<Book>, id: int): seq<Book> {
    Where(books, KeyIs(AuthorIdOf, id))
  }

  /** An `AuthorId` has a group exactly when that author has at least one book. */
  lemma AuthorGroups(books: seq<Book>)
    ensures forall g :: g in GroupBy(books, AuthorIdOf) <==> BooksBy(books, g.key) > 0 && g.elements == BooksOf(books, g.key)
  {
    GroupByMembership(books, AuthorIdOf);
    forall id
      ensures id in Select(books, AuthorIdOf) <==> BooksBy(books, id) > 0
    {
      if id in Select(books, AuthorIdOf) {
        var k :| 0 <= k < |books| && Select(books, AuthorIdOf)[k] == id;
        assert KeyIs(AuthorIdOf, id)(books[k]);
        WhereKeeps(books, KeyIs(AuthorIdOf, id), books[k]);
      }
      if BooksBy(books, id) > 0 {
        var b := BooksOf(books, id)[0];
        WhereFrom(books, KeyIs(AuthorIdOf, id), b);
        assert b in books && KeyIs(AuthorIdOf, id)(b);
        var k :| 0 <= k < |books| && books[k] == b;
        assert Select(books, AuthorIdOf)[k] == id;
      }
    }
  }

  /**
    A per-author summary joined with the authors: every row comes from an
    author who has books, summarising exactly that author's books.
   */
  lemma AuthorSummarySound<X, R>(books: seq<Book>, authors: seq<Author>, summary: Grouping<int, Book> -> X,
                                 idOf: X -> int, sel: (X, Author) -> R, x: R)
    requires forall g :: idOf(summary(g)) == g.key
    requires x in Join(Select(GroupBy(books, AuthorIdOf), summary), authors, idOf, IdOf, sel)
    ensures exists a :: a in authors && BooksBy(books, a.id) > 0 && x == sel(summary(Grouping(a.id, BooksOf(books, a.id))), a)
  {
    var groups := GroupBy(books, AuthorIdOf);
    var summaries := Select(groups, summary);
    JoinMembership(summaries, authors, idOf, IdOf, sel);
    var y, a :| y in summaries && a in authors && idOf(y) == IdOf(a) && x == sel(y, a);
    var i :| 0 <= i < |summaries| && summaries[i] == y;
    var g := groups[i];
    AuthorGroups(books);
    assert g in groups;
    assert g == Grouping(a.id, BooksOf(books, a.id));
  }

  /** Every author with books gets a row summarising exactly their books. */
  lemma AuthorSummaryComplete<X, R>(books: seq<Book>, authors: seq<Author>, summary: Grouping<int, Book> -> X,
                                    idOf: X -> int, sel: (X, Author) -> R, a: Author)
    requires forall g :: idOf(summary(g)) == g.key
    requires a in authors && BooksBy(books, a.id) > 0
    ensures sel(summary(Grouping(a.id, BooksOf(books, a.id))), a) in Join(Select(GroupBy(books, AuthorIdOf), summary), authors, idOf, IdOf, sel)
  {
    var groups := GroupBy(books, AuthorIdOf);
    var summaries := Select(groups, summary);
    var g := Grouping(a.id, BooksOf(books, a.id));
    AuthorGroupOf(books, a.id);
    var i :| 0 <= i < |groups| && groups[i] == g;
    var y := summaries[i];
    assert y == summary(g) && y in summaries;
    JoinContains(summaries, authors, idOf, IdOf, sel, y, a);
  }

  lemma AuthorGroupOf(books: seq<Book>, id: int)
    requires BooksBy(books, id) > 0
    ensures Grouping(id, BooksOf(books, id)) in GroupBy(books, AuthorIdOf)
  {
    AuthorGroups(books);
  }

  /** The author predicate "has at least one book in the store". */
  function HasBooks(books: seq<Book>): Author -> bool {
    (a: Author) => BooksBy(books, a.id) > 0
  }

  /** Among the per-author summaries, exactly one carries an `AuthorId` with books, and none carries any other. */
  lemma SummariesWithId<X>(books: seq<Book>, summary: Grouping<int, Book> -> X, idOf: X -> int, id: int)
    requires forall g :: idOf(summary(g)) == g.key
    ensures Count(Select(GroupBy(books, AuthorIdOf), summary), KeyIs(idOf, id)) == if BooksBy(books, id) > 0 then 1 else 0
  {
    var groups := GroupBy(books, AuthorIdOf);
    var summaries := Select(groups, summary);
    var keys := Select(groups, KeyOf);
    GroupByKeyMembership(books, AuthorIdOf);
    AuthorGroups(books);
    assert forall i :: 0 <= i < |summaries| ==> idOf(summaries[i]) == keys[i];
    if BooksBy(books, id) > 0 {
      AtMostOneWithKey(summaries, idOf, id);
      AuthorGroupOf(books, id);
      var i :| 0 <= i < |groups| && groups[i] == Grouping(id, BooksOf(books, id));
      assert KeyIs(idOf, id)(summaries[i]);
      WhereKeeps(summaries, KeyIs(idOf, id), summaries[i]);
    } else {
      forall i | 0 <= i < |summaries|
        ensures !KeyIs(idOf, id)(summaries[i])
      {
        assert groups[i] in groups;
      }
      WhereNone(summaries, KeyIs(idOf, id));
    }
  }

  /** A per-author summary joined with the authors has one row per author record with books. */
  lemma AuthorSummaryRows<X, R>(books: seq<Book>, authors: seq<Author>, summary: Grouping<int, Book> -> X,
                                idOf: X -> int, sel: (X, Author) -> R)
    requires forall g :: idOf(summary(g)) == g.key
    ensures |Join(Select(GroupBy(books, AuthorIdOf), summary), authors, idOf, IdOf, sel)| == Count(authors, HasBooks(books))
  {
    var summaries := Select(GroupBy(books, AuthorIdOf), summary);
    JoinLengthByInner(summaries, authors, idOf, IdOf, sel);
    forall i | 0 <= i < |authors|
      ensures OuterMatches(summaries, idOf, IdOf)(authors[i]) == Indicator(HasBooks(books))(authors[i])
    {
      var a := authors[i];
      SummariesWithId(books, summary, idOf, a.id);
      assert OuterMatches(summaries, idOf, IdOf)(a) == Count(summaries, KeyIs(idOf, IdOf(a)));
      assert IdOf(a) == a.id;
      assert Indicator(HasBooks(books))(a) == if BooksBy(books, a.id) > 0 then 1 else 0;
    }
    SumSame(authors, OuterMatches(summaries, idOf, IdOf), Indicator(HasBooks(books)));
    SumIndicator(authors, HasBooks(books));
  }

  /** The author has books, and the row its summary forms with it is `v`. */
  function SummarisedAs<X, R(==)>(books: seq<Book>, summary: Grouping<int, Book> -> X, sel: (X, Author) -> R, v: R): Author -> bool {
    (a: Author) => BooksBy(books, a.id) > 0 && sel(summary(Grouping(a.id, BooksOf(books, a.id))), a) == v
  }

  /** One author record forms the row `v` with the summaries once if its own summary gives `v`, else never. */
  lemma AuthorSummaryRow<X, R>(books: seq<Book>, summaries: seq<X>, summary: Grouping<int, Book> -> X,
                               idOf: X -> int, sel: (X, Author) -> R, v: R, a: Author)
    requires forall g :: idOf(summary(g)) == g.key
    requires summaries == Select(GroupBy(books, AuthorIdOf), summary)
    ensures RowsWith(summaries, idOf, IdOf, sel, v)(a) == Indicator(SummarisedAs(books, summary, sel, v))(a)
  {
    var groups := GroupBy(books, AuthorIdOf);
    var pairs := PairsInto(a, idOf, IdOf, sel, v);
    var hasId := KeyIs(idOf, a.id);
    var forms := (y: X) => sel(y, a) == v;
    assert RowsWith(summaries, idOf, IdOf, sel, v)(a) == Count(summaries, pairs);
    forall y
      ensures pairs(y) == (hasId(y) && forms(y))
    {
      assert IdOf(a) == a.id;
    }
    WhereWhere(summaries, hasId, forms, pairs);
    SummariesWithId(books, summary, idOf, a.id);
    var mine := Where(summaries, hasId);
    if BooksBy(books, a.id) > 0 {
      var w := mine[0];
      assert mine == [w];
      WhereFrom(summaries, hasId, w);
      var i :| 0 <= i < |summaries| && summaries[i] == w;
      AuthorGroups(books);
      assert groups[i] in groups;
      assert groups[i] == Grouping(a.id, BooksOf(books, a.id));
      WhereSingle(w, forms);
    } else {
      assert mine == [];
    }
  }

  /**
    How often a per-author summary joined with the authors holds the row `v`:
    once per author record with books whose own summary gives `v`.
   */
  lemma AuthorSummaryMultiplicity<X, R>(books: seq<Book>, authors: seq<Author>, summary: Grouping<int, Book> -> X,
                                        idOf: X -> int, sel: (X, Author) -> R, v: R)
    requires forall g :: idOf(summary(g)) == g.key
    ensures multiset(Join(Select(GroupBy(books, AuthorIdOf), summary), authors, idOf, IdOf, sel))[v]
      == Count(authors, SummarisedAs(books, summary, sel, v))
  {
    var summaries := Select(GroupBy(books, AuthorIdOf), summary);
    var rows := RowsWith(summaries, idOf, IdOf, sel, v);
    JoinMultiplicityByInner(summaries, authors, idOf, IdOf, sel, v);
    forall i | 0 <= i < |authors|
      ensures rows(authors[i]) == Indicator(SummarisedAs(books, summary, sel, v))(authors[i])
    {
      AuthorSummaryRow(books, summaries, summary, idOf, sel, v, authors[i]);
    }
    SumSame(authors, rows, Indicator(SummarisedAs(books, summary, sel, v)));
    SumIndicator(authors, SummarisedAs(books, summary, sel, v));
  }

  /** The author has books, and `x` is their name with their number of books. */
  function CountedAs(books: seq<Book>, x: NameCount): Author -> bool {
    (a: Author) => BooksBy(books, a.id) > 0 && x == NameCount(a.name, BooksBy(books, a.id))
  }

  /** A (name, count) row is listed once per author record with books that it describes. */
  lemma AuthorCountRows(books: seq<Book>, authors: seq<Author>, x: NameCount)
    ensures multiset(AuthorCounts(books, authors))[x] == Count(authors, CountedAs(books, x))
  {
    AuthorSummaryMultiplicity(books, authors, CountOfGroup, AuthorCountId, NamedCount, x);
    forall i | 0 <= i < |authors|
      ensures SummarisedAs(books, CountOfGroup, NamedCount, x)(authors[i]) == CountedAs(books, x)(authors[i])
    {
      var a := authors[i];
      assert NamedCount(CountOfGroup(Grouping(a.id, BooksOf(books, a.id))), a) == NameCount(a.name, BooksBy(books, a.id));
    }
    CountSame(authors, SummarisedAs(books, CountOfGroup, NamedCount, x), CountedAs(books, x));
  }

  /** The author has books, and `x` is their name with the total and number of their book prices. */
  function AveragedAs(books: seq<Book>, x: AuthorAverage): Author -> bool {
    (a: Author) => BooksBy(books, a.id) > 0 && x == AuthorAverage(a.name, Sum(BooksOf(books, a.id), PriceOf), BooksBy(books, a.id))
  }

  /** An average row is listed once per author record with books that it describes. */
  lemma AverageRows(books: seq<Book>, authors: seq<Author>, x: AuthorAverage)
    ensures multiset(AveragePricePerAuthor(books, authors))[x] == Count(authors, AveragedAs(books, x))
  {
    AuthorSummaryMultiplicity(books, authors, TotalOfGroup, TotalAuthorId, AverageRow, x);
    forall i | 0 <= i < |authors|
      ensures SummarisedAs(books, TotalOfGroup, AverageRow, x)(authors[i]) == AveragedAs(books, x)(authors[i])
    {
      var a := authors[i];
      assert AverageRow(TotalOfGroup(Grouping(a.id, BooksOf(books, a.id))), a)
        == AuthorAverage(a.name, Sum(BooksOf(books, a.id), PriceOf), BooksBy(books, a.id));
    }
    CountSame(authors, SummarisedAs(books, TotalOfGroup, AverageRow, x), AveragedAs(books, x));
  }

  /**
    Only authors with at least one book are listed, each with the number of
    books carrying their `Id`, and the counts never increase down the list.
   */
  lemma AuthorsOrderedByBookCountSpec(books: seq<Book>, authors: seq<Author>)
    ensures SortedDescendingBy(AuthorsOrderedByBookCount(books, authors), CountOf)
    ensures multiset(AuthorsOrderedByBookCount(books, authors)) == multiset(AuthorCounts(books, authors))
    ensures forall x :: x in AuthorsOrderedByBookCount(books, authors) <==>
      exists a :: a in authors && BooksBy(books, a.id) > 0 && x == NameCount(a.name, BooksBy(books, a.id))
    ensures |AuthorsOrderedByBookCount(books, authors)| == Count(authors, HasBooks(books))
    ensures forall x :: multiset(AuthorsOrderedByBookCount(books, authors))[x] == Count(authors, CountedAs(books, x))
  {
    var rows := AuthorCounts(books, authors);
    var r := AuthorsOrderedByBookCount(books, authors);
    OrderByDescendingSpec(rows, CountOf);
    forall x
      ensures multiset(r)[x] == Count(authors, CountedAs(books, x))
    {
      AuthorCountRows(books, authors, x);
    }
    AuthorSummaryRows(books, authors, CountOfGroup, AuthorCountId, NamedCount);
    assert |r| == |multiset(r)| == |multiset(rows)| == |rows|;
    forall x
      ensures x in r <==> x in rows
    {
      assert x in r <==> x in multiset(r);
      assert x in rows <==> x in multiset(rows);
    }
    forall x | x in rows
      ensures exists a :: a in authors && BooksBy(books, a.id) > 0 && x == NameCount(a.name, BooksBy(books, a.id))
    {
      AuthorSummarySound(books, authors, CountOfGroup, AuthorCountId, NamedCount, x);
    }
    forall a | a in authors && BooksBy(books, a.id) > 0
      ensures NameCount(a.name, BooksBy(books, a.id)) in rows
    {
      AuthorSummaryComplete(books, authors, CountOfGroup, AuthorCountId, NamedCount, a);
    }
  }

  /**
    One row per author with books, holding the total and the number of their
    book prices: the average the source prints is the first divided by the second.
   */
  lemma AveragePricePerAuthorSpec(books: seq<Book>, authors: seq<Author>)
    ensures forall x :: x in AveragePricePerAuthor(books, authors) <==>
      exists a :: a in authors && BooksBy(books, a.id) > 0
        && x == AuthorAverage(a.name, Sum(BooksOf(books, a.id), PriceOf), BooksBy(books, a.id))
    ensures |AveragePricePerAuthor(books, authors)| == Count(authors, HasBooks(books))
    ensures forall x :: multiset(AveragePricePerAuthor(books, authors))[x] == Count(authors, AveragedAs(books, x))
  {
    var r := AveragePricePerAuthor(books, authors);
    forall x
      ensures multiset(r)[x] == Count(authors, AveragedAs(books, x))
    {
      AverageRows(books, authors, x);
    }
    AuthorSummaryRows(books, authors, TotalOfGroup, TotalAuthorId, AverageRow);
    forall x | x in r
      ensures exists a ::
        a in authors && BooksBy(books, a.id) > 0 && x == AuthorAverage(a.name, Sum(BooksOf(books, a.id), PriceOf), BooksBy(books, a.id))
    {
      AuthorSummarySound(books, authors, TotalOfGroup, TotalAuthorId, AverageRow, x);
    }
    forall a | a in authors && BooksBy(books, a.id) > 0
      ensures AuthorAverage(a.name, Sum(BooksOf(books, a.id), PriceOf), BooksBy(books, a.id)) in r
    {
      AuthorSummaryComplete(books, authors, TotalOfGroup, TotalAuthorId, AverageRow, a);
    }
  }

  // ---------------------------------------------------------------------------
  // PrintAllAuthorsWhichWrittenABookIn2024
  // ---------------------------------------------------------------------------

  /** The book carries the author `id` and was published in 2024. */
  function WroteIn2024(id: int): Book -> bool {
    (b: Book) => b.authorId == id && b.yearPublished == TargetYear
  }

  /** How many rows naming `n` an author contributes: one per 2024 book if it is named `n`. */
  function RowsNamed(books: seq<Book>, n: string): Author -> int {
    (a: Author) => if a.name == n then Count(books, WroteIn2024(a.id)) else 0
  }

  /** A row for every pair of an author and one of their 2024 books, and no other rows. */
  lemma AuthorsWhoWroteIn2024Membership(authors: seq<Author>, books: seq<Book>)
    ensures forall x :: x in AuthorsWhoWroteIn2024(authors, books) <==>
      exists a, b :: a in authors && b in books && a.id == b.authorId && b.yearPublished == TargetYear
        && x == NameYear(a.name, TargetYear)
  {
    var joined := Join(authors, books, IdOf, AuthorIdOf, NameAndYear);
    var r := AuthorsWhoWroteIn2024(authors, books);
    forall x | x in r
      ensures exists a, b ::
        a in authors && b in books && a.id == b.authorId && b.yearPublished == TargetYear && x == NameYear(a.name, TargetYear)
    {
      WhereFrom(joined, InTargetYear, x);
      JoinMembership(authors, books, IdOf, AuthorIdOf, NameAndYear);
      var a, b :| a in authors && b in books && IdOf(a) == AuthorIdOf(b) && x == NameAndYear(a, b);
    }
    forall a, b | a in authors && b in books && a.id == b.authorId && b.yearPublished == TargetYear
      ensures NameYear(a.name, TargetYear) in r
    {
      JoinContains(authors, books, IdOf, AuthorIdOf, NameAndYear, a, b);
      var k :| 0 <= k < |joined| && joined[k] == NameAndYear(a, b);
      assert InTargetYear(joined[k]);
      WhereKeeps(joined, InTargetYear, joined[k]);
    }
  }

  /**
    Nothing is deduplicated: a name is listed once for every pair of an
    author bearing it and a 2024 book of theirs.
   */
  lemma {:induction false} AuthorsWhoWroteIn2024Rows(authors: seq<Author>, books: seq<Book>, n: string)
    ensures multiset(AuthorsWhoWroteIn2024(authors, books))[NameYear(n, TargetYear)] == Sum(authors, RowsNamed(books, n))
    decreases |authors|
  {
    if |authors| > 0 {
      var a0 := authors[0];
      var own := Matches(a0, books, IdOf, AuthorIdOf, NameAndYear);
      var rest := Join(authors[1..], books, IdOf, AuthorIdOf, NameAndYear);
      assert Join(authors, books, IdOf, AuthorIdOf, NameAndYear) == own + rest;
      WhereAppend(own, rest, InTargetYear);
      AuthorsWhoWroteIn2024Rows(authors[1..], books, n);
      OwnRowsIn2024(a0, books, n);
    }
  }

  /** One author's rows naming `n`. */
  lemma {:induction false} OwnRowsIn2024(a: Author, books: seq<Book>, n: string)
    ensures multiset(Where(Matches(a, books, IdOf, AuthorIdOf, NameAndYear), InTargetYear))[NameYear(n, TargetYear)]
      == RowsNamed(books, n)(a)
    decreases |books|
  {
    if |books| > 0 {
      var b := books[0];
      var head := if a.id == b.authorId then [NameAndYear(a, b)] else [];
      var tail := Matches(a, books[1..], IdOf, AuthorIdOf, NameAndYear);
      var rows := Where(Matches(a, books, IdOf, AuthorIdOf, NameAndYear), InTargetYear);
      assert rows == Where(head, InTargetYear) + Where(tail, InTargetYear) by {
        MatchesCons(a, books, IdOf, AuthorIdOf, NameAndYear);
        WhereAppend(head, tail, InTargetYear);
      }
      OwnRowsIn2024(a, books[1..], n);
      CountCons(books, WroteIn2024(a.id));
      HeadRowIn2024(a, b, n);
    }
  }

  /** The row one book contributes to an author's 2024 rows naming `n`. */
  lemma HeadRowIn2024(a: Author, b: Book, n: string)
    ensures multiset(Where(if a.id == b.authorId then [NameAndYear(a, b)] else [], InTargetYear))[NameYear(n, TargetYear)]
      == if a.name == n && WroteIn2024(a.id)(b) then 1 else 0
  {
    if a.id == b.authorId {
      assert [NameAndYear(a, b)][1..] == [];
    }
  }

  // ---------------------------------------------------------------------------
  // PrintBooksWithHighestPriceByYear
  // ---------------------------------------------------------------------------

  /**
    `b` is the first book of `s` with the largest price: nothing in `s` costs
    more, and everything before it costs strictly less.
   */
  ghost predicate FirstMostExpensive(b: Book, s: seq<Book>) {
    exists k :: 0 <= k < |s| && s[k] == b
      && (forall j :: 0 <= j < |s| ==> s[j].price <= b.price)
      && (forall j :: 0 <= j < k ==> s[j].price < b.price)
  }

  /** The per-year entries before sorting: one per group, in order of each year's first book. */
  function YearTops(books: seq<Book>): seq<YearTop> {
    Select(GroupBy(books, YearOf), TopOfYear)
  }

  /**
    One entry per publication year of the store, years strictly ascending,
    each naming the first book of its year with the largest price.
   */
  lemma BooksWithHighestPriceByYearSpec(books: seq<Book>)
    ensures forall i, j :: 0 <= i < j < |BooksWithHighestPriceByYear(books)| ==>
      BooksWithHighestPriceByYear(books)[i].year < BooksWithHighestPriceByYear(books)[j].year
    ensures forall y :: y in Select(BooksWithHighestPriceByYear(books), YearOfTop) <==> y in Select(books, YearOf)
    ensures forall e :: e in BooksWithHighestPriceByYear(books) ==>
      e.mostExpensive.Some? && FirstMostExpensive(e.mostExpensive.value, BooksPublishedInYear(books, e.year))
  {
    var tops := YearTops(books);
    YearTopsDistinct(books);
    OrderByDistinctKeys(tops, YearOfTop);
    YearTopsYears(books);
    SortedYears(tops);
    forall e | e in BooksWithHighestPriceByYear(books)
      ensures e.mostExpensive.Some? && FirstMostExpensive(e.mostExpensive.value, BooksPublishedInYear(books, e.year))
    {
      OrderByMembership(tops, YearOfTop);
      YearTopIsFirstMostExpensive(books, e);
    }
  }

  /** Sorting the entries keeps the set of years. */
  lemma SortedYears(tops: seq<YearTop>)
    ensures forall y :: y in Select(OrderBy(tops, YearOfTop), YearOfTop) <==> y in Select(tops, YearOfTop)
  {
    OrderByMembership(tops, YearOfTop);
    SelectMembership(tops, YearOfTop);
    SelectMembership(OrderBy(tops, YearOfTop), YearOfTop);
  }

  /** Each group key appears once, so the entries carry distinct years. */
  lemma YearTopsDistinct(books: seq<Book>)
    ensures forall i, j :: 0 <= i < j < |YearTops(books)| ==> YearTops(books)[i].year != YearTops(books)[j].year
  {
    var groups := GroupBy(books, YearOf);
    GroupByKeyMembership(books, YearOf);
    forall i, j | 0 <= i < j < |YearTops(books)|
      ensures YearTops(books)[i].year != YearTops(books)[j].year
    {
      assert Select(groups, KeyOf)[i] == YearTops(books)[i].year;
      assert Select(groups, KeyOf)[j] == YearTops(books)[j].year;
    }
  }

  /** A year has an entry exactly when some stored book was published in it. */
  lemma YearTopsYears(books: seq<Book>)
    ensures forall y :: y in Select(YearTops(books), YearOfTop) <==> y in Select(books, YearOf)
  {
    var groups := GroupBy(books, YearOf);
    assert Select(YearTops(books), YearOfTop) == Select(groups, KeyOf);
    GroupByKeyMembership(books, YearOf);
  }

  /** Every entry names the first of the most expensive books of its year. */
  lemma YearTopIsFirstMostExpensive(books: seq<Book>, e: YearTop)
    requires e in YearTops(books)
    ensures e.mostExpensive.Some? && FirstMostExpensive(e.mostExpensive.value, BooksPublishedInYear(books, e.year))
  {
    var groups := GroupBy(books, YearOf);
    var tops := YearTops(books);
    var i :| 0 <= i < |tops| && tops[i] == e;
    var g := groups[i];
    GroupByElements(books, YearOf);
    assert g.elements == BooksPublishedInYear(books, e.year) && |g.elements| > 0;
    var k := OrderByDescendingHead(g.elements, PriceOf);
    assert e.mostExpensive == Some(g.elements[k]);
  }

  // ---------------------------------------------------------------------------
  // PrintAllAuthorsWhichWrittenMoreThanTwoBooks
  // ---------------------------------------------------------------------------

  /** Every author-book pair contributed by one author carries that author. */
  lemma {:induction false} MatchesCarryAuthor(a: Author, books: seq<Book>)
    ensures forall i :: 0 <= i < |Matches(a, books, IdOf, AuthorIdOf, Pair)| ==> Matches(a, books, IdOf, AuthorIdOf, Pair)[i].author == a
    decreases |books|
  {
    if |books| > 0 {
      MatchesCarryAuthor(a, books[1..]);
    }
  }

  /**
    The pairs of an author record number its multiplicity in the store times
    its book count: the size of the group `GroupBy(author)` forms for it.
   */
  lemma {:induction false} PairsOfAuthor(authors: seq<Author>, books: seq<Book>, a: Author)
    ensures |Where(Authorships(authors, books), KeyIs(AuthorOf, a))| == multiset(authors)[a] * BooksBy(books, a.id)
    decreases |authors|
  {
    if |authors| > 0 {
      var a0 := authors[0];
      PairsOfAuthor(authors[1..], books, a);
      PairsSplit(authors, books, a);
      OwnPairs(a0, books, a);
      var m, c := multiset(authors[1..])[a], BooksBy(books, a.id);
      if a0 == a {
        Distribute(m, c);
      }
    }
  }

  /** The pairs of `a` come from the first author record and from the rest. */
  lemma PairsSplit(authors: seq<Author>, books: seq<Book>, a: Author)
    requires |authors| > 0
    ensures |Where(Authorships(authors, books), KeyIs(AuthorOf, a))|
      == |Where(Matches(authors[0], books, IdOf, AuthorIdOf, Pair), KeyIs(AuthorOf, a))| + |Where(Authorships(authors[1..], books), KeyIs(AuthorOf, a))|
    ensures multiset(authors)[a] == (if authors[0] == a then 1 else 0) + multiset(authors[1..])[a]
  {
    var own := Matches(authors[0], books, IdOf, AuthorIdOf, Pair);
    JoinCons(authors, books, IdOf, AuthorIdOf, Pair);
    WhereAppend(own, Authorships(authors[1..], books), KeyIs(AuthorOf, a));
    MultiplicityOfHead(authors, a);
  }

  lemma MultiplicityOfHead<T>(s: seq<T>, x: T)
    requires |s| > 0
    ensures multiset(s)[x] == (if s[0] == x then 1 else 0) + multiset(s[1..])[x]
  {
    assert s == [s[0]] + s[1..];
  }

  /** Kept apart from its one caller: inline, the multiplication exhausts the solver there. */
  lemma Distribute(m: int, c: int)
    ensures (m + 1) * c == m * c + c
  {
  }

  /** One author record's own pairs: all of its books if it is `a`, none otherwise. */
  lemma OwnPairs(a0: Author, books: seq<Book>, a: Author)
    ensures |Where(Matches(a0, books, IdOf, AuthorIdOf, Pair), KeyIs(AuthorOf, a))| == if a0 == a then BooksBy(books, a.id) else 0
  {
    var own := Matches(a0, books, IdOf, AuthorIdOf, Pair);
    MatchesCarryAuthor(a0, books);
    if a0 == a {
      MatchesLength(a0, books, IdOf, AuthorIdOf, Pair);
      forall i | 0 <= i < |own|
        ensures KeyIs(AuthorOf, a)(own[i])
      {
        assert AuthorOf(own[i]) == a;
      }
      WhereAll(own, KeyIs(AuthorOf, a));
    } else {
      WhereNone(own, KeyIs(AuthorOf, a));
    }
  }

  /** Under the primary key, a stored author record occurs exactly once. */
  lemma {:induction false} StoredOnce(authors: seq<Author>, a: Author)
    requires UniqueAuthorIds(authors) && a in authors
    ensures multiset(authors)[a] == 1
    decreases |authors|
  {
    assert authors == [authors[0]] + authors[1..];
    if authors[0] == a {
      assert a !in authors[1..];
    } else {
      StoredOnce(authors[1..], a);
    }
  }

  /** An author record heads some author-book pair exactly when it is stored and has books. */
  lemma PairAuthors(authors: seq<Author>, books: seq<Book>, a: Author)
    ensures a in Select(Authorships(authors, books), AuthorOf) <==> a in authors && BooksBy(books, a.id) > 0
  {
    var pairs := Authorships(authors, books);
    if a in Select(pairs, AuthorOf) {
      var k :| 0 <= k < |pairs| && Select(pairs, AuthorOf)[k] == a;
      JoinMembership(authors, books, IdOf, AuthorIdOf, Pair);
      assert pairs[k] in pairs;
      var a', b :| a' in authors && b in books && IdOf(a') == AuthorIdOf(b) && pairs[k] == Pair(a', b);
      var _ := IndexInBooksOf(books, a.id, b);
    }
    if a in authors && BooksBy(books, a.id) > 0 {
      var b := BooksOf(books, a.id)[0];
      WhereFrom(books, KeyIs(AuthorIdOf, a.id), b);
      assert b in books && KeyIs(AuthorIdOf, a.id)(b);
      JoinContains(authors, books, IdOf, AuthorIdOf, Pair, a, b);
      var k :| 0 <= k < |pairs| && pairs[k] == Pair(a, b);
      assert Select(pairs, AuthorOf)[k] == a;
    }
  }

  /** The author record has books, and `x` is its name with its number of pairs. */
  function PairedAs(authors: seq<Author>, books: seq<Book>, x: NameCount): Author -> bool {
    (a: Author) => BooksBy(books, a.id) > 0 && x == NameCount(a.name, multiset(authors)[a] * BooksBy(books, a.id))
  }

  /** A group of author-book pairs is counted as `x` exactly when its author record is paired as `x`. */
  lemma GroupCountedAs(authors: seq<Author>, books: seq<Book>, x: NameCount, g: Grouping<Author, Authorship>)
    requires g in GroupBy(Authorships(authors, books), AuthorOf)
    ensures KeyIs(AuthorBookCount, x)(g) == PairedAs(authors, books, x)(KeyOf(g))
  {
    var pairs := Authorships(authors, books);
    GroupByMembership(pairs, AuthorOf);
    PairAuthors(authors, books, g.key);
    PairsOfAuthor(authors, books, g.key);
    assert AuthorBookCount(g) == NameCount(g.key.name, multiset(authors)[g.key] * BooksBy(books, g.key.id));
  }

  /**
    How often the grouped query lists a (name, count) row: once per distinct
    author record with books described by it, provided the count exceeds two.
   */
  lemma MoreThanTwoRowsOf(authors: seq<Author>, books: seq<Book>, x: NameCount)
    ensures multiset(AuthorsWithMoreThanTwoBooks(authors, books))[x]
      == if x.count > 2 then Count(Distinct(authors), PairedAs(authors, books, x)) else 0
  {
    var pairs := Authorships(authors, books);
    var groups := GroupBy(pairs, AuthorOf);
    var counts := Select(groups, AuthorBookCount);
    var q := PairedAs(authors, books, x);
    WhereMultiset(counts, MoreThanTwo);
    SelectMultiplicity(groups, AuthorBookCount, x);
    forall i | 0 <= i < |groups|
      ensures KeyIs(AuthorBookCount, x)(groups[i]) == q(KeyOf(groups[i]))
    {
      GroupCountedAs(authors, books, x, groups[i]);
    }
    CountSelect(groups, KeyOf, q, KeyIs(AuthorBookCount, x));
    PairAuthorsDistinct(authors, books, q);
  }

  /** The group keys are the distinct author records with books, so they count alike. */
  lemma PairAuthorsDistinct(authors: seq<Author>, books: seq<Book>, q: Author -> bool)
    requires forall a :: q(a) ==> BooksBy(books, a.id) > 0
    ensures Count(Select(GroupBy(Authorships(authors, books), AuthorOf), KeyOf), q) == Count(Distinct(authors), q)
  {
    var pairs := Authorships(authors, books);
    var keys := Select(GroupBy(pairs, AuthorOf), KeyOf);
    var d := Distinct(authors);
    GroupByKeyMembership(pairs, AuthorOf);
    forall a
      ensures (a in keys && q(a)) == (a in d && q(a))
    {
      PairAuthors(authors, books, a);
      if a in authors {
        var i :| 0 <= i < |authors| && authors[i] == a;
        assert authors[i] in d;
      }
      if a in d {
        var i :| 0 <= i < |d| && d[i] == a;
        assert d[i] in authors;
      }
    }
    CountSameMembers(keys, q, d, q);
  }

  /**
    In general: a row per distinct author record with books, counting its
    pairs, kept when that count exceeds two.
   */
  lemma AuthorsWithMoreThanTwoBooksRows(authors: seq<Author>, books: seq<Book>)
    ensures forall x :: x in AuthorsWithMoreThanTwoBooks(authors, books) <==>
      exists a :: a in authors && BooksBy(books, a.id) > 0
        && x == NameCount(a.name, multiset(authors)[a] * BooksBy(books, a.id)) && x.count > 2
    ensures forall x :: multiset(AuthorsWithMoreThanTwoBooks(authors, books))[x] == if x.count > 2 then Count(Distinct(authors), PairedAs(authors, books, x)) else 0
  {
    forall x
      ensures multiset(AuthorsWithMoreThanTwoBooks(authors, books))[x]
        == if x.count > 2 then Count(Distinct(authors), PairedAs(authors, books, x)) else 0
    {
      MoreThanTwoRowsOf(authors, books, x);
    }
    forall x | x in AuthorsWithMoreThanTwoBooks(authors, books)
      ensures exists a ::
        a in authors && BooksBy(books, a.id) > 0 && x == NameCount(a.name, multiset(authors)[a] * BooksBy(books, a.id)) && x.count > 2
    {
      MoreThanTwoSound(authors, books, x);
    }
    forall a | a in authors && BooksBy(books, a.id) > 0 && multiset(authors)[a] * BooksBy(books, a.id) > 2
      ensures NameCount(a.name, multiset(authors)[a] * BooksBy(books, a.id)) in AuthorsWithMoreThanTwoBooks(authors, books)
    {
      MoreThanTwoComplete(authors, books, a);
    }
  }

  /** The author is named `n` and has exactly `c` books, more than two. */
  function NamedWithBooks(books: seq<Book>, n: string, c: int): Author -> bool {
    (a: Author) => a.name == n && c > 2 && BooksBy(books, a.id) == c
  }

  /** With the primary key in force, a (name, count) row is listed once per author it describes. */
  lemma MoreThanTwoRowsUnique(authors: seq<Author>, books: seq<Book>, n: string, c: int)
    requires UniqueAuthorIds(authors)
    ensures multiset(AuthorsWithMoreThanTwoBooks(authors, books))[NameCount(n, c)] == Count(authors, NamedWithBooks(books, n, c))
  {
    var x := NameCount(n, c);
    var q := PairedAs(authors, books, x);
    var w := NamedWithBooks(books, n, c);
    MoreThanTwoRowsOf(authors, books, x);
    if c > 2 {
      UniqueRecordsPaired(authors, books, x);
    } else {
      forall i | 0 <= i < |authors|
        ensures !w(authors[i])
      {
      }
      WhereNone(authors, w);
    }
  }

  /** Under the primary key every record is stored once, so counting distinct records paired as `x` counts the authors it names. */
  lemma UniqueRecordsPaired(authors: seq<Author>, books: seq<Book>, x: NameCount)
    requires UniqueAuthorIds(authors) && x.count > 2
    ensures Count(Distinct(authors), PairedAs(authors, books, x)) == Count(authors, NamedWithBooks(books, x.name, x.count))
  {
    var d := Distinct(authors);
    var q := PairedAs(authors, books, x);
    var w := NamedWithBooks(books, x.name, x.count);
    assert NoDuplicates(authors);
    forall a
      ensures (a in d && q(a)) == (a in authors && w(a))
    {
      if a in authors {
        var i :| 0 <= i < |authors| && authors[i] == a;
        assert authors[i] in d;
        StoredOnce(authors, a);
        assert multiset(authors)[a] * BooksBy(books, a.id) == BooksBy(books, a.id);
      }
      if a in d {
        var i :| 0 <= i < |d| && d[i] == a;
        assert d[i] in authors;
      }
    }
    CountSameMembers(d, q, authors, w);
  }

  /** With the primary key in force: exactly the authors with more than two books, each with their book count. */
  lemma AuthorsWithMoreThanTwoBooksSpec(authors: seq<Author>, books: seq<Book>)
    requires UniqueAuthorIds(authors)
    ensures forall x :: x in AuthorsWithMoreThanTwoBooks(authors, books) <==>
      exists a :: a in authors && BooksBy(books, a.id) > 2 && x == NameCount(a.name, BooksBy(books, a.id))
    ensures forall n, c :: multiset(AuthorsWithMoreThanTwoBooks(authors, books))[NameCount(n, c)] == Count(authors, NamedWithBooks(books, n, c))
  {
    forall n, c
      ensures multiset(AuthorsWithMoreThanTwoBooks(authors, books))[NameCount(n, c)] == Count(authors, NamedWithBooks(books, n, c))
    {
      MoreThanTwoRowsUnique(authors, books, n, c);
    }
    forall x | x in AuthorsWithMoreThanTwoBooks(authors, books)
      ensures exists a :: a in authors && BooksBy(books, a.id) > 2 && x == NameCount(a.name, BooksBy(books, a.id))
    {
      MoreThanTwoSoundUnique(authors, books, x);
    }
    forall a | a in authors && BooksBy(books, a.id) > 2
      ensures NameCount(a.name, BooksBy(books, a.id)) in AuthorsWithMoreThanTwoBooks(authors, books)
    {
      StoredOnce(authors, a);
      assert multiset(authors)[a] * BooksBy(books, a.id) == BooksBy(books, a.id);
      MoreThanTwoComplete(authors, books, a);
    }
  }

  lemma MoreThanTwoSoundUnique(authors: seq<Author>, books: seq<Book>, x: NameCount)
    requires UniqueAuthorIds(authors)
    requires x in AuthorsWithMoreThanTwoBooks(authors, books)
    ensures exists a :: a in authors && BooksBy(books, a.id) > 2 && x == NameCount(a.name, BooksBy(books, a.id))
  {
    MoreThanTwoSound(authors, books, x);
    var a :| a in authors && BooksBy(books, a.id) > 0
      && x == NameCount(a.name, multiset(authors)[a] * BooksBy(books, a.id)) && x.count > 2;
    StoredOnce(authors, a);
    assert multiset(authors)[a] * BooksBy(books, a.id) == BooksBy(books, a.id);
  }

  lemma MoreThanTwoSound(authors: seq<Author>, books: seq<Book>, x: NameCount)
    requires x in AuthorsWithMoreThanTwoBooks(authors, books)
    ensures exists a ::
      a in authors && BooksBy(books, a.id) > 0 && x == NameCount(a.name, multiset(authors)[a] * BooksBy(books, a.id)) && x.count > 2
  {
    var pairs := Authorships(authors, books);
    var groups := GroupBy(pairs, AuthorOf);
    var counts := Select(groups, AuthorBookCount);
    WhereFrom(counts, MoreThanTwo, x);
    assert x in counts && x.count > 2;
    var i :| 0 <= i < |counts| && counts[i] == x;
    var g := groups[i];
    GroupByMembership(pairs, AuthorOf);
    assert g in groups;
    var a := g.key;
    var k :| 0 <= k < |pairs| && Select(pairs, AuthorOf)[k] == a;
    JoinMembership(authors, books, IdOf, AuthorIdOf, Pair);
    assert pairs[k] in pairs;
    var a', b :| a' in authors && b in books && IdOf(a') == AuthorIdOf(b) && pairs[k] == Pair(a', b);
    var _ := IndexInBooksOf(books, a.id, b);
    PairsOfAuthor(authors, books, a);
  }

  lemma MoreThanTwoComplete(authors: seq<Author>, books: seq<Book>, a: Author)
    requires a in authors && BooksBy(books, a.id) > 0 && multiset(authors)[a] * BooksBy(books, a.id) > 2
    ensures NameCount(a.name, multiset(authors)[a] * BooksBy(books, a.id)) in AuthorsWithMoreThanTwoBooks(authors, books)
  {
    var groups := GroupBy(Authorships(authors, books), AuthorOf);
    var counts := Select(groups, AuthorBookCount);
    var g := AuthorGroupPresent(authors, books, a);
    var i :| 0 <= i < |groups| && groups[i] == g;
    assert counts[i] == NameCount(a.name, multiset(authors)[a] * BooksBy(books, a.id));
    assert counts[i] in counts && MoreThanTwo(counts[i]);
    WhereKeeps(counts, MoreThanTwo, counts[i]);
  }

  /** An author record with books has its group among the author groups, as large as its pairs. */
  lemma AuthorGroupPresent(authors: seq<Author>, books: seq<Book>, a: Author) returns (g: Grouping<Author, Authorship>)
    requires a in authors && BooksBy(books, a.id) > 0
    ensures g in GroupBy(Authorships(authors, books), AuthorOf)
    ensures g.key == a && |g.elements| == multiset(authors)[a] * BooksBy(books, a.id)
  {
    var pairs := Authorships(authors, books);
    var b := BooksOf(books, a.id)[0];
    WhereFrom(books, KeyIs(AuthorIdOf, a.id), b);
    assert b in books && KeyIs(AuthorIdOf, a.id)(b);
    JoinContains(authors, books, IdOf, AuthorIdOf, Pair, a, b);
    var k :| 0 <= k < |pairs| && pairs[k] == Pair(a, b);
    assert Select(pairs, AuthorOf)[k] == a;
    g := Grouping(a, Where(pairs, KeyIs(AuthorOf, a)));
    GroupOfKey(pairs, AuthorOf, a);
    PairsOfAuthor(authors, books, a);
  }

  // ---------------------------------------------------------------------------
  // PrintAuthorsWithBooksInMultipleYears
  // ---------------------------------------------------------------------------

  /** Two of the author's books were published in different years. */
  ghost predicate PublishedInSeveralYears(books: seq<Book>, id: int) {
    exists b1, b2 :: b1 in books && b2 in books && b1.authorId == id && b2.authorId == id && b1.yearPublished != b2.yearPublished
  }

  /** Counting the distinct years of an author's group detects exactly two different years. */
  lemma SeveralYearsOfGroup(books: seq<Book>, id: int)
    ensures YearsOfGroup(Grouping(id, BooksOf(books, id))).years > 1 <==> PublishedInSeveralYears(books, id)
  {
    var years := Select(BooksOf(books, id), YearOf);
    DistinctMoreThanOne(years);
    if PublishedInSeveralYears(books, id) {
      TwoYearsCounted(books, id);
    }
    if |Distinct(years)| > 1 {
      TwoYearsFound(books, id);
    }
  }

  lemma TwoYearsCounted(books: seq<Book>, id: int)
    requires PublishedInSeveralYears(books, id)
    ensures exists i, j :: (0 <= i < |Select(BooksOf(books, id), YearOf)| && 0 <= j < |Select(BooksOf(books, id), YearOf)|
      && Select(BooksOf(books, id), YearOf)[i] != Select(BooksOf(books, id), YearOf)[j])
  {
    var years := Select(BooksOf(books, id), YearOf);
    var b1, b2 :| b1 in books && b2 in books && b1.authorId == id && b2.authorId == id && b1.yearPublished != b2.yearPublished;
    var i := IndexInBooksOf(books, id, b1);
    var j := IndexInBooksOf(books, id, b2);
    assert years[i] != years[j];
  }

  lemma TwoYearsFound(books: seq<Book>, id: int)
    requires exists i, j :: (0 <= i < |Select(BooksOf(books, id), YearOf)| && 0 <= j < |Select(BooksOf(books, id), YearOf)|
      && Select(BooksOf(books, id), YearOf)[i] != Select(BooksOf(books, id), YearOf)[j])
    ensures PublishedInSeveralYears(books, id)
  {
    var mine := BooksOf(books, id);
    var years := Select(mine, YearOf);
    var i, j :| 0 <= i < |years| && 0 <= j < |years| && years[i] != years[j];
    WhereFrom(books, KeyIs(AuthorIdOf, id), mine[i]);
    WhereFrom(books, KeyIs(AuthorIdOf, id), mine[j]);
    assert KeyIs(AuthorIdOf, id)(mine[i]) && KeyIs(AuthorIdOf, id)(mine[j]);
    assert mine[i] in books && mine[j] in books;
  }

  /** A book of the author has a place in the author's group. */
  lemma IndexInBooksOf(books: seq<Book>, id: int, b: Book) returns (i: nat)
    requires b in books && b.authorId == id
    ensures i < |BooksOf(books, id)| && BooksOf(books, id)[i] == b
    ensures BooksBy(books, id) > 0
  {
    var k :| 0 <= k < |books| && books[k] == b;
    assert KeyIs(AuthorIdOf, id)(books[k]);
    WhereKeeps(books, KeyIs(AuthorIdOf, id), b);
    assert b in BooksOf(books, id);
    i :| 0 <= i < |BooksOf(books, id)| && BooksOf(books, id)[i] == b;
  }

  /** A name is listed exactly when an author with that name published books in at least two different years. */
  lemma AuthorsWithBooksInMultipleYearsSpec(books: seq<Book>, authors: seq<Author>)
    ensures forall n :: n in AuthorsWithBooksInMultipleYears(books, authors) <==>
      exists a :: a in authors && a.name == n && PublishedInSeveralYears(books, a.id)
    ensures forall n :: multiset(AuthorsWithBooksInMultipleYears(books, authors))[n] == Count(authors, NamedSeveralYears(books, n))
  {
    forall n
      ensures multiset(AuthorsWithBooksInMultipleYears(books, authors))[n] == Count(authors, NamedSeveralYears(books, n))
    {
      MultipleYearsRows(books, authors, n);
    }
    forall n | n in AuthorsWithBooksInMultipleYears(books, authors)
      ensures exists a :: a in authors && a.name == n && PublishedInSeveralYears(books, a.id)
    {
      MultipleYearsSound(books, authors, n);
    }
    forall a | a in authors && PublishedInSeveralYears(books, a.id)
      ensures a.name in AuthorsWithBooksInMultipleYears(books, authors)
    {
      MultipleYearsComplete(books, authors, a);
    }
  }

  /** The author is named `n` and published in at least two different years. */
  ghost function NamedSeveralYears(books: seq<Book>, n: string): Author -> bool {
    (a: Author) => a.name == n && PublishedInSeveralYears(books, a.id)
  }

  /** Among the authors' year summaries kept for several years, one carries `id` exactly when that author published in several years. */
  lemma SeveralYearsSummaries(books: seq<Book>, id: int)
    ensures Count(Where(Select(GroupBy(books, AuthorIdOf), YearsOfGroup), SeveralYears), KeyIs(AuthorYearsId, id))
      == if PublishedInSeveralYears(books, id) then 1 else 0
  {
    var groups := GroupBy(books, AuthorIdOf);
    var summaries := Select(groups, YearsOfGroup);
    var hasId := KeyIs(AuthorYearsId, id);
    var both := (y: AuthorYears) => SeveralYears(y) && hasId(y);
    WhereWhere(summaries, SeveralYears, hasId, both);
    WhereWhere(summaries, hasId, SeveralYears, both);
    var mine := Where(summaries, hasId);
    SummariesWithId(books, YearsOfGroup, AuthorYearsId, id);
    if BooksBy(books, id) > 0 {
      var w := mine[0];
      assert mine == [w];
      WhereFrom(summaries, hasId, w);
      var i :| 0 <= i < |summaries| && summaries[i] == w;
      AuthorGroups(books);
      assert groups[i] in groups;
      assert groups[i] == Grouping(id, BooksOf(books, id));
      SeveralYearsOfGroup(books, id);
      WhereSingle(w, SeveralYears);
    } else {
      assert mine == [];
      if PublishedInSeveralYears(books, id) {
        var b :| b in books && b.authorId == id;
        var _ := IndexInBooksOf(books, id, b);
        assert false;
      }
    }
  }

  /** One author record contributes the name `n` once if it is named `n` and published in several years, else never. */
  lemma AuthorSeveralYearsRows(books: seq<Book>, several: seq<AuthorYears>, a: Author, n: string)
    requires several == Where(Select(GroupBy(books, AuthorIdOf), YearsOfGroup), SeveralYears)
    ensures RowsWith(several, AuthorYearsId, IdOf, NameOnly, n)(a) == Indicator(NamedSeveralYears(books, n))(a)
  {
    var pairs := PairsInto(a, AuthorYearsId, IdOf, NameOnly, n);
    assert RowsWith(several, AuthorYearsId, IdOf, NameOnly, n)(a) == Count(several, pairs);
    if a.name == n {
      forall i | 0 <= i < |several|
        ensures pairs(several[i]) == KeyIs(AuthorYearsId, a.id)(several[i])
      {
        assert IdOf(a) == a.id && NameOnly(several[i], a) == n;
      }
      CountSame(several, pairs, KeyIs(AuthorYearsId, a.id));
      SeveralYearsSummaries(books, a.id);
      assert Indicator(NamedSeveralYears(books, n))(a) == if PublishedInSeveralYears(books, a.id) then 1 else 0;
    } else {
      forall i | 0 <= i < |several|
        ensures !pairs(several[i])
      {
        assert NameOnly(several[i], a) != n;
      }
      WhereNone(several, pairs);
      assert Indicator(NamedSeveralYears(books, n))(a) == 0;
    }
  }

  /** A name is listed once per author record with that name who published in several years. */
  lemma MultipleYearsRows(books: seq<Book>, authors: seq<Author>, n: string)
    ensures multiset(AuthorsWithBooksInMultipleYears(books, authors))[n] == Count(authors, NamedSeveralYears(books, n))
  {
    var several := Where(Select(GroupBy(books, AuthorIdOf), YearsOfGroup), SeveralYears);
    var rows := RowsWith(several, AuthorYearsId, IdOf, NameOnly, n);
    JoinMultiplicityByInner(several, authors, AuthorYearsId, IdOf, NameOnly, n);
    forall i | 0 <= i < |authors|
      ensures rows(authors[i]) == Indicator(NamedSeveralYears(books, n))(authors[i])
    {
      AuthorSeveralYearsRows(books, several, authors[i], n);
    }
    SumSame(authors, rows, Indicator(NamedSeveralYears(books, n)));
    SumIndicator(authors, NamedSeveralYears(books, n));
  }

  lemma MultipleYearsSound(books: seq<Book>, authors: seq<Author>, n: string)
    requires n in AuthorsWithBooksInMultipleYears(books, authors)
    ensures exists a :: a in authors && a.name == n && PublishedInSeveralYears(books, a.id)
  {
    var groups := GroupBy(books, AuthorIdOf);
    var summaries := Select(groups, YearsOfGroup);
    var several := Where(summaries, SeveralYears);
    JoinMembership(several, authors, AuthorYearsId, IdOf, NameOnly);
    var y, a :| y in several && a in authors && AuthorYearsId(y) == IdOf(a) && n == NameOnly(y, a);
    WhereFrom(summaries, SeveralYears, y);
    assert y in summaries && y.years > 1;
    var i :| 0 <= i < |summaries| && summaries[i] == y;
    AuthorGroups(books);
    assert groups[i] in groups;
    assert groups[i] == Grouping(a.id, BooksOf(books, a.id));
    SeveralYearsOfGroup(books, a.id);
  }

  lemma MultipleYearsComplete(books: seq<Book>, authors: seq<Author>, a: Author)
    requires a in authors && PublishedInSeveralYears(books, a.id)
    ensures a.name in AuthorsWithBooksInMultipleYears(books, authors)
  {
    var groups := GroupBy(books, AuthorIdOf);
    var summaries := Select(groups, YearsOfGroup);
    var several := Where(summaries, SeveralYears);
    var g := Grouping(a.id, BooksOf(books, a.id));
    SeveralYearsOfGroup(books, a.id);
    var b :| b in books && b.authorId == a.id;
    var _ := IndexInBooksOf(books, a.id, b);
    AuthorGroupOf(books, a.id);
    var i :| 0 <= i < |groups| && groups[i] == g;
    var y := summaries[i];
    assert y == YearsOfGroup(g) && SeveralYears(y);
    WhereKeeps(summaries, SeveralYears, y);
    assert y in several;
    JoinContains(several, authors, AuthorYearsId, IdOf, NameOnly, y, a);
  }

  // ---------------------------------------------------------------------------
  // PrintUniquePublicationYears
  // ---------------------------------------------------------------------------

  /** Every publication year once, in order of first appearance in the store. */
  lemma UniquePublicationYearsSpec(books: seq<Book>)
    ensures NoDuplicates(UniquePublicationYears(books))
    ensures forall y :: y in UniquePublicationYears(books) <==> exists b :: b in books && b.yearPublished == y
    ensures UniquePublicationYears(books) == FirstOccurrences(Select(books, YearOf))
  {
    var years := Select(books, YearOf);
    var r := UniquePublicationYears(books);
    DistinctIsFirstOccurrences(years);
    SelectMembership(books, YearOf);
    forall y
      ensures y in r <==> y in years
    {
      if y in r {
        var i :| 0 <= i < |r| && r[i] == y;
      }
      if y in years {
        var i :| 0 <= i < |years| && years[i] == y;
      }
    }
  }

  // ---------------------------------------------------------------------------
  // PrintAllBooks, against the fixture of the unit test
  // ---------------------------------------------------------------------------

  const Fixture: seq<Book> := [
    Book(0, "1984", 1999, 1949, 1),
    Book(0, "Animal Farm", 999, 1945, 1),
    Book(0, "Brave New World", 1499, 1932, 2)
  ]

  /** A culture whose decimal separator is a comma. */
  function CommaPrice(p: Cents): string {
    HundredthsToString(p, ',')
  }

  /** Three stored books print a heading and three listing lines, as the unit test expects. */
  lemma AllBooksOnFixture()
    ensures |AllBooksOutput(Fixture, CommaPrice)| == 4
    ensures AllBooksOutput(Fixture, CommaPrice)[0] == "All books:"
    ensures AllBooksOutput(Fixture, CommaPrice)[1] == "Title: 1984, Price: 19,99, Year Published: 1949, Author ID: 1"
    ensures AllBooksOutput(Fixture, CommaPrice)[2] == "Title: Animal Farm, Price: 9,99, Year Published: 1945, Author ID: 1"
    ensures AllBooksOutput(Fixture, CommaPrice)[3] == "Title: Brave New World, Price: 14,99, Year Published: 1932, Author ID: 2"
  {
    var out := AllBooksOutput(Fixture, CommaPrice);
    FixtureNumerals();
    assert out[1] == ListingLine(ListingOf(Fixture[0]), CommaPrice);
    ListingLineParts(Fixture[0], CommaPrice, "19,99", "1949", "1");
    FixtureLiteral1();
    assert out[2] == ListingLine(ListingOf(Fixture[1]), CommaPrice);
    ListingLineParts(Fixture[1], CommaPrice, "9,99", "1945", "1");
    FixtureLiteral2();
    assert out[3] == ListingLine(ListingOf(Fixture[2]), CommaPrice);
    ListingLineParts(Fixture[2], CommaPrice, "14,99", "1932", "2");
    FixtureLiteral3();
  }

  lemma FixtureNumerals()
    ensures CommaPrice(1999) == "19,99" && CommaPrice(999) == "9,99" && CommaPrice(1499) == "14,99"
    ensures IntToString(1949) == "1949" && IntToString(1945) == "1945" && IntToString(1932) == "1932"
    ensures IntToString(1) == "1" && IntToString(2) == "2"
  {
    FixturePrice1();
    FixturePrice2();
    FixturePrice3();
    FixtureYears();
  }

  lemma FixturePrice1()
    ensures CommaPrice(1999) == "19,99"
  {
    assert NatToString(19) == "19";
  }

  lemma FixturePrice2()
    ensures CommaPrice(999) == "9,99"
  {
  }

  lemma FixturePrice3()
    ensures CommaPrice(1499) == "14,99"
  {
    assert NatToString(14) == "14";
  }

  lemma FixtureYears()
    ensures IntToString(1949) == "1949" && IntToString(1945) == "1945" && IntToString(1932) == "1932"
  {
    assert NatToString(194) == "194" && NatToString(193) == "193";
  }

  lemma ListingLineParts(b: Book, renderPrice: Cents -> string, price: string, year: string, id: string)
    requires renderPrice(b.price) == price && IntToString(b.yearPublished) == year && IntToString(b.authorId) == id
    ensures ListingLine(ListingOf(b), renderPrice)
      == "Title: " + b.title + ", Price: " + price + ", Year Published: " + year + ", Author ID: " + id
  {
  }

  /** The solver needs line 1's literal assembled piece by piece: first its title and price. */
  lemma FixtureLiteral1Head()
    ensures "Title: " + "1984" + ", Price: " + "19,99" == "Title: 1984, Price: 19,99"
  {
    assert "Title: " + "1984" == "Title: 1984";
    assert "Title: 1984" + ", Price: " == "Title: 1984, Price: ";
  }

  /** Then its year and author. */
  lemma FixtureLiteral1()
    ensures "Title: " + "1984" + ", Price: " + "19,99" + ", Year Published: " + "1949" + ", Author ID: " + "1"
      == "Title: 1984, Price: 19,99, Year Published: 1949, Author ID: 1"
  {
    FixtureLiteral1Head();
    assert "Title: 1984, Price: 19,99" + ", Year Published: " == "Title: 1984, Price: 19,99, Year Published: ";
    assert "Title: 1984, Price: 19,99, Year Published: " + "1949" == "Title: 1984, Price: 19,99, Year Published: 1949";
    assert "Title: 1984, Price: 19,99, Year Published: 1949" + ", Author ID: " == "Title: 1984, Price: 19,99, Year Published: 1949, Author ID: ";
  }

  /** The solver needs line 2's literal assembled piece by piece: first its title and price. */
  lemma FixtureLiteral2Head()
    ensures "Title: " + "Animal Farm" + ", Price: " + "9,99" == "Title: Animal Farm, Price: 9,99"
  {
    assert "Title: " + "Animal Farm" == "Title: Animal Farm";
    assert "Title: Animal Farm" + ", Price: " == "Title: Animal Farm, Price: ";
  }

  /** Then its year and author. */
  lemma FixtureLiteral2()
    ensures "Title: " + "Animal Farm" + ", Price: " + "9,99" + ", Year Published: " + "1945" + ", Author ID: " + "1"
      == "Title: Animal Farm, Price: 9,99, Year Published: 1945, Author ID: 1"
  {
    FixtureLiteral2Head();
    assert "Title: Animal Farm, Price: 9,99" + ", Year Published: " == "Title: Animal Farm, Price: 9,99, Year Published: ";
    assert "Title: Animal Farm, Price: 9,99, Year Published: " + "1945" == "Title: Animal Farm, Price: 9,99, Year Published: 1945";
    assert "Title: Animal Farm, Price: 9,99, Year Published: 1945" + ", Author ID: " == "Title: Animal Farm, Price: 9,99, Year Published: 1945, Author ID: ";
  }

  /** The solver needs line 3's literal assembled piece by piece: first its title and price. */
  lemma FixtureLiteral3Head()
    ensures "Title: " + "Brave New World" + ", Price: " + "14,99" == "Title: Brave New World, Price: 14,99"
  {
    assert "Title: " + "Brave New World" == "Title: Brave New World";
    assert "Title: Brave New World" + ", Price: " == "Title: Brave New World, Price: ";
  }

  /** Then its year and author. */
  lemma FixtureLiteral3()
    ensures "Title: " + "Brave New World" + ", Price: " + "14,99" + ", Year Published: " + "1932" + ", Author ID: " + "2"
      == "Title: Brave New World, Price: 14,99, Year Published: 1932, Author ID: 2"
  {
    FixtureLiteral3Head();
    assert "Title: Brave New World, Price: 14,99" + ", Year Published: " == "Title: Brave New World, Price: 14,99, Year Published: ";
    assert "Title: Brave New World, Price: 14,99, Year Published: " + "1932" == "Title: Brave New World, Price: 14,99, Year Published: 1932";
    assert "Title: Brave New World, Price: 14,99, Year Published: 1932" + ", Author ID: " == "Title: Brave New World, Price: 14,99, Year Published: 1932, Author ID: ";
  }
}
