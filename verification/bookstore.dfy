/**
  The bookstore's two record kinds and every `BookstoreQueries.Print*` query,
  each as the list its LINQ pipeline builds before printing it. `DbSet`s are
  plain sequences in store order and the pipelines run with LINQ-to-objects
  semantics.

  Prices are C# `decimal` amounts with two fractional digits, held here as whole
  cents; integer thresholds given in whole currency units are scaled by
  `CentsPerUnit` before they are compared with a price.
 */
module Bookstore {
  import opened Linq
  import opened LinqOrdering
  import opened LinqGrouping
  import opened Text

  type Cents = int

  const CentsPerUnit: int := 100

  datatype Author = Author(id: int, name: string, age: int)

  datatype Book = Book(id: int, title: string, price: Cents, yearPublished: int, authorId: int)

  function IdOf(a: Author): int { a.id }
  function AgeOf(a: Author): int { a.age }
  function NameOf(a: Author): string { a.name }
  function AuthorIdOf(b: Book): int { b.authorId }
  function YearOf(b: Book): int { b.yearPublished }
  function PriceOf(b: Book): int { b.price }

  /** The number of books whose `AuthorId` is `id`. */
  function BooksBy(books: seq<Book>, id: int): nat {
    Count(books, KeyIs(AuthorIdOf, id))
  }

  /** The database's primary key on authors: no two authors share an `Id`. */
  ghost predicate UniqueAuthorIds(authors: seq<Author>) {
    forall i, j :: 0 <= i < j < |authors| ==> authors[i].id != authors[j].id
  }

  /** The foreign key from books to authors: every book's `AuthorId` names a stored author. */
  ghost predicate EveryBookHasAuthor(books: seq<Book>, authors: seq<Author>) {
    forall i :: 0 <= i < |books| ==> exists j :: 0 <= j < |authors| && authors[j].id == books[i].authorId
  }

  // ---------------------------------------------------------------------------
  // PrintAllBooks
  // ---------------------------------------------------------------------------

  datatype BookListing = BookListing(title: string, price: Cents, yearPublished: int, authorId: int)

  function ListingOf(b: Book): BookListing {
    BookListing(b.title, b.price, b.yearPublished, b.authorId)
  }

  function AllBooks(books: seq<Book>): (r: seq<BookListing>)
    ensures |r| == |books|
    ensures forall i :: 0 <= i < |r| ==>
      r[i].title == books[i].title && r[i].price == books[i].price
      && r[i].yearPublished == books[i].yearPublished && r[i].authorId == books[i].authorId
  {
    Select(books, ListingOf)
  }

  /**
    One printed line. How a `decimal` is written depends on the current
    culture (`19,99` or `19.99`), so the price rendering is a parameter.
   */
  function ListingLine(l: BookListing, renderPrice: Cents -> string): string {
    "Title: " + l.title + ", Price: " + renderPrice(l.price)
    + ", Year Published: " + IntToString(l.yearPublished) + ", Author ID: " + IntToString(l.authorId)
  }

  /** Everything `PrintAllBooks` writes: the heading, then one line per book. */
  function AllBooksOutput(books: seq<Book>, renderPrice: Cents -> string): seq<string> {
    ["All books:"] + Select(AllBooks(books), (l: BookListing) => ListingLine(l, renderPrice))
  }

  // ---------------------------------------------------------------------------
  // PrintAllBooksPublishedInYear
  // ---------------------------------------------------------------------------

  function PublishedIn(year: int): Book -> bool {
    KeyIs(YearOf, year)
  }

  function BooksPublishedInYear(books: seq<Book>, year: int): seq<Book> {
    Where(books, PublishedIn(year))
  }

  // ---------------------------------------------------------------------------
  // PrintAllAuthorsAndTheirBooks
  // ---------------------------------------------------------------------------

  datatype BookWithAuthor = BookWithAuthor(title: string, price: Cents, yearPublished: int, authorName: string)

  function WithAuthor(b: Book, a: Author): BookWithAuthor {
    BookWithAuthor(b.title, b.price, b.yearPublished, a.name)
  }

  function AuthorsAndTheirBooks(books: seq<Book>, authors: seq<Author>): seq<BookWithAuthor> {
    Join(books, authors, AuthorIdOf, IdOf, WithAuthor)
  }

  // ---------------------------------------------------------------------------
  // PrintAllBooksWithPriceBetweenBoundaries
  // ---------------------------------------------------------------------------

  function PricedWithin(min: int, max: int): Book -> bool {
    (b: Book) => min * CentsPerUnit <= b.price && b.price <= max * CentsPerUnit
  }

  function BooksWithPriceBetween(books: seq<Book>, min: int, max: int): seq<Book> {
    Where(books, PricedWithin(min, max))
  }

  // ---------------------------------------------------------------------------
  // PrintAllAuthorsWhichWrittenMoreThanTwoBooks
  // ---------------------------------------------------------------------------

  datatype Authorship = Authorship(author: Author, book: Book)

  function Pair(a: Author, b: Book): Authorship {
    Authorship(a, b)
  }

  function AuthorOf(p: Authorship): Author {
    p.author
  }

  datatype NameCount = NameCount(name: string, count: int)

  function AuthorBookCount(g: Grouping<Author, Authorship>): NameCount {
    NameCount(g.key.name, |g.elements|)
  }

  function MoreThanTwo(c: NameCount): bool {
    c.count > 2
  }

  /** Author-book pairs, in author order and then book order. */
  function Authorships(authors: seq<Author>, books: seq<Book>): seq<Authorship> {
    Join(authors, books, IdOf, AuthorIdOf, Pair)
  }

  /**
    The pairs are grouped by the author record itself, so each group is one
    author's pairs and its size that author's number of books.
   */
  function AuthorsWithMoreThanTwoBooks(authors: seq<Author>, books: seq<Book>): seq<NameCount> {
    Where(Select(GroupBy(Authorships(authors, books), AuthorOf), AuthorBookCount), MoreThanTwo)
  }

  // ---------------------------------------------------------------------------
  // PrintAllBooksWithNameContainingString
  // ---------------------------------------------------------------------------

  function TitleContains(str: string): Book -> bool {
    (b: Book) => Contains(b.title, str)
  }

  function BooksWithTitleContaining(books: seq<Book>, str: string): seq<Book> {
    Where(books, TitleContains(str))
  }

  // ---------------------------------------------------------------------------
  // PrintAllAuthorsInAgeRangeInOrder
  // ---------------------------------------------------------------------------

  function AgedWithin(min: int, max: int): Author -> bool {
    (a: Author) => min <= a.age && a.age <= max
  }

  function AuthorsInAgeRangeInOrder(authors: seq<Author>, min: int, max: int): seq<Author> {
    OrderBy(Where(authors, AgedWithin(min, max)), AgeOf)
  }

  // ---------------------------------------------------------------------------
  // PrintAllAuthorsWhichWrittenABookIn2024
  // ---------------------------------------------------------------------------

  const TargetYear: int := 2024

  datatype NameYear = NameYear(name: string, yearPublished: int)

  function NameAndYear(a: Author, b: Book): NameYear {
    NameYear(a.name, b.yearPublished)
  }

  function InTargetYear(r: NameYear): bool {
    r.yearPublished == TargetYear
  }

  /** One row per (author, book) pair published in 2024; nothing is deduplicated. */
  function AuthorsWhoWroteIn2024(authors: seq<Author>, books: seq<Book>): seq<NameYear> {
    Where(Join(authors, books, IdOf, AuthorIdOf, NameAndYear), InTargetYear)
  }

  // ---------------------------------------------------------------------------
  // PrintMostExpensiveBook
  // ---------------------------------------------------------------------------

  const NoBooksFound: string := "No books found."

  /** `OrderBy(Price).LastOrDefault()`. */
  function MostExpensiveBook(books: seq<Book>): (r: Option<Book>)
    ensures r.None? <==> |books| == 0
  {
    OrderByPermutes(books, PriceOf);
    LastOrDefault(OrderBy(books, PriceOf))
  }

  function MostExpensiveBookOutput(books: seq<Book>, renderPrice: Cents -> string): seq<string> {
    ["Most expensive book:"]
    + match MostExpensiveBook(books)
      case None => [NoBooksFound]
      case Some(b) => ["Title: " + b.title + ", Price: " + renderPrice(b.price)]
  }

  // ---------------------------------------------------------------------------
  // PrintAllBooksByAuthorName
  // ---------------------------------------------------------------------------

  function ByAuthorNamed(name: string): BookWithAuthor -> bool {
    (r: BookWithAuthor) => r.authorName == name
  }

  function BooksByAuthorName(books: seq<Book>, authors: seq<Author>, authorName: string): seq<BookWithAuthor> {
    Where(Join(books, authors, AuthorIdOf, IdOf, WithAuthor), ByAuthorNamed(authorName))
  }

  // ---------------------------------------------------------------------------
  // PrintBooksWithHighestPriceByYear
  // ---------------------------------------------------------------------------

  /** A year and its `OrderByDescending(Price).FirstOrDefault()` book. */
  datatype YearTop = YearTop(year: int, mostExpensive: Option<Book>)

  function TopOfYear(g: Grouping<int, Book>): YearTop {
    YearTop(g.key, FirstOrDefault(OrderByDescending(g.elements, PriceOf)))
  }

  function YearOfTop(e: YearTop): int {
    e.year
  }

  function BooksWithHighestPriceByYear(books: seq<Book>): seq<YearTop> {
    OrderBy(Select(GroupBy(books, YearOf), TopOfYear), YearOfTop)
  }

  // ---------------------------------------------------------------------------
  // PrintAuthorsWithBooksPricedOver
  // ---------------------------------------------------------------------------

  datatype NamedPrice = NamedPrice(name: string, title: string, price: Cents)

  function NamePriced(b: Book, a: Author): NamedPrice {
    NamedPrice(a.name, b.title, b.price)
  }

  function PricedOver(threshold: Cents): NamedPrice -> bool {
    (r: NamedPrice) => r.price > threshold
  }

  function NameOfRow(r: NamedPrice): string {
    r.name
  }

  function AuthorsWithBooksPricedOver(books: seq<Book>, authors: seq<Author>, threshold: Cents): seq<string> {
    Distinct(Select(Where(Join(books, authors, AuthorIdOf, IdOf, NamePriced), PricedOver(threshold)), NameOfRow))
  }

  // ---------------------------------------------------------------------------
  // PrintBooksAndAuthorsWithPriceLessThan
  // ---------------------------------------------------------------------------

  datatype TitleAuthorPrice = TitleAuthorPrice(title: string, authorName: string, price: Cents)

  function TitleAuthorPriceOf(b: Book, a: Author): TitleAuthorPrice {
    TitleAuthorPrice(b.title, a.name, b.price)
  }

  function PricedUnder(threshold: Cents): Book -> bool {
    (b: Book) => b.price < threshold
  }

  function RowPrice(r: TitleAuthorPrice): int {
    r.price
  }

  function CheapBooksWithAuthors(books: seq<Book>, authors: seq<Author>, threshold: Cents): seq<TitleAuthorPrice> {
    Join(Where(books, PricedUnder(threshold)), authors, AuthorIdOf, IdOf, TitleAuthorPriceOf)
  }

  function BooksAndAuthorsWithPriceLessThan(books: seq<Book>, authors: seq<Author>, threshold: Cents): seq<TitleAuthorPrice> {
    OrderBy(CheapBooksWithAuthors(books, authors, threshold), RowPrice)
  }

  // ---------------------------------------------------------------------------
  // PrintAuthorsWithBooksInMultipleYears
  // ---------------------------------------------------------------------------

  datatype AuthorYears = AuthorYears(authorId: int, years: int)

  function YearsOfGroup(g: Grouping<int, Book>): AuthorYears {
    AuthorYears(g.key, |Distinct(Select(g.elements, YearOf))|)
  }

  function SeveralYears(y: AuthorYears): bool {
    y.years > 1
  }

  function AuthorYearsId(y: AuthorYears): int {
    y.authorId
  }

  function NameOnly(y: AuthorYears, a: Author): string {
    a.name
  }

  function AuthorsWithBooksInMultipleYears(books: seq<Book>, authors: seq<Author>): seq<string> {
    Join(Where(Select(GroupBy(books, AuthorIdOf), YearsOfGroup), SeveralYears), authors, AuthorYearsId, IdOf, NameOnly)
  }

  // ---------------------------------------------------------------------------
  // PrintBooksPricedAboveAverage
  // ---------------------------------------------------------------------------

  /** `price > sum / n`, written without the division (`n` is positive). */
  function AboveAverage(sum: int, n: int): Book -> bool {
    (b: Book) => b.price * n > sum
  }

  /** `Average` throws on an empty store; otherwise the books strictly above it, in store order. */
  function BooksPricedAboveAverage(books: seq<Book>): Result<seq<Book>> {
    if |books| == 0 then Failure(NoElements)
    else Success(Where(books, AboveAverage(Sum(books, PriceOf), |books|)))
  }

  // ---------------------------------------------------------------------------
  // PrintAverageBookPricePerAuthor
  // ---------------------------------------------------------------------------

  /** An author's price total and book count; the average is their quotient. */
  datatype PriceTotal = PriceTotal(authorId: int, priceSum: Cents, count: int)

  datatype AuthorAverage = AuthorAverage(authorName: string, priceSum: Cents, count: int)

  function TotalOfGroup(g: Grouping<int, Book>): PriceTotal {
    PriceTotal(g.key, Sum(g.elements, PriceOf), |g.elements|)
  }

  function TotalAuthorId(t: PriceTotal): int {
    t.authorId
  }

  function AverageRow(t: PriceTotal, a: Author): AuthorAverage {
    AuthorAverage(a.name, t.priceSum, t.count)
  }

  function AveragePricePerAuthor(books: seq<Book>, authors: seq<Author>): seq<AuthorAverage> {
    Join(Select(GroupBy(books, AuthorIdOf), TotalOfGroup), authors, TotalAuthorId, IdOf, AverageRow)
  }

  // ---------------------------------------------------------------------------
  // PrintBooksWithTitleLongerThan
  // ---------------------------------------------------------------------------

  function TitleLongerThan(length: int): Book -> bool {
    (b: Book) => |b.title| > length
  }

  function BooksWithTitleLongerThan(books: seq<Book>, length: int): seq<Book> {
    Where(books, TitleLongerThan(length))
  }

  // ---------------------------------------------------------------------------
  // PrintBooksByAuthorsStartingWith
  // ---------------------------------------------------------------------------

  datatype TitleAuthor = TitleAuthor(title: string, authorName: string)

  function NameStartsWith(initial: char): Author -> bool {
    (a: Author) => StartsWith(a.name, initial)
  }

  function TitleAuthorOf(a: Author, b: Book): TitleAuthor {
    TitleAuthor(b.title, a.name)
  }

  function BooksByAuthorsStartingWith(authors: seq<Author>, books: seq<Book>, initial: char): seq<TitleAuthor> {
    Join(Where(authors, NameStartsWith(initial)), books, IdOf, AuthorIdOf, TitleAuthorOf)
  }

  // ---------------------------------------------------------------------------
  // PrintAuthorsOrderedByBookCount
  // ---------------------------------------------------------------------------

  datatype AuthorCount = AuthorCount(authorId: int, count: int)

  function CountOfGroup(g: Grouping<int, Book>): AuthorCount {
    AuthorCount(g.key, |g.elements|)
  }

  function AuthorCountId(c: AuthorCount): int {
    c.authorId
  }

  function NamedCount(c: AuthorCount, a: Author): NameCount {
    NameCount(a.name, c.count)
  }

  function CountOf(r: NameCount): int {
    r.count
  }

  function AuthorCounts(books: seq<Book>, authors: seq<Author>): seq<NameCount> {
    Join(Select(GroupBy(books, AuthorIdOf), CountOfGroup), authors, AuthorCountId, IdOf, NamedCount)
  }

  function AuthorsOrderedByBookCount(books: seq<Book>, authors: seq<Author>): seq<NameCount> {
    OrderByDescending(AuthorCounts(books, authors), CountOf)
  }

  // ---------------------------------------------------------------------------
  // PrintUniquePublicationYears
  // ---------------------------------------------------------------------------

  function UniquePublicationYears(books: seq<Book>): seq<int> {
    Distinct(Select(books, YearOf))
  }
}
