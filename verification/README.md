# Bookstore queries and behavioural patterns, modelled in Dafny

This project models two parts of a .NET practice repository:

- **The bookstore LINQ exercises** (`BookstoreQueries`). Two record kinds are stored: authors and books. Each `Print*` method runs one LINQ pipeline over them and prints the result.
- **The design-pattern demonstrations:**
  - a support-ticket chain of responsibility;
  - a smart-home mediator;
  - a weather-station observer;
  - a smart-home template method;
  - a message decorator;
  - a lazily created singleton.

Everything is pure and functional. Records are datatypes. A database table is a sequence in store order. Every query is a function that returns the rows its pipeline builds.

Each pattern demonstration becomes a function that returns what it prints: the console lines, or a trace of steps from which the lines are read off. Mutable objects become immutable state records with transition functions:

- the observer list;
- the hub links;
- the singleton's static slot.

The files:

- `linq.dfy` (module `Linq`): LINQ-to-objects operators, written once and generically.
  - `Where`, `Select`, `Count`, `Sum`, `FirstOrDefault`, `LastOrDefault`, `Distinct` and the inner `Join`.
  - Each has reference lemmas: membership, multiplicities, order, and concatenation.
  - `Distinct` is proved equal to an independent "first occurrences" definition.
- `linq_grouping.dfy` (module `LinqGrouping`): `GroupBy`. Groups appear in order of their keys' first appearance, and each group holds its elements in source order.
- `linq_ordering.dfy` (module `LinqOrdering`): `OrderBy` and `OrderByDescending`, written as a stable insertion sort. The results are proved sorted, a permutation of the input, and stable (elements with equal keys keep their relative order).
- `text.dfy` (module `Text`): substring tests, and integer formatting with a parser that reads the number back.
- `bookstore.dfy` (module `Bookstore`): the records and every query.
- `bookstore_properties.dfy` (module `BookstoreProperties`): for each query, what it returns, stated in terms of the stored records. It also holds the output on the unit test's fixture.
- `support_tickets.dfy`, `smart_home_hub.dfy`, `weather_station.dfy`, `smart_home_template.dfy`, `message_decorator.dfy`, `singleton.dfy`: one module per pattern.

Prices are C# `decimal`s with two fractional digits. They are held as whole cents. The price range query takes integer bounds in whole currency units, and these are scaled by 100 before they are compared with a price.

The culture decides how a `decimal` is written (`19,99` or `19.99`). The rendering is therefore a parameter, `renderPrice`. The fixture lemmas use a comma culture, as the unit test expects.

## Model

| member | source | states |
|---|---|---|
| Linq.WhereSpec | LINQ_exercises/LINQ_exercises/BookstoreQuerries.cs:68 | A filtered sequence is exactly what satisfies the predicate. Each kept element keeps its multiplicity, and the result is a subsequence of the input, so order is kept. |
| Linq.WhereAppend | LINQ_exercises/LINQ_exercises/BookstoreQuerries.cs:99 | Filtering distributes over concatenation. |
| Linq.Select | LINQ_exercises/LINQ_exercises/BookstoreQuerries.cs:55 | The projection has one element per input element: position i holds the image of input i. |
| Linq.SelectMembership | LINQ_exercises/LINQ_exercises/BookstoreQuerries.cs:350 | A value is in a projection exactly when some input element maps to it. |
| Linq.FirstOrDefault | LINQ_exercises/LINQ_exercises/BookstoreQuerries.cs:196 | The result is the default (None) exactly on an empty sequence; otherwise it is the first element. |
| Linq.LastOrDefault | LINQ_exercises/LINQ_exercises/BookstoreQuerries.cs:160 | The result is the default exactly on an empty sequence; otherwise it is the last element. |
| Linq.Distinct | LINQ_exercises/LINQ_exercises/BookstoreQuerries.cs:350-351 | The result holds every input value and nothing else, each once. |
| Linq.DistinctIsFirstOccurrences | LINQ_exercises/LINQ_exercises/BookstoreQuerries.cs:350-351 | The result equals the independent definition: each value at its first occurrence, in input order. |
| Linq.DistinctMoreThanOne | LINQ_exercises/LINQ_exercises/BookstoreQuerries.cs:250-252 | More than one distinct value exists exactly when the input holds two different values. |
| Linq.JoinMembership | LINQ_exercises/LINQ_exercises/BookstoreQuerries.cs:80-89 | An inner join's rows are exactly the results for outer/inner pairs with equal keys. |
| Linq.JoinContains | LINQ_exercises/LINQ_exercises/BookstoreQuerries.cs:80-89 | Every matching pair contributes its row. |
| Linq.JoinAppend | LINQ_exercises/LINQ_exercises/BookstoreQuerries.cs:80-89 | The join runs outer element by outer element: joining a concatenation concatenates the joins. |
| Linq.MatchesLength | LINQ_exercises/LINQ_exercises/BookstoreQuerries.cs:110-111 | An outer element yields one row per inner element with its key. |
| Linq.JoinLengthByInner | LINQ_exercises/LINQ_exercises/BookstoreQuerries.cs:336-337 | Counted from the inner side, a join has as many rows as there are pairs of an inner element and an outer element with the same key. |
| Linq.SumIndicator | LINQ_exercises/LINQ_exercises/BookstoreQuerries.cs:331-334 | Summing one per element that satisfies a predicate gives the number of such elements, which is `Count(predicate)`. |
| Linq.MatchesUnique | LINQ_exercises/LINQ_exercises/BookstoreQuerries.cs:174-175 | An outer element whose key occurs once among the inner elements yields exactly that one row. |
| LinqGrouping.GroupByKeys | LINQ_exercises/LINQ_exercises/BookstoreQuerries.cs:192 | The group keys are the distinct keys, in order of first appearance. |
| LinqGrouping.GroupByMembership | LINQ_exercises/LINQ_exercises/BookstoreQuerries.cs:246 | A grouping is produced exactly when its key occurs. Its elements are then all input elements with that key, in input order. |
| LinqGrouping.GroupByPartitions | LINQ_exercises/LINQ_exercises/BookstoreQuerries.cs:330 | The group sizes add up to the input length, so no element is lost or repeated. |
| LinqGrouping.GroupByKeyMembership | LINQ_exercises/LINQ_exercises/BookstoreQuerries.cs:281 | The keys of the groups are exactly the keys of the input, with no repetition. |
| LinqOrdering.OrderByPermutes | LINQ_exercises/LINQ_exercises/BookstoreQuerries.cs:136 | Sorting keeps exactly the input's elements and their multiplicities. |
| LinqOrdering.OrderBySorted | LINQ_exercises/LINQ_exercises/BookstoreQuerries.cs:136 | Sorted keys are non-decreasing. |
| LinqOrdering.OrderByStable | LINQ_exercises/LINQ_exercises/BookstoreQuerries.cs:136 | Elements with equal keys keep their input order (a stable sort). |
| LinqOrdering.OrderByLast | LINQ_exercises/LINQ_exercises/BookstoreQuerries.cs:160 | The last element after sorting has the largest key. It is the last input element with that key. |
| LinqOrdering.OrderByDescendingSpec | LINQ_exercises/LINQ_exercises/BookstoreQuerries.cs:338 | A descending sort is sorted non-increasing, a permutation of the input, and stable. |
| LinqOrdering.OrderByDescendingHead | LINQ_exercises/LINQ_exercises/BookstoreQuerries.cs:196 | The first element of a descending sort has the largest key. It is the first input element with that key. |
| LinqOrdering.OrderByDistinctKeys | LINQ_exercises/LINQ_exercises/BookstoreQuerries.cs:198 | Distinct keys come out strictly increasing. |
| Text.IntToStringRoundTrip | LINQ_exercises/LINQ_exercises/BookstoreQuerries.cs:62-63 | A formatted integer reads back as the same integer, negative numbers included. |
| Bookstore.AllBooks | LINQ_exercises/LINQ_exercises/BookstoreQuerries.cs:53-56 | One listing per book, in store order, carrying that book's title, price, year and author id. |
| Bookstore.MostExpensiveBook | LINQ_exercises/LINQ_exercises/BookstoreQuerries.cs:158-169 | There is no result exactly when the store is empty. |
| BookstoreProperties.BooksPublishedInYearSpec | LINQ_exercises/LINQ_exercises/BookstoreQuerries.cs:66-76 | Exactly the books of that year, each as often as it is stored, in store order. |
| BookstoreProperties.BooksWithPriceBetweenSpec | LINQ_exercises/LINQ_exercises/BookstoreQuerries.cs:97-105 | Exactly the books priced within both inclusive bounds, each as often as it is stored, in store order. Bounds given in the wrong order select nothing. |
| BookstoreProperties.BooksWithTitleContainingSpec | LINQ_exercises/LINQ_exercises/BookstoreQuerries.cs:123-131 | Exactly the books whose title holds the string somewhere, each as often as it is stored. The empty string selects every book. |
| BookstoreProperties.BooksWithTitleLongerThanSpec | LINQ_exercises/LINQ_exercises/BookstoreQuerries.cs:301-310 | Exactly the books whose title is longer than the bound, each as often as it is stored. A negative bound selects every book. |
| BookstoreProperties.MostExpensiveBookSpec | LINQ_exercises/LINQ_exercises/BookstoreQuerries.cs:158-169 | On an empty store it prints "No books found.". Otherwise it returns a book no other book outprices: the last such book in store order. |
| BookstoreProperties.BooksPricedAboveAverageSpec | LINQ_exercises/LINQ_exercises/BookstoreQuerries.cs:263-275 | An empty store fails as `Average` does. Otherwise the result is exactly the books priced strictly above the arithmetic mean, each as often as it is stored, in store order. |
| BookstoreProperties.AuthorsAndTheirBooksMembership | LINQ_exercises/LINQ_exercises/BookstoreQuerries.cs:78-95 | A row exists for exactly each book and author whose ids match. |
| BookstoreProperties.AuthorsAndTheirBooksPerBook | LINQ_exercises/LINQ_exercises/BookstoreQuerries.cs:78-95 | Assume author ids are unique and every book's author exists. Then there is one row per book, in store order, naming the book's author. |
| BookstoreProperties.BooksByAuthorNameSpec | LINQ_exercises/LINQ_exercises/BookstoreQuerries.cs:171-187 | Exactly the rows of books by an author with that name, each as often as in the full author/book listing, and in its order. |
| BookstoreProperties.BooksByAuthorsStartingWithSpec | LINQ_exercises/LINQ_exercises/BookstoreQuerries.cs:312-325 | Exactly the title/name pairs of books whose author's name is non-empty and starts with the character. Each pair appears once per matching (author, book) combination: once for every book with that title and every author of it with that name. |
| BookstoreProperties.StartingWithRows | LINQ_exercises/LINQ_exercises/BookstoreQuerries.cs:314-319 | The number of times a title/name row appears is the number of books with that title, each counted once per author of it with that name, where the name starts with the character. |
| Linq.JoinMultiplicityByInner | LINQ_exercises/LINQ_exercises/BookstoreQuerries.cs:253-254 | A join holds a row value once for every key-equal pair of an inner and an outer element that selects it. |
| BookstoreProperties.AuthorsWithBooksPricedOverSpec | LINQ_exercises/LINQ_exercises/BookstoreQuerries.cs:210-224 | Each name once, and exactly the names of authors with a book priced strictly over the threshold. |
| BookstoreProperties.BooksAndAuthorsWithPriceLessThanSpec | LINQ_exercises/LINQ_exercises/BookstoreQuerries.cs:226-241 | Exactly the rows of the cheap books and their authors. They are sorted by price and are a permutation of the unsorted join. Rows of equal price keep the join's order. |
| BookstoreProperties.AuthorsInAgeRangeInOrderSpec | LINQ_exercises/LINQ_exercises/BookstoreQuerries.cs:133-142 | Exactly the authors in the age range, each as often as stored, sorted by age. Authors of equal age keep store order. |
| BookstoreProperties.AuthorGroups | LINQ_exercises/LINQ_exercises/BookstoreQuerries.cs:281 | An author id has a group exactly when that author has books. The group is that author's books, in store order. |
| BookstoreProperties.SummariesWithId | LINQ_exercises/LINQ_exercises/BookstoreQuerries.cs:330-335 | Grouping the books by `AuthorId` gives exactly one summary for an `Id` with books and none for any other. |
| BookstoreProperties.AuthorSummaryRows | LINQ_exercises/LINQ_exercises/BookstoreQuerries.cs:330-339 | A per-author summary joined with the authors has exactly one row per author record with books. This holds even when author `Id`s repeat. |
| BookstoreProperties.AuthorsOrderedByBookCountSpec | LINQ_exercises/LINQ_exercises/BookstoreQuerries.cs:327-345 | The rows are exactly the name and book count of each author with books. A (name, count) row appears once per author record with books that it describes, so two authors named "Ann" with three books each give two equal rows. Rows are sorted by count, largest first, as a permutation of the unsorted rows. |
| BookstoreProperties.AuthorSummaryMultiplicity | LINQ_exercises/LINQ_exercises/BookstoreQuerries.cs:330-337 | A per-author summary joined with the authors holds a row value once per author record with books whose own summary forms that value. |
| BookstoreProperties.AuthorCountRows | LINQ_exercises/LINQ_exercises/BookstoreQuerries.cs:330-337 | An unsorted (name, count) row appears once per author record with books whose name and book count it is. |
| BookstoreProperties.AveragePricePerAuthorSpec | LINQ_exercises/LINQ_exercises/BookstoreQuerries.cs:277-299 | A row for exactly each author with books, holding the total and the count of that author's prices. There are as many rows as such authors. A row value appears once per author record with books that it describes, so equal rows of two authors are both kept. |
| BookstoreProperties.AverageRows | LINQ_exercises/LINQ_exercises/BookstoreQuerries.cs:279-290 | An average row appears once per author record with books whose name, price total and book count it holds. |
| BookstoreProperties.AuthorsWhoWroteIn2024Membership | LINQ_exercises/LINQ_exercises/BookstoreQuerries.cs:144-156 | A row for exactly each author that has a book published in 2024. |
| BookstoreProperties.AuthorsWhoWroteIn2024Rows | LINQ_exercises/LINQ_exercises/BookstoreQuerries.cs:144-156 | Nothing is deduplicated. A name appears once per pair of an author with that name and one of their 2024 books. |
| BookstoreProperties.BooksWithHighestPriceByYearSpec | LINQ_exercises/LINQ_exercises/BookstoreQuerries.cs:189-208 | One entry per publication year, in strictly increasing year order. Each entry names that year's first book of highest price. |
| BookstoreProperties.AuthorsWithMoreThanTwoBooksRows | LINQ_exercises/LINQ_exercises/BookstoreQuerries.cs:107-121 | A row for exactly each author record whose join pairs number more than two. That count is the record's multiplicity times its books. A (name, count) row appears once per distinct author record it describes, and never with a count of two or less. |
| BookstoreProperties.AuthorsWithMoreThanTwoBooksSpec | LINQ_exercises/LINQ_exercises/BookstoreQuerries.cs:107-121 | With unique author ids: exactly the authors with more than two books, with their book counts. A (name, count) row appears once per author with that name and that many books, so two such authors named "Ann" give two equal rows. |
| BookstoreProperties.MoreThanTwoRowsUnique | LINQ_exercises/LINQ_exercises/BookstoreQuerries.cs:108-113 | With unique author ids, a (name, count) row appears once per author of that name with exactly that many books, when the count exceeds two. |
| BookstoreProperties.AuthorsWithBooksInMultipleYearsSpec | LINQ_exercises/LINQ_exercises/BookstoreQuerries.cs:243-261 | Exactly the names of authors with two books published in different years. A name appears once per author record with that name that qualifies, so two such authors both named "Ann" print "Ann" twice. |
| BookstoreProperties.SeveralYearsSummaries | LINQ_exercises/LINQ_exercises/BookstoreQuerries.cs:246-252 | After grouping by `AuthorId` and keeping the groups with more than one distinct year, exactly one summary carries an `Id` whose author published in several years, and none carries any other. |
| BookstoreProperties.MultipleYearsRows | LINQ_exercises/LINQ_exercises/BookstoreQuerries.cs:253-254 | A name's number of occurrences is the number of author records with that name that published in several years. |
| BookstoreProperties.SeveralYearsOfGroup | LINQ_exercises/LINQ_exercises/BookstoreQuerries.cs:247-252 | Counting an author's distinct years gives more than one exactly when two of their books differ in year. |
| BookstoreProperties.UniquePublicationYearsSpec | LINQ_exercises/LINQ_exercises/BookstoreQuerries.cs:347-358 | Every publication year once and nothing else, in order of first appearance. |
| BookstoreProperties.AllBooksOnFixture | LINQ_exercises/LINQ_exercises/QuerriesTests.cs:52-64 | On the test's three books, under a comma culture, the output is the heading and the three expected lines. |
| SupportTickets.Handle | DesignPatterns/DesignPatterns/Behavioral/ChainOfResponsibility.cs:48-98 | Each handler writes at most one line. |
| SupportTickets.HandleStopsAtFirstOwner | DesignPatterns/DesignPatterns/Behavioral/ChainOfResponsibility.cs:48-98 | The first level owning the request resolves it. Every handler before it passes the request on, and no handler after it is reached. |
| SupportTickets.HandleWithoutOwner | DesignPatterns/DesignPatterns/Behavioral/ChainOfResponsibility.cs:48-98 | With no owner, every handler passes the request on. The last handler reports failure only if it is level 3; a lower level drops the request silently. |
| SupportTickets.ResolvedAtMostOnceAndLast | DesignPatterns/DesignPatterns/Behavioral/ChainOfResponsibility.cs:48-98 | A request is resolved at most once, and the resolution ends the trace. |
| SupportTickets.TicketsOfOwnIssue | DesignPatterns/DesignPatterns/Behavioral/ChainOfResponsibility.cs:104-120 | A level's own issue passes through the levels below it and is resolved there. |
| SupportTickets.TicketsOfUnknownIssue | DesignPatterns/DesignPatterns/Behavioral/ChainOfResponsibility.cs:84-96 | An issue no level owns is passed on by levels 1 and 2, then reported unresolvable. |
| SupportTickets.ResolvedOnlyByOwner | DesignPatterns/DesignPatterns/Behavioral/ChainOfResponsibility.cs:48-98 | A level resolves the ticket if and only if the issue is that level's own. |
| SupportTickets.ProcessRequest | DesignPatterns/DesignPatterns/Behavioral/ChainOfResponsibility.cs:116-120 | The processing header, then one line per handler event, in order. |
| SupportTickets.ProcessRequestConcludes | DesignPatterns/DesignPatterns/Behavioral/ChainOfResponsibility.cs:100-120 | Every ticket prints two to four lines and ends in a resolution or the failure report. The report appears exactly when no level owns the issue. |
| SmartHomeHub.ConnectHub | DesignPatterns/DesignPatterns/Behavioral/Mediator.cs:62-71 | After construction every device's mediator is the hub. |
| SmartHomeHub.NotifyReactsToTriggersOnly | DesignPatterns/DesignPatterns/Behavioral/Mediator.cs:73-105 | The hub acts exactly on the sender/event pairs that a trigger of that sender sends, and then runs that trigger's reaction. Anything else does nothing. |
| SmartHomeHub.ModesReachEveryDevice | DesignPatterns/DesignPatterns/Behavioral/Mediator.cs:85-96 | Night mode and daily mode each give lighting, security and climate one action, in that order. |
| SmartHomeHub.Fire | DesignPatterns/DesignPatterns/Behavioral/Mediator.cs:148-212 | A trigger always prints its own line first. |
| SmartHomeHub.FireOnConnectedHome | DesignPatterns/DesignPatterns/Behavioral/Mediator.cs:148-212 | On a connected home a trigger notifies the hub exactly once, as its own device with its own event name. The trigger's line is followed by the reaction's lines. |
| SmartHomeHub.FireWithoutHub | DesignPatterns/DesignPatterns/Behavioral/Mediator.cs:113-152 | A device with no mediator fails right after its own line; no action runs. |
| WeatherMonitoring.RegisterObserver | DesignPatterns/DesignPatterns/Behavioral/Observer.cs:43-46 | The observer is appended at the end and the rest of the list is unchanged. |
| WeatherMonitoring.RemoveFirstAt | DesignPatterns/DesignPatterns/Behavioral/Observer.cs:48-51 | Removing deletes the first occurrence only, and nothing else. |
| WeatherMonitoring.RemoveFirstMultiset | DesignPatterns/DesignPatterns/Behavioral/Observer.cs:48-51 | Removing takes away one copy of the observer, or nothing if it is absent. |
| WeatherMonitoring.RemoveUndoesRegister | DesignPatterns/DesignPatterns/Behavioral/Observer.cs:43-51 | Removing a newly registered observer restores the station. |
| WeatherMonitoring.NotifyObservers | DesignPatterns/DesignPatterns/Behavioral/Observer.cs:53-59 | One call per list entry, in list order, each with the current measurements. |
| WeatherMonitoring.NotifyAfterRegister | DesignPatterns/DesignPatterns/Behavioral/Observer.cs:43-59 | An observer registered last is called last. |
| WeatherMonitoring.SetMeasurements | DesignPatterns/DesignPatterns/Behavioral/Observer.cs:61-67 | The new measurements are stored, then every observer is called with them. |
| WeatherMonitoring.StatisticsAfter | DesignPatterns/DesignPatterns/Behavioral/Observer.cs:111-119 | After a run of readings the statistics count each reading and add up the temperatures. The maximum is at least the starting maximum and every temperature, and equals one of them; the minimum likewise from below. |
| WeatherMonitoring.UpdateLine | DesignPatterns/DesignPatterns/Behavioral/Observer.cs:83-94 | An update makes the current-conditions display print a line. The statistics display's line is not modelled. |
| WeatherMonitoring.ConditionsLineIdentifiesReading | DesignPatterns/DesignPatterns/Behavioral/Observer.cs:91-94 | The current-conditions line shows temperature, humidity and pressure without loss: two readings print the same line exactly when they are equal. |
| WeatherMonitoring.UpdateLineShowsReading | DesignPatterns/DesignPatterns/Behavioral/Observer.cs:83-94 | Each update of the current-conditions display prints the line for the reading just delivered. Different readings print different lines. |
| WeatherMonitoring.ConditionsAfter | DesignPatterns/DesignPatterns/Behavioral/Observer.cs:83-89 | The current-conditions display shows the last reading it received. |
| WeatherMonitoring.Construct | DesignPatterns/DesignPatterns/Behavioral/Observer.cs:77-81 | A new display registers itself with the station, behind every earlier one. |
| WeatherMonitoring.ConstructAllRegisters | DesignPatterns/DesignPatterns/Behavioral/Observer.cs:134-137 | Displays constructed one after another are registered in construction order, each once. |
| WeatherMonitoring.DeliverToEach | DesignPatterns/DesignPatterns/Behavioral/Observer.cs:53-59 | Each display ends up with exactly the readings of the calls addressed to it, in call order. |
| WeatherMonitoring.Measure | DesignPatterns/DesignPatterns/Behavioral/Observer.cs:61-67 | A measurement keeps the observer list and every registered observer valid. |
| WeatherMonitoring.StatisticsCountsRegistrations | DesignPatterns/DesignPatterns/Behavioral/Observer.cs:43-59 | A statistics display counts a reading once per entry in the observer list: twice if registered twice, one fewer after each removal. |
| WeatherMonitoring.ObserverDemoResult | DesignPatterns/DesignPatterns/Behavioral/Observer.cs:134-143 | After the demonstration, current conditions show the last reading. The statistics hold 3 readings with max 25, min 20 and total 66. |
| SmartHomeTemplate.RunSmartHomeSystem | DesignPatterns/DesignPatterns/Behavioral/Template.cs:39-45 | Four lines: initialize, activate, deactivate, clean up, in that order. |
| SmartHomeTemplate.HomesDifferInAbstractSteps | DesignPatterns/DesignPatterns/Behavioral/Template.cs:47-86 | Two homes print the same line for a step exactly when the template, not the home, implements it. |
| SmartHomeTemplate.RunsDifferInFirstAndLast | DesignPatterns/DesignPatterns/Behavioral/Template.cs:62-86 | The two homes' runs differ exactly in their first and last lines. |
| SmartHomeTemplate.TemplateDemo | DesignPatterns/DesignPatterns/Behavioral/Template.cs:90-101 | The demonstration prints eleven lines, in this order: "Smart Home System A:", home A's four step lines, an empty line, "Smart Home System B:", then home B's four step lines. |
| MessageDecorator.PrintMessage | DesignPatterns/DesignPatterns/Structural/Decorator.cs:44-90 | Each decorator layer adds exactly its 17-character opening and 2-character closing around the inner message. |
| MessageDecorator.DelegatedMessage | DesignPatterns/DesignPatterns/Structural/Decorator.cs:61-69 | The base decorator returns the empty message exactly when it has no inner printer. |
| MessageDecorator.ParsePrintMessage | DesignPatterns/DesignPatterns/Structural/Decorator.cs:76-89 | A message can be read back into the exact stack of printers that produced it. |
| MessageDecorator.PrintMessageInjective | DesignPatterns/DesignPatterns/Structural/Decorator.cs:76-89 | Different stacks of printers never print the same message. |
| MessageDecorator.WrappingOrderMatters | DesignPatterns/DesignPatterns/Structural/Decorator.cs:76-89 | A then B prints differently from B then A. |
| MessageDecorator.LayerKeepsInner | DesignPatterns/DesignPatterns/Structural/Decorator.cs:76-89 | A decorator's message holds the inner message whole, right after its opening. |
| MessageDecorator.DecoratorExampleOutput | DesignPatterns/DesignPatterns/Structural/Decorator.cs:94-101 | The demonstration prints "wrapped in B : ( wrapped in A : ( Message from printer ) )". |
| SingletonInstance.GetInstance | DesignPatterns/DesignPatterns/Creational/Singleton.cs:23-30 | The slot holds the returned object afterwards. A filled slot is returned unchanged; an empty one runs the constructor once. |
| SingletonInstance.CallsAgree | DesignPatterns/DesignPatterns/Creational/Singleton.cs:23-30 | Any number of calls return the same object. The constructor runs only if the slot was empty, and then once. |
| SingletonInstance.SingletonDemoSaysTrue | DesignPatterns/DesignPatterns/Creational/Singleton.cs:38-47 | The demonstration's two calls return the same object, so it prints "Are both instances equals? True". |
| SingletonInstance.GetInstanceIdempotent | DesignPatterns/DesignPatterns/Creational/Singleton.cs:23-30 | A second call changes nothing and returns the same object as the first. |
| SingletonInstance.ConstructedAtMostOnce | DesignPatterns/DesignPatterns/Creational/Singleton.cs:18-30 | From program start, at most one object is ever constructed. Once any call has been made, exactly one has, and it fills the slot. |

## Left out

- The Entity Framework plumbing is not modelled: `DbContext`, the model builder's foreign key, and `EnsureDbCreated`. Tables are sequences, primary and foreign keys are the predicates `UniqueAuthorIds` and `EveryBookHasAuthor`, and the lemmas that need them require them.
- `SeedDatabase` and the two `Program.cs` entry points are not modelled. They only insert fixed rows and call the demonstrations.
- Server-side query translation is not modelled. Pipelines run with LINQ-to-objects semantics. In particular, the order of rows a database returns for `Join` and `GroupBy` is taken as outer-then-inner store order.
- The Visitor demonstration is left out. It computes with floating point.
- `Bookstore.AveragePricePerAuthor`: returns each author's price total and count instead of the rounded `decimal` quotient, because `decimal` division and its rounding are not modelled.
- `Bookstore.BooksPricedAboveAverage`: compares `price * n > sum`, which is the exact mean comparison. It does not reproduce the rounding of `decimal` `Average` in its 28th digit.
- Prices with more than two fractional digits are not modelled, and neither are `decimal` thresholds with finer precision. All are whole cents.
- String lengths are counted in characters, not UTF-16 code units. Substring and prefix tests are ordinal.
- `LinqGrouping.GroupBy`: the "more than two books" query groups by author entity reference. The model groups by author value, which agrees when author records are distinct. `BookstoreProperties.AuthorsWithMoreThanTwoBooksRows` states the general count.
- Console output is modelled as the sequence of lines written, for these parts: everything `PrintAllBooks` and `PrintMostExpensiveBook` write, the support-ticket report, the hub's trace, the template demonstration (its empty separator line included), the decorator's message, the singleton's comparison line, and the current-conditions display's line. The other queries are modelled by the rows they print, not by the text of those rows. Console colours are not modelled. Neither are the other queries' headings, the demonstrations' titles and scenario headings, and the blank separator lines outside the template demonstration. The exact `decimal` text is not modelled either: it is culture-dependent and is taken as the parameter `renderPrice`.
- `WeatherMonitoring`: temperatures, humidity and pressure are integers, not `float`s. `StatisticsDisplay.Display` divides the float sum by the count, and that line is not modelled. The statistics' running values are. `CurrentConditionsDisplay.Display` prints integers as `n.ToString()` would, which is how C# prints a whole-valued `float`. The demonstration `ObserverDemo` gives the displays' final state, not its printed lines.
- `SupportTickets`: a handler chain built with `SetNext` is modelled as a linear sequence. Chains that loop back to an earlier handler, which would recurse forever, are not modelled.
- `SmartHomeHub`: device actions only print. A trigger called on a device whose mediator was never set is modelled as an explicit failure step, where the source throws.
- `SingletonInstance`: thread safety is not modelled (the source has none), and neither is `DoSomething`, which only prints a line.
- `MessageDecorator`: only decorators A and B are modelled, and they always have an inner printer. The base class's null check is modelled separately by `DelegatedMessage`.
