/**
  The support-ticket chain of responsibility: three handler levels, each
  resolving one exact request string and otherwise passing the request to its
  successor. A handler together with the successors reached through `SetNext`
  is a non-empty sequence of levels, the handler itself first.
 */
module SupportTickets {
  import opened Linq

  datatype Level = Level1 | Level2 | Level3

  /** What a handler writes while handling a request. */
  datatype Event =
    | Passed(passer: Level)    // the handler hands the request to its successor
    | Resolved(resolver: Level)
    | Unresolvable             // a level 3 handler with no successor gives up

  /** The one request each level resolves; the comparison is exact and case-sensitive. */
  function IssueOf(level: Level): string {
    match level
    case Level1 => "Basic Issue"
    case Level2 => "Intermediate Issue"
    case Level3 => "Complex Issue"
  }

  function PassedFrom(level: Level): Event {
    Passed(level)
  }

  /** The console line of an event. */
  function Line(e: Event): string {
    match e
    case Passed(Level1) => "Level 1 Support: Passing to the next level..."
    case Passed(Level2) => "Level 2 Support: Passing to the next level..."
    case Passed(Level3) => "Level 3 Support: Issue could not be resolved at this level. Escalating..."
    case Resolved(Level1) => "Level 1 Support: Resolved basic issue."
    case Resolved(Level2) => "Level 2 Support: Resolved intermediate issue."
    case Resolved(Level3) => "Level 3 Support: Resolved complex issue."
    case Unresolvable => "Level 3 Support: Issue cannot be resolved by the support team."
  }

  /**
    `HandleRequest` on the handler `chain[0]` whose successors are `chain[1..]`.
    A level 1 or level 2 handler without a successor drops an unresolved
    request without a word; only level 3 reports the failure.
   */
  function Handle(chain: seq<Level>, request: string): (trace: seq<Event>)
    requires |chain| > 0
    ensures |trace| <= |chain|
    decreases |chain|
  {
    var level := chain[0];
    if request == IssueOf(level) then [Resolved(level)]
    else if |chain| > 1 then [Passed(level)] + Handle(chain[1..], request)
    else if level == Level3 then [Unresolvable]
    else []
  }

  /**
    When the first level in the chain that owns the request is at position `k`,
    every handler before it passes the request on, that level resolves it, and
    no handler after it is reached.
   */
  lemma {:induction false} HandleStopsAtFirstOwner(chain: seq<Level>, request: string, k: nat)
    requires k < |chain| && IssueOf(chain[k]) == request
    requires forall j :: 0 <= j < k ==> IssueOf(chain[j]) != request
    ensures Handle(chain, request) == Select(chain[..k], PassedFrom) + [Resolved(chain[k])]
    decreases k
  {
    if k > 0 {
      HandlePasses(chain, request);
      HandleStopsAtFirstOwner(chain[1..], request, k - 1);
      PassedPrefix(chain, k);
    }
  }

  /**
    When no level in the chain owns the request, every handler but the last
    passes it on, and the last reports failure if and only if it is level 3.
   */
  lemma {:induction false} HandleWithoutOwner(chain: seq<Level>, request: string)
    requires |chain| > 0
    requires forall j :: 0 <= j < |chain| ==> IssueOf(chain[j]) != request
    ensures Handle(chain, request) ==
      Select(chain[..|chain| - 1], PassedFrom) + (if chain[|chain| - 1] == Level3 then [Unresolvable] else [])
    decreases |chain|
  {
    if |chain| > 1 {
      var rest := chain[1..];
      HandlePasses(chain, request);
      HandleWithoutOwner(rest, request);
      PassedPrefix(chain, |chain| - 1);
      assert rest[|rest| - 1] == chain[|chain| - 1];
    } else {
      assert IssueOf(chain[0]) != request;
    }
  }

  /** A handler that does not own the request and has a successor passes it on. */
  lemma HandlePasses(chain: seq<Level>, request: string)
    requires |chain| > 1 && IssueOf(chain[0]) != request
    ensures Handle(chain, request) == [Passed(chain[0])] + Handle(chain[1..], request)
  {
  }

  /** The handlers before position `k` pass the request on: the first one, then those after it. */
  lemma PassedPrefix(chain: seq<Level>, k: nat)
    requires 0 < k < |chain|
    ensures Select(chain[..k], PassedFrom) == [Passed(chain[0])] + Select(chain[1..][..k - 1], PassedFrom)
  {
    assert chain[..k] == [chain[0]] + chain[1..][..k - 1];
    SelectAppend([chain[0]], chain[1..][..k - 1], PassedFrom);
  }

  /** A request is resolved at most once, and resolving it is the last thing that happens. */
  lemma {:induction false} ResolvedAtMostOnceAndLast(chain: seq<Level>, request: string)
    requires |chain| > 0
    ensures forall i :: 0 <= i < |Handle(chain, request)| && Handle(chain, request)[i].Resolved? ==>
      i == |Handle(chain, request)| - 1
    decreases |chain|
  {
    if request != IssueOf(chain[0]) && |chain| > 1 {
      ResolvedAtMostOnceAndLast(chain[1..], request);
    }
  }

  /** The ticket system's chain: level 1, then level 2, then level 3 with no successor. */
  const TicketChain: seq<Level> := [Level1, Level2, Level3]

  function Header(issue: string): string {
    "Support Ticket: Processing request for '" + issue + "'"
  }

  /** What the ticket system's chain does with an issue. */
  function Tickets(issue: string): seq<Event> {
    Handle(TicketChain, issue)
  }

  /** `ProcessRequest`: the header line, then the lines of the chain's events. */
  function ProcessRequest(issue: string): (output: seq<string>)
    ensures |output| == 1 + |Tickets(issue)|
    ensures output[0] == Header(issue)
    ensures forall i :: 1 <= i < |output| ==> output[i] == Line(Tickets(issue)[i - 1])
  {
    Report(Header(issue), Tickets(issue), Line)
  }

  /** A header line followed by one line per event. */
  function Report<E>(header: string, events: seq<E>, line: E -> string): (output: seq<string>)
    ensures |output| == 1 + |events|
    ensures output[0] == header
    ensures forall i :: 1 <= i < |output| ==> output[i] == line(events[i - 1])
  {
    var lines := Select(events, line);
    assert forall i :: 1 <= i < 1 + |lines| ==> ([header] + lines)[i] == lines[i - 1];
    [header] + lines
  }

  /** Each level's own issue is passed up through the levels below it and resolved there. */
  lemma TicketsOfOwnIssue(level: Level)
    ensures Tickets(IssueOf(level)) ==
      match level
      case Level1 => [Resolved(Level1)]
      case Level2 => [Passed(Level1), Resolved(Level2)]
      case Level3 => [Passed(Level1), Passed(Level2), Resolved(Level3)]
  {
  }

  /** An issue no level owns is passed up by levels 1 and 2 and then reported unresolvable. */
  lemma TicketsOfUnknownIssue(issue: string)
    requires forall level: Level :: issue != IssueOf(level)
    ensures Tickets(issue) == [Passed(Level1), Passed(Level2), Unresolvable]
  {
    assert issue != IssueOf(Level1) && issue != IssueOf(Level2) && issue != IssueOf(Level3);
    HandleWithoutOwner(TicketChain, issue);
  }

  /** A level resolves a ticket exactly when the issue is that level's own. */
  lemma ResolvedOnlyByOwner(issue: string, level: Level)
    ensures Resolved(level) in Tickets(issue) <==> issue == IssueOf(level)
  {
    if issue == IssueOf(Level1) || issue == IssueOf(Level2) || issue == IssueOf(Level3) {
    } else {
      TicketsOfUnknownIssue(issue);
    }
  }

  /**
    Every ticket ends in a resolution or in the failure report, which happens
    exactly when no level owns the issue, and prints two to four lines.
   */
  lemma ProcessRequestConcludes(issue: string)
    ensures 2 <= |ProcessRequest(issue)| <= 4
    ensures |Tickets(issue)| > 0
    ensures Tickets(issue)[|Tickets(issue)| - 1].Resolved? || Tickets(issue)[|Tickets(issue)| - 1] == Unresolvable
    ensures Unresolvable in Tickets(issue) <==> forall level: Level :: issue != IssueOf(level)
  {
    assert |ProcessRequest(issue)| == 1 + |Tickets(issue)|;
    if issue == IssueOf(Level1) {
      OwnIssueConcludes(issue, Level1);
    } else if issue == IssueOf(Level2) {
      OwnIssueConcludes(issue, Level2);
    } else if issue == IssueOf(Level3) {
      OwnIssueConcludes(issue, Level3);
    } else {
      UnknownIssueConcludes(issue);
    }
  }

  lemma UnknownIssueConcludes(issue: string)
    requires issue != IssueOf(Level1) && issue != IssueOf(Level2) && issue != IssueOf(Level3)
    ensures |Tickets(issue)| == 3
    ensures Tickets(issue)[2] == Unresolvable
    ensures forall level: Level :: issue != IssueOf(level)
  {
    TicketsOfUnknownIssue(issue);
  }

  lemma OwnIssueConcludes(issue: string, level: Level)
    requires issue == IssueOf(level)
    ensures 1 <= |Tickets(issue)| <= 3
    ensures Tickets(issue)[|Tickets(issue)| - 1] == Resolved(level)
    ensures Unresolvable !in Tickets(issue)
  {
    TicketsOfOwnIssue(level);
  }
}
