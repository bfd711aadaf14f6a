/**
  The message-wrapping decorator: a plain printer and two decorators, each of
  which wraps the message of the printer it decorates in its own brackets.
  A decorator's inner printer is always present here: `DecoratorA` and
  `DecoratorB` read it without a null check, so a missing one would throw.
 */
module MessageDecorator {
  import opened Linq
  import opened Text

  datatype Printer = Plain | DecoratorA(inner: Printer) | DecoratorB(inner: Printer)

  const BaseMessage: string := "Message from printer"
  const OpeningA: string := "wrapped in A : ( "
  const OpeningB: string := "wrapped in B : ( "
  const Closing: string := " )"

  /** How many decorators are stacked on the plain printer. */
  function Layers(p: Printer): nat {
    match p
    case Plain => 0
    case DecoratorA(inner) => 1 + Layers(inner)
    case DecoratorB(inner) => 1 + Layers(inner)
  }

  /** `IPrinter.PrintMessage`; every decorator layer adds 19 characters. */
  function PrintMessage(p: Printer): (m: string)
    ensures |m| == |BaseMessage| + 19 * Layers(p)
  {
    match p
    case Plain => BaseMessage
    case DecoratorA(inner) => OpeningA + PrintMessage(inner) + Closing
    case DecoratorB(inner) => OpeningB + PrintMessage(inner) + Closing
  }

  /**
    The base `Decorator.PrintMessage`, which a decorator that does not
    override it inherits: the inner printer's message, or nothing at all when
    there is no inner printer.
   */
  function DelegatedMessage(inner: Option<Printer>): (m: string)
    ensures m == "" <==> inner.None?
    ensures inner.Some? ==> |m| >= |BaseMessage|
  {
    match inner
    case None => ""
    case Some(p) => PrintMessage(p)
  }

  /** Reads back which printers produced a message. */
  function Parse(m: string): Option<Printer>
    decreases |m|
  {
    if m == BaseMessage then Some(Plain)
    else if |m| < |OpeningA| + |Closing| || m[|m| - |Closing|..] != Closing then None
    else
      var body := m[|OpeningA|..|m| - |Closing|];
      var opening := m[..|OpeningA|];
      if opening != OpeningA && opening != OpeningB then None
      else
        match Parse(body)
        case None => None
        case Some(inner) => Some(if opening == OpeningA then DecoratorA(inner) else DecoratorB(inner))
  }

  lemma OpeningsDiffer()
    ensures OpeningA != OpeningB && |OpeningA| == |OpeningB| == 17 && |Closing| == 2
  {
    assert OpeningA[11] != OpeningB[11];
  }

  /** A message says exactly which printers, stacked in which order, produced it. */
  lemma {:induction false} ParsePrintMessage(p: Printer)
    ensures Parse(PrintMessage(p)) == Some(p)
  {
    match p
    case Plain =>
    case DecoratorA(inner) =>
      ParsePrintMessage(inner);
      OpeningsDiffer();
      ParseLayer(OpeningA, PrintMessage(inner));
    case DecoratorB(inner) =>
      ParsePrintMessage(inner);
      OpeningsDiffer();
      ParseLayer(OpeningB, PrintMessage(inner));
  }

  lemma ParseLayer(opening: string, inner: string)
    requires opening == OpeningA || opening == OpeningB
    requires |inner| >= |BaseMessage|
    ensures var m := opening + inner + Closing;
      m != BaseMessage && m[..|OpeningA|] == opening && m[|OpeningA|..|m| - |Closing|] == inner
      && m[|m| - |Closing|..] == Closing
  {
    OpeningsDiffer();
    var m := opening + inner + Closing;
    assert |m| > |BaseMessage|;
    assert m[..17] == opening;
    assert m[17..|m| - 2] == inner;
    assert m[|m| - 2..] == Closing;
  }

  /** Different stacks of printers never print the same message. */
  lemma PrintMessageInjective(p: Printer, q: Printer)
    ensures PrintMessage(p) == PrintMessage(q) ==> p == q
  {
    ParsePrintMessage(p);
    ParsePrintMessage(q);
  }

  /** The order of the decorators shows in the message. */
  lemma WrappingOrderMatters(p: Printer)
    ensures PrintMessage(DecoratorA(DecoratorB(p))) != PrintMessage(DecoratorB(DecoratorA(p)))
  {
    PrintMessageInjective(DecoratorA(DecoratorB(p)), DecoratorB(DecoratorA(p)));
  }

  /** A decorator's message holds its inner printer's message whole, right after its opening bracket. */
  lemma LayerKeepsInner(p: Printer)
    requires !p.Plain?
    ensures OccursAt(PrintMessage(p), PrintMessage(p.inner), |OpeningA|)
    ensures |PrintMessage(p)| == |PrintMessage(p.inner)| + 19
  {
    var opening := if p.DecoratorA? then OpeningA else OpeningB;
    ParseLayer(opening, PrintMessage(p.inner));
  }

  /** The demonstration decorates the plain printer with A, then with B. */
  lemma DecoratorExampleOutput()
    ensures PrintMessage(DecoratorB(DecoratorA(Plain)))
      == "wrapped in B : ( wrapped in A : ( Message from printer ) )"
  {
    DecoratedTwiceLiteral();
    assert PrintMessage(DecoratorA(Plain)) == OpeningA + BaseMessage + Closing;
    assert PrintMessage(DecoratorB(DecoratorA(Plain))) == OpeningB + (OpeningA + BaseMessage + Closing) + Closing;
  }

  lemma DecoratedTwiceLiteral()
    ensures OpeningB + (OpeningA + BaseMessage + Closing) + Closing
      == "wrapped in B : ( wrapped in A : ( Message from printer ) )"
  {
    assert OpeningB + (OpeningA + BaseMessage + Closing) + Closing == OpeningB + OpeningA + BaseMessage + Closing + Closing;
    DecoratedTwiceLiteralHead();
    assert "wrapped in B : ( wrapped in A : ( Message from printer" + " )"
      == "wrapped in B : ( wrapped in A : ( Message from printer )";
    assert "wrapped in B : ( wrapped in A : ( Message from printer )" + " )"
      == "wrapped in B : ( wrapped in A : ( Message from printer ) )";
  }

  lemma DecoratedTwiceLiteralHead()
    ensures OpeningB + OpeningA + BaseMessage == "wrapped in B : ( wrapped in A : ( Message from printer"
  {
    BothOpenings();
    assert "wrapped in B : ( wrapped in A : ( " + "Message from printer"
      == "wrapped in B : ( wrapped in A : ( Message from printer";
  }

  lemma BothOpenings()
    ensures OpeningB + OpeningA == "wrapped in B : ( wrapped in A : ( "
  {
  }
}
