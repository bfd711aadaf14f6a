/**
  The smart-home template method: `RunSmartHomeSystem` runs four steps in a
  fixed order. The template itself implements the middle two; each concrete
  home supplies the first and the last.
 */
module SmartHomeTemplate {

  datatype Home = ConcreteSmartHomeA | ConcreteSmartHomeB

  datatype Step = InitializeDevices | ActivateDevices | DeactivateDevices | CleanupDevices

  /** The order the template method runs its steps in. */
  const StepOrder: seq<Step> := [InitializeDevices, ActivateDevices, DeactivateDevices, CleanupDevices]

  /** The abstract steps, which every concrete home overrides. */
  predicate Abstract(s: Step) {
    s == InitializeDevices || s == CleanupDevices
  }

  /** The line a step prints for a home. */
  function StepLine(h: Home, s: Step): string {
    match s
    case ActivateDevices => "Template : Activating devices..."
    case DeactivateDevices => "Template : Deactivating devices..."
    case InitializeDevices =>
      if h == ConcreteSmartHomeA then "ConcreteA : Initializing devices..." else "ConcreteB : Initializing devices..."
    case CleanupDevices =>
      if h == ConcreteSmartHomeA then "ConcreteA : Cleaning up devices..." else "ConcreteB : Cleaning up devices..."
  }

  /** `RunSmartHomeSystem`: the four steps' lines, in the template's order. */
  function RunSmartHomeSystem(h: Home): (lines: seq<string>)
    ensures |lines| == |StepOrder|
    ensures forall i :: 0 <= i < |StepOrder| ==> lines[i] == StepLine(h, StepOrder[i])
  {
    [StepLine(h, InitializeDevices), StepLine(h, ActivateDevices), StepLine(h, DeactivateDevices), StepLine(h, CleanupDevices)]
  }

  /** The two homes print the same line for a step exactly when the template implements it. */
  lemma HomesDifferInAbstractSteps(s: Step)
    ensures StepLine(ConcreteSmartHomeA, s) == StepLine(ConcreteSmartHomeB, s) <==> !Abstract(s)
  {
    if s == InitializeDevices {
      assert StepLine(ConcreteSmartHomeA, s)[8] != StepLine(ConcreteSmartHomeB, s)[8];
    } else if s == CleanupDevices {
      assert StepLine(ConcreteSmartHomeA, s)[8] != StepLine(ConcreteSmartHomeB, s)[8];
    }
  }

  /** The runs of the two homes differ exactly in their first and last lines. */
  lemma RunsDifferInFirstAndLast()
    ensures forall i :: 0 <= i < 4 ==>
      (RunSmartHomeSystem(ConcreteSmartHomeA)[i] == RunSmartHomeSystem(ConcreteSmartHomeB)[i] <==> i == 1 || i == 2)
  {
    forall i | 0 <= i < 4
      ensures RunSmartHomeSystem(ConcreteSmartHomeA)[i] == RunSmartHomeSystem(ConcreteSmartHomeB)[i] <==> i == 1 || i == 2
    {
      HomesDifferInAbstractSteps(StepOrder[i]);
    }
  }

  /** The demonstration: a titled run of home A, an empty line, then a titled run of home B. */
  function TemplateDemo(): (lines: seq<string>)
    ensures |lines| == 11
    ensures lines[0] == "Smart Home System A:" && lines[5] == "" && lines[6] == "Smart Home System B:"
    ensures lines[1..5] == RunSmartHomeSystem(ConcreteSmartHomeA)
    ensures lines[7..] == RunSmartHomeSystem(ConcreteSmartHomeB)
  {
    ["Smart Home System A:"] + RunSmartHomeSystem(ConcreteSmartHomeA) + [""]
      + ["Smart Home System B:"] + RunSmartHomeSystem(ConcreteSmartHomeB)
  }
}
