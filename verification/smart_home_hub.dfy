/**
  The smart-home mediator: three devices that talk to each other only through
  a hub. A device trigger prints its own line and notifies the hub with an
  event name; the hub decides, from the kind of the sender and the event
  name, which device actions to run, in which order.
 */
module SmartHomeHub {
  import opened Linq

  datatype DeviceKind = Lighting | Security | Climate

  /** The device methods the hub calls. */
  datatype Action =
    | TurnOnLights | AdjustBrightness | ActivateNightMode
    | ActivateAlarm | ActivateNightSurveillance
    | AdjustTemperature | SetNightTemperature

  /** The device methods that notify the hub. */
  datatype Trigger = MotionDetection | StartNightMode | StartDailyMode | TemperatureThresholdReached

  /** The device an action belongs to. */
  function Owner(a: Action): DeviceKind {
    match a
    case TurnOnLights | AdjustBrightness | ActivateNightMode => Lighting
    case ActivateAlarm | ActivateNightSurveillance => Security
    case AdjustTemperature | SetNightTemperature => Climate
  }

  function ActionLine(a: Action): string {
    match a
    case TurnOnLights => "Turning on lights..."
    case AdjustBrightness => "Adjusting brightness..."
    case ActivateNightMode => "Activating nightmode..."
    case ActivateAlarm => "Activating the alarm..."
    case ActivateNightSurveillance => "Activating night surveillance system"
    case AdjustTemperature => "Adjusting temperature..."
    case SetNightTemperature => "Setting night temperature..."
  }

  /** The device a trigger belongs to, which is the sender of its notification. */
  function Sender(t: Trigger): DeviceKind {
    match t
    case MotionDetection => Lighting
    case StartNightMode | StartDailyMode => Security
    case TemperatureThresholdReached => Climate
  }

  function EventName(t: Trigger): string {
    match t
    case MotionDetection => "MOTION DETECTED!"
    case StartNightMode => "NIGHT MODE"
    case StartDailyMode => "DAILY MODE"
    case TemperatureThresholdReached => "TEMPERATURE THRESHOLD REACHED"
  }

  function TriggerLine(t: Trigger): string {
    match t
    case MotionDetection => "Motion detected..."
    case StartNightMode => "Starting nightmode"
    case StartDailyMode => "Activating daily mode"
    case TemperatureThresholdReached => "Temperature threshold reached..."
  }

  /** `SmartHomeHub.Notify`: the actions the hub runs, in order, for a sender kind and an event name. */
  function Notify(sender: DeviceKind, eventName: string): seq<Action> {
    match sender
    case Lighting =>
      if eventName == "MOTION DETECTED!" then [TurnOnLights, ActivateAlarm] else []
    case Security =>
      if eventName == "NIGHT MODE" then [ActivateNightMode, ActivateNightSurveillance, SetNightTemperature]
      else if eventName == "DAILY MODE" then [AdjustBrightness, ActivateAlarm, AdjustTemperature]
      else []
    case Climate =>
      if eventName == "TEMPERATURE THRESHOLD REACHED" then [ActivateAlarm] else []
  }

  /** Who a device hands its notifications to: nobody, or the hub. */
  datatype Link = Unlinked | LinkedTo(hub: nat)

  /** The three devices' mediator fields. */
  datatype Home = Home(lighting: Link, security: Link, climate: Link)

  function LinkOf(home: Home, kind: DeviceKind): Link {
    match kind
    case Lighting => home.lighting
    case Security => home.security
    case Climate => home.climate
  }

  /** The `SmartHomeHub` constructor: the hub calls `SetMediator` on every device with itself. */
  function ConnectHub(home: Home, hub: nat): (r: Home)
    ensures forall kind: DeviceKind :: LinkOf(r, kind) == LinkedTo(hub)
  {
    Home(LinkedTo(hub), LinkedTo(hub), LinkedTo(hub))
  }

  /** A step of a trigger's run. */
  datatype Step =
    | Announced(trigger: Trigger)                  // the trigger's own line
    | Notified(sender: DeviceKind, eventName: string)
    | Performed(action: Action)
    | NullMediator                                 // the device had no mediator: the call throws

  function PerformedStep(a: Action): Step {
    Performed(a)
  }

  /**
    A trigger method: the device prints its line, then notifies its mediator,
    which runs the actions `Notify` chooses. Actions never notify the hub, so
    a run holds no further notification. A device whose mediator was never
    set throws after printing its line.
   */
  function Fire(home: Home, t: Trigger): (steps: seq<Step>)
    ensures |steps| >= 2 && steps[0] == Announced(t)
  {
    match LinkOf(home, Sender(t))
    case Unlinked => [Announced(t), NullMediator]
    case LinkedTo(_) => [Announced(t), Notified(Sender(t), EventName(t))] + Select(Notify(Sender(t), EventName(t)), PerformedStep)
  }

  /** The console lines of a run; a notification itself prints nothing. */
  function StepLines(steps: seq<Step>): seq<string>
    decreases |steps|
  {
    if |steps| == 0 then []
    else
      var rest := StepLines(steps[1..]);
      match steps[0]
      case Announced(t) => [TriggerLine(t)] + rest
      case Performed(a) => [ActionLine(a)] + rest
      case _ => rest
  }

  /** The actions `Notify` runs for each trigger's own notification, keyed by the trigger. */
  function Reaction(t: Trigger): seq<Action> {
    match t
    case MotionDetection => [TurnOnLights, ActivateAlarm]
    case StartNightMode => [ActivateNightMode, ActivateNightSurveillance, SetNightTemperature]
    case StartDailyMode => [AdjustBrightness, ActivateAlarm, AdjustTemperature]
    case TemperatureThresholdReached => [ActivateAlarm]
  }

  lemma EventNamesDiffer()
    ensures "NIGHT MODE" != "DAILY MODE"
  {
    assert "NIGHT MODE"[0] != "DAILY MODE"[0];
  }

  /**
    The hub reacts to a notification exactly when it is one a trigger of the
    sender sends, and then with that trigger's reaction; any other pair of
    sender and event name, such as lighting with "NIGHT MODE", does nothing.
   */
  lemma NotifyReactsToTriggersOnly(sender: DeviceKind, eventName: string)
    ensures Notify(sender, eventName) != [] <==> exists t: Trigger :: Sender(t) == sender && EventName(t) == eventName
    ensures forall t: Trigger :: Sender(t) == sender && EventName(t) == eventName ==> Notify(sender, eventName) == Reaction(t)
  {
    EventNamesDiffer();
    if sender == Lighting && eventName == "MOTION DETECTED!" {
      assert Sender(MotionDetection) == sender && EventName(MotionDetection) == eventName;
    } else if sender == Security && eventName == "NIGHT MODE" {
      assert Sender(StartNightMode) == sender && EventName(StartNightMode) == eventName;
    } else if sender == Security && eventName == "DAILY MODE" {
      assert Sender(StartDailyMode) == sender && EventName(StartDailyMode) == eventName;
    } else if sender == Climate && eventName == "TEMPERATURE THRESHOLD REACHED" {
      assert Sender(TemperatureThresholdReached) == sender && EventName(TemperatureThresholdReached) == eventName;
    }
  }

  /** Night and daily mode each give every device exactly one action: lighting, security, climate. */
  lemma ModesReachEveryDevice()
    ensures Select(Notify(Security, "NIGHT MODE"), Owner) == [Lighting, Security, Climate]
    ensures Select(Notify(Security, "DAILY MODE"), Owner) == [Lighting, Security, Climate]
  {
    EventNamesDiffer();
  }

  /**
    On a home the hub is connected to, a trigger prints its line, notifies the
    hub exactly once, as its own device with its own event name, and then
    performs the trigger's reaction in order.
   */
  lemma {:induction false} FireOnConnectedHome(home: Home, hub: nat, t: Trigger)
    ensures Fire(ConnectHub(home, hub), t) ==
      [Announced(t), Notified(Sender(t), EventName(t))] + Select(Reaction(t), PerformedStep)
    ensures Count(Fire(ConnectHub(home, hub), t), IsNotification) == 1
    ensures StepLines(Fire(ConnectHub(home, hub), t)) == [TriggerLine(t)] + Select(Reaction(t), ActionLine)
  {
    var steps := Fire(ConnectHub(home, hub), t);
    NotifyReactsToTriggersOnly(Sender(t), EventName(t));
    var performed := Select(Reaction(t), PerformedStep);
    assert steps == [Announced(t), Notified(Sender(t), EventName(t))] + performed;
    WhereNone(performed, IsNotification);
    WhereAppend([Announced(t), Notified(Sender(t), EventName(t))], performed, IsNotification);
    PerformedLines(Reaction(t));
    assert steps[1..] == [Notified(Sender(t), EventName(t))] + performed;
    assert steps[2..] == performed;
  }

  function IsNotification(s: Step): bool {
    s.Notified?
  }

  lemma {:induction false} PerformedLines(actions: seq<Action>)
    ensures StepLines(Select(actions, PerformedStep)) == Select(actions, ActionLine)
    decreases |actions|
  {
    if |actions| > 0 {
      PerformedLines(actions[1..]);
      assert Select(actions, PerformedStep)[1..] == Select(actions[1..], PerformedStep);
      assert Select(actions, ActionLine) == [ActionLine(actions[0])] + Select(actions[1..], ActionLine);
    }
  }

  /** A device the hub was never connected to throws before any action is performed. */
  lemma FireWithoutHub(t: Trigger)
    ensures Fire(Home(Unlinked, Unlinked, Unlinked), t) == [Announced(t), NullMediator]
    ensures StepLines(Fire(Home(Unlinked, Unlinked, Unlinked), t)) == [TriggerLine(t)]
  {
    var steps := Fire(Home(Unlinked, Unlinked, Unlinked), t);
    assert steps[1..] == [NullMediator];
    assert StepLines([NullMediator]) == StepLines([NullMediator][1..]) == [];
  }
}
