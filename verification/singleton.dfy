/**
  The lazily created singleton: a static slot, empty until the first
  `GetInstance` call runs the private constructor and stores the new object.
  An object reference is a number; the constructor's n-th run makes object n.
 */
module SingletonInstance {
  import opened Linq

  type Ref = nat

  /** The static field `instance`, and how many times the private constructor has run. */
  datatype State = State(instance: Option<Ref>, constructed: nat)

  /** Before any call: the slot is empty and no object exists. */
  const Initial: State := State(None, 0)

  /** The states a program can reach from the start. */
  predicate Reachable(s: State) {
    (s.instance.None? && s.constructed == 0) || (s.instance == Some(0) && s.constructed == 1)
  }

  /**
    `GetInstance`: on an empty slot the constructor runs and its object is
    stored; on a filled slot nothing changes. Either way the stored object is
    returned.
   */
  function GetInstance(s: State): (r: (State, Ref))
    ensures r.0.instance == Some(r.1)
    ensures s.instance.Some? ==> r.0 == s && r.1 == s.instance.value
    ensures s.instance.None? ==> r.0.constructed == s.constructed + 1
    ensures Reachable(s) ==> Reachable(r.0)
  {
    match s.instance
    case Some(existing) => (s, existing)
    case None =>
      var created := s.constructed;
      (State(Some(created), s.constructed + 1), created)
  }

  /** A second call changes nothing and returns what the first did. */
  lemma GetInstanceIdempotent(s: State)
    ensures GetInstance(GetInstance(s).0) == GetInstance(s)
  {
  }

  function RefOf(r: (State, Ref)): Ref {
    r.1
  }

  /** `n` calls one after another: the final state and each call's result. */
  function Calls(s: State, n: nat): (r: (State, seq<Ref>))
    ensures |r.1| == n
    decreases n
  {
    if n == 0 then (s, [])
    else
      var (next, x) := GetInstance(s);
      var (last, rest) := Calls(next, n - 1);
      (last, [x] + rest)
  }

  /**
    However many calls are made, they all return the same object, and the
    constructor runs at most once: only if the slot was empty, and then on
    the first call.
   */
  lemma {:induction false} CallsAgree(s: State, n: nat)
    ensures forall i :: 0 <= i < n ==> Calls(s, n).1[i] == Calls(s, n).1[0]
    ensures n > 0 ==> Calls(s, n).0.instance == Some(Calls(s, n).1[0])
    ensures Calls(s, n).0.constructed == s.constructed + (if n > 0 && s.instance.None? then 1 else 0)
    ensures s.instance.Some? ==> Calls(s, n).0 == s
    decreases n
  {
    if n > 0 {
      var (next, x) := GetInstance(s);
      CallsAgree(next, n - 1);
      var rest := Calls(next, n - 1).1;
      assert Calls(s, n).1 == [x] + rest;
      forall i | 1 <= i < n
        ensures Calls(s, n).1[i] == x
      {
        assert Calls(s, n).1[i] == rest[i - 1];
      }
    }
  }

  /** From the start, the constructor runs at most once over any number of calls. */
  lemma ConstructedAtMostOnce(n: nat)
    ensures Calls(Initial, n).0.constructed <= 1
    ensures n > 0 ==> Calls(Initial, n).0 == State(Some(0), 1)
  {
    CallsAgree(Initial, n);
    if n > 0 {
      assert Calls(Initial, n).1[0] == 0;
    }
  }

  /** The demonstration's line for its two calls compared by reference. */
  function SingletonDemo(): string {
    var (s1, singleton) := GetInstance(Initial);
    var (_, anotherSingleton) := GetInstance(s1);
    "Are both instances equals? " + (if singleton == anotherSingleton then "True" else "False")
  }

  lemma SingletonDemoSaysTrue()
    ensures SingletonDemo() == "Are both instances equals? True"
  {
  }
}
