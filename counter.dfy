/** The counter of the application bar (src/layout.tsx): a reducer from a
    state and an action to the next state, driven by React's `useReducer`
    from the initial state `{count: 0}`.

    The reducer switches on the action's string tag, so a tag outside the
    five enum values reaches the `default` branch, which throws; here that
    branch returns `Err`. `Math.floor(Math.random() * 10)` is the parameter
    `roll`, an integer in [0, 10). */
module Counter {

  /** The enum `CountActionType`; `Value()` is the string each member stands for. */
  datatype CountActionType = Increment | IncrementRandom | IncrementOdd | Decrement | Reset
  {
    function Value(): string
    {
      match this
      case Increment => "increment"
      case IncrementRandom => "incrementRandom"
      case IncrementOdd => "incrementOdd"
      case Decrement => "decrement"
      case Reset => "reset"
    }
  }

  /** `{type: ...}`: an action carries the string tag the reducer switches on. */
  datatype CountAction = CountAction(actionType: string)

  datatype CountState = CountState(count: int)

  /** The `throw new Error()` of the default branch. */
  datatype ReducerError = UnknownAction(actionType: string)

  datatype Result<T> = Ok(value: T) | Err(error: ReducerError)

  /** The initial state handed to `useReducer`. */
  const InitialState: CountState := CountState(0)

  /** The action a dispatch button sends. */
  function ActionOf(t: CountActionType): CountAction
  {
    CountAction(t.Value())
  }

  predicate IsOdd(n: int)
  {
    n % 2 == 1
  }

  /** `counterReducer(state, action)`. A known tag always yields a state; an
      unknown tag is an error; a non-negative count stays non-negative. */
  function CounterReducer(state: CountState, action: CountAction, roll: int): (r: Result<CountState>)
    requires 0 <= roll < 10
    ensures r.Err? <==> forall t: CountActionType :: action.actionType != t.Value()
    ensures r.Err? ==> r.error == UnknownAction(action.actionType)
    ensures r.Ok? && state.count >= 0 ==> r.value.count >= 0
  {
    match action.actionType
    case "increment" =>
      assert Increment.Value() == action.actionType;
      Ok(CountState(state.count + 1))
    case "incrementRandom" =>
      assert IncrementRandom.Value() == action.actionType;
      Ok(CountState(state.count + roll + 1))
    case "incrementOdd" =>
      assert IncrementOdd.Value() == action.actionType;
      Ok(CountState(if state.count % 2 == 0 then state.count + 1 else state.count + 2))
    case "decrement" =>
      assert Decrement.Value() == action.actionType;
      Ok(CountState(if state.count > 0 then state.count - 1 else 0))
    case "reset" =>
      assert Reset.Value() == action.actionType;
      Ok(CountState(0))
    case _ =>
      assert forall t: CountActionType :: action.actionType != t.Value();
      Err(UnknownAction(action.actionType))
  }

  /** The five tags are pairwise distinct, so each enum member selects its own branch. */
  lemma ValueInjective(a: CountActionType, b: CountActionType)
    ensures a.Value() == b.Value() <==> a == b
  {
  }

  lemma IncrementAddsOne(state: CountState, roll: int)
    requires 0 <= roll < 10
    ensures CounterReducer(state, ActionOf(Increment), roll) == Ok(CountState(state.count + 1))
  {
  }

  /** The random increment adds an integer between 1 and 10. */
  lemma IncrementRandomInRange(state: CountState, roll: int)
    requires 0 <= roll < 10
    ensures var r := CounterReducer(state, ActionOf(IncrementRandom), roll);
      r.Ok? && state.count + 1 <= r.value.count <= state.count + 10
  {
  }

  /** Incrementing to the next odd number lands on the smallest odd number
      strictly above the current count. */
  lemma IncrementOddIsNextOdd(state: CountState, roll: int)
    requires 0 <= roll < 10
    ensures var r := CounterReducer(state, ActionOf(IncrementOdd), roll);
      && r.Ok?
      && IsOdd(r.value.count)
      && r.value.count > state.count
      && (forall m :: state.count < m < r.value.count ==> !IsOdd(m))
  {
  }

  /** Decrement takes exactly one off a positive count and never goes below zero. */
  lemma DecrementClampsAtZero(state: CountState, roll: int)
    requires 0 <= roll < 10
    ensures var r := CounterReducer(state, ActionOf(Decrement), roll);
      && r.Ok?
      && r.value.count >= 0
      && (state.count > 0 ==> r.value.count == state.count - 1)
      && (state.count <= 0 ==> r.value.count == 0)
  {
  }

  lemma ResetIsZero(state: CountState, roll: int)
    requires 0 <= roll < 10
    ensures CounterReducer(state, ActionOf(Reset), roll) == Ok(InitialState)
  {
  }

  /** Every action a button can dispatch is accepted by the reducer. */
  lemma KnownActionsAccepted(state: CountState, t: CountActionType, roll: int)
    requires 0 <= roll < 10
    ensures CounterReducer(state, ActionOf(t), roll).Ok?
  {
  }

  predicate ValidRolls(rolls: seq<int>)
  {
    forall i :: 0 <= i < |rolls| ==> 0 <= rolls[i] < 10
  }

  /** The state after dispatching `actions` in order, the i-th random
      increment (if any) using `rolls[i]`. */
  function Run(state: CountState, actions: seq<CountActionType>, rolls: seq<int>): CountState
    requires |rolls| == |actions| && ValidRolls(rolls)
    decreases |actions|
  {
    if actions == [] then state
    else
      KnownActionsAccepted(state, actions[0], rolls[0]);
      Run(CounterReducer(state, ActionOf(actions[0]), rolls[0]).value, actions[1..], rolls[1..])
  }

  lemma {:induction false} RunKeepsNonNegative(state: CountState, actions: seq<CountActionType>, rolls: seq<int>)
    requires |rolls| == |actions| && ValidRolls(rolls)
    requires state.count >= 0
    ensures Run(state, actions, rolls).count >= 0
    decreases |actions|
  {
    if actions != [] {
      KnownActionsAccepted(state, actions[0], rolls[0]);
      RunKeepsNonNegative(CounterReducer(state, ActionOf(actions[0]), rolls[0]).value, actions[1..], rolls[1..]);
    }
  }

  /** From `{count: 0}`, every state reached by any sequence of dispatches,
      including every intermediate one, has a non-negative count. */
  lemma ReachableCountsNonNegative(actions: seq<CountActionType>, rolls: seq<int>)
    requires |rolls| == |actions| && ValidRolls(rolls)
    ensures forall k :: 0 <= k <= |actions| ==> Run(InitialState, actions[..k], rolls[..k]).count >= 0
  {
    forall k | 0 <= k <= |actions|
      ensures Run(InitialState, actions[..k], rolls[..k]).count >= 0
    {
      RunKeepsNonNegative(InitialState, actions[..k], rolls[..k]);
    }
  }
}
