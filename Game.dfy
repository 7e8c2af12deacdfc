// The quiz state machine (scripts/game.ts, compiled to scripts/game.js): a
// GameManager holding the current step's state record, a configuration record
// and a registry of event listeners, driven by the learning sequence and the
// conversion functions of module Binary.

module Game {
  import opened Options
  import opened Radix
  import opened Binary

  // ---------------------------------------------------------------------------
  // Records

  /** `GameState`; `isCorrect` is `null` until an evaluation (None here). */
  datatype GameState = GameState(
    currentStep: int,
    targetNumber: int,
    userBinary: string,
    isCorrect: Option<bool>,
    isEvaluated: bool,
    totalSteps: int,
    stepNumber: int,
    hint: string)

  datatype GameConfig = GameConfig(autoAdvance: bool, showHints: bool, soundEnabled: bool)

  /** `Partial<GameConfig>`: each key present or absent. */
  datatype PartialConfig = PartialConfig(
    autoAdvance: Option<bool>, showHints: Option<bool>, soundEnabled: Option<bool>)

  /** `getStats` without its floating-point `progress` entry. */
  datatype Stats = Stats(completedSteps: int, totalSteps: int)

  /** A callback registered with `on`, identified abstractly. */
  type ListenerId = nat

  /** What `emit` hands to the callbacks: the state record or the configuration. */
  datatype Payload = StatePayload(state: GameState) | ConfigPayload(config: GameConfig)

  /** One callback invocation by `emit`; `threw` records that the callback threw
      (and the error was logged) without stopping the remaining callbacks. */
  datatype Delivery = Delivery(event: string, listener: ListenerId, payload: Payload, threw: bool)

  const DefaultConfig := GameConfig(true, true, true)

  // ---------------------------------------------------------------------------
  // The steps of the quiz

  /** The invariant every GameManager method keeps: the step index is in range,
      step number, target and hint belong to that index, and a result is
      recorded exactly when the answer was evaluated. */
  ghost predicate ValidState(s: GameState) {
    && s.totalSteps == |LearningSequence()|
    && 0 <= s.currentStep < s.totalSteps
    && s.stepNumber == s.currentStep + 1
    && s.targetNumber == LearningSequence()[s.currentStep]
    && (s.isEvaluated <==> s.isCorrect.Some?)
    && s.hint == GetHint(s.targetNumber)
  }

  /** The state a step load produces (`initializeState` for index 0, and the
      shared body of `nextStep`, `previousStep` and `goToStep`): the step's
      target, as many zeros as its default width, no evaluation, its hint. */
  function StepState(i: nat): (s: GameState)
    requires i < |LearningSequence()|
    ensures ValidState(s)
    ensures s.currentStep == i && !s.isEvaluated
    ensures |s.userBinary| == DefaultedBitCount(s.targetNumber, None)
  {
    var target := LearningSequence()[i];
    GameState(i, target, Repeat('0', DefaultedBitCount(target, None)), None, false,
              |LearningSequence()|, i + 1, GetHint(target))
  }

  /** Every step load leaves an answerable puzzle: some string of exactly the
      width of the zeroed input passes `checkAnswer` for the step's target. */
  lemma StepSolvable(i: nat)
    requires i < |LearningSequence()|
    ensures exists b :: |b| == |StepState(i).userBinary| && CheckAnswer(b, StepState(i).targetNumber)
  {
    var s := StepState(i);
    var b := ExpectedAnswer(s.targetNumber);
    assert |b| == |s.userBinary| && CheckAnswer(b, s.targetNumber);
  }

  /** At the default width the correct answer is unique: it is the one string
      `ExpectedAnswer` builds (unsigned digits, or the two's complement). */
  lemma AnswerUnique(target: int, b: string)
    requires |b| == DefaultedBitCount(target, None) && CheckAnswer(b, target)
    ensures b == ExpectedAnswer(target)
  {
    ValueInjective(b, ExpectedAnswer(target));
  }

  // ---------------------------------------------------------------------------
  // Pure helpers behind the methods

  /** `toggleBit`'s edit: position `i` becomes '1' when it was '0', and '0'
      otherwise; every other position and the length are kept. */
  function Toggled(s: string, i: nat): (r: string)
    requires i < |s|
    ensures |r| == |s|
    ensures r[i] == (if s[i] == '0' then '1' else '0')
    ensures forall j :: 0 <= j < |s| && j != i ==> r[j] == s[j]
  {
    s[i := if s[i] == '0' then '1' else '0']
  }

  /** Toggling the same position twice restores the string exactly when that
      position held a bit; any other character comes back as '1'. */
  lemma ToggleTwice(s: string, i: nat)
    requires i < |s|
    ensures Toggled(Toggled(s, i), i) == s <==> IsBit(s[i])
  {
    var t := Toggled(Toggled(s, i), i);
    if IsBit(s[i]) {
      assert forall j :: 0 <= j < |s| ==> t[j] == s[j];
    } else {
      assert t[i] == '1' != s[i];
    }
  }

  /** Toggling keeps a bit string a bit string. */
  lemma ToggledKeepsBits(s: string, i: nat)
    requires i < |s| && AllBits(s)
    ensures AllBits(Toggled(s, i))
  {
    var t := Toggled(s, i);
    assert forall j :: 0 <= j < |t| ==> IsBit(t[j]) by {
      forall j | 0 <= j < |t| ensures IsBit(t[j]) {
        if j != i { assert t[j] == s[j]; }
      }
    }
  }

  /** `{ ...config, ...newConfig }`: a key present in the update overwrites,
      every other key keeps its old value. */
  function MergeConfig(c: GameConfig, p: PartialConfig): (r: GameConfig)
    ensures r.autoAdvance == p.autoAdvance.GetOr(c.autoAdvance)
    ensures r.showHints == p.showHints.GetOr(c.showHints)
    ensures r.soundEnabled == p.soundEnabled.GetOr(c.soundEnabled)
  {
    GameConfig(
      if p.autoAdvance.Some? then p.autoAdvance.value else c.autoAdvance,
      if p.showHints.Some? then p.showHints.value else c.showHints,
      if p.soundEnabled.Some? then p.soundEnabled.value else c.soundEnabled)
  }

  /** Merging is idempotent, an empty update changes nothing, and a complete
      update replaces the configuration. */
  lemma MergeConfigLaws(c: GameConfig, d: GameConfig, p: PartialConfig)
    ensures MergeConfig(MergeConfig(c, p), p) == MergeConfig(c, p)
    ensures MergeConfig(c, PartialConfig(None, None, None)) == c
    ensures MergeConfig(c, PartialConfig(Some(d.autoAdvance), Some(d.showHints), Some(d.soundEnabled))) == d
  {
  }

  /** Two updates in a row merge as one update in which the later keys win. */
  lemma MergeConfigCompose(c: GameConfig, p: PartialConfig, q: PartialConfig)
    ensures MergeConfig(MergeConfig(c, p), q) ==
      MergeConfig(c, PartialConfig(
        if q.autoAdvance.Some? then q.autoAdvance else p.autoAdvance,
        if q.showHints.Some? then q.showHints else p.showHints,
        if q.soundEnabled.Some? then q.soundEnabled else p.soundEnabled))
  {
  }

  /** `Array.prototype.indexOf`: the first position holding `x`, or -1. */
  function IndexOf(s: seq<ListenerId>, x: ListenerId): (r: int)
    ensures r == -1 <==> x !in s
    ensures r != -1 ==> 0 <= r < |s| && s[r] == x && x !in s[..r]
  {
    if s == [] then -1
    else if s[0] == x then 0
    else
      var k := IndexOf(s[1..], x);
      if k == -1 then -1
      else
        assert s[..k + 1] == [s[0]] + s[1..][..k];
        k + 1
  }

  /** `off`'s edit of one callback list: `splice(indexOf(x), 1)` when present. */
  function RemoveFirst(s: seq<ListenerId>, x: ListenerId): (r: seq<ListenerId>)
    ensures x !in s ==> r == s
    ensures x in s ==> |r| == |s| - 1
    ensures x in s ==> exists k :: 0 <= k < |s| && s[k] == x && x !in s[..k] && r == s[..k] + s[k + 1..]
  {
    var index := IndexOf(s, x);
    if index > -1 then s[..index] + s[index + 1..] else s
  }

  /** Removing the first occurrence takes away exactly one copy of `x`. */
  lemma RemoveFirstMultiset(s: seq<ListenerId>, x: ListenerId)
    ensures multiset(RemoveFirst(s, x)) == multiset(s) - multiset{x}
  {
    var index := IndexOf(s, x);
    if index > -1 {
      assert s == s[..index] + [x] + s[index + 1..];
    }
  }

  /** Registering a fresh callback and then removing it restores the list;
      with an earlier copy present, the earlier copy goes and the new one stays. */
  lemma RemoveFirstAfterAppend(s: seq<ListenerId>, x: ListenerId)
    ensures x !in s ==> RemoveFirst(s + [x], x) == s
    ensures x in s ==> RemoveFirst(s + [x], x) == RemoveFirst(s, x) + [x]
  {
    var t := s + [x];
    var i := IndexOf(s, x);
    if x !in s {
      assert IndexOf(t, x) == |s| by {
        assert t[|s|] == x && t[..|s|] == s;
        IndexOfUnique(t, x, |s|);
      }
    } else {
      assert IndexOf(t, x) == i by {
        assert t[i] == x && t[..i] == s[..i];
        IndexOfUnique(t, x, i);
      }
      assert t[i + 1..] == s[i + 1..] + [x];
    }
  }

  /** The first occurrence is the only position with `x` and no `x` before it. */
  lemma IndexOfUnique(s: seq<ListenerId>, x: ListenerId, k: nat)
    requires k < |s| && s[k] == x && x !in s[..k]
    ensures IndexOf(s, x) == k
  {
  }

  /** The callbacks registered for an event, in registration order. */
  function ListenersFor(listeners: map<string, seq<ListenerId>>, event: string): seq<ListenerId> {
    if event in listeners then listeners[event] else []
  }

  // ---------------------------------------------------------------------------
  // The manager

  class GameManager {
    var state: GameState
    var config: GameConfig
    var listeners: map<string, seq<ListenerId>>
    /** Auto-advance timers scheduled by `evaluate` and not yet fired. */
    var pendingAdvances: nat
    /** Every callback invocation so far, in order. */
    ghost var deliveries: seq<Delivery>
    /** Which callbacks throw on which payload (their bodies are not modelled). */
    ghost const Throws: (ListenerId, Payload) -> bool

    ghost predicate Valid()
      reads this
    {
      ValidState(state)
    }

    /** What one `emit` of `event` with `payload` delivers: one entry per
        registered callback, in order, whether or not earlier callbacks threw. */
    ghost function Deliveries(event: string, ls: seq<ListenerId>, payload: Payload): (r: seq<Delivery>)
      ensures |r| == |ls|
      ensures forall i :: 0 <= i < |ls| ==>
        r[i] == Delivery(event, ls[i], payload, Throws(ls[i], payload))
    {
      if ls == [] then []
      else
        Deliveries(event, ls[..|ls| - 1], payload)
          + [Delivery(event, ls[|ls| - 1], payload, Throws(ls[|ls| - 1], payload))]
    }

    constructor(ghost throws: (ListenerId, Payload) -> bool)
      ensures Valid()
      ensures state == StepState(0) && config == DefaultConfig
      ensures listeners == map[] && pendingAdvances == 0 && deliveries == []
      ensures Throws == throws
    {
      listeners := map[];
      config := DefaultConfig;
      var s := InitializeState();
      state := s;
      pendingAdvances := 0;
      deliveries := [];
      Throws := throws;
    }

    /** `initializeState`: the state of step 0. */
    static method InitializeState() returns (s: GameState)
      ensures s == StepState(0)
    {
      var stepInfo := GetStepInfo(0).value;
      var targetBinary := DecimalToBinary(stepInfo.currentNumber, None);
      s := GameState(0, stepInfo.currentNumber, Repeat('0', targetBinary.bitCount), None, false,
                     stepInfo.totalSteps, stepInfo.stepNumber, GetHint(stepInfo.currentNumber));
    }

    /** `getState`: a copy of the state record. */
    method GetState() returns (s: GameState)
      requires Valid()
      ensures s == state && ValidState(s)
    {
      s := state;
    }

    /** `getConfig`: a copy of the configuration. */
    method GetConfig() returns (c: GameConfig)
      ensures c == config
    {
      c := config;
    }

    /** `emit`: call every callback registered for `event`, in order; a
        callback that throws is logged and the rest still run. Nothing but
        the delivery log changes. */
    method Emit(event: string, payload: Payload)
      modifies this
      ensures deliveries == old(deliveries) + Deliveries(event, ListenersFor(listeners, event), payload)
      ensures state == old(state) && config == old(config) && listeners == old(listeners)
      ensures pendingAdvances == old(pendingAdvances)
    {
      if event !in listeners {
        return;
      }
      var callbacks := listeners[event];
      for i := 0 to |callbacks|
        invariant deliveries == old(deliveries) + Deliveries(event, callbacks[..i], payload)
        invariant state == old(state) && config == old(config) && listeners == old(listeners)
        invariant pendingAdvances == old(pendingAdvances)
      {
        assert callbacks[..i + 1][..i] == callbacks[..i];
        deliveries := deliveries + [Delivery(event, callbacks[i], payload, Throws(callbacks[i], payload))];
      }
      assert callbacks[..|callbacks|] == callbacks;
    }

    /** `updateBinary`: store the input, clear the evaluation, emit "binaryUpdated". */
    method UpdateBinary(binary: string)
      requires Valid()
      modifies this
      ensures Valid()
      ensures state == old(state).(userBinary := binary, isEvaluated := false, isCorrect := None)
      ensures config == old(config) && listeners == old(listeners)
      ensures pendingAdvances == old(pendingAdvances)
      ensures deliveries == old(deliveries)
        + Deliveries("binaryUpdated", ListenersFor(listeners, "binaryUpdated"), StatePayload(state))
    {
      state := state.(userBinary := binary, isEvaluated := false, isCorrect := None);
      Emit("binaryUpdated", StatePayload(state));
    }

    /** `toggleBit`: an index outside the input changes nothing and emits
        nothing; otherwise that one position is flipped in a character array
        and the result goes through `updateBinary`. */
    method ToggleBit(index: int)
      requires Valid()
      modifies this
      ensures Valid()
      ensures !(0 <= index < |old(state).userBinary|) ==>
        state == old(state) && deliveries == old(deliveries)
      ensures 0 <= index < |old(state).userBinary| ==>
        && state == old(state).(userBinary := Toggled(old(state).userBinary, index),
                                isEvaluated := false, isCorrect := None)
        && deliveries == old(deliveries)
          + Deliveries("binaryUpdated", ListenersFor(listeners, "binaryUpdated"), StatePayload(state))
      ensures config == old(config) && listeners == old(listeners)
      ensures pendingAdvances == old(pendingAdvances)
    {
      if index < 0 || index >= |state.userBinary| {
        return;
      }
      var current := state.userBinary;
      var binaryArray := new char[|current|](j requires 0 <= j < |current| => current[j]);
      binaryArray[index] := if binaryArray[index] == '0' then '1' else '0';
      var newBinary := binaryArray[..];
      assert newBinary == Toggled(current, index);
      UpdateBinary(newBinary);
    }

    /** `evaluate`: record and return `checkAnswer` of the input against the
        target, emit "evaluated", and schedule an advance when auto-advance is
        on and the answer is correct. */
    method Evaluate() returns (isCorrect: bool)
      requires Valid()
      modifies this
      ensures Valid()
      ensures isCorrect == CheckAnswer(old(state).userBinary, old(state).targetNumber)
      ensures state == old(state).(isCorrect := Some(isCorrect), isEvaluated := true)
      ensures pendingAdvances == old(pendingAdvances) + (if config.autoAdvance && isCorrect then 1 else 0)
      ensures config == old(config) && listeners == old(listeners)
      ensures deliveries == old(deliveries)
        + Deliveries("evaluated", ListenersFor(listeners, "evaluated"), StatePayload(state))
    {
      isCorrect := CheckAnswer(state.userBinary, state.targetNumber);
      state := state.(isCorrect := Some(isCorrect), isEvaluated := true);
      Emit("evaluated", StatePayload(state.(isCorrect := Some(isCorrect))));
      if config.autoAdvance && isCorrect {
        pendingAdvances := pendingAdvances + 1;
      }
    }

    /** The scheduled `setTimeout(() => this.nextStep(), 1000)` firing. */
    method FireAdvanceTimer()
      requires Valid() && pendingAdvances > 0
      modifies this
      ensures Valid()
      ensures pendingAdvances == old(pendingAdvances) - 1
      ensures old(state).currentStep < |LearningSequence()| - 1 ==>
        && state == StepState(old(state).currentStep + 1)
        && deliveries == old(deliveries)
          + Deliveries("stepChanged", ListenersFor(listeners, "stepChanged"), StatePayload(state))
      ensures old(state).currentStep == |LearningSequence()| - 1 ==>
        && state == old(state)
        && deliveries == old(deliveries)
          + Deliveries("gameComplete", ListenersFor(listeners, "gameComplete"), StatePayload(state))
      ensures config == old(config) && listeners == old(listeners)
    {
      pendingAdvances := pendingAdvances - 1;
      NextStep();
    }

    /** The body `nextStep`, `previousStep` and `goToStep` share: set the
        index, read the step, and reload target, zeroed input, flags, step
        number and hint. */
    method LoadStep(stepIndex: int)
      requires Valid() && 0 <= stepIndex < |LearningSequence()|
      modifies this
      ensures Valid() && state == StepState(stepIndex)
      ensures config == old(config) && listeners == old(listeners)
      ensures pendingAdvances == old(pendingAdvances) && deliveries == old(deliveries)
    {
      state := state.(currentStep := stepIndex);
      var stepInfo := GetStepInfo(stepIndex).value;
      var targetBinary := DecimalToBinary(stepInfo.currentNumber, None);
      state := state.(targetNumber := stepInfo.currentNumber,
                      userBinary := Repeat('0', targetBinary.bitCount),
                      isCorrect := None,
                      isEvaluated := false,
                      stepNumber := stepInfo.stepNumber,
                      hint := GetHint(stepInfo.currentNumber));
    }

    /** `nextStep`: on the last step only "gameComplete" is emitted; otherwise
        the next step is loaded and "stepChanged" emitted. */
    method NextStep()
      requires Valid()
      modifies this
      ensures Valid()
      ensures old(state).currentStep >= old(state).totalSteps - 1 ==>
        && state == old(state)
        && deliveries == old(deliveries)
          + Deliveries("gameComplete", ListenersFor(listeners, "gameComplete"), StatePayload(state))
      ensures old(state).currentStep < old(state).totalSteps - 1 ==>
        && state == StepState(old(state).currentStep + 1)
        && deliveries == old(deliveries)
          + Deliveries("stepChanged", ListenersFor(listeners, "stepChanged"), StatePayload(state))
      ensures config == old(config) && listeners == old(listeners)
      ensures pendingAdvances == old(pendingAdvances)
    {
      if state.currentStep >= state.totalSteps - 1 {
        Emit("gameComplete", StatePayload(state));
        return;
      }
      LoadStep(state.currentStep + 1);
      Emit("stepChanged", StatePayload(state));
    }

    /** `previousStep`: nothing at all on the first step; otherwise the
        previous step is loaded and "stepChanged" emitted. */
    method PreviousStep()
      requires Valid()
      modifies this
      ensures Valid()
      ensures old(state).currentStep <= 0 ==> state == old(state) && deliveries == old(deliveries)
      ensures old(state).currentStep > 0 ==>
        && state == StepState(old(state).currentStep - 1)
        && deliveries == old(deliveries)
          + Deliveries("stepChanged", ListenersFor(listeners, "stepChanged"), StatePayload(state))
      ensures config == old(config) && listeners == old(listeners)
      ensures pendingAdvances == old(pendingAdvances)
    {
      if state.currentStep <= 0 {
        return;
      }
      LoadStep(state.currentStep - 1);
      Emit("stepChanged", StatePayload(state));
    }

    /** `goToStep`: an index outside [0, totalSteps) changes nothing and emits
        nothing; otherwise that step is loaded and "stepChanged" emitted. */
    method GoToStep(stepIndex: int)
      requires Valid()
      modifies this
      ensures Valid()
      ensures !(0 <= stepIndex < old(state).totalSteps) ==>
        state == old(state) && deliveries == old(deliveries)
      ensures 0 <= stepIndex < old(state).totalSteps ==>
        && state == StepState(stepIndex)
        && deliveries == old(deliveries)
          + Deliveries("stepChanged", ListenersFor(listeners, "stepChanged"), StatePayload(state))
      ensures config == old(config) && listeners == old(listeners)
      ensures pendingAdvances == old(pendingAdvances)
    {
      if stepIndex < 0 || stepIndex >= state.totalSteps {
        return;
      }
      LoadStep(stepIndex);
      Emit("stepChanged", StatePayload(state));
    }

    /** `resetStep`: same step and target, the input zeroed to the target's
        width, the evaluation cleared, "stepReset" emitted. */
    method ResetStep()
      requires Valid()
      modifies this
      ensures Valid()
      ensures state == old(state).(userBinary := Repeat('0', DefaultedBitCount(old(state).targetNumber, None)),
                                   isCorrect := None, isEvaluated := false)
      ensures state == StepState(state.currentStep)
      ensures config == old(config) && listeners == old(listeners)
      ensures pendingAdvances == old(pendingAdvances)
      ensures deliveries == old(deliveries)
        + Deliveries("stepReset", ListenersFor(listeners, "stepReset"), StatePayload(state))
    {
      var targetBinary := DecimalToBinary(state.targetNumber, None);
      state := state.(userBinary := Repeat('0', targetBinary.bitCount), isCorrect := None, isEvaluated := false);
      Emit("stepReset", StatePayload(state));
    }

    /** `resetGame`: the initial state again, with configuration, listeners and
        scheduled timers untouched; "gameReset" emitted. */
    method ResetGame()
      requires Valid()
      modifies this
      ensures Valid() && state == StepState(0)
      ensures config == old(config) && listeners == old(listeners)
      ensures pendingAdvances == old(pendingAdvances)
      ensures deliveries == old(deliveries)
        + Deliveries("gameReset", ListenersFor(listeners, "gameReset"), StatePayload(state))
    {
      var s := InitializeState();
      state := s;
      Emit("gameReset", StatePayload(state));
    }

    /** `updateConfig`: shallow merge, then "configUpdated" with the new configuration. */
    method UpdateConfig(newConfig: PartialConfig)
      requires Valid()
      modifies this
      ensures Valid()
      ensures config == MergeConfig(old(config), newConfig)
      ensures state == old(state) && listeners == old(listeners)
      ensures pendingAdvances == old(pendingAdvances)
      ensures deliveries == old(deliveries)
        + Deliveries("configUpdated", ListenersFor(listeners, "configUpdated"), ConfigPayload(config))
    {
      config := MergeConfig(config, newConfig);
      Emit("configUpdated", ConfigPayload(config));
    }

    /** `isGameComplete`: on the last step with a correct evaluation. */
    function IsGameComplete(): (r: bool)
      requires Valid()
      reads this
      ensures r <==> state.currentStep == |LearningSequence()| - 1 && state.isCorrect == Some(true)
      ensures r ==> state.isEvaluated
    {
      state.currentStep >= state.totalSteps - 1 && state.isCorrect == Some(true)
    }

    /** `getStats` without `progress`: the steps reached so far (the current
        one included) and the number of steps. */
    function GetStats(): (r: Stats)
      requires Valid()
      reads this
      ensures 1 <= r.completedSteps <= r.totalSteps == |LearningSequence()|
      ensures r.completedSteps == state.stepNumber
    {
      Stats(state.currentStep + 1, state.totalSteps)
    }

    /** `on`: append the callback to the event's list, creating the list first;
        duplicates are kept. */
    method On(event: string, callback: ListenerId)
      modifies this
      ensures listeners == old(listeners)[event := ListenersFor(old(listeners), event) + [callback]]
      ensures state == old(state) && config == old(config)
      ensures pendingAdvances == old(pendingAdvances) && deliveries == old(deliveries)
    {
      if event !in listeners {
        listeners := listeners[event := []];
      }
      listeners := listeners[event := listeners[event] + [callback]];
    }

    /** `off`: remove the first registration of the callback for the event;
        an unknown event or callback changes nothing. */
    method Off(event: string, callback: ListenerId)
      modifies this
      ensures event !in old(listeners) ==> listeners == old(listeners)
      ensures event in old(listeners) ==>
        listeners == old(listeners)[event := RemoveFirst(old(listeners)[event], callback)]
      ensures state == old(state) && config == old(config)
      ensures pendingAdvances == old(pendingAdvances) && deliveries == old(deliveries)
    {
      if event !in listeners {
        return;
      }
      var callbacks := listeners[event];
      var index := IndexOf(callbacks, callback);
      if index > -1 {
        listeners := listeners[event := callbacks[..index] + callbacks[index + 1..]];
      }
    }
  }
}
