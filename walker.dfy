/** A walker process: a bounded one-dimensional random walk that reports once.

    The pseudorandom draws are an input sequence (one draw per step) and the
    send to the controller appends to an output sequence, so the walk is a
    deterministic loop with an early exit.
 */
module Walker {

  /** Why a walk finished: at the first step that left the domain, or after
      every step stayed inside it. */
  datatype Termination = OutOfBounds(step: int) | StepLimit

  /** The move chosen by one draw: left on an even draw, right on an odd one. */
  function Move(draw: nat): (m: int)
    ensures m == -1 || m == 1
    ensures m == -1 <==> draw % 2 == 0
  {
    if draw % 2 == 0 then -1 else 1
  }

  /** The walker's position after its first k moves, starting from 0. */
  function Position(draws: seq<nat>, k: nat): int
    requires k <= |draws|
  {
    if k == 0 then 0 else Position(draws, k - 1) + Move(draws[k - 1])
  }

  /** The bounds test of the walk: strictly outside [-domainSize, domainSize]. */
  predicate Outside(position: int, domainSize: int) {
    position < -domainSize || position > domainSize
  }

  /** How the walk ends when it is searched from step `from` up to maxSteps. */
  function ExitFrom(draws: seq<nat>, domainSize: int, maxSteps: int, from: nat): Termination
    requires maxSteps <= |draws|
    decreases maxSteps - from
  {
    if from > maxSteps then StepLimit
    else if Outside(Position(draws, from), domainSize) then OutOfBounds(from)
    else ExitFrom(draws, domainSize, maxSteps, from + 1)
  }

  /** How the whole walk ends: the search starts at step 1. */
  function Outcome(draws: seq<nat>, domainSize: int, maxSteps: int): Termination
    requires maxSteps <= |draws|
  {
    ExitFrom(draws, domainSize, maxSteps, 1)
  }

  /** The integer the walker sends to the controller for a given ending. */
  function StepsTaken(t: Termination, maxSteps: int): int {
    match t
    case OutOfBounds(step) => step
    case StepLimit => maxSteps
  }

  /** The walk loop. Every step moves by one draw and tests the bounds; the
      walk sends its step number and returns at the first out-of-bounds step,
      and otherwise sends maxSteps after the loop. */
  method Walk(draws: seq<nat>, domainSize: int, maxSteps: int) returns (sent: seq<int>, reason: Termination)
    requires maxSteps <= |draws|
    ensures reason == Outcome(draws, domainSize, maxSteps)
    ensures sent == [StepsTaken(reason, maxSteps)]
  {
    sent := [];
    var position := 0;
    var step: nat := 1;
    while step <= maxSteps
      invariant 1 <= step && (step > 1 ==> step <= maxSteps + 1)
      invariant position == Position(draws, step - 1)
      invariant ExitFrom(draws, domainSize, maxSteps, 1) == ExitFrom(draws, domainSize, maxSteps, step)
      invariant sent == []
    {
      position := position + Move(draws[step - 1]);
      if Outside(position, domainSize) {
        sent := sent + [step];
        reason := OutOfBounds(step);
        return;
      }
      step := step + 1;
    }
    sent := sent + [maxSteps];
    reason := StepLimit;
  }

  /** The search from step `from` finds the first step at or after `from`
      that is outside the domain, and finds none exactly when every step up
      to maxSteps is inside. */
  lemma {:induction false} ExitFromIsFirstExit(draws: seq<nat>, domainSize: int, maxSteps: int, from: nat)
    requires maxSteps <= |draws|
    ensures var t := ExitFrom(draws, domainSize, maxSteps, from);
      t.OutOfBounds? ==>
        from <= t.step <= maxSteps && Outside(Position(draws, t.step), domainSize) &&
        forall k :: from <= k < t.step ==> !Outside(Position(draws, k), domainSize)
    ensures ExitFrom(draws, domainSize, maxSteps, from) == StepLimit ==>
      forall k :: from <= k <= maxSteps ==> !Outside(Position(draws, k), domainSize)
    ensures (forall k :: from <= k <= maxSteps ==> !Outside(Position(draws, k), domainSize)) ==>
      ExitFrom(draws, domainSize, maxSteps, from) == StepLimit
    decreases maxSteps - from
  {
    if from <= maxSteps {
      if Outside(Position(draws, from), domainSize) {
        assert !(forall k :: from <= k <= maxSteps ==> !Outside(Position(draws, k), domainSize));
      } else {
        ExitFromIsFirstExit(draws, domainSize, maxSteps, from + 1);
      }
    }
  }

  /** The walk ends out of bounds at step s exactly when s is the smallest
      step in 1..maxSteps whose position is outside the domain, and it ends by
      the step limit exactly when no step in 1..maxSteps is outside. */
  lemma OutcomeIsFirstExit(draws: seq<nat>, domainSize: int, maxSteps: int, s: int)
    requires maxSteps <= |draws|
    ensures Outcome(draws, domainSize, maxSteps) == OutOfBounds(s) ==>
      1 <= s <= maxSteps && Outside(Position(draws, s), domainSize) &&
      forall k :: 1 <= k < s ==> !Outside(Position(draws, k), domainSize)
    ensures (1 <= s <= maxSteps && Outside(Position(draws, s), domainSize) &&
             forall k :: 1 <= k < s ==> !Outside(Position(draws, k), domainSize)) ==>
      Outcome(draws, domainSize, maxSteps) == OutOfBounds(s)
    ensures Outcome(draws, domainSize, maxSteps) == StepLimit ==>
      forall k :: 1 <= k <= maxSteps ==> !Outside(Position(draws, k), domainSize)
    ensures (forall k :: 1 <= k <= maxSteps ==> !Outside(Position(draws, k), domainSize)) ==>
      Outcome(draws, domainSize, maxSteps) == StepLimit
  {
    ExitFromIsFirstExit(draws, domainSize, maxSteps, 1);
    var t := Outcome(draws, domainSize, maxSteps);
    if 1 <= s <= maxSteps && Outside(Position(draws, s), domainSize) &&
       forall k :: 1 <= k < s ==> !Outside(Position(draws, k), domainSize)
    {
      if t.OutOfBounds? {
        // Neither of the two first exits can precede the other.
        assert !(t.step < s) && !(s < t.step);
      }
    }
  }

  /** With at least one step allowed, the reported step count lies in
      [1, maxSteps]. */
  lemma StepsTakenInRange(draws: seq<nat>, domainSize: int, maxSteps: int)
    requires maxSteps <= |draws|
    requires 1 <= maxSteps
    ensures 1 <= StepsTaken(Outcome(draws, domainSize, maxSteps), maxSteps) <= maxSteps
  {
    ExitFromIsFirstExit(draws, domainSize, maxSteps, 1);
  }

  /** Every step before the reported one is inside the closed domain, and a
      report smaller than maxSteps comes from an out-of-bounds step. */
  lemma InsideBeforeReport(draws: seq<nat>, domainSize: int, maxSteps: int)
    requires maxSteps <= |draws|
    ensures var r := StepsTaken(Outcome(draws, domainSize, maxSteps), maxSteps);
      forall k :: 1 <= k < r && k <= maxSteps ==> !Outside(Position(draws, k), domainSize)
    ensures var r := StepsTaken(Outcome(draws, domainSize, maxSteps), maxSteps);
      1 <= r < maxSteps ==> Outside(Position(draws, r), domainSize)
  {
    ExitFromIsFirstExit(draws, domainSize, maxSteps, 1);
  }

  /** After k moves the walker is at most k away from the origin. */
  lemma {:induction false} PositionWithinSteps(draws: seq<nat>, k: nat)
    requires k <= |draws|
    ensures -(k as int) <= Position(draws, k) <= k
  {
    if k > 0 {
      PositionWithinSteps(draws, k - 1);
    }
  }

  /** With a non-negative domain, an out-of-bounds ending happens no earlier
      than step domainSize + 1. */
  lemma NoExitBeforeDomainEdge(draws: seq<nat>, domainSize: int, maxSteps: int)
    requires maxSteps <= |draws|
    requires 0 <= domainSize
    ensures Outcome(draws, domainSize, maxSteps).OutOfBounds? ==>
      domainSize + 1 <= Outcome(draws, domainSize, maxSteps).step
  {
    ExitFromIsFirstExit(draws, domainSize, maxSteps, 1);
    var t := Outcome(draws, domainSize, maxSteps);
    if t.OutOfBounds? {
      PositionWithinSteps(draws, t.step);
    }
  }

  /** A domain at least as wide as the step limit can never be left, so the
      walk reports maxSteps. */
  lemma WideDomainReachesStepLimit(draws: seq<nat>, domainSize: int, maxSteps: int)
    requires maxSteps <= |draws|
    requires maxSteps <= domainSize
    ensures Outcome(draws, domainSize, maxSteps) == StepLimit
    ensures StepsTaken(Outcome(draws, domainSize, maxSteps), maxSteps) == maxSteps
  {
    forall k | 1 <= k <= maxSteps
      ensures !Outside(Position(draws, k), domainSize)
    {
      PositionWithinSteps(draws, k);
    }
    ExitFromIsFirstExit(draws, domainSize, maxSteps, 1);
  }

  /** In the domain [-1, 1], two odd draws in a row take the walker to 2, so
      the walk ends out of bounds at exactly step 2. */
  lemma TwoRightMovesLeaveUnitDomain(draws: seq<nat>, maxSteps: int)
    requires 2 <= maxSteps <= |draws|
    requires draws[0] % 2 == 1 && draws[1] % 2 == 1
    ensures Outcome(draws, 1, maxSteps) == OutOfBounds(2)
    ensures StepsTaken(Outcome(draws, 1, maxSteps), maxSteps) == 2
  {
    assert Position(draws, 1) == 1;
    assert ExitFrom(draws, 1, maxSteps, 1) == ExitFrom(draws, 1, maxSteps, 2);
    assert Position(draws, 2) == 2;
  }

  /** With a negative domainSize the range is empty, so the first step is
      already out of bounds. */
  lemma NegativeDomainExitsAtFirstStep(draws: seq<nat>, domainSize: int, maxSteps: int)
    requires 1 <= maxSteps <= |draws|
    requires domainSize < 0
    ensures Outcome(draws, domainSize, maxSteps) == OutOfBounds(1)
  {
  }
}
