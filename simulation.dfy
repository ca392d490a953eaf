/** One run of the program: the argument guard and role dispatch of a single
    process, and the whole star of walkers reporting to the controller. */
module Simulation {
  import Walker
  import Controller

  /** The argument count the program expects: its own name and the two
      parameters domain_size and max_steps. */
  const ExpectedArgc := 3

  /** What one process did before finalizing. */
  datatype Run =
    | UsageError(diagnosed: bool)
    | ControllerRun(completed: int, received: seq<int>)
    | WalkerRun(sent: seq<int>, reason: Walker.Termination)

  /** One process of the program. With the wrong argument count it exits
      with status 1 and runs neither role (only rank 0 prints the usage
      text); otherwise rank 0 runs the controller, every other rank a walker,
      and the status is 0. domainSize and maxSteps stand for the parsed
      arguments, draws for the walker's pseudorandom draws and inbox for the
      messages reaching the controller. */
  method Launch(argc: int, worldRank: int, worldSize: int, domainSize: int, maxSteps: int,
                draws: seq<nat>, inbox: seq<int>)
    returns (status: int, run: Run)
    requires 0 <= worldRank < worldSize
    requires argc == ExpectedArgc && worldRank == 0 ==> worldSize - 1 <= |inbox|
    requires argc == ExpectedArgc && worldRank != 0 ==> maxSteps <= |draws|
    ensures status == if argc == ExpectedArgc then 0 else 1
    ensures argc != ExpectedArgc ==> run == UsageError(worldRank == 0)
    ensures argc == ExpectedArgc && worldRank == 0 ==>
      run == ControllerRun(worldSize - 1, inbox[..worldSize - 1])
    ensures argc == ExpectedArgc && worldRank != 0 ==>
      var t := Walker.Outcome(draws, domainSize, maxSteps);
      run == WalkerRun([Walker.StepsTaken(t, maxSteps)], t)
  {
    if argc != ExpectedArgc {
      return 1, UsageError(worldRank == 0);
    }
    if worldRank == 0 {
      var completed, received := Controller.Collect(worldSize, inbox);
      run := ControllerRun(completed, received);
    } else {
      var sent, reason := Walker.Walk(draws, domainSize, maxSteps);
      run := WalkerRun(sent, reason);
    }
    status := 0;
  }

  /** Every walker's draws last for the whole walk. */
  predicate DrawsSuffice(walkerDraws: seq<seq<nat>>, maxSteps: int) {
    forall i :: 0 <= i < |walkerDraws| ==> maxSteps <= |walkerDraws[i]|
  }

  /** The reports of walkers 1..n, where walkerDraws[i] are the draws of
      walker i + 1: entry i is the single value that Walker.Walk sends for
      those draws. */
  function Reports(walkerDraws: seq<seq<nat>>, domainSize: int, maxSteps: int): seq<int>
    requires DrawsSuffice(walkerDraws, maxSteps)
  {
    seq(|walkerDraws|, i requires 0 <= i < |walkerDraws| =>
      Walker.StepsTaken(Walker.Outcome(walkerDraws[i], domainSize, maxSteps), maxSteps))
  }

  /** With at least one step allowed, every walker's report lies in
      [1, maxSteps]. */
  lemma ReportsInRange(walkerDraws: seq<seq<nat>>, domainSize: int, maxSteps: int)
    requires DrawsSuffice(walkerDraws, maxSteps)
    requires 1 <= maxSteps
    ensures forall v :: v in Reports(walkerDraws, domainSize, maxSteps) ==> 1 <= v <= maxSteps
  {
    var reports := Reports(walkerDraws, domainSize, maxSteps);
    forall i | 0 <= i < |reports|
      ensures 1 <= reports[i] <= maxSteps
    {
      Walker.StepsTakenInRange(walkerDraws[i], domainSize, maxSteps);
    }
  }

  /** The controller fed the walkers' reports in any arrival order (any
      permutation of them) counts every walker and receives exactly those
      reports. */
  method Settle(walkerDraws: seq<seq<nat>>, domainSize: int, maxSteps: int, arrival: seq<int>)
    returns (completed: int, received: seq<int>)
    requires DrawsSuffice(walkerDraws, maxSteps)
    requires multiset(arrival) == multiset(Reports(walkerDraws, domainSize, maxSteps))
    ensures completed == |walkerDraws|
    ensures multiset(received) == multiset(Reports(walkerDraws, domainSize, maxSteps))
    ensures 1 <= maxSteps ==> forall v :: v in received ==> 1 <= v <= maxSteps
  {
    assert |arrival| == |multiset(arrival)| == |walkerDraws|;
    completed, received := Controller.Collect(|walkerDraws| + 1, arrival);
    assert received == arrival;
    if 1 <= maxSteps {
      ReportsInRange(walkerDraws, domainSize, maxSteps);
      forall v | v in received
        ensures 1 <= v <= maxSteps
      {
        assert v in multiset(arrival);
        assert v in Reports(walkerDraws, domainSize, maxSteps);
      }
    }
  }
}
