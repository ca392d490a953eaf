/** The controller process: one receive per walker, counting completions.

    A receive from any walker consumes the next element of `inbox`, the
    messages in the order they happen to arrive.
 */
module Controller {

  /** The receive loop. Every rank but the controller's rank 0 is a walker;
      the loop performs one receive per walker and counts each one. The count
      depends on neither the values received nor their order; the values are
      only passed on, in arrival order. */
  method Collect(worldSize: int, inbox: seq<int>) returns (completed: int, received: seq<int>)
    requires 1 <= worldSize
    requires worldSize - 1 <= |inbox|
    ensures completed == worldSize - 1
    ensures received == inbox[..worldSize - 1]
  {
    var numWalkers := worldSize - 1;
    completed := 0;
    received := [];
    var i := 0;
    while i < numWalkers
      invariant 0 <= i <= numWalkers
      invariant completed == i
      invariant received == inbox[..i]
    {
      var stepsTaken := inbox[i];
      received := received + [stepsTaken];
      completed := completed + 1;
      i := i + 1;
    }
  }
}
