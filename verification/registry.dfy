/**
  The backend registry: a fixed, ordered list of targets, each with the
  health state last written by the health monitor.
 */
module Registry {

  datatype Status = Unknown | Up | Down

  /** One backend. `weight` is configuration data that no operation consults. */
  datatype Target = Target(url: string, status: Status, weight: nat)

  /**
    Targets are never added, removed or reordered, so a position in the
    registry identifies one target object for the life of the process.
    A session refers to its server by this position and therefore sees the
    server's current status, as the shared object reference does.
   */
  predicate IsUp(targets: seq<Target>, i: nat)
  {
    i < |targets| && targets[i].status == Up
  }

  /** Target `i` is up and its URL is not among `excluded`. */
  predicate Eligible(targets: seq<Target>, excluded: set<string>, i: nat)
  {
    IsUp(targets, i) && targets[i].url !in excluded
  }

  predicate NoneUp(targets: seq<Target>)
  {
    forall i :: 0 <= i < |targets| ==> targets[i].status != Up
  }
}
