/**
  The health monitor's update rule. The network probe is not modelled: its
  outcome for each target is an input, in registry order.
 */
module Health {
  import opened Registry

  /** What a probe of one target's URL came back with. */
  datatype ProbeResult =
    | Responded(ok: bool)  // an HTTP response arrived; `ok` is a 2xx status
    | Failed               // timeout, connection error or any other exception

  /** A probe marks a target up only when it answered with a success status. */
  function ProbeStatus(p: ProbeResult): (s: Status)
    ensures s != Unknown
    ensures s == Up <==> p == Responded(true)
  {
    match p
    case Responded(ok) => if ok then Up else Down
    case Failed => Down
  }

  /**
    The registry after one monitor cycle: each target carries the status its
    probe yielded and keeps its URL, weight and position.
   */
  function AfterCheck(targets: seq<Target>, probes: seq<ProbeResult>): (r: seq<Target>)
    requires |probes| == |targets|
    ensures |r| == |targets|
    ensures forall i :: 0 <= i < |r| ==> r[i].url == targets[i].url && r[i].weight == targets[i].weight
    ensures forall i :: 0 <= i < |r| ==> r[i].status != Unknown
    ensures forall i :: 0 <= i < |r| ==> (r[i].status == Up <==> probes[i] == Responded(true))
  {
    seq(|targets|, i requires 0 <= i < |targets| => targets[i].(status := ProbeStatus(probes[i])))
  }

  /**
    One monitor cycle, visiting the targets in order and writing a status
    only when it differs from the stored one. `changed` lists, in order, the
    positions written (the targets whose change is logged).
   */
  method CheckServerStatuses(targets: seq<Target>, probes: seq<ProbeResult>)
    returns (updated: seq<Target>, changed: seq<nat>)
    requires |probes| == |targets|
    ensures updated == AfterCheck(targets, probes)
    ensures forall k :: 0 <= k < |changed| ==>
      changed[k] < |targets| && targets[changed[k]].status != updated[changed[k]].status
    ensures forall i :: 0 <= i < |targets| && targets[i].status != updated[i].status ==> i in changed
    ensures forall k, l :: 0 <= k < l < |changed| ==> changed[k] < changed[l]
    ensures forall i :: 0 <= i < |targets| && i !in changed ==> updated[i] == targets[i]
  {
    updated := targets;
    changed := [];
    var i := 0;
    while i < |targets|
      invariant 0 <= i <= |targets|
      invariant |updated| == |targets|
      invariant forall j :: 0 <= j < i ==> updated[j] == targets[j].(status := ProbeStatus(probes[j]))
      invariant forall j :: i <= j < |targets| ==> updated[j] == targets[j]
      invariant forall k :: 0 <= k < |changed| ==>
        changed[k] < i && targets[changed[k]].status != ProbeStatus(probes[changed[k]])
      invariant forall j :: 0 <= j < i && targets[j].status != ProbeStatus(probes[j]) ==> j in changed
      invariant forall k, l :: 0 <= k < l < |changed| ==> changed[k] < changed[l]
    {
      var status := ProbeStatus(probes[i]);
      if status != updated[i].status {
        updated := updated[i := updated[i].(status := status)];
        changed := changed + [i];
      }
      i := i + 1;
    }
  }

  /**
    Repeating a cycle with the same probe outcomes leaves the registry as the
    first cycle left it.
   */
  lemma AfterCheckIdempotent(targets: seq<Target>, probes: seq<ProbeResult>)
    requires |probes| == |targets|
    ensures AfterCheck(AfterCheck(targets, probes), probes) == AfterCheck(targets, probes)
  {
  }

  /**
    A cycle forgets the previous statuses: two registries that differ only
    in status are equal after a cycle with the same probe outcomes.
   */
  lemma AfterCheckForgetsStatuses(t1: seq<Target>, t2: seq<Target>, probes: seq<ProbeResult>)
    requires |t1| == |t2| == |probes|
    requires forall i :: 0 <= i < |t1| ==> t1[i].url == t2[i].url && t1[i].weight == t2[i].weight
    ensures AfterCheck(t1, probes) == AfterCheck(t2, probes)
  {
  }
}
