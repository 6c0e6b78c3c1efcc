/**
 The part of the Auto Scaling service the dispatcher talks to: group records
 as `describe_auto_scaling_groups` returns them, the two calls the dispatcher
 makes, and what a set of recorded `set_desired_capacity` calls does to later
 answers once the service has applied them.
 */
module AutoScaling {

  /** The fields of an Auto Scaling group record that the dispatcher reads. */
  datatype Group = Group(name: string, desiredCapacity: int)

  /** A call to the Auto Scaling service, in the order it was made. */
  datatype Call =
    | DescribeGroups(name: string)
    | SetDesiredCapacity(name: string, capacity: int)

  /** The answer of `describe_auto_scaling_groups` for one requested group
      name, as seen during one decision cycle. */
  type Describe = string -> seq<Group>

  /** Call `c` changes the desired capacity of the group called `name`. */
  predicate Sets(c: Call, name: string)
  {
    c.SetDesiredCapacity? && c.name == name
  }

  /** No call in `calls` changes a desired capacity. */
  predicate NoSets(calls: seq<Call>)
  {
    forall i :: 0 <= i < |calls| ==> !calls[i].SetDesiredCapacity?
  }

  /** Record `g` after the service has applied `calls` in order: the last
      call that sets its group's capacity wins. */
  function Land(g: Group, calls: seq<Call>): (r: Group)
    ensures r.name == g.name
    ensures (forall i :: 0 <= i < |calls| ==> !Sets(calls[i], g.name)) ==> r == g
    ensures forall i :: 0 <= i < |calls| && Sets(calls[i], g.name) && (forall j :: i < j < |calls| ==> !Sets(calls[j], g.name)) ==>
              r.desiredCapacity == calls[i].capacity
    decreases |calls|
  {
    if |calls| == 0 then g
    else
      var earlier := calls[..|calls| - 1];
      var last := calls[|calls| - 1];
      var before := Land(g, earlier);
      if Sets(last, g.name) then before.(desiredCapacity := last.capacity) else before
  }

  /** When every recorded set of the group asks for the same capacity and
      there is at least one, that capacity is what the record ends up with. */
  lemma {:induction false} LandUniform(g: Group, calls: seq<Call>, capacity: int)
    requires SetDesiredCapacity(g.name, capacity) in calls
    requires forall i :: 0 <= i < |calls| && Sets(calls[i], g.name) ==> calls[i].capacity == capacity
    ensures Land(g, calls).desiredCapacity == capacity
    decreases |calls|
  {
    var earlier := calls[..|calls| - 1];
    var last := calls[|calls| - 1];
    if !Sets(last, g.name) {
      assert calls == earlier + [last];
      LandUniform(g, earlier, capacity);
    }
  }

  /** Every record of an answer after the service has applied `calls`. */
  function Apply(records: seq<Group>, calls: seq<Call>): seq<Group>
  {
    seq(|records|, k requires 0 <= k < |records| => Land(records[k], calls))
  }

  /** The answers of the service in a later cycle, once `calls` have landed. */
  function Landed(describe: Describe, calls: seq<Call>): Describe
  {
    (name: string) => Apply(describe(name), calls)
  }
}
