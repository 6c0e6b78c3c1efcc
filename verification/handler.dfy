/**
 One decision cycle of the dispatcher, end to end: check the metrics answer,
 aggregate the backlog, resolve tags to Auto Scaling groups and walk them.
 */
module Handler {
  import opened Metrics
  import opened Resolution
  import opened AutoScaling
  import opened Decision

  /** The answer of the metrics endpoint: its status code, its body, and the
      samples the exposition-format parser reads from that body. */
  datatype Response = Response(statusCode: int, body: string, samples: seq<Sample>)

  /** A tag has steps waiting and a configured group. */
  predicate Waiting(samples: seq<Sample>, groups: map<string, string>, tag: string)
  {
    tag in groups && SumFor(samples, tag) > 0
  }

  /** The targets of a snapshot are exactly the configured tags with steps
      waiting, each paired with its configured group. */
  lemma TargetsOfSnapshot(samples: seq<Sample>, groups: map<string, string>)
    ensures var targets := Resolve(Aggregate(samples), groups);
            forall tag, group :: Target(tag, group) in targets <==> Waiting(samples, groups, tag) && group == groups[tag]
  {
    var backlog := Aggregate(samples);
    var targets := Resolve(backlog, groups);
    forall tag, group
      ensures Target(tag, group) in targets <==> Waiting(samples, groups, tag) && group == groups[tag]
    {
      if Target(tag, group) in targets {
        var k :| 0 <= k < |targets| && targets[k] == Target(tag, group);
        var i :| 0 <= i < |backlog| && backlog[i].tag == tag && backlog[i].backlog != 0;
        BacklogAt(backlog, i);
      }
      if Waiting(samples, groups, tag) && group == groups[tag] {
        if tag !in Tags(backlog) {
          BacklogAbsent(backlog, tag);
        }
        var i :| 0 <= i < |Tags(backlog)| && Tags(backlog)[i] == tag;
        BacklogAt(backlog, i);
        assert Eligible(backlog[i], groups);
      }
    }
  }

  /** One run of `handler`. A status other than 200 raises before anything
      else happens; otherwise only the groups of configured tags with steps
      waiting are looked at, and the run completes exactly when each of them
      is described as one record of the right name. */
  function Cycle(response: Response, groups: map<string, string>, describe: Describe): (o: Outcome)
    ensures response.statusCode != 200 ==> o == Outcome([], Raised(BadStatus(response.statusCode, response.body)))
    ensures forall c :: c in o.calls ==>
              exists tag :: Waiting(response.samples, groups, tag) && groups[tag] == c.name
    ensures forall c :: c in o.calls && c.SetDesiredCapacity? ==> c.capacity == 1 && AtZero(describe, c.name)
    ensures response.statusCode == 200 ==>
              (o.status.Completed? <==>
                 forall tag :: Waiting(response.samples, groups, tag) ==> Accepts(describe, groups[tag]))
  {
    if response.statusCode != 200 then Outcome([], Raised(BadStatus(response.statusCode, response.body)))
    else
      var targets := Resolve(Aggregate(response.samples), groups);
      TargetsOfSnapshot(response.samples, groups);
      assert forall k :: 0 <= k < |targets| ==> targets[k] in targets;
      assert forall tag :: Waiting(response.samples, groups, tag) ==> Target(tag, groups[tag]) in targets;
      Execute(targets, describe)
  }

  /** When no configured tag with steps waiting has its group at 0, the cycle
      changes no capacity, whether it completes or not. */
  lemma AllRunningSetsNothing(response: Response, groups: map<string, string>, describe: Describe)
    requires forall tag :: Waiting(response.samples, groups, tag) ==> !AtZero(describe, groups[tag])
    ensures NoSets(Cycle(response, groups, describe).calls)
  {
    var calls := Cycle(response, groups, describe).calls;
    forall i | 0 <= i < |calls|
      ensures !calls[i].SetDesiredCapacity?
    {
      assert calls[i] in calls;
    }
  }

  /** A completed cycle has set to 1 the group of every configured tag with
      steps waiting whose group was at 0. */
  lemma CompletedCycleScalesIdleGroups(response: Response, groups: map<string, string>, describe: Describe)
    requires Cycle(response, groups, describe).status.Completed?
    ensures forall tag :: Waiting(response.samples, groups, tag) && AtZero(describe, groups[tag]) ==>
              SetDesiredCapacity(groups[tag], 1) in Cycle(response, groups, describe).calls
  {
    var targets := Resolve(Aggregate(response.samples), groups);
    TargetsOfSnapshot(response.samples, groups);
    CompletedScalesEveryIdleGroup(targets, describe);
    forall tag | Waiting(response.samples, groups, tag) && AtZero(describe, groups[tag])
      ensures SetDesiredCapacity(groups[tag], 1) in Cycle(response, groups, describe).calls
    {
      assert Target(tag, groups[tag]) in targets;
      var k :| 0 <= k < |targets| && targets[k] == Target(tag, groups[tag]);
    }
  }

  /** Idempotence: run the same snapshot again after the first run's sets
      have landed, and nothing is set; the second run ends as the first. */
  lemma RerunCycleSetsNothing(response: Response, groups: map<string, string>, describe: Describe)
    ensures var first := Cycle(response, groups, describe);
            var second := Cycle(response, groups, Landed(describe, first.calls));
            NoSets(second.calls) && second.status == first.status
  {
    if response.statusCode == 200 {
      RerunAfterOwnCallsSetsNothing(Resolve(Aggregate(response.samples), groups), describe);
    }
  }

  /** A snapshot with a `gpu` backlog of 3 and an untagged backlog of 0,
      `gpu` mapped to `gpu-asg` at capacity 0: one describe and one set to 1
      for `gpu-asg`; the zero `none` backlog causes nothing. */
  lemma ExampleCycle()
    ensures var samples := [Sample(StepsWaiting, "gpu", 3), Sample(StepsWaiting, "", 0)];
            var describe := (name: string) => if name == "gpu-asg" then [Group("gpu-asg", 0)] else [];
            Cycle(Response(200, "", samples), map["gpu" := "gpu-asg"], describe)
              == Outcome([DescribeGroups("gpu-asg"), SetDesiredCapacity("gpu-asg", 1)], Completed)
  {
    var samples := [Sample(StepsWaiting, "gpu", 3), Sample(StepsWaiting, "", 0)];
    var describe := (name: string) => if name == "gpu-asg" then [Group("gpu-asg", 0)] else [];
    var groups := map["gpu" := "gpu-asg"];
    var first := [Sample(StepsWaiting, "gpu", 3)];
    assert samples[..1] == first;
    assert first[..0] == [];
    assert Aggregate(first) == [Entry("gpu", 3)];
    assert "gpu" != Untagged;
    assert TagOf("") == Untagged && TagOf("gpu") == "gpu";
    assert Add([Entry("gpu", 3)], Untagged, 0) == [Entry("gpu", 3), Entry(Untagged, 0)];
    var backlog := Aggregate(samples);
    assert backlog == [Entry("gpu", 3), Entry(Untagged, 0)];
    var targets := Resolve(backlog, groups);
    assert backlog[1..][1..] == [];
    assert Resolve(backlog[1..][1..], groups) == [];
    assert Resolve(backlog[1..], groups) == [];
    assert targets == [Target("gpu", "gpu-asg")];
    assert targets[1..] == [];
    assert Execute(targets[1..], describe) == Outcome([], Completed);
    assert Step("gpu-asg", describe) == Outcome([DescribeGroups("gpu-asg"), SetDesiredCapacity("gpu-asg", 1)], Completed);
  }
}
