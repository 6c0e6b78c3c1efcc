/**
 The per-group decision of the dispatcher and the fail-fast walk over all
 resolved targets: describe the group, insist on exactly one record carrying
 the requested name, and set its desired capacity to 1 only when it is 0.
 */
module Decision {
  import opened AutoScaling
  import opened Resolution

  /** The `ValueError`s a decision cycle can raise. */
  datatype Error =
    | BadStatus(code: int, body: string)      // the metrics endpoint did not answer 200
    | WrongCount(group: string, count: nat)   // describe returned `count` records, not 1
    | WrongName(group: string)                // the one record is not named `group`

  datatype Status = Completed | Raised(error: Error)

  /** Everything a cycle does: the calls it made, in order, and how it ended. */
  datatype Outcome = Outcome(calls: seq<Call>, status: Status)

  /** What to do with one group, given the records described for it. */
  datatype Verdict = Reject(error: Error) | Scale | Leave

  /** Describe answered for `group` with exactly one record of that name. */
  predicate Accepts(describe: Describe, group: string)
  {
    |describe(group)| == 1 && describe(group)[0].name == group
  }

  /** The group passes validation and sits at desired capacity 0. */
  predicate AtZero(describe: Describe, group: string)
  {
    Accepts(describe, group) && describe(group)[0].desiredCapacity == 0
  }

  /** The checks on one describe answer, in the order the handler makes them. */
  function Check(group: string, records: seq<Group>): (v: Verdict)
    ensures v.Reject? <==> !(|records| == 1 && records[0].name == group)
    ensures v.Scale? <==> |records| == 1 && records[0].name == group && records[0].desiredCapacity == 0
    ensures |records| != 1 ==> v == Reject(WrongCount(group, |records|))
    ensures |records| == 1 && records[0].name != group ==> v == Reject(WrongName(group))
  {
    if |records| != 1 then Reject(WrongCount(group, |records|))
    else if records[0].name != group then Reject(WrongName(group))
    else if records[0].desiredCapacity == 0 then Scale
    else Leave
  }

  /** Runs `second` after `first` unless `first` raised. */
  function Then(first: Outcome, second: Outcome): Outcome
  {
    if first.status.Completed? then Outcome(first.calls + second.calls, second.status) else first
  }

  /** Describes one group and acts on the answer. */
  function Step(group: string, describe: Describe): (o: Outcome)
    ensures |o.calls| >= 1 && o.calls[0] == DescribeGroups(group)
    ensures o.status.Completed? <==> Accepts(describe, group)
    ensures o.status.Raised? ==> o.calls == [DescribeGroups(group)]
    ensures AtZero(describe, group) ==> o.calls == [DescribeGroups(group), SetDesiredCapacity(group, 1)]
    ensures !AtZero(describe, group) ==> o.calls == [DescribeGroups(group)]
  {
    match Check(group, describe(group))
    case Reject(e) => Outcome([DescribeGroups(group)], Raised(e))
    case Scale => Outcome([DescribeGroups(group), SetDesiredCapacity(group, 1)], Completed)
    case Leave => Outcome([DescribeGroups(group)], Completed)
  }

  /** Visits the targets in order; the first rejected group ends the walk
      with its error, keeping the calls already made. */
  function Execute(targets: seq<Target>, describe: Describe): (o: Outcome)
    ensures forall c :: c in o.calls ==> exists i :: 0 <= i < |targets| && c.name == targets[i].group
    ensures forall c :: c in o.calls && c.SetDesiredCapacity? ==> c.capacity == 1 && AtZero(describe, c.name)
    ensures o.status.Completed? <==> forall i :: 0 <= i < |targets| ==> Accepts(describe, targets[i].group)
  {
    if |targets| == 0 then Outcome([], Completed)
    else
      var rest := Execute(targets[1..], describe);
      assert forall i :: 1 <= i < |targets| ==> targets[i] == targets[1..][i - 1];
      Then(Step(targets[0].group, describe), rest)
  }

  lemma ThenAssociative(x: Outcome, y: Outcome, z: Outcome)
    ensures Then(x, Then(y, z)) == Then(Then(x, y), z)
  {
    if x.status.Completed? && y.status.Completed? {
      assert x.calls + (y.calls + z.calls) == (x.calls + y.calls) + z.calls;
    }
  }

  /** The guards on a single group: a count other than 1 and a name other
      than the requested one raise after the describe call alone; otherwise
      the capacity is set to 1 exactly when it is 0. */
  lemma ExecuteSingle(target: Target, describe: Describe)
    ensures var group, records, o := target.group, describe(target.group), Execute([target], describe);
            && (|records| != 1 ==> o == Outcome([DescribeGroups(group)], Raised(WrongCount(group, |records|))))
            && (|records| == 1 && records[0].name != group ==> o == Outcome([DescribeGroups(group)], Raised(WrongName(group))))
            && (|records| == 1 && records[0].name == group && records[0].desiredCapacity == 0 ==>
                  o == Outcome([DescribeGroups(group), SetDesiredCapacity(group, 1)], Completed))
            && (|records| == 1 && records[0].name == group && records[0].desiredCapacity != 0 ==>
                  o == Outcome([DescribeGroups(group)], Completed))
  {
  }

  /** The targets are handled one after the other: running a split list is
      running the first part and, only if it completed, the second. */
  lemma {:induction false} ExecuteAppend(a: seq<Target>, b: seq<Target>, describe: Describe)
    ensures Execute(a + b, describe) == Then(Execute(a, describe), Execute(b, describe))
    decreases |a|
  {
    if |a| == 0 {
      assert a + b == b;
    } else {
      assert (a + b)[0] == a[0];
      assert (a + b)[1..] == a[1..] + b;
      ExecuteAppend(a[1..], b, describe);
      ThenAssociative(Step(a[0].group, describe), Execute(a[1..], describe), Execute(b, describe));
    }
  }

  /** Fail-fast: when the `k`-th target is the first one rejected, the cycle
      raises its error right after describing it; the calls made for the
      earlier targets stand and no later target is looked at. */
  lemma ExecuteStopsAtFirstRejection(targets: seq<Target>, describe: Describe, k: nat)
    requires k < |targets|
    requires forall i :: 0 <= i < k ==> Accepts(describe, targets[i].group)
    requires !Accepts(describe, targets[k].group)
    ensures var group := targets[k].group;
            var records := describe(group);
            var error := if |records| != 1 then WrongCount(group, |records|) else WrongName(group);
            Execute(targets, describe) ==
              Outcome(Execute(targets[..k], describe).calls + [DescribeGroups(group)], Raised(error))
  {
    var before, failing, after := targets[..k], targets[k], targets[k + 1..];
    assert targets == before + ([failing] + after);
    ExecuteAppend(before, [failing] + after, describe);
    assert ([failing] + after)[1..] == after;
  }

  /** A completed walk has set the capacity of every target group that was
      at 0 (to 1). */
  lemma {:induction false} CompletedScalesEveryIdleGroup(targets: seq<Target>, describe: Describe)
    requires Execute(targets, describe).status.Completed?
    ensures forall i :: 0 <= i < |targets| && AtZero(describe, targets[i].group) ==>
              SetDesiredCapacity(targets[i].group, 1) in Execute(targets, describe).calls
    decreases |targets|
  {
    if |targets| > 0 {
      var rest := targets[1..];
      CompletedScalesEveryIdleGroup(rest, describe);
      var group := targets[0].group;
      var o, tail := Execute(targets, describe), Execute(rest, describe);
      assert Accepts(describe, group);
      forall i | 0 <= i < |targets| && AtZero(describe, targets[i].group)
        ensures SetDesiredCapacity(targets[i].group, 1) in o.calls
      {
        if i == 0 {
          assert o.calls[1] == SetDesiredCapacity(group, 1);
        } else {
          assert targets[i] == rest[i - 1];
          var c := SetDesiredCapacity(targets[i].group, 1);
          assert c in tail.calls;
          assert o.calls[|o.calls| - |tail.calls|..] == tail.calls;
        }
      }
    }
  }

  /** The calls of a combined run include those of both parts that ran. */
  lemma ThenKeepsCalls(first: Outcome, second: Outcome)
    ensures forall c :: c in first.calls ==> c in Then(first, second).calls
    ensures first.status.Completed? ==> forall c :: c in second.calls ==> c in Then(first, second).calls
  {
  }

  lemma ThenQuiet(first: Outcome, second: Outcome)
    requires NoSets(first.calls)
    requires first.status.Completed? ==> NoSets(second.calls)
    ensures NoSets(Then(first, second).calls)
  {
  }

  /** One group after calls covering its own step have landed: the same
      checks pass or fail, and a group that passes no longer reads 0. */
  lemma StepRerun(group: string, describe: Describe, landed: seq<Call>)
    requires forall i :: 0 <= i < |landed| && landed[i].SetDesiredCapacity? ==> landed[i].capacity == 1
    requires forall c :: c in Step(group, describe).calls ==> c in landed
    ensures Step(group, Landed(describe, landed)).calls == [DescribeGroups(group)]
    ensures Step(group, Landed(describe, landed)).status == Step(group, describe).status
  {
    var records := describe(group);
    var records' := Landed(describe, landed)(group);
    assert records' == Apply(records, landed);
    if Accepts(describe, group) {
      var r := records[0];
      assert records'[0] == Land(r, landed);
      if r.desiredCapacity == 0 {
        assert Step(group, describe).calls[1] == SetDesiredCapacity(group, 1);
        LandUniform(r, landed, 1);
      } else if exists i :: 0 <= i < |landed| && Sets(landed[i], group) {
        var i :| 0 <= i < |landed| && Sets(landed[i], group);
        LandUniform(r, landed, 1);
      }
    }
  }

  /** Idempotence across cycles: once calls covering a cycle's own have
      landed, a second cycle over the same targets sets nothing and ends the
      same way. Validation only reads record counts and names, which a set
      does not change; a group that was at 0 now reads 1. */
  lemma {:induction false} RerunSetsNothing(targets: seq<Target>, describe: Describe, landed: seq<Call>)
    requires forall i :: 0 <= i < |landed| && landed[i].SetDesiredCapacity? ==> landed[i].capacity == 1
    requires forall c :: c in Execute(targets, describe).calls ==> c in landed
    ensures NoSets(Execute(targets, Landed(describe, landed)).calls)
    ensures Execute(targets, Landed(describe, landed)).status == Execute(targets, describe).status
    decreases |targets|
  {
    if |targets| > 0 {
      var group, rest := targets[0].group, targets[1..];
      var after := Landed(describe, landed);
      var step, tail := Step(group, describe), Execute(rest, describe);
      var step', tail' := Step(group, after), Execute(rest, after);
      assert Execute(targets, describe) == Then(step, tail);
      assert Execute(targets, after) == Then(step', tail');
      ThenKeepsCalls(step, tail);
      StepRerun(group, describe, landed);
      if step.status.Completed? {
        RerunSetsNothing(rest, describe, landed);
      }
      ThenQuiet(step', tail');
    }
  }

  /** Applies `RerunSetsNothing` to the calls of the first run itself. */
  lemma RerunAfterOwnCallsSetsNothing(targets: seq<Target>, describe: Describe)
    ensures var first := Execute(targets, describe);
            var second := Execute(targets, Landed(describe, first.calls));
            NoSets(second.calls) && second.status == first.status
  {
    var first := Execute(targets, describe);
    assert forall i :: 0 <= i < |first.calls| && first.calls[i].SetDesiredCapacity? ==> first.calls[i].capacity == 1 by {
      forall i | 0 <= i < |first.calls| && first.calls[i].SetDesiredCapacity?
        ensures first.calls[i].capacity == 1
      {
        assert first.calls[i] in first.calls;
      }
    }
    RerunSetsNothing(targets, describe, first.calls);
  }
}
