/**
 Resolution of backlog rows to Auto Scaling groups: a row is acted on only
 when its backlog is not zero and its tag has a configured group.
 */
module Resolution {
  import opened Metrics

  /** A tag with waiting steps together with the Auto Scaling group that
      serves it. */
  datatype Target = Target(tag: string, group: string)

  /** Row `e` needs a look at its group. */
  predicate Eligible(e: Entry, groups: map<string, string>)
  {
    e.backlog != 0 && e.tag in groups
  }

  /** Walks the backlog table in row order and keeps the eligible rows,
      paired with their configured group. */
  function Resolve(backlog: seq<Entry>, groups: map<string, string>): (targets: seq<Target>)
    ensures |targets| <= |backlog|
    ensures forall k :: 0 <= k < |targets| ==>
              && targets[k].tag in groups
              && targets[k].group == groups[targets[k].tag]
              && exists i :: 0 <= i < |backlog| && backlog[i].tag == targets[k].tag && backlog[i].backlog != 0
    ensures forall i :: 0 <= i < |backlog| && Eligible(backlog[i], groups) ==>
              Target(backlog[i].tag, groups[backlog[i].tag]) in targets
  {
    if |backlog| == 0 then []
    else
      var rest := Resolve(backlog[1..], groups);
      var head := backlog[0];
      var targets := if Eligible(head, groups) then [Target(head.tag, groups[head.tag])] + rest else rest;
      assert forall i :: 1 <= i < |backlog| ==> backlog[i] == backlog[1..][i - 1];
      assert forall k :: 0 <= k < |rest| ==> rest[k] in targets;
      targets
  }

  /** Resolution treats the rows one at a time, in order: resolving a split
      table is resolving each part. */
  lemma {:induction false} ResolveAppend(a: seq<Entry>, b: seq<Entry>, groups: map<string, string>)
    ensures Resolve(a + b, groups) == Resolve(a, groups) + Resolve(b, groups)
    decreases |a|
  {
    if |a| == 0 {
      assert a + b == b;
    } else {
      assert (a + b)[1..] == a[1..] + b;
      assert (a + b)[0] == a[0];
      ResolveAppend(a[1..], b, groups);
    }
  }
}
