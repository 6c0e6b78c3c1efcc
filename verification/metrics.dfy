/**
 Aggregation of the Concourse `concourse_steps_waiting` gauge into a backlog
 table: one row per worker tag, holding the sum of the waiting steps reported
 for that tag, in the order in which the tags were first seen.
 */
module Metrics {

  /** Name of the gauge that counts build steps waiting for a worker. */
  const StepsWaiting: string := "concourse_steps_waiting"

  /** Tag under which steps with an empty `workerTags` label are counted. */
  const Untagged: string := "none"

  /** One parsed sample: the metric family it belongs to, its `workerTags`
      label and its value (a count of waiting steps). */
  datatype Sample = Sample(metric: string, workerTags: string, value: nat)

  /** One row of the backlog table. */
  datatype Entry = Entry(tag: string, backlog: nat)

  /** The tag a label is counted under: the empty label becomes `none`. */
  function TagOf(workerTags: string): (tag: string)
    ensures tag != ""
    ensures workerTags != "" ==> tag == workerTags
    ensures tag == Untagged <==> workerTags == "" || workerTags == Untagged
  {
    if workerTags == "" then Untagged else workerTags
  }

  /** Sample `s` adds to the backlog of `tag`. */
  predicate Counts(s: Sample, tag: string)
  {
    s.metric == StepsWaiting && TagOf(s.workerTags) == tag
  }

  /** Some sample adds to the backlog of `tag`. */
  predicate Contributes(samples: seq<Sample>, tag: string)
  {
    exists i :: 0 <= i < |samples| && Counts(samples[i], tag)
  }

  function Contribution(s: Sample, tag: string): nat
  {
    if Counts(s, tag) then s.value else 0
  }

  /** Reference definition of a tag's backlog: the sum of the values of the
      samples that count for it. */
  function SumFor(samples: seq<Sample>, tag: string): nat
    decreases |samples|
  {
    if |samples| == 0 then 0
    else SumFor(samples[..|samples| - 1], tag) + Contribution(samples[|samples| - 1], tag)
  }

  /** The samples of the backlog gauge, in their original order. */
  function StepsOnly(samples: seq<Sample>): (kept: seq<Sample>)
    ensures forall i :: 0 <= i < |kept| ==> kept[i].metric == StepsWaiting
    ensures |kept| <= |samples|
    ensures forall s: Sample :: s in kept <==> s in samples && s.metric == StepsWaiting
    ensures forall s: Sample :: s.metric == StepsWaiting ==> multiset(kept)[s] == multiset(samples)[s]
    decreases |samples|
  {
    if |samples| == 0 then []
    else
      var earlier := samples[..|samples| - 1];
      var last := samples[|samples| - 1];
      assert samples == earlier + [last];
      StepsOnly(earlier) + (if last.metric == StepsWaiting then [last] else [])
  }

  /** The tags of a backlog table, in table order. */
  function Tags(entries: seq<Entry>): seq<string>
  {
    seq(|entries|, i requires 0 <= i < |entries| => entries[i].tag)
  }

  predicate Unique(tags: seq<string>)
  {
    forall i, j :: 0 <= i < j < |tags| ==> tags[i] != tags[j]
  }

  /** The backlog recorded for `tag`, 0 when the table has no row for it. */
  function BacklogOf(entries: seq<Entry>, tag: string): nat
  {
    if |entries| == 0 then 0
    else if entries[0].tag == tag then entries[0].backlog
    else BacklogOf(entries[1..], tag)
  }

  /** Counts `value` more for `tag`: adds to the existing row of the tag, or
      appends a new row at the end. */
  function Add(entries: seq<Entry>, tag: string, value: nat): (r: seq<Entry>)
    ensures Tags(r) == if tag in Tags(entries) then Tags(entries) else Tags(entries) + [tag]
    ensures BacklogOf(r, tag) == BacklogOf(entries, tag) + value
    ensures forall other :: other != tag ==> BacklogOf(r, other) == BacklogOf(entries, other)
  {
    if |entries| == 0 then [Entry(tag, value)]
    else
      var head := entries[0];
      assert entries == [head] + entries[1..];
      TableCons(head, entries[1..]);
      if head.tag == tag then
        var r := [Entry(tag, head.backlog + value)] + entries[1..];
        TableCons(r[0], entries[1..]);
        r
      else
        var rest := Add(entries[1..], tag, value);
        TableCons(head, rest);
        [head] + rest
  }

  /** How a table with a given first row reads. */
  lemma TableCons(head: Entry, rest: seq<Entry>)
    ensures Tags([head] + rest) == [head.tag] + Tags(rest)
    ensures forall tag :: BacklogOf([head] + rest, tag) == if head.tag == tag then head.backlog else BacklogOf(rest, tag)
  {
    assert ([head] + rest)[1..] == rest;
  }

  /** The backlog table of one metrics snapshot. */
  function Aggregate(samples: seq<Sample>): (backlog: seq<Entry>)
    ensures Unique(Tags(backlog))
    ensures forall tag :: tag in Tags(backlog) <==> Contributes(samples, tag)
    ensures forall tag :: BacklogOf(backlog, tag) == SumFor(samples, tag)
    decreases |samples|
  {
    if |samples| == 0 then []
    else
      var earlier := samples[..|samples| - 1];
      var last := samples[|samples| - 1];
      var before := Aggregate(earlier);
      ContributesSnoc(earlier, last);
      assert earlier + [last] == samples;
      if last.metric == StepsWaiting then Add(before, TagOf(last.workerTags), last.value) else before
  }

  lemma ContributesSnoc(samples: seq<Sample>, s: Sample)
    ensures forall tag :: Contributes(samples + [s], tag) <==> Contributes(samples, tag) || Counts(s, tag)
  {
    var all := samples + [s];
    forall tag
      ensures Contributes(all, tag) <==> Contributes(samples, tag) || Counts(s, tag)
    {
      if Contributes(all, tag) {
        var i :| 0 <= i < |all| && Counts(all[i], tag);
        if i < |samples| {
          assert all[i] == samples[i];
        }
      }
      if Contributes(samples, tag) {
        var i :| 0 <= i < |samples| && Counts(samples[i], tag);
        assert all[i] == samples[i];
      }
      if Counts(s, tag) {
        assert all[|samples|] == s;
      }
    }
  }

  /** Only the backlog gauge matters: dropping every sample of another metric
      leaves the backlog table exactly as it was, row order included. */
  lemma {:induction false} OtherMetricsIgnored(samples: seq<Sample>)
    ensures Aggregate(StepsOnly(samples)) == Aggregate(samples)
    decreases |samples|
  {
    if |samples| > 0 {
      var earlier := samples[..|samples| - 1];
      var last := samples[|samples| - 1];
      OtherMetricsIgnored(earlier);
      var kept := StepsOnly(earlier);
      if last.metric == StepsWaiting {
        assert StepsOnly(samples) == kept + [last];
        assert (kept + [last])[..|kept|] == kept;
      } else {
        assert StepsOnly(samples) == kept;
      }
    }
  }

  /** A sample of the gauge whose label is empty is counted under `none`, and
      one with a non-empty label under that label; no other row changes. */
  lemma EmptyLabelCountsAsNone(samples: seq<Sample>, s: Sample)
    requires s.metric == StepsWaiting
    ensures var key := if s.workerTags == "" then "none" else s.workerTags;
            && BacklogOf(Aggregate(samples + [s]), key) == BacklogOf(Aggregate(samples), key) + s.value
            && key in Tags(Aggregate(samples + [s]))
            && forall other :: other != key ==> BacklogOf(Aggregate(samples + [s]), other) == BacklogOf(Aggregate(samples), other)
  {
    var all := samples + [s];
    assert all[..|all| - 1] == samples;
    assert Counts(all[|samples|], TagOf(s.workerTags));
  }

  /** The empty label never becomes a row of its own. */
  lemma NoEmptyTag(samples: seq<Sample>)
    ensures "" !in Tags(Aggregate(samples))
  {
  }

  lemma {:induction false} SumForAppend(a: seq<Sample>, b: seq<Sample>, tag: string)
    ensures SumFor(a + b, tag) == SumFor(a, tag) + SumFor(b, tag)
    decreases |b|
  {
    if |b| == 0 {
      assert a + b == a;
    } else {
      var b' := b[..|b| - 1];
      SumForAppend(a, b', tag);
      assert (a + b)[..|a + b| - 1] == a + b';
    }
  }

  /** Taking sample `j` out of `b` takes its contribution out of the sum. */
  lemma SumForRemove(b: seq<Sample>, j: nat, tag: string)
    requires j < |b|
    ensures SumFor(b, tag) == SumFor(b[..j] + b[j + 1..], tag) + Contribution(b[j], tag)
  {
    var front, back := b[..j], b[j + 1..];
    assert b == front + [b[j]] + back;
    SumForAppend(front, [b[j]], tag);
    SumForAppend(front + [b[j]], back, tag);
    SumForAppend(front, back, tag);
    assert [b[j]][..0] == [];
  }

  lemma MultisetRemove(a: seq<Sample>, b: seq<Sample>, j: nat)
    requires |a| > 0 && j < |b|
    requires multiset(a) == multiset(b)
    requires b[j] == a[|a| - 1]
    ensures multiset(a[..|a| - 1]) == multiset(b[..j] + b[j + 1..])
  {
    var x := b[j];
    var front, back := b[..j], b[j + 1..];
    assert b == front + [x] + back;
    assert a == a[..|a| - 1] + [x];
    assert multiset(b[..j] + b[j + 1..]) == multiset(b) - multiset{x};
    assert multiset(a[..|a| - 1]) == multiset(a) - multiset{x};
  }

  /** The per-tag sum does not depend on the order of the samples. */
  lemma {:induction false} SumForPermutation(a: seq<Sample>, b: seq<Sample>, tag: string)
    requires multiset(a) == multiset(b)
    ensures SumFor(a, tag) == SumFor(b, tag)
    decreases |a|
  {
    if |a| == 0 {
      assert |b| == |multiset(b)| == 0;
    } else {
      var x := a[|a| - 1];
      assert x in multiset(b);
      var j :| 0 <= j < |b| && b[j] == x;
      MultisetRemove(a, b, j);
      SumForPermutation(a[..|a| - 1], b[..j] + b[j + 1..], tag);
      SumForRemove(b, j, tag);
    }
  }

  lemma ContributesPermutation(a: seq<Sample>, b: seq<Sample>, tag: string)
    requires multiset(a) == multiset(b)
    ensures Contributes(a, tag) ==> Contributes(b, tag)
  {
    if Contributes(a, tag) {
      var i :| 0 <= i < |a| && Counts(a[i], tag);
      assert a[i] in multiset(b);
      var j :| 0 <= j < |b| && b[j] == a[i];
    }
  }

  /** Reordering the samples changes neither which tags get a row nor any
      tag's backlog (only the order of the rows may differ). */
  lemma AggregateOrderIndependent(a: seq<Sample>, b: seq<Sample>)
    requires multiset(a) == multiset(b)
    ensures forall tag :: tag in Tags(Aggregate(a)) <==> tag in Tags(Aggregate(b))
    ensures forall tag :: BacklogOf(Aggregate(a), tag) == BacklogOf(Aggregate(b), tag)
  {
    forall tag
      ensures (tag in Tags(Aggregate(a)) <==> tag in Tags(Aggregate(b)))
      ensures BacklogOf(Aggregate(a), tag) == BacklogOf(Aggregate(b), tag)
    {
      ContributesPermutation(a, b, tag);
      ContributesPermutation(b, a, tag);
      SumForPermutation(a, b, tag);
    }
  }

  /** A table without a row for `tag` reports backlog 0 for it. */
  lemma {:induction false} BacklogAbsent(entries: seq<Entry>, tag: string)
    requires tag !in Tags(entries)
    ensures BacklogOf(entries, tag) == 0
  {
    if |entries| > 0 {
      assert Tags(entries)[0] == entries[0].tag;
      assert Tags(entries[1..]) == Tags(entries)[1..];
      BacklogAbsent(entries[1..], tag);
    }
  }

  /** In a table with unique tags, the backlog of a row's tag is that row's. */
  lemma {:induction false} BacklogAt(entries: seq<Entry>, i: nat)
    requires Unique(Tags(entries))
    requires i < |entries|
    ensures BacklogOf(entries, entries[i].tag) == entries[i].backlog
  {
    if i > 0 {
      assert Tags(entries)[0] != Tags(entries)[i];
      assert Tags(entries[1..]) == Tags(entries)[1..];
      BacklogAt(entries[1..], i - 1);
    }
  }

  /** Rows appear in the order their tags were first seen: the tag of an
      earlier row was counted by some sample before any sample counted the
      tag of a later row. */
  lemma {:induction false} RowsInFirstSeenOrder(samples: seq<Sample>, i: nat, j: nat)
    requires i < j < |Aggregate(samples)|
    ensures SeenBefore(samples, Tags(Aggregate(samples))[i], Tags(Aggregate(samples))[j])
    decreases |samples|
  {
    var earlier := samples[..|samples| - 1];
    var before, after := Tags(Aggregate(earlier)), Tags(Aggregate(samples));
    TagsGrow(samples);
    assert earlier + [samples[|samples| - 1]] == samples;
    if j < |before| {
      RowsInFirstSeenOrder(earlier, i, j);
      SeenBeforeExtends(earlier, samples[|samples| - 1], before[i], before[j]);
    } else {
      assert before[i] in before;
      NewTagSeenLast(earlier, samples[|samples| - 1], after[i], after[j]);
    }
  }

  /** One more sample keeps the existing rows in place and adds at most one
      row, for a tag no earlier sample counted for. */
  lemma TagsGrow(samples: seq<Sample>)
    requires |samples| > 0
    ensures var before := Tags(Aggregate(samples[..|samples| - 1]));
            var after := Tags(Aggregate(samples));
            && |before| <= |after| <= |before| + 1
            && after[..|before|] == before
            && (|after| > |before| ==> !Contributes(samples[..|samples| - 1], after[|before|]))
  {
  }

  /** Some sample counts for `first` before any sample counts for `second`. */
  predicate SeenBefore(samples: seq<Sample>, first: string, second: string)
  {
    exists p :: 0 <= p < |samples| && Counts(samples[p], first) &&
      forall q :: 0 <= q <= p ==> !Counts(samples[q], second)
  }

  lemma SeenBeforeExtends(samples: seq<Sample>, s: Sample, first: string, second: string)
    requires SeenBefore(samples, first, second)
    ensures SeenBefore(samples + [s], first, second)
  {
    var all := samples + [s];
    var p :| 0 <= p < |samples| && Counts(samples[p], first) &&
      forall q :: 0 <= q <= p ==> !Counts(samples[q], second);
    assert forall q :: 0 <= q <= p ==> all[q] == samples[q];
    assert Counts(all[p], first);
  }

  lemma NewTagSeenLast(samples: seq<Sample>, s: Sample, first: string, second: string)
    requires Contributes(samples, first)
    requires !Contributes(samples, second)
    ensures SeenBefore(samples + [s], first, second)
  {
    var all := samples + [s];
    var p :| 0 <= p < |samples| && Counts(samples[p], first);
    assert forall q :: 0 <= q <= p ==> all[q] == samples[q];
    assert Counts(all[p], first);
  }
}
