# concourse-dispatch decision cycle, in Dafny

`concourse_dispatch.py` launches Concourse CI workers faster than AWS Auto
Scaling would on its own. Each run of `handler` reads the Concourse metrics,
adds up the `concourse_steps_waiting` gauge per worker tag, and, for every tag
that has steps waiting and a configured Auto Scaling group, makes sure that
group's desired capacity is not 0 (it sets it to 1 when it is 0).

This project models one such decision cycle as pure functions:

- `metrics.dfy`, module `Metrics`: samples (`Sample`: metric family name,
  `workerTags` label, value) and the backlog table (`Entry` rows, kept in the
  order a Python dict keeps its keys: first insertion). `Aggregate` builds the
  table; `SumFor` is the independent reference sum it is proved against.
- `resolution.dfy`, module `Resolution`: `Resolve` walks the table in row
  order and keeps the rows with a non-zero backlog and a configured group.
- `autoscaling.dfy`, module `AutoScaling`: group records, the two calls the
  handler makes (`DescribeGroups`, `SetDesiredCapacity`), the describe answer
  as a function parameter (`Describe`), and `Landed`, the describe answers of
  a later cycle once a list of set calls has been applied.
- `decision.dfy`, module `Decision`: the per-group checks (`Check`, `Step`),
  the fail-fast walk over all targets (`Execute`), and the `ValueError`s it
  can raise (`Error`). A run's result is an `Outcome`: the calls made, in
  order, and whether it completed or raised.
- `handler.dfy`, module `Handler`: `Cycle`, the whole of `handler` from the
  metrics response to the outcome, with the end-to-end properties.

The Auto Scaling service is a parameter: `describe` gives the records that
`describe_auto_scaling_groups` returns for a group name, and the calls made
are returned as a trace instead of being sent. Within one cycle `describe` is
a fixed function; between cycles, `Landed(describe, calls)` gives the answers
after the recorded set calls took effect (the last set for a group wins).

## Model

| member | source | states |
|---|---|---|
| Metrics.TagOf | concourse_dispatch.py:36-38 | the tag a sample is counted under is never empty; a non-empty label is kept unchanged; the tag is `none` exactly when the label is empty or is itself `none`, so the two merge |
| Metrics.StepsOnly | concourse_dispatch.py:33-34 | the kept samples are exactly the `concourse_steps_waiting` samples of the snapshot, each with its original multiplicity, and nothing else |
| Metrics.Add | concourse_dispatch.py:40 | adding a sample value: the row for the tag grows by the value, every other row keeps its backlog, and a tag not yet in the table is appended as the last row (existing rows keep their order) |
| Metrics.Aggregate | concourse_dispatch.py:31-40 | the table has at most one row per tag; a tag has a row exactly when some `concourse_steps_waiting` sample counts for it; each tag's backlog equals the reference sum `SumFor` of the values of the samples that count for it |
| Metrics.OtherMetricsIgnored | concourse_dispatch.py:33-34 | dropping every sample whose metric is not `concourse_steps_waiting` yields the identical table, row order included |
| Metrics.EmptyLabelCountsAsNone | concourse_dispatch.py:36-40 | a gauge sample with an empty `workerTags` label adds its value to the `none` row, one with a non-empty label to that label's row, and no other row changes |
| Metrics.NoEmptyTag | concourse_dispatch.py:36-38 | the empty string never becomes a row of the table |
| Metrics.SumForPermutation | concourse_dispatch.py:40 | the per-tag sum is the same for any reordering of the samples |
| Metrics.AggregateOrderIndependent | concourse_dispatch.py:31-40 | two snapshots holding the same samples in different orders have rows for the same tags with the same backlogs |
| Metrics.RowsInFirstSeenOrder | concourse_dispatch.py:40-42 | rows come in the order their tags were first counted: the tag of an earlier row is counted by a sample that precedes every sample counted for a later row's tag |
| Resolution.Resolve | concourse_dispatch.py:42-46 | every target pairs a tag that has a non-zero row and a configured group with that configured group; every row with a non-zero backlog and a configured group yields its target |
| Resolution.ResolveAppend | concourse_dispatch.py:42-46 | rows are resolved one at a time in table order: resolving a split table is the concatenation of resolving its parts |
| AutoScaling.Land | concourse_dispatch.py:62-65 | applying recorded calls to a group record keeps its name, leaves it unchanged when no call sets that group, and otherwise gives it the capacity of the last call that sets it |
| AutoScaling.LandUniform | concourse_dispatch.py:62-65 | when a group was set at least once and every set of it asks for the same capacity, the record ends up at that capacity |
| Decision.Check | concourse_dispatch.py:51-61 | rejects exactly when the answer is not one record of the requested name: a count other than 1 gives `WrongCount` with that count, one record of another name gives `WrongName`; asks for a set exactly when the one record of that name is at capacity 0 |
| Decision.Step | concourse_dispatch.py:47-65 | one group: the first call is always the describe; the step completes exactly when the answer is one record of the requested name; a raising step makes no further call; the set to 1 follows exactly when that record is at capacity 0 |
| Decision.Execute | concourse_dispatch.py:42-65 | every call made names the group of some target; every set call asks for capacity exactly 1 and only for a group described as one record of its own name at capacity 0; the walk completes exactly when every target's describe answer is one record of the requested name |
| Decision.ExecuteSingle | concourse_dispatch.py:47-65 | for one group: a count other than 1 raises `WrongCount` after the describe call; one record with another name raises `WrongName`; otherwise capacity 0 gives a set to 1 and any other capacity gives no set |
| Decision.ExecuteAppend | concourse_dispatch.py:42-65 | the targets are handled in sequence: running a split list runs the first part and, only when that completed, the second part after it |
| Decision.ExecuteStopsAtFirstRejection | concourse_dispatch.py:51-59 | when target k is the first rejected one, the run raises its error right after describing it; the calls for targets before k stand and no later target is described or set |
| Decision.CompletedScalesEveryIdleGroup | concourse_dispatch.py:61-65 | a completed walk contains a set to 1 for every target group described at capacity 0 |
| Decision.StepRerun | concourse_dispatch.py:47-65 | after calls covering a group's own step have landed, describing it again passes or fails in the same way and never leads to a set |
| Decision.RerunSetsNothing | concourse_dispatch.py:61-65 | once calls that include a walk's own calls (and set only to 1) have landed, a second walk over the same targets issues no set call and ends with the same status |
| Decision.RerunAfterOwnCallsSetsNothing | concourse_dispatch.py:61-65 | re-running a walk after its own calls have landed issues no set call and ends with the same status |
| Handler.TargetsOfSnapshot | concourse_dispatch.py:31-46 | a (tag, group) pair is a target exactly when the tag is configured, the group is its configured group, and the reference sum for the tag is positive |
| Handler.Cycle | concourse_dispatch.py:20-65 | a status other than 200 raises `BadStatus` with no call made; every call names the configured group of a tag with steps waiting (zero-backlog and unconfigured tags cause no call); every set call asks for capacity exactly 1 and only for a group described as one record of its own name at capacity 0; with status 200 the run completes exactly when every such group is described as one record of its own name |
| Handler.AllRunningSetsNothing | concourse_dispatch.py:61-65 | when no configured tag with steps waiting has its group at capacity 0, the cycle issues no set call |
| Handler.CompletedCycleScalesIdleGroups | concourse_dispatch.py:42-65 | a completed cycle contains a set to 1 for the group of every configured tag with steps waiting whose group was at capacity 0 |
| Handler.RerunCycleSetsNothing | concourse_dispatch.py:20-65 | running the same snapshot again after the first run's sets have landed issues no set call and ends as the first run did |
| Handler.ExampleCycle | concourse_dispatch.py:31-65 | samples `gpu`=3 and empty label=0, `gpu` mapped to `gpu-asg` at capacity 0: the cycle describes `gpu-asg`, sets it to 1 and completes; the zero `none` backlog causes nothing |

## Left out

- The HTTP fetch of the metrics URL and its 1-second timeout (concourse_dispatch.py:24): network I/O. The answer is the input `Response`; only its status-code check (lines 26-27) is modelled.
- Parsing of the Prometheus text format (concourse_dispatch.py:29): a foreign library. `Response.samples` stands for what the parser reads from the body, flattened from metric families to samples that carry their family's name.
- The boto3 client and the real `describe_auto_scaling_groups` / `set_desired_capacity` requests (concourse_dispatch.py:14, 47-49, 62-65): a foreign service. `describe` is a parameter and the calls are returned as a trace.
- Loading `CONCOURSE_METRICS_URL` and `TAG_TO_AUTO_SCALING_GROUP` from the environment (concourse_dispatch.py:16-17): configuration I/O. The tag-to-group map is a parameter.
- Floating-point sample values: backlog values are natural numbers, since the gauge counts steps.
- A sample without a `workerTags` label: the code indexes the label directly, so a missing label raises `KeyError`. The code does not treat a missing label as `none`. Every modelled sample carries the label.
- Records without `AutoScalingGroupName` or `DesiredCapacity` keys: a `KeyError` in the code. Every modelled record has both fields.
- The effect of a set call on a later describe within the same cycle: `describe` is fixed for one cycle. If two tags map to the same group at capacity 0, the model sets that group twice. The real service may already show capacity 1 at the second describe. Either way the group ends at 1.
- The `__main__` entry point (concourse_dispatch.py:68-69).
- Tag order matters: it decides which sets are issued before an error aborts the cycle. The model keeps dict insertion order (`RowsInFirstSeenOrder`, `ExecuteStopsAtFirstRejection`), so this is modelled, not left out.
- Decision.Execute: does not model a failing Auto Scaling request. In the code, `describe_auto_scaling_groups` (concourse_dispatch.py:47) and `set_desired_capacity` (concourse_dispatch.py:62) can raise a botocore error, for example on throttling or when 1 is above the group's maximum size. That exception leaves `handler`: sets already issued stand and later tags are skipped. In the model, `describe` is a total function and a set always succeeds. So "completes exactly when every target's describe answer is one record of the requested name" holds only while the service does not fail.
- Handler.Cycle: the same gap at cycle level. Completion is promised only for a service that answers every request. The error path of a failing request is not modelled.
