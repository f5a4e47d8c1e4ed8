/**
 * The dependency bookkeeping of `Task`. Every closure the source queues is
 * one atomic step here, tasks live in a registry and name each other by
 * index, and a task's body is an outcome given from outside: the outputs it
 * wrote and the error it threw, if any.
 */
module Tasks {
  import opened Wrappers

  datatype State = Initializing | Queued | Running | Completed

  /** An error a task body throws, by its domain and code. */
  datatype TaskError = TaskError(domain: string, code: int)

  /** What a task body leaves behind: the outputs it wrote and the error it threw, if any. */
  datatype Outcome = Outcome(outputs: map<string, int>, error: Option<TaskError>)

  datatype Task = Task(
    identifier: string,
    inputs: map<string, int>,
    inputsError: map<string, TaskError>,
    outputs: map<string, int>,
    dependants: seq<nat>,
    dependancies: int,
    state: State,
    error: Option<TaskError>)

  /** `n` copies of `x`. */
  function Repeat(x: nat, n: nat): (r: seq<nat>)
    ensures |r| == n && forall i :: 0 <= i < n ==> r[i] == x
  {
    if n == 0 then [] else Repeat(x, n - 1) + [x]
  }

  /** How often `d` lists `t` as a dependant while `d` is still to complete. */
  function Listed(d: Task, t: nat): nat
  {
    if d.state == Completed then 0 else multiset(d.dependants)[t]
  }

  /** How often the first `k` tasks, among those not yet completed, list `t` as a dependant. */
  function Waiting(ts: seq<Task>, t: nat, k: nat): nat
    requires k <= |ts|
  {
    if k == 0 then 0 else Waiting(ts, t, k - 1) + Listed(ts[k - 1], t)
  }

  /** `_mergeInputs`, on values: the dependency's outputs overwrite the inputs key by key. */
  function Merged(inputs: map<string, int>, dependancy: Task): (r: map<string, int>)
    ensures r.Keys == inputs.Keys + dependancy.outputs.Keys
    ensures forall k :: k in r ==> r[k] == if k in dependancy.outputs then dependancy.outputs[k] else inputs[k]
  {
    inputs + dependancy.outputs
  }

  /** `_mergeInputs`, the error half: recorded under the dependency's identifier only when it failed. */
  function MergedErrors(inputsError: map<string, TaskError>, dependancy: Task): (r: map<string, TaskError>)
    ensures dependancy.error.None? ==> r == inputsError
    ensures dependancy.error.Some? ==> r.Keys == inputsError.Keys + {dependancy.identifier}
    ensures dependancy.error.Some? ==> r[dependancy.identifier] == dependancy.error.value
    ensures forall k :: k in inputsError && k != dependancy.identifier ==> k in r && r[k] == inputsError[k]
  {
    if dependancy.error.Some? then inputsError[dependancy.identifier := dependancy.error.value] else inputsError
  }

  /** Merging the same dependency twice is merging it once. */
  lemma MergeTwice(inputs: map<string, int>, inputsError: map<string, TaskError>, dependancy: Task)
    ensures Merged(Merged(inputs, dependancy), dependancy) == Merged(inputs, dependancy)
    ensures MergedErrors(MergedErrors(inputsError, dependancy), dependancy) == MergedErrors(inputsError, dependancy)
  {
  }

  /** How many of the listed dependencies have not completed: the count registration waits for. */
  function IncompleteCount(ts: seq<Task>, ds: seq<nat>): nat
    requires forall i :: 0 <= i < |ds| ==> ds[i] < |ts|
  {
    if |ds| == 0 then 0
    else IncompleteCount(ts, ds[..|ds| - 1]) + (if ts[ds[|ds| - 1]].state == Completed then 0 else 1)
  }

  /** The inputs after registration: the completed dependencies merged in list order. */
  function RegisteredInputs(ts: seq<Task>, ds: seq<nat>): map<string, int>
    requires forall i :: 0 <= i < |ds| ==> ds[i] < |ts|
  {
    if |ds| == 0 then map[]
    else
      var acc := RegisteredInputs(ts, ds[..|ds| - 1]);
      if ts[ds[|ds| - 1]].state == Completed then Merged(acc, ts[ds[|ds| - 1]]) else acc
  }

  /** The input errors after registration, from the completed dependencies in list order. */
  function RegisteredErrors(ts: seq<Task>, ds: seq<nat>): map<string, TaskError>
    requires forall i :: 0 <= i < |ds| ==> ds[i] < |ts|
  {
    if |ds| == 0 then map[]
    else
      var acc := RegisteredErrors(ts, ds[..|ds| - 1]);
      if ts[ds[|ds| - 1]].state == Completed then MergedErrors(acc, ts[ds[|ds| - 1]]) else acc
  }

  /** How many times registration appends the new task to `d`'s dependants. */
  function Registrations(ts: seq<Task>, ds: seq<nat>, d: nat): nat
    requires d < |ts|
  {
    if ts[d].state == Completed then 0 else multiset(ds)[d]
  }

  /** Dependants come after the task they wait for. */
  ghost predicate Linked(ts: seq<Task>)
  {
    forall d, x :: 0 <= d < |ts| && x in ts[d].dependants ==> d < x < |ts|
  }

  /** A task is Initializing exactly while it waits, and a completed task has notified its dependants. */
  ghost predicate Staged(task: Task)
  {
    && (task.state == Initializing <==> task.dependancies > 0)
    && (task.state == Completed ==> task.dependants == [])
  }

  /** Every task's pending count is its listings by incomplete tasks, plus its entries in `rest`. */
  ghost predicate WaitsFor(ts: seq<Task>, rest: seq<nat>)
  {
    forall t :: 0 <= t < |ts| ==> ts[t].dependancies == Waiting(ts, t, |ts|) + multiset(rest)[t]
  }

  /** Every task except `e` is staged. */
  ghost predicate StagedBut(ts: seq<Task>, e: int)
  {
    forall t :: 0 <= t < |ts| && t != e ==> Staged(ts[t])
  }

  /**
   * The scheduling invariant: every task's pending count is the number of
   * times it is listed by incomplete tasks, counting repeated listings;
   * every task except `e` is staged.
   */
  ghost predicate Scheduled(ts: seq<Task>, e: int)
  {
    Linked(ts) && WaitsFor(ts, []) && StagedBut(ts, e)
  }

  /** Replacing one task changes each count by the difference in its listings. */
  lemma {:induction false} WaitingUpdate(ts: seq<Task>, d: nat, rec: Task, t: nat, k: nat)
    requires d < |ts| && k <= |ts|
    ensures Waiting(ts[d := rec], t, k) + (if d < k then Listed(ts[d], t) else 0) ==
            Waiting(ts, t, k) + (if d < k then Listed(rec, t) else 0)
  {
    if k > 0 {
      WaitingUpdate(ts, d, rec, t, k - 1);
    }
  }

  /** A task added at the end does not change the counts over the tasks before it. */
  lemma {:induction false} WaitingSnoc(ts: seq<Task>, rec: Task, t: nat, k: nat)
    requires k <= |ts|
    ensures Waiting(ts + [rec], t, k) == Waiting(ts, t, k)
  {
    if k > 0 {
      WaitingSnoc(ts, rec, t, k - 1);
    }
  }

  /** A change that keeps a task's count, dependants and completion keeps the invariant. */
  lemma UpdateKeepsScheduled(ts: seq<Task>, d: nat, rec: Task, e: int)
    requires Scheduled(ts, e) && d < |ts|
    requires rec.dependancies == ts[d].dependancies && rec.dependants == ts[d].dependants
    requires (rec.state == Completed) == (ts[d].state == Completed)
    requires d != e ==> Staged(rec)
    ensures Scheduled(ts[d := rec], e)
  {
    forall t | 0 <= t < |ts|
      ensures Waiting(ts[d := rec], t, |ts|) == Waiting(ts, t, |ts|)
    {
      WaitingUpdate(ts, d, rec, t, |ts|);
    }
  }

  /**
   * A task after a dependency that lists it `c` times completes: the
   * outputs merged in, the count lowered by `c`, and Queued when nothing is
   * left to wait for.
   */
  function Notified(task: Task, dependancy: Task, c: nat): (r: Task)
    ensures r.identifier == task.identifier && r.outputs == task.outputs && r.error == task.error
    ensures r.dependants == task.dependants && r.dependancies == task.dependancies - c
    ensures c == 0 ==> r == task
  {
    if c == 0 then task
    else task.(inputs := Merged(task.inputs, dependancy),
               inputsError := MergedErrors(task.inputsError, dependancy),
               dependancies := task.dependancies - c,
               state := if task.dependancies == c then Queued else task.state)
  }

  class TaskRegistry {
    var tasks: seq<Task>

    ghost predicate Valid()
      reads this
    {
      Scheduled(tasks, -1)
    }

    constructor ()
      ensures Valid() && tasks == []
    {
      tasks := [];
    }

    /** `_mergeInputs`: every output of `d` copied into `t`'s inputs, then `d`'s error, if any, recorded. */
    method MergeInputs(t: nat, d: nat)
      requires t < |tasks| && d < |tasks|
      modifies this
      ensures tasks == old(tasks)[t := old(tasks[t]).(inputs := Merged(old(tasks[t].inputs), old(tasks[d])),
                                                      inputsError := MergedErrors(old(tasks[t].inputsError), old(tasks[d])))]
    {
      var dependancy := tasks[d];
      var inputs := CopyOutputs(tasks[t].inputs, dependancy);
      var inputsError := tasks[t].inputsError;
      if dependancy.error.Some? {
        inputsError := inputsError[dependancy.identifier := dependancy.error.value];
      }
      tasks := tasks[t := tasks[t].(inputs := inputs, inputsError := inputsError)];
    }

    /** The loop of `_mergeInputs`: each output of `dependancy`, taken in any order, is written over the inputs. */
    static method CopyOutputs(inputs: map<string, int>, dependancy: Task) returns (r: map<string, int>)
      ensures r == Merged(inputs, dependancy)
    {
      var outputs := dependancy.outputs;
      r := inputs;
      var remaining := outputs.Keys;
      while remaining != {}
        invariant remaining <= outputs.Keys
        invariant r == inputs + (map k | k in outputs.Keys - remaining :: outputs[k])
        decreases |remaining|
      {
        var key :| key in remaining;
        r := r[key := outputs[key]];
        remaining := remaining - {key};
      }
      assert (map k | k in outputs.Keys - remaining :: outputs[k]) == outputs;
    }

    /** `_run`: the body is dispatched and the task becomes Queued. */
    method Run(t: nat)
      requires t < |tasks|
      modifies this
      ensures tasks == old(tasks)[t := old(tasks[t]).(state := Queued)]
    {
      tasks := tasks[t := tasks[t].(state := Queued)];
    }

    /**
     * The body's block: the task is marked Running, the body writes its
     * outputs, and a thrown error is stored in `error` rather than passed on.
     */
    method Execute(t: nat, outcome: Outcome)
      requires Valid() && t < |tasks| && tasks[t].state == Queued
      modifies this
      ensures Valid()
      ensures tasks == old(tasks)[t := old(tasks[t]).(state := Running, outputs := outcome.outputs,
                                                      error := if outcome.error.Some? then outcome.error else old(tasks[t].error))]
    {
      var task := tasks[t].(state := Running, outputs := outcome.outputs);
      if outcome.error.Some? {
        task := task.(error := outcome.error);
      }
      UpdateKeepsScheduled(tasks, t, task, -1);
      tasks := tasks[t := task];
    }

    /**
     * `_dependancyHasCompleted`: `d`'s outputs are merged into `t`, `t`'s
     * pending count drops by one, and `t` runs when it reaches zero.
     */
    method DependancyHasCompleted(t: nat, d: nat)
      requires t < |tasks| && d < |tasks| && tasks[t].dependancies > 0
      modifies this
      ensures var c := old(tasks[t].dependancies) - 1;
              tasks == old(tasks)[t := old(tasks[t]).(inputs := Merged(old(tasks[t].inputs), old(tasks[d])),
                                                      inputsError := MergedErrors(old(tasks[t].inputsError), old(tasks[d])),
                                                      dependancies := c,
                                                      state := if c == 0 then Queued else old(tasks[t].state))]
    ensures tasks == old(tasks)[t := Notified(old(tasks[t]), old(tasks[d]), 1)]
    {
      MergeInputs(t, d);
      tasks := tasks[t := tasks[t].(dependancies := tasks[t].dependancies - 1)];
      if tasks[t].dependancies == 0 {
        Run(t);
      }
    }

    /**
     * The registration closure of `init`, with `init` itself: a new task is
     * added, each incomplete dependency lists it as a dependant and adds one
     * to its pending count, each completed one is merged at once, and the
     * task runs when nothing is pending.
     */
    method Create(identifier: string, dependsOn: seq<nat>) returns (id: nat)
      requires Valid() && forall i :: 0 <= i < |dependsOn| ==> dependsOn[i] < |tasks|
      modifies this
      ensures Valid() && id == old(|tasks|) && |tasks| == id + 1
      ensures tasks[id].identifier == identifier && tasks[id].outputs == map[] && tasks[id].error == None
      ensures tasks[id].dependants == []
      ensures tasks[id].dependancies == IncompleteCount(old(tasks), dependsOn)
      ensures tasks[id].inputs == RegisteredInputs(old(tasks), dependsOn)
      ensures tasks[id].inputsError == RegisteredErrors(old(tasks), dependsOn)
      ensures tasks[id].state == if tasks[id].dependancies == 0 then Queued else Initializing
      ensures forall d :: 0 <= d < id ==>
                tasks[d] == old(tasks[d]).(dependants := old(tasks[d].dependants) + Repeat(id, Registrations(old(tasks), dependsOn, d)))
    {
      ghost var before := tasks;
      id := AppendTask(identifier, dependsOn);
      var n := 0;
      while n < |dependsOn|
        invariant 0 <= n <= |dependsOn|
        invariant Registering(before, id, identifier, dependsOn, n, tasks)
      {
        RegisterOne(before, id, identifier, dependsOn, n);
        n := n + 1;
      }
      assert dependsOn[..n] == dependsOn;
      StartIfReady(id);
    }

    /** `init` proper: the record is added, Initializing, with nothing registered yet. */
    method AppendTask(identifier: string, ghost dependsOn: seq<nat>) returns (id: nat)
      requires Valid() && forall i :: 0 <= i < |dependsOn| ==> dependsOn[i] < |tasks|
      modifies this
      ensures Registering(old(tasks), id, identifier, dependsOn, 0, tasks)
    {
      id := |tasks|;
      var task := Task(identifier, map[], map[], map[], [], 0, Initializing, None);
      AppendKeepsScheduled(tasks, task);
      assert ListedSoFar(tasks, id, [], tasks + [task]) by {
        forall d | 0 <= d < id
          ensures tasks[d].dependants + Repeat(id, 0) == tasks[d].dependants
        {
        }
      }
      assert dependsOn[..0] == [];
      tasks := tasks + [task];
    }

    /** A new task, listed nowhere and waiting for nothing, keeps the invariant except for its own stage. */
    static lemma AppendKeepsScheduled(ts: seq<Task>, task: Task)
      requires Scheduled(ts, -1) && task.dependants == [] && task.dependancies == 0
      ensures Scheduled(ts + [task], |ts|)
    {
      var id := |ts|;
      forall t | 0 <= t < |ts|
        ensures Waiting(ts + [task], t, |ts| + 1) == Waiting(ts, t, |ts|)
      {
        WaitingSnoc(ts, task, t, |ts|);
      }
      WaitingSnoc(ts, task, id, |ts|);
      NotYetListed(ts, id, |ts|);
    }

    /** The end of the registration closure: run when nothing is pending, otherwise stay Initializing. */
    method StartIfReady(id: nat)
      requires Scheduled(tasks, id) && id < |tasks| && tasks[id].state == Initializing && tasks[id].dependants == []
      modifies this
      ensures Scheduled(tasks, -1)
      ensures tasks == old(tasks)[id := old(tasks[id]).(state := if old(tasks[id].dependancies) == 0 then Queued else Initializing)]
    {
      if tasks[id].dependancies == 0 {
        UpdateKeepsScheduled(tasks, id, tasks[id].(state := Queued), id);
        Run(id);
      }
    }

    /** The new task is listed nowhere yet. */
    static lemma {:induction false} NotYetListed(ts: seq<Task>, id: nat, k: nat)
      requires Linked(ts) && |ts| <= id && k <= |ts|
      ensures Waiting(ts, id, k) == 0
    {
      if k > 0 {
        NotYetListed(ts, id, k - 1);
        assert id !in ts[k - 1].dependants;
      }
    }

    /** Registration after the first `n` dependencies of the new task `id`. */
    static ghost predicate Registering(before: seq<Task>, id: nat, identifier: string, dependsOn: seq<nat>, n: nat, ts: seq<Task>)
    {
      && id == |before| && |ts| == id + 1 && n <= |dependsOn|
      && (forall i :: 0 <= i < |dependsOn| ==> dependsOn[i] < id)
      && Scheduled(ts, id)
      && ts[id].identifier == identifier && ts[id].outputs == map[] && ts[id].error == None
      && ts[id].dependants == [] && ts[id].state == Initializing
      && ts[id].dependancies == IncompleteCount(before, dependsOn[..n])
      && ts[id].inputs == RegisteredInputs(before, dependsOn[..n])
      && ts[id].inputsError == RegisteredErrors(before, dependsOn[..n])
      && ListedSoFar(before, id, dependsOn[..n], ts)
    }

    /** Every earlier task is its original record with `id` appended once per registration in `registered`. */
    static ghost predicate ListedSoFar(before: seq<Task>, id: nat, registered: seq<nat>, ts: seq<Task>)
      requires id == |before| && |ts| == id + 1
    {
      forall d :: 0 <= d < id ==>
        ts[d] == before[d].(dependants := before[d].dependants + Repeat(id, Registrations(before, registered, d)))
    }

    /** One pass of the registration loop, for `dependsOn[n]`. */
    method RegisterOne(ghost before: seq<Task>, id: nat, ghost identifier: string, dependsOn: seq<nat>, n: nat)
      requires n < |dependsOn| && Registering(before, id, identifier, dependsOn, n, tasks)
      modifies this
      ensures Registering(before, id, identifier, dependsOn, n + 1, tasks)
    {
      var d := dependsOn[n];
      assert dependsOn[..n + 1] == dependsOn[..n] + [d];
      assert before[d].state == tasks[d].state;
      if tasks[d].state != State.Completed {
        AddDependant(d, id);
      } else {
        UpdateKeepsScheduled(tasks, id, tasks[id].(inputs := Merged(tasks[id].inputs, tasks[d]),
                                                   inputsError := MergedErrors(tasks[id].inputsError, tasks[d])), id);
        assert tasks[d] == before[d] by {
          assert Registrations(before, dependsOn[..n], d) == 0;
        }
        MergeInputs(id, d);
      }
      forall x | 0 <= x < id
        ensures tasks[x] == before[x].(dependants := before[x].dependants + Repeat(id, Registrations(before, dependsOn[..n + 1], x)))
      {
        assert multiset(dependsOn[..n + 1])[x] == multiset(dependsOn[..n])[x] + (if x == d then 1 else 0);
      }
    }

    /** The incomplete dependency `d` lists the new task `id` once more, and `id` waits for one more. */
    method AddDependant(d: nat, id: nat)
      requires Scheduled(tasks, id) && d < id && id == |tasks| - 1
      requires tasks[d].state != State.Completed && tasks[id].state == Initializing
      modifies this
      ensures Scheduled(tasks, id)
      ensures tasks == old(tasks)[d := old(tasks[d]).(dependants := old(tasks[d].dependants) + [id])]
                                 [id := old(tasks[id]).(dependancies := old(tasks[id].dependancies) + 1)]
    {
      ghost var ts0 := tasks;
      var listing := tasks[d].(dependants := tasks[d].dependants + [id]);
      tasks := tasks[d := listing];
      var waiting := tasks[id].(dependancies := tasks[id].dependancies + 1);
      tasks := tasks[id := waiting];
      ListingKeepsScheduled(ts0, d, id);
    }

    /** Listing `id` once more under `d` and raising `id`'s count by one keeps the invariant. */
    static lemma ListingKeepsScheduled(ts0: seq<Task>, d: nat, id: nat)
      requires Scheduled(ts0, id) && d < id && id == |ts0| - 1
      requires ts0[d].state != State.Completed && ts0[id].state == Initializing
      ensures var ts1 := ts0[d := ts0[d].(dependants := ts0[d].dependants + [id])];
              Scheduled(ts1[id := ts1[id].(dependancies := ts1[id].dependancies + 1)], id)
    {
      var listing := ts0[d].(dependants := ts0[d].dependants + [id]);
      var ts1 := ts0[d := listing];
      forall t | 0 <= t < |ts1|
        ensures Waiting(ts1, t, |ts1|) == Waiting(ts0, t, |ts1|) + (if t == id then 1 else 0)
      {
        WaitingUpdate(ts0, d, listing, t, |ts1|);
      }
      var waiting := ts1[id].(dependancies := ts1[id].dependancies + 1);
      var ts2 := ts1[id := waiting];
      forall t | 0 <= t < |ts2|
        ensures Waiting(ts2, t, |ts2|) == Waiting(ts1, t, |ts2|)
      {
        WaitingUpdate(ts1, id, waiting, t, |ts2|);
      }
    }

    /**
     * `_completed`: the task becomes Completed, each entry of its dependants
     * list (repeats included, in order) is told, and the list is emptied. A
     * dependant listed `c` times has its pending count lowered by `c`, has
     * the outputs merged, and is Queued if its count reached zero.
     */
    method Completed(d: nat)
      requires Valid() && d < |tasks| && tasks[d].state == Running
      modifies this
      ensures Valid() && |tasks| == old(|tasks|)
      ensures tasks[d] == old(tasks[d]).(state := State.Completed, dependants := [])
      ensures forall t :: 0 <= t < |tasks| && t != d ==>
                tasks[t] == Notified(old(tasks[t]), old(tasks[d]), multiset(old(tasks[d].dependants))[t])
    {
      ghost var before := tasks;
      MarkCompleted(before, d);
      var dependants := tasks[d].dependants;
      var n := 0;
      while n < |dependants|
        invariant 0 <= n <= |dependants| && dependants == before[d].dependants
        invariant Notifying(before, d, n, tasks)
      {
        NotifyOne(before, d, n);
        n := n + 1;
      }
      assert dependants[..n] == dependants;
      ClearDependants(before, d);
    }

    /** The first statement of `_completed`: the task is marked Completed, no dependant told yet. */
    method MarkCompleted(ghost before: seq<Task>, d: nat)
      requires Scheduled(tasks, -1) && tasks == before && d < |tasks| && tasks[d].state == Running
      modifies this
      ensures Notifying(before, d, 0, tasks)
    {
      var done := tasks[d].(state := State.Completed);
      forall t | 0 <= t < |tasks|
        ensures Waiting(tasks[d := done], t, |tasks|) + multiset(done.dependants)[t] == Waiting(tasks, t, |tasks|)
      {
        WaitingUpdate(tasks, d, done, t, |tasks|);
      }
      assert done.dependants[0..] == done.dependants;
      tasks := tasks[d := done];
    }

    /** The last statement of `_completed`: once every dependant is told, the list is emptied. */
    method ClearDependants(ghost before: seq<Task>, d: nat)
      requires d < |before| && Notifying(before, d, |before[d].dependants|, tasks)
      modifies this
      ensures Scheduled(tasks, -1)
      ensures tasks == old(tasks)[d := old(tasks[d]).(dependants := [])]
    {
      assert before[d].dependants[|before[d].dependants|..] == [];
      var emptied := tasks[d].(dependants := []);
      forall t | 0 <= t < |tasks|
        ensures Waiting(tasks[d := emptied], t, |tasks|) == Waiting(tasks, t, |tasks|)
      {
        WaitingUpdate(tasks, d, emptied, t, |tasks|);
      }
      tasks := tasks[d := emptied];
    }

    /** `_completed` after telling the first `n` entries of `d`'s dependants list. */
    static ghost predicate Notifying(before: seq<Task>, d: nat, n: nat, ts: seq<Task>)
    {
      && |ts| == |before| && d < |ts| && Linked(before)
      && n <= |before[d].dependants|
      && ts[d] == before[d].(state := State.Completed) && before[d].dependancies == 0
      && Linked(ts)
      && WaitsFor(ts, before[d].dependants[n..])
      && StagedBut(ts, d)
      && NotifiedSoFar(before, d, before[d].dependants[..n], ts)
    }

    /** Every task but `d` is its original record, told of `d` as often as `told` lists it. */
    static ghost predicate NotifiedSoFar(before: seq<Task>, d: nat, told: seq<nat>, ts: seq<Task>)
      requires |ts| == |before| && d < |before|
    {
      forall t :: 0 <= t < |ts| && t != d ==> ts[t] == Notified(before[t], before[d], multiset(told)[t])
    }

    /** One pass of `_completed`'s loop: the `n`-th entry of the dependants list is told. */
    method NotifyOne(ghost before: seq<Task>, d: nat, n: nat)
      requires Notifying(before, d, n, tasks) && n < |before[d].dependants|
      modifies this
      ensures Notifying(before, d, n + 1, tasks)
    {
      var t := tasks[d].dependants[n];
      ghost var ts0 := tasks;
      NotifyReady(before, d, n, ts0);
      DependancyHasCompleted(t, d);
      NotifyStep(before, d, n, ts0, t, tasks);
    }

    /** The `n`-th listed dependant comes after `d` and still waits for it. */
    static lemma NotifyReady(before: seq<Task>, d: nat, n: nat, ts: seq<Task>)
      requires Notifying(before, d, n, ts) && n < |before[d].dependants|
      ensures var t := before[d].dependants[n];
              ts[d].dependants == before[d].dependants && d < t < |ts| && ts[t].dependancies > 0
    {
      var t := before[d].dependants[n];
      assert t in before[d].dependants;
      assert before[d].dependants[n..] == [t] + before[d].dependants[n + 1..];
    }

    /** Telling one dependant keeps the bookkeeping of `_completed`'s loop. */
    static lemma NotifyStep(before: seq<Task>, d: nat, n: nat, ts0: seq<Task>, t: nat, ts1: seq<Task>)
      requires Notifying(before, d, n, ts0) && n < |before[d].dependants|
      requires t == before[d].dependants[n] && d < t < |ts0| && ts0[t].dependancies > 0
      requires ts1 == ts0[t := Notified(ts0[t], ts0[d], 1)]
      ensures Notifying(before, d, n + 1, ts1)
    {
      assert before[d].dependants[n..] == [t] + before[d].dependants[n + 1..];
      NotifyCounts(ts0, t, ts1[t], before[d].dependants[n + 1..]);
      NotifyStaged(ts0, d, t, ts1);
      NotifyHistory(before, d, n, ts0, t, ts1);
    }

    /** The told dependant waits for one listing fewer; every other count is unchanged. */
    static lemma NotifyCounts(ts0: seq<Task>, t: nat, rec: Task, rest: seq<nat>)
      requires Linked(ts0) && t < |ts0|
      requires WaitsFor(ts0, [t] + rest)
      requires rec.dependants == ts0[t].dependants && (rec.state == State.Completed) == (ts0[t].state == State.Completed)
      requires rec.dependancies == ts0[t].dependancies - 1
      ensures Linked(ts0[t := rec]) && WaitsFor(ts0[t := rec], rest)
    {
      var ts1 := ts0[t := rec];
      forall u | 0 <= u < |ts1|
        ensures ts1[u].dependancies == Waiting(ts1, u, |ts1|) + multiset(rest)[u]
      {
        WaitingUpdate(ts0, t, rec, u, |ts0|);
      }
      assert Linked(ts1) by {
        forall e, x | 0 <= e < |ts1| && x in ts1[e].dependants
          ensures e < x < |ts1|
        {
          assert ts1[e].dependants == ts0[e].dependants;
        }
      }
    }

    /** The told dependant is Queued exactly when its count reaches zero. */
    static lemma NotifyStaged(ts0: seq<Task>, d: nat, t: nat, ts1: seq<Task>)
      requires StagedBut(ts0, d) && d < |ts0| && t < |ts0| && t != d && ts0[t].dependancies > 0
      requires ts1 == ts0[t := Notified(ts0[t], ts0[d], 1)]
      ensures StagedBut(ts1, d)
    {
      assert Staged(ts0[t]);
    }

    /** The told dependant is its original record notified once more. */
    static lemma NotifyHistory(before: seq<Task>, d: nat, n: nat, ts0: seq<Task>, t: nat, ts1: seq<Task>)
      requires |ts0| == |before| && d < |before| && n < |before[d].dependants|
      requires t == before[d].dependants[n] && t < |ts0| && t != d && ts0[t].dependancies > 0
      requires ts0[d] == before[d].(state := State.Completed)
      requires NotifiedSoFar(before, d, before[d].dependants[..n], ts0)
      requires ts1 == ts0[t := Notified(ts0[t], ts0[d], 1)]
      ensures NotifiedSoFar(before, d, before[d].dependants[..n + 1], ts1)
    {
      var deps := before[d].dependants;
      assert deps[..n + 1] == deps[..n] + [t];
      var c := multiset(deps[..n])[t];
      assert multiset(deps[..n + 1])[t] == c + 1;
      NotifiedAgain(before[t], before[d], ts0[d], c);
    }
  }

  /**
   * Being told of a dependency once more, while still waiting, is being
   * told one time more; a repeated merge adds nothing new.
   */
  lemma NotifiedAgain(task: Task, dependancy: Task, same: Task, c: nat)
    requires task.dependancies > c
    requires same.outputs == dependancy.outputs && same.error == dependancy.error && same.identifier == dependancy.identifier
    ensures Notified(Notified(task, dependancy, c), same, 1) == Notified(task, dependancy, c + 1)
  {
    MergeTwice(task.inputs, task.inputsError, dependancy);
  }

  /**
   * Two tasks without dependencies, then a task depending on both. The
   * first finishes with output Task1 = 1, the second with Task2 = 2 and an
   * error; the third is then Queued and sees both inputs and the error.
   */
  method DependenciesScenario() returns (state: State, inputs: map<string, int>, failed: set<string>)
    ensures state == Queued && inputs == map["Task1" := 1, "Task2" := 2] && failed == {"Task2"}
  {
    var registry := CreateFirst();
    CreateSecond(registry);
    CreateDependant(registry);
    FinishFirst(registry);
    FinishSecond(registry);
    state := registry.tasks[2].state;
    inputs := registry.tasks[2].inputs;
    failed := registry.tasks[2].inputsError.Keys;
  }

  /** The failure the second task throws. */
  const Invalid := TaskError("NSPOSIXErrorDomain", 22)

  /** Task1 is created without dependencies and is Queued at once. */
  method CreateFirst() returns (registry: TaskRegistry)
    ensures fresh(registry) && registry.Valid()
    ensures registry.tasks == [Task("Task1", map[], map[], map[], [], 0, Queued, None)]
  {
    registry := new TaskRegistry();
    ghost var none := registry.tasks;
    var t1 := registry.Create("Task1", []);
    assert t1 == 0 && |registry.tasks| == 1;
    assert IncompleteCount(none, []) == 0 && RegisteredInputs(none, []) == map[] && RegisteredErrors(none, []) == map[];
    assert registry.tasks[0] == Task("Task1", map[], map[], map[], [], 0, Queued, None);
  }

  /** Task2 is created without dependencies and is Queued at once; Task1 is unchanged. */
  method CreateSecond(registry: TaskRegistry)
    requires registry.Valid()
    requires registry.tasks == [Task("Task1", map[], map[], map[], [], 0, Queued, None)]
    modifies registry
    ensures registry.Valid()
    ensures registry.tasks == [Task("Task1", map[], map[], map[], [], 0, Queued, None),
                               Task("Task2", map[], map[], map[], [], 0, Queued, None)]
  {
    ghost var one := registry.tasks;
    var t2 := registry.Create("Task2", []);
    assert IncompleteCount(one, []) == 0 && RegisteredInputs(one, []) == map[] && RegisteredErrors(one, []) == map[];
    assert Registrations(one, [], 0) == 0 && Repeat(1, 0) == [];
    assert registry.tasks[0] == one[0];
  }

  /** Task depends on both: each lists it as a dependant, and it waits for two. */
  method CreateDependant(registry: TaskRegistry)
    requires registry.Valid()
    requires registry.tasks == [Task("Task1", map[], map[], map[], [], 0, Queued, None),
                                Task("Task2", map[], map[], map[], [], 0, Queued, None)]
    modifies registry
    ensures registry.Valid()
    ensures registry.tasks == [Task("Task1", map[], map[], map[], [2], 0, Queued, None),
                               Task("Task2", map[], map[], map[], [2], 0, Queued, None),
                               Task("Task", map[], map[], map[], [], 2, Initializing, None)]
  {
    ghost var two := registry.tasks;
    var both: seq<nat> := [0, 1];
    assert both[..1] == [0] && both[..1][..0] == [];
    assert IncompleteCount(two, both[..1]) == 1 && IncompleteCount(two, both) == 2;
    assert RegisteredInputs(two, both[..1]) == map[];
    assert RegisteredInputs(two, both) == RegisteredInputs(two, both[..1]);
    assert RegisteredErrors(two, both[..1]) == map[];
    assert RegisteredErrors(two, both) == RegisteredErrors(two, both[..1]);
    assert Registrations(two, both, 0) == 1 && Registrations(two, both, 1) == 1;
    assert Repeat(2, 1) == [2];
    var t3 := registry.Create("Task", both);
  }

  /** Task1 runs and completes: Task receives its output and waits for Task2 only. */
  method FinishFirst(registry: TaskRegistry)
    requires registry.Valid()
    requires registry.tasks == [Task("Task1", map[], map[], map[], [2], 0, Queued, None),
                                Task("Task2", map[], map[], map[], [2], 0, Queued, None),
                                Task("Task", map[], map[], map[], [], 2, Initializing, None)]
    modifies registry
    ensures registry.Valid()
    ensures registry.tasks == [Task("Task1", map[], map[], map["Task1" := 1], [], 0, Completed, None),
                               Task("Task2", map[], map[], map[], [2], 0, Queued, None),
                               Task("Task", map["Task1" := 1], map[], map[], [], 1, Initializing, None)]
  {
    registry.Execute(0, Outcome(map["Task1" := 1], None));
    ghost var ran := registry.tasks;
    registry.Completed(0);
    assert multiset([2])[2] == 1 && multiset([2])[1] == 0;
    assert registry.tasks[0] == Task("Task1", map[], map[], map["Task1" := 1], [], 0, Completed, None);
    assert registry.tasks[1] == ran[1];
    assert registry.tasks[2] == Notified(ran[2], ran[0], 1);
    assert Merged(map[], ran[0]) == map["Task1" := 1];
  }

  /** Task2 runs, throws and completes: Task receives its output and error and is Queued. */
  method FinishSecond(registry: TaskRegistry)
    requires registry.Valid()
    requires registry.tasks == [Task("Task1", map[], map[], map["Task1" := 1], [], 0, Completed, None),
                                Task("Task2", map[], map[], map[], [2], 0, Queued, None),
                                Task("Task", map["Task1" := 1], map[], map[], [], 1, Initializing, None)]
    modifies registry
    ensures registry.Valid() && |registry.tasks| == 3
    ensures registry.tasks[2] == Task("Task", map["Task1" := 1, "Task2" := 2], map["Task2" := Invalid], map[], [], 0, Queued, None)
  {
    registry.Execute(1, Outcome(map["Task2" := 2], Some(Invalid)));
    registry.Completed(1);
    assert multiset([2])[2] == 1;
  }
}
