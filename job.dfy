/** A batch inference job (coordinator/job.py): its data set cut into tasks
    of `batch_size` items, and the three task lists a task moves through —
    remaining, processed (handed to a worker) and completed — with the
    worker each processed task was handed to. Timing, statistics and the
    file system handle are not modelled. */
module CoordinatorJob {
  import opened Wrappers
  import opened Decimal
  import opened GroupNode
  import opened KeyedLists

  /** What an operation of the coordinator raised, if anything. */
  datatype Status = Ok | KeyError | ValueError | AttributeError | ZeroDivisionError

  /** A task: the slice of the data set with id `taskId` of one job. */
  datatype Task = Task(jobName: string, modelName: string, taskId: int, dataSet: seq<string>)

  /** `str(task)`: what `==`, `in` and `list.remove` compare tasks by. */
  function TaskKey(t: Task): string
  {
    t.jobName + IntToString(t.taskId)
  }

  lemma PrefixCancel(p: string, a: string, b: string)
    requires p + a == p + b
    ensures a == b
  {
    assert a == (p + a)[|p|..];
    assert b == (p + b)[|p|..];
  }

  /** Within one job, two tasks are equal exactly when their ids are. */
  lemma TaskKeySameJob(a: Task, b: Task)
    requires a.jobName == b.jobName
    ensures TaskKey(a) == TaskKey(b) <==> a.taskId == b.taskId
  {
    if TaskKey(a) == TaskKey(b) {
      PrefixCancel(a.jobName, IntToString(a.taskId), IntToString(b.taskId));
      IntToStringInjective(a.taskId, b.taskId);
    }
  }

  /** Across jobs the key can collide: task 11 of job `a` equals task 1 of
      job `a1`. */
  lemma TaskKeyCollision()
    ensures Task("a", "m", 11, []) != Task("a1", "m", 1, [])
    ensures TaskKey(Task("a", "m", 11, [])) == TaskKey(Task("a1", "m", 1, []))
  {
    assert NatToString(1) == "1";
    assert NatToString(11) == NatToString(1) + [DigitChar(1)];
  }

  /** `math.ceil(len(data_set) / batch_size)`. */
  function NumTask(n: nat, batchSize: int): int
    requires batchSize != 0
  {
    if batchSize > 0 then (n + batchSize - 1) / batchSize else -(n / -batchSize)
  }

  /** `NumTask` is the ceiling of the quotient: the least `k` with
      `k * batchSize >= n` for a positive batch size, the least `k` with
      `k * batchSize <= n` for a negative one. */
  lemma NumTaskIsCeil(n: nat, batchSize: int)
    requires batchSize != 0
    ensures var k := NumTask(n, batchSize);
            if batchSize > 0 then (k - 1) * batchSize < n <= k * batchSize
            else k * batchSize <= n < (k - 1) * batchSize
  {
    var k := NumTask(n, batchSize);
    if batchSize > 0 {
      var m := n + batchSize - 1;
      assert m == batchSize * (m / batchSize) + m % batchSize;
      assert (k - 1) * batchSize == k * batchSize - batchSize;
    } else {
      var b := -batchSize;
      assert n == b * (n / b) + n % b;
      assert k * batchSize == (n / b) * b;
      assert (k - 1) * batchSize == k * batchSize + b;
    }
  }

  function Min(a: int, b: int): int
  {
    if a < b then a else b
  }

  /** Task `i` of `prepare`: items `i * batchSize` up to the next multiple,
      clipped to the data set. */
  function TaskAt(jobName: string, modelName: string, dataSet: seq<string>, batchSize: int, i: nat): Task
    requires batchSize > 0
  {
    Task(jobName, modelName, i, dataSet[Min(i * batchSize, |dataSet|)..Min(i * batchSize + batchSize, |dataSet|)])
  }

  /** The tasks `prepare` appends, in id order; none for a negative batch
      size, whose task count is not positive. */
  function PreparedTasks(jobName: string, modelName: string, dataSet: seq<string>, batchSize: int): (ts: seq<Task>)
    requires batchSize != 0
    ensures |ts| == if batchSize > 0 then NumTask(|dataSet|, batchSize) else 0
  {
    if batchSize < 0 then []
    else
      var k := NumTask(|dataSet|, batchSize);
      seq(k, i requires 0 <= i < k => TaskAt(jobName, modelName, dataSet, batchSize, i))
  }

  /** A negative batch size yields a task count that is not positive, so
      `range(num_task)` is empty. */
  lemma NegativeBatchNoTasks(n: nat, batchSize: int)
    requires batchSize < 0
    ensures NumTask(n, batchSize) <= 0
  {
  }

  /** The items of the tasks, one after the other. */
  function Items(ts: seq<Task>): seq<string>
  {
    if ts == [] then [] else Items(ts[..|ts| - 1]) + ts[|ts| - 1].dataSet
  }

  lemma MulStep(j: int, b: int)
    ensures (j + 1) * b == j * b + b
  {
  }

  lemma MulMono(x: int, y: int, b: int)
    requires 0 <= x <= y && b > 0
    ensures x * b <= y * b
  {
    assert y * b - x * b == (y - x) * b;
  }

  /** The tasks hold consecutive `batchSize`-long slices of the data set. */
  ghost predicate Batched(ts: seq<Task>, dataSet: seq<string>, batchSize: int)
  {
    batchSize > 0 &&
    forall i :: 0 <= i < |ts| ==>
      ts[i].dataSet == dataSet[Min(i * batchSize, |dataSet|)..Min(i * batchSize + batchSize, |dataSet|)]
  }

  lemma {:induction false} ItemsPrefix(ts: seq<Task>, dataSet: seq<string>, batchSize: int, j: nat)
    requires batchSize > 0 && j <= |ts| && Batched(ts, dataSet, batchSize)
    ensures Items(ts[..j]) == dataSet[..Min(j * batchSize, |dataSet|)]
  {
    if j == 0 {
      assert ts[..0] == [];
    } else {
      ItemsPrefix(ts, dataSet, batchSize, j - 1);
      assert ts[..j][..j - 1] == ts[..j - 1];
      MulStep(j - 1, batchSize);
      SliceBounds(j - 1, batchSize, |dataSet|);
      var lo := Min((j - 1) * batchSize, |dataSet|);
      var hi := Min(j * batchSize, |dataSet|);
      assert ts[j - 1].dataSet == dataSet[lo..hi];
      TakeConcat(dataSet, lo, hi);
    }
  }

  lemma SliceBounds(i: nat, b: int, n: nat)
    requires b > 0
    ensures 0 <= Min(i * b, n) <= Min(i * b + b, n) <= n
  {
    MulMono(0, i, b);
  }

  lemma TakeConcat<T>(s: seq<T>, lo: int, hi: int)
    requires 0 <= lo <= hi <= |s|
    ensures s[..lo] + s[lo..hi] == s[..hi]
  {
  }

  /** `prepare` partitions the data set: its tasks' items, in id order, are
      exactly the data set. */
  lemma PreparedCoverData(jobName: string, modelName: string, dataSet: seq<string>, batchSize: int)
    requires batchSize > 0
    ensures Items(PreparedTasks(jobName, modelName, dataSet, batchSize)) == dataSet
  {
    var ts := PreparedTasks(jobName, modelName, dataSet, batchSize);
    ItemsPrefix(ts, dataSet, batchSize, |ts|);
    NumTaskIsCeil(|dataSet|, batchSize);
    assert ts[..|ts|] == ts;
  }

  /** Task `i` has id `i` and belongs to the job; every task holds exactly
      `batchSize` items except the last, which holds between one and
      `batchSize`. */
  lemma PreparedShape(jobName: string, modelName: string, dataSet: seq<string>, batchSize: int, i: int)
    requires batchSize > 0 && 0 <= i < |PreparedTasks(jobName, modelName, dataSet, batchSize)|
    ensures var ts := PreparedTasks(jobName, modelName, dataSet, batchSize);
            && ts[i].taskId == i && ts[i].jobName == jobName && ts[i].modelName == modelName
            && 0 < |ts[i].dataSet| <= batchSize
            && (i < |ts| - 1 ==> |ts[i].dataSet| == batchSize)
  {
    var k := NumTask(|dataSet|, batchSize);
    NumTaskIsCeil(|dataSet|, batchSize);
    MulMono(i, k - 1, batchSize);
    MulStep(i, batchSize);
    if i < k - 1 {
      MulMono(i + 1, k - 1, batchSize);
    }
  }

  /** The part of a job that its operations change: the three task lists,
      the worker assignments, the collected results and the completion
      flag. */
  datatype Progress = Progress(remaining: seq<Task>, processed: seq<Task>, completed: seq<Task>,
                               assignment: map<string, Task>, jobResult: seq<string>, isCompleted: bool)

  /** The number of tasks in the three lists together. */
  function Count(s: Progress): nat
  {
    |s.remaining| + |s.processed| + |s.completed|
  }

  /** `task in ts`, by key. */
  predicate HasTask(ts: seq<Task>, task: Task)
  {
    TaskKey(task) in KeysOf(TaskKey, ts)
  }

  /** `ts.remove(task)`: the first entry equal to `task` is dropped. */
  function RemoveTask(ts: seq<Task>, task: Task): (r: seq<Task>)
    requires HasTask(ts, task)
    ensures |r| == |ts| - 1
    ensures exists p :: && 0 <= p < |ts| && TaskKey(ts[p]) == TaskKey(task)
                        && (forall j :: 0 <= j < p ==> TaskKey(ts[j]) != TaskKey(task))
                        && r == ts[..p] + ts[p + 1..]
  {
    var p := PosOf(TaskKey, ts, TaskKey(task));
    assert RemoveAt(ts, p) == ts[..p] + ts[p + 1..];
    RemoveAt(ts, p)
  }

  /** `process_task` on the job's progress; `hasNumTask` says whether the
      attribute `num_task` exists. */
  function ProcessSpec(s: Progress, hasNumTask: bool, task: Task, resource: Node): (r: (Progress, Status))
    ensures !hasNumTask ==> r == (s, AttributeError)
    ensures hasNumTask && !HasTask(s.remaining, task) ==> r == (s, ValueError)
    ensures r.1 == Ok <==> hasNumTask && HasTask(s.remaining, task)
    ensures r.1 == Ok ==>
              && r.0.remaining == RemoveTask(s.remaining, task)
              && r.0.processed == s.processed + [task]
              && r.0.assignment == s.assignment[Id(resource) := task]
              && r.0.completed == s.completed && r.0.jobResult == s.jobResult
              && r.0.isCompleted == s.isCompleted
    ensures Count(r.0) == Count(s)
  {
    if !hasNumTask then (s, AttributeError)
    else if !HasTask(s.remaining, task) then (s, ValueError)
    else
      (s.(remaining := RemoveTask(s.remaining, task),
          processed := s.processed + [task],
          assignment := s.assignment[Id(resource) := task]), Ok)
  }

  /** `remove_resource` on the job's progress. */
  function RemoveResourceSpec(s: Progress, resource: Node): (r: (Progress, Status))
    ensures Id(resource) !in s.assignment ==> r == (s, KeyError)
    ensures Id(resource) in s.assignment && !HasTask(s.processed, s.assignment[Id(resource)]) ==> r == (s, ValueError)
    ensures r.1 == Ok <==> Id(resource) in s.assignment && HasTask(s.processed, s.assignment[Id(resource)])
    ensures r.1 == Ok ==>
              && r.0.processed == RemoveTask(s.processed, s.assignment[Id(resource)])
              && r.0.remaining == s.remaining + [s.assignment[Id(resource)]]
              && r.0.assignment == s.assignment
              && r.0.completed == s.completed && r.0.jobResult == s.jobResult
              && r.0.isCompleted == s.isCompleted
    ensures Count(r.0) == Count(s)
  {
    if Id(resource) !in s.assignment then (s, KeyError)
    else
      var task := s.assignment[Id(resource)];
      if !HasTask(s.processed, task) then (s, ValueError)
      else (s.(processed := RemoveTask(s.processed, task), remaining := s.remaining + [task]), Ok)
  }

  /** `receive_result` on the job's progress. */
  function ReceiveSpec(s: Progress, numTask: Option<int>, workNode: Node, task: Task, result: seq<string>): (r: (Progress, bool))
    ensures r.1 <==> HasTask(s.processed, task)
    ensures !r.1 ==> r.0 == s
    ensures r.1 ==>
              && r.0.processed == RemoveTask(s.processed, task)
              && r.0.completed == s.completed + [task]
              && r.0.jobResult == s.jobResult + result
              && r.0.assignment == s.assignment - {Id(workNode)}
              && r.0.remaining == s.remaining
    ensures r.1 ==>
              (r.0.isCompleted <==> s.isCompleted
                                    || (r.0.processed == [] && r.0.remaining == [] && numTask == Some(|r.0.completed|)))
    ensures Count(r.0) == Count(s)
  {
    if !HasTask(s.processed, task) then (s, false)
    else
      var processed := RemoveTask(s.processed, task);
      var completed := s.completed + [task];
      var done := processed == [] && s.remaining == [] && numTask == Some(|completed|);
      (s.(processed := processed, completed := completed, jobResult := s.jobResult + result,
          assignment := s.assignment - {Id(workNode)}, isCompleted := s.isCompleted || done), true)
  }

  lemma RemoveAbsent<V>(m: map<string, V>, k: string)
    requires k !in m
    ensures m - {k} == m
  {
    assert (m - {k}).Keys == m.Keys;
  }

  /** A job. The metadata and `num_task` are set once, by the constructor;
      `numTask` is `None` where the attribute `num_task` does not exist,
      which is the case for a job that fails `validate`. */
  class Job {
    const jobName: string
    const modelName: string
    const batchSize: int
    const dataSet: seq<string>
    var completedTasks: seq<Task>
    var processedTasks: seq<Task>
    var remainingTasks: seq<Task>
    /** Keyed by the worker's identity string, as a dict keyed by `Node` is. */
    var resourceAssignment: map<string, Task>
    var jobResult: seq<string>
    var isCompleted: bool
    const numTask: Option<int>

    ghost function State(): Progress
      reads this
    {
      Progress(remainingTasks, processedTasks, completedTasks, resourceAssignment, jobResult, isCompleted)
    }

    /** The job's invariant: `num_task` exists exactly for a job that passed
        `validate`, and tasks are neither created nor lost after `prepare`. */
    ghost predicate Valid()
      reads this
    {
      && batchSize != 0
      && (numTask.Some? <==> Validate())
      && Count(State()) == (if numTask.Some? && batchSize > 0 then numTask.value else 0)
    }

    /** `validate`: the batch is no larger than the data set. */
    predicate Validate()
      reads this
      ensures batchSize < 0 ==> Validate()
      ensures Validate() && batchSize > 0 ==> NumTask(|dataSet|, batchSize) >= 1
    {
      batchSize <= |dataSet|
    }

    /** `Job(fs, (job_name, data_set, model_name, batch_size), sender)`. A
        zero batch size always passes `validate` and then divides by zero in
        `prepare`, so it is excluded. */
    constructor (jobName: string, dataSet: seq<string>, modelName: string, batchSize: int)
      requires batchSize != 0
      ensures this.jobName == jobName && this.dataSet == dataSet
      ensures this.modelName == modelName && this.batchSize == batchSize
      ensures completedTasks == [] && processedTasks == [] && resourceAssignment == map[]
      ensures jobResult == [] && !isCompleted
      ensures numTask.Some? <==> batchSize <= |dataSet|
      ensures numTask.Some? ==> numTask.value == NumTask(|dataSet|, batchSize)
      ensures remainingTasks == if numTask.Some? then PreparedTasks(jobName, modelName, dataSet, batchSize) else []
      ensures Valid()
    {
      this.jobName := jobName;
      this.modelName := modelName;
      this.batchSize := batchSize;
      this.dataSet := dataSet;
      completedTasks := [];
      processedTasks := [];
      remainingTasks := [];
      resourceAssignment := map[];
      jobResult := [];
      isCompleted := false;
      numTask := if batchSize <= |dataSet| then Some(NumTask(|dataSet|, batchSize)) else None;
      new;
      if Validate() {
        var n := Prepare();
        assert numTask == Some(n);
      }
    }

    /** `prepare`: append `ceil(len / batch_size)` tasks, advancing a
        cursor over the data set. */
    method Prepare() returns (numTask: int)
      requires batchSize != 0
      modifies this`remainingTasks
      ensures numTask == NumTask(|dataSet|, batchSize)
      ensures remainingTasks == old(remainingTasks) + PreparedTasks(jobName, modelName, dataSet, batchSize)
    {
      numTask := NumTask(|dataSet|, batchSize);
      var cursor := 0;
      var taskId := 0;
      if batchSize < 0 {
        NegativeBatchNoTasks(|dataSet|, batchSize);
      }
      ghost var tasks := PreparedTasks(jobName, modelName, dataSet, batchSize);
      while taskId < numTask
        invariant 0 <= taskId <= |tasks| && (batchSize > 0 || taskId == 0)
        invariant batchSize > 0 ==> cursor == Min(taskId * batchSize, |dataSet|)
        invariant remainingTasks == old(remainingTasks) + tasks[..taskId]
      {
        MulStep(taskId, batchSize);
        var dataSize := Min(batchSize, |dataSet| - cursor);
        var task := Task(jobName, modelName, taskId, dataSet[cursor..cursor + dataSize]);
        assert task == tasks[taskId];
        assert tasks[..taskId + 1] == tasks[..taskId] + [task];
        remainingTasks := remainingTasks + [task];
        cursor := cursor + dataSize;
        taskId := taskId + 1;
      }
      assert tasks[..taskId] == tasks;
    }

    /** `get_task`: the first remaining task, if any; nothing changes. */
    function GetTask(): (t: Option<Task>)
      reads this
      ensures t.Some? <==> |remainingTasks| > 0
      ensures t.Some? ==> t.value == remainingTasks[0] && t.value in remainingTasks
    {
      if |remainingTasks| == 0 then None else Some(remainingTasks[0])
    }

    /** `process_task`: take the task off the remaining list (its first
        equal entry), append it to the processed list and assign it to the
        worker. Reading `num_task` raises when the attribute is missing; a
        task not remaining makes `remove` raise; neither changes anything. */
    method ProcessTask(task: Task, resource: Node) returns (status: Status)
      requires Valid()
      modifies this
      ensures Valid()
      ensures (State(), status) == ProcessSpec(old(State()), numTask.Some?, task, resource)
    {
      if numTask.None? {
        return AttributeError;
      }
      if !HasTask(remainingTasks, task) {
        return ValueError;
      }
      remainingTasks := RemoveTask(remainingTasks, task);
      processedTasks := processedTasks + [task];
      resourceAssignment := resourceAssignment[Id(resource) := task];
      status := Ok;
    }

    /** `remove_resource`: put the worker's task back at the end of the
        remaining list. An unassigned worker raises KeyError and a task no
        longer processed raises ValueError, with nothing changed. The
        assignment itself stays. */
    method RemoveResource(resource: Node) returns (status: Status)
      requires Valid()
      modifies this
      ensures Valid()
      ensures (State(), status) == RemoveResourceSpec(old(State()), resource)
    {
      if Id(resource) !in resourceAssignment {
        return KeyError;
      }
      var task := resourceAssignment[Id(resource)];
      if !HasTask(processedTasks, task) {
        return ValueError;
      }
      processedTasks := RemoveTask(processedTasks, task);
      remainingTasks := remainingTasks + [task];
      status := Ok;
    }

    /** `receive_result`: when the task is being processed, it moves to the
        completed list, its result is appended to the job's and the worker's
        assignment is dropped; the job is marked completed once nothing is
        remaining or processed and every task has completed. A result for a
        task not being processed changes nothing. */
    method ReceiveResult(workNode: Node, task: Task, result: seq<string>) returns (accepted: bool)
      requires Valid()
      modifies this
      ensures Valid()
      ensures (State(), accepted) == ReceiveSpec(old(State()), numTask, workNode, task, result)
    {
      ghost var spec := ReceiveSpec(State(), numTask, workNode, task, result);
      if !HasTask(processedTasks, task) {
        return false;
      }
      processedTasks := RemoveTask(processedTasks, task);
      completedTasks := completedTasks + [task];
      jobResult := jobResult + result;
      if Id(workNode) in resourceAssignment {
        resourceAssignment := resourceAssignment - {Id(workNode)};
      } else {
        RemoveAbsent(resourceAssignment, Id(workNode));
      }
      if |processedTasks| == 0 && |remainingTasks| == 0 && numTask == Some(|completedTasks|) {
        isCompleted := true;
      }
      accepted := true;
      assert State() == spec.0;
    }

    /** In a valid job with a positive batch size, once nothing is remaining
        or processed, every task has completed, so the completion test of
        `receive_result` cannot miss the last result. */
    lemma AllDoneMeansCompleted()
      requires Valid() && batchSize > 0 && numTask.Some?
      requires remainingTasks == [] && processedTasks == []
      ensures numTask == Some(|completedTasks|)
    {
    }
  }
}
