/** The job tracker of the coordinator (coordinator/job_tracker.py): the
    submitted jobs by name, which job each worker is serving and how many
    workers each job holds, and the choice of the next task for a free
    worker — from the job holding the fewest workers for its batch size and
    model speed. The completion listener is a log of the jobs it was handed;
    timing and the statistics getters are not modelled. */
module CoordinatorJobTracker {
  import opened Wrappers
  import opened GroupNode
  import opened CoordinatorJob

  /** `avg_runtime`: the hard-coded relative run time of each model. */
  function AvgRuntime(modelName: string): (r: Option<int>)
    ensures r.Some? <==> modelName == "AlexNet" || modelName == "ResNet"
    ensures r.Some? ==> r.value > 0
  {
    if modelName == "AlexNet" then Some(2)
    else if modelName == "ResNet" then Some(1)
    else None
  }

  /** Python's `<` on strings: code point by code point, a proper prefix
      first. */
  predicate StrLt(a: string, b: string)
    decreases |a|
  {
    if a == [] then b != []
    else b != [] && (a[0] < b[0] || (a[0] == b[0] && StrLt(a[1..], b[1..])))
  }

  lemma {:induction false} StrLtIrreflexive(a: string)
    ensures !StrLt(a, a)
    decreases |a|
  {
    if a != [] {
      StrLtIrreflexive(a[1..]);
    }
  }

  lemma {:induction false} StrLtTransitive(a: string, b: string, c: string)
    requires StrLt(a, b) && StrLt(b, c)
    ensures StrLt(a, c)
    decreases |a|
  {
    if a != [] && a[0] == b[0] && b[0] == c[0] {
      StrLtTransitive(a[1..], b[1..], c[1..]);
    }
  }

  lemma {:induction false} StrLtTotal(a: string, b: string)
    requires a != b
    ensures StrLt(a, b) || StrLt(b, a)
    decreases |a|
  {
    if a != [] && b != [] && a[0] == b[0] {
      assert a == [a[0]] + a[1..] && b == [b[0]] + b[1..];
      StrLtTotal(a[1..], b[1..]);
    }
  }

  /** The order of `weighted_resouces.sort()` on `(possession, job_name)`
      pairs: by possession, then by name. */
  predicate Precedes(w1: real, n1: string, w2: real, n2: string)
  {
    w1 < w2 || (w1 == w2 && StrLt(n1, n2))
  }

  /** The order is a strict total order on pairs with distinct names. */
  lemma PrecedesOrder(w1: real, n1: string, w2: real, n2: string, w3: real, n3: string)
    ensures !Precedes(w1, n1, w1, n1)
    ensures Precedes(w1, n1, w2, n2) && Precedes(w2, n2, w3, n3) ==> Precedes(w1, n1, w3, n3)
    ensures n1 != n2 ==> Precedes(w1, n1, w2, n2) || Precedes(w2, n2, w1, n1)
  {
    StrLtIrreflexive(n1);
    if Precedes(w1, n1, w2, n2) && Precedes(w2, n2, w3, n3) && w1 == w2 && w2 == w3 {
      StrLtTransitive(n1, n2, n3);
    }
    if n1 != n2 {
      StrLtTotal(n1, n2);
    }
  }

  class JobTracker {
    var jobs: map<string, Job>
    /** Which job each worker serves, keyed by the worker's identity. */
    var resourceDists: map<string, string>
    var resourceNums: map<string, int>
    /** Every job handed to the completion listener, oldest first. */
    var completed: seq<Job>

    /** Every job is registered under its own name and keeps its own
        invariant; distinct names therefore hold distinct jobs. */
    ghost predicate Valid()
      reads this, jobs.Values
    {
      forall n :: n in jobs ==> jobs[n].jobName == n && jobs[n].Valid()
    }

    /** The job registered under `name`, as a frame. */
    function JobNamed(name: string): set<Job>
      reads this
    {
      if name in jobs then {jobs[name]} else {}
    }

    constructor ()
      ensures jobs == map[] && resourceDists == map[] && resourceNums == map[] && completed == []
      ensures Valid()
    {
      jobs := map[];
      resourceDists := map[];
      resourceNums := map[];
      completed := [];
    }

    /** `cal_resource_possesion`: the job's worker count over its batch size
        times its model's run time. A name not submitted, a model without a
        run time and a zero divisor raise. */
    function CalResourcePossession(name: string): (r: (Status, real))
      reads this
      ensures r.0 == Ok || r.0 == KeyError || r.0 == ZeroDivisionError
      ensures r.0 == Ok <==> && name in jobs && name in resourceNums
                             && AvgRuntime(jobs[name].modelName).Some?
                             && jobs[name].batchSize != 0
      ensures r.0 == ZeroDivisionError <==> && name in jobs && name in resourceNums
                                            && AvgRuntime(jobs[name].modelName).Some?
                                            && jobs[name].batchSize == 0
      ensures r.0 == Ok ==>
                r.1 * ((jobs[name].batchSize * AvgRuntime(jobs[name].modelName).value) as real)
                == resourceNums[name] as real
    {
      if name !in jobs || name !in resourceNums then (KeyError, 0.0)
      else
        match AvgRuntime(jobs[name].modelName)
        case None => (KeyError, 0.0)
        case Some(avg) =>
          var d := jobs[name].batchSize * avg;
          if d == 0 then (ZeroDivisionError, 0.0)
          else (Ok, resourceNums[name] as real / d as real)
    }

    /** True when `best` is where `get_task` stops: a job with a remaining
        task that comes first, in the sorted order, among all such jobs. */
    ghost predicate FirstWithTask(best: string)
      reads this, jobs.Values
    {
      && best in jobs && jobs[best].remainingTasks != []
      && CalResourcePossession(best).0 == Ok
      && forall n :: n in jobs && n != best && jobs[n].remainingTasks != [] && CalResourcePossession(n).0 == Ok ==>
           Precedes(CalResourcePossession(best).1, best, CalResourcePossession(n).1, n)
    }

    /** What the scan of `get_task` knows after weighing the jobs in
        `done`: each weighed without raising, and `best` is the first of
        them, in the sorted order, that has a remaining task. */
    ghost predicate Scanned(done: set<string>, best: Option<string>, bestWeight: real)
      reads this, jobs.Values
    {
      && done <= jobs.Keys
      && (forall n :: n in done ==> CalResourcePossession(n).0 == Ok)
      && (best.None? ==> forall n :: n in done ==> jobs[n].remainingTasks == [])
      && (best.Some? ==> && best.value in done && jobs[best.value].remainingTasks != []
                         && bestWeight == CalResourcePossession(best.value).1
                         && forall n :: n in done && n != best.value && jobs[n].remainingTasks != [] ==>
                              Precedes(bestWeight, best.value, CalResourcePossession(n).1, n))
    }

    /** `get_task`: weigh every job, sort, and return the first remaining
        task of the first job in that order that has one. Taking the least
        job with a task is the same as sorting and scanning, since the names
        make the order total. Weighing any job can raise. */
    method GetTask() returns (status: Status, task: Option<Task>)
      ensures status != Ok <==> exists n :: n in jobs && CalResourcePossession(n).0 != Ok
      ensures status == Ok && task.None? ==> forall n :: n in jobs ==> jobs[n].remainingTasks == []
      ensures status == Ok && task.Some? ==>
                exists best :: FirstWithTask(best) && task.value == jobs[best].remainingTasks[0]
    {
      var best;
      status, best := Scan();
      if status != Ok || best.None? {
        return status, None;
      }
      assert FirstWithTask(best.value);
      task := jobs[best.value].GetTask();
    }

    /** The weighing loop of `get_task`, over the jobs in any order; it
        stops at the first job that raises. */
    method Scan() returns (status: Status, best: Option<string>)
      ensures status != Ok ==> exists n :: n in jobs && CalResourcePossession(n).0 != Ok
      ensures status == Ok ==> Scanned(jobs.Keys, best, if best.Some? then CalResourcePossession(best.value).1 else 0.0)
    {
      var todo := jobs.Keys;
      ghost var done: set<string> := {};
      best := None;
      var bestWeight := 0.0;
      while todo != {}
        invariant todo !! done && todo + done == jobs.Keys
        invariant Scanned(done, best, bestWeight)
        decreases |todo|
      {
        var name :| name in todo;
        status, best, bestWeight := Weigh(name, done, best, bestWeight);
        if status != Ok {
          return;
        }
        todo, done := todo - {name}, done + {name};
      }
      status := Ok;
    }

    /** One job of the scan: its weight, and whether it comes before the
        best job so far. */
    method Weigh(name: string, ghost done: set<string>, best: Option<string>, bestWeight: real)
        returns (status: Status, best': Option<string>, bestWeight': real)
      requires name in jobs && name !in done && Scanned(done, best, bestWeight)
      ensures status == CalResourcePossession(name).0
      ensures status == Ok ==> Scanned(done + {name}, best', bestWeight')
    {
      var weight := CalResourcePossession(name);
      status, best', bestWeight' := weight.0, best, bestWeight;
      if weight.0 != Ok || jobs[name].GetTask().None? {
        return;
      }
      if best.None? {
        return Ok, Some(name), weight.1;
      }
      if Precedes(weight.1, name, bestWeight, best.value) {
        forall n | n in done && n != best.value && jobs[n].remainingTasks != []
          ensures Precedes(weight.1, name, CalResourcePossession(n).1, n)
        {
          PrecedesOrder(weight.1, name, bestWeight, best.value, CalResourcePossession(n).1, n);
        }
        best', bestWeight' := Some(name), weight.1;
      } else {
        PrecedesOrder(bestWeight, best.value, weight.1, name, 0.0, "");
      }
    }

    /** `remove_resource`: a worker not serving any job is ignored.
        Otherwise its job's count drops by one (when the job has a count),
        the worker is unmapped and its task is requeued in the job, which
        raises as `Job.remove_resource` does, after the tracker's own
        changes. */
    method RemoveResource(resource: Node) returns (status: Status)
      requires Valid()
      modifies this, if Id(resource) in resourceDists then JobNamed(resourceDists[Id(resource)]) else {}
      ensures Valid()
      ensures jobs == old(jobs) && completed == old(completed)
      ensures Id(resource) !in old(resourceDists) ==> status == Ok && unchanged(this)
      ensures Id(resource) in old(resourceDists) ==>
                var name := old(resourceDists)[Id(resource)];
                && resourceDists == old(resourceDists) - {Id(resource)}
                && resourceNums == (if name in old(resourceNums)
                                    then old(resourceNums)[name := old(resourceNums)[name] - 1]
                                    else old(resourceNums))
                && (name !in jobs ==> status == KeyError)
                && (name in jobs ==>
                      (jobs[name].State(), status) == RemoveResourceSpec(old(jobs[name].State()), resource))
    {
      if Id(resource) !in resourceDists {
        return Ok;
      }
      var jobName := resourceDists[Id(resource)];
      if jobName in resourceNums {
        resourceNums := resourceNums[jobName := resourceNums[jobName] - 1];
      }
      resourceDists := resourceDists - {Id(resource)};
      if jobName !in jobs {
        return KeyError;
      }
      var job := jobs[jobName];
      status := job.RemoveResource(resource);
    }

    /** `sumbit_job`: register the job under its name, replacing any job of
        that name, with no workers. `contain_job` then holds for the name. */
    method SumbitJob(job: Job)
      requires Valid() && job.Valid()
      modifies this
      ensures Valid()
      ensures jobs == old(jobs)[job.jobName := job]
      ensures resourceNums == old(resourceNums)[job.jobName := 0]
      ensures resourceDists == old(resourceDists) && completed == old(completed)
      ensures ContainJob(job.jobName)
    {
      jobs := jobs[job.jobName := job];
      resourceNums := resourceNums[job.jobName := 0];
    }

    /** `allocate_resource`: one more worker for the task's job, the worker
        mapped to the job, and the job's `process_task`. A job without a
        count raises before anything changes; a job that is not submitted
        raises after the count and the mapping have changed. */
    method AllocateResource(task: Task, resource: Node) returns (status: Status)
      requires Valid()
      modifies this, JobNamed(task.jobName)
      ensures Valid()
      ensures jobs == old(jobs) && completed == old(completed)
      ensures task.jobName !in old(resourceNums) ==> status == KeyError && unchanged(this)
      ensures task.jobName in old(resourceNums) ==>
                && resourceNums == old(resourceNums)[task.jobName := old(resourceNums)[task.jobName] + 1]
                && resourceDists == old(resourceDists)[Id(resource) := task.jobName]
                && (task.jobName !in jobs ==> status == KeyError)
      ensures task.jobName in old(resourceNums) && task.jobName in jobs ==>
                (jobs[task.jobName].State(), status)
                == ProcessSpec(old(jobs[task.jobName].State()), jobs[task.jobName].numTask.Some?, task, resource)
    {
      if task.jobName !in resourceNums {
        return KeyError;
      }
      resourceNums := resourceNums[task.jobName := resourceNums[task.jobName] + 1];
      resourceDists := resourceDists[Id(resource) := task.jobName];
      if task.jobName !in jobs {
        return KeyError;
      }
      var job := jobs[task.jobName];
      status := job.ProcessTask(task, resource);
    }

    /** `receive_result`: the job takes the result, the worker is unmapped,
        the job's count drops by one — whether or not the job accepted the
        result — and the listener is handed the job exactly when it is
        completed afterwards. */
    method ReceiveResult(workNode: Node, task: Task, result: seq<string>) returns (status: Status, notified: bool)
      requires Valid()
      modifies this, JobNamed(task.jobName)
      ensures Valid()
      ensures jobs == old(jobs)
      ensures task.jobName !in old(jobs) ==> status == KeyError && !notified && unchanged(this)
      ensures task.jobName in old(jobs) ==>
                var job := jobs[task.jobName];
                && job.State() == ReceiveSpec(old(job.State()), job.numTask, workNode, task, result).0
                && resourceDists == old(resourceDists) - {Id(workNode)}
                && (task.jobName !in old(resourceNums) ==> status == KeyError && resourceNums == old(resourceNums))
                && (task.jobName in old(resourceNums) ==>
                      status == Ok
                      && resourceNums == old(resourceNums)[task.jobName := old(resourceNums)[task.jobName] - 1])
                && (notified <==> status == Ok && job.isCompleted)
                && completed == old(completed) + (if notified then [job] else [])
    {
      if task.jobName !in jobs {
        return KeyError, false;
      }
      var job := jobs[task.jobName];
      var accepted := job.ReceiveResult(workNode, task, result);
      status := Release(workNode, task.jobName);
      notified := status == Ok && job.isCompleted;
      if notified {
        completed := completed + [job];
      }
    }

    /** The bookkeeping of `receive_result` once the job has the result:
        unmap the worker if it is mapped, and take one worker off the job's
        count, which raises when the job has no count. */
    method Release(workNode: Node, jobName: string) returns (status: Status)
      modifies this`resourceDists, this`resourceNums
      ensures resourceDists == old(resourceDists) - {Id(workNode)}
      ensures jobName !in old(resourceNums) ==> status == KeyError && resourceNums == old(resourceNums)
      ensures jobName in old(resourceNums) ==>
                status == Ok && resourceNums == old(resourceNums)[jobName := old(resourceNums)[jobName] - 1]
    {
      if Id(workNode) in resourceDists {
        resourceDists := resourceDists - {Id(workNode)};
      } else {
        assert resourceDists == resourceDists - {Id(workNode)};
      }
      if jobName !in resourceNums {
        return KeyError;
      }
      resourceNums := resourceNums[jobName := resourceNums[jobName] - 1];
      status := Ok;
    }

    /** `contain_job`. */
    predicate ContainJob(jobName: string)
      reads this
      ensures !ContainJob(jobName) ==> CalResourcePossession(jobName).0 == KeyError
    {
      jobName in jobs
    }
  }
}
