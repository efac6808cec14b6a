/**
 * The command side: `add_task`, `remove_task`, `list_tasks` and the
 * reconciler `load_and_schedule_tasks`, over the process-wide state they
 * share: the task file and the live scheduler, which is modelled only as a
 * map from job id to the job it was given. The order in which the commands
 * touch the outside world (saving the file, adding or removing a job) is kept
 * in a ghost log of actions.
 */
module Controller {
  import opened Wrappers
  import opened TaskStore
  import Runner

  /** What `scheduler.add_job` is given: the trigger's interval and unit, and the args of `email_task`. */
  datatype Job = Job(interval: int, unit: Unit, args: Runner.JobArgs)

  /** The job registered for the task `name` with details `d`. */
  function JobFor(name: string, d: TaskDetails): Job
  {
    Job(d.interval, d.unit, Runner.JobArgs(name, d.emailList, d.messageFile, d.subject, d.attachments))
  }

  /** An effect on the outside world: the task file rewritten, a job added, a job removed. */
  datatype Action = Saved(tasks: Store) | Scheduled(id: string, job: Job) | Unscheduled(id: string)

  /** The message `add_task` prints: the duplicate warning, or the new task's name. */
  datatype AddOutcome = AlreadyExists | AddedTask(name: string)

  /** The message `remove_task` prints: not found, removed, or removed though no job was running. */
  datatype RemoveOutcome = NotFound | Removed | RemovedNotRunning

  /** One line of `list_tasks`: the name, the interval and the unit. */
  datatype Summary = Summary(name: string, interval: int, unit: Unit)

  /** What `list_tasks` prints: the "no tasks" warning, or one line per task. */
  datatype Listing = NoTasks | Tasks(lines: seq<Summary>)

  function Summaries(s: Store): seq<Summary>
  {
    seq(|s|, i requires 0 <= i < |s| => Summary(s[i].name, s[i].details.interval, s[i].details.unit))
  }

  /** The jobs the reconciler registers for a store, one `add_job` per entry in order. */
  function JobsOf(s: Store): map<string, Job>
  {
    if s == [] then map[]
    else
      var e := s[|s| - 1];
      JobsOf(s[..|s| - 1])[e.name := JobFor(e.name, e.details)]
  }

  /** The `add_job` calls the reconciler makes, in store order. */
  function Registrations(s: Store): seq<Action>
  {
    seq(|s|, i requires 0 <= i < |s| => Scheduled(s[i].name, JobFor(s[i].name, s[i].details)))
  }

  /** Appending an entry with a fresh name is `tasks[name] = details` on a new key. */
  lemma AppendIsPut(s: Store, e: Entry)
    requires e.name !in Names(s)
    ensures Put(s, e.name, e.details) == s + [e]
    ensures Names(s + [e]) == Names(s) + {e.name}
    ensures Lookup(s + [e], e.name) == Some(e.details)
    ensures forall k :: k != e.name ==> Lookup(s + [e], k) == Lookup(s, k)
  {
    IndexOfInNames(s, e.name);
    PutShape(s, e.name, e.details);
    PutLookup(s, e.name, e.details);
    PutNames(s, e.name, e.details);
  }

  /** With distinct names, the reconciler registers exactly one job per stored task, under its name, with its details. */
  lemma {:induction false} JobsOfStore(s: Store)
    requires UniqueNames(s)
    ensures JobsOf(s).Keys == Names(s)
    ensures forall k :: k in Names(s) ==> Lookup(s, k).Some? && JobsOf(s)[k] == JobFor(k, Lookup(s, k).value)
  {
    if s != [] {
      var init, e := s[..|s| - 1], s[|s| - 1];
      assert s == init + [e];
      assert UniqueNames(init);
      assert e.name !in Names(init);
      JobsOfStore(init);
      AppendIsPut(init, e);
      forall k | k in Names(s)
        ensures Lookup(s, k).Some?
      {
        LookupInNames(s, k);
      }
    }
  }

  /** The state `add_task`, `remove_task`, `list_tasks` and the reconciler share. */
  class Context {
    /** The contents of the task file. */
    var file: TaskFile
    /** The live scheduler: job id to job. */
    var jobs: map<string, Job>
    /** The outside effects so far, in order. */
    ghost var actions: seq<Action>

    /** A JSON object has distinct keys. */
    ghost predicate Valid()
      reads this
    {
      file.Object? ==> UniqueNames(file.tasks)
    }

    constructor (f: TaskFile)
      requires f.Object? ==> UniqueNames(f.tasks)
      ensures Valid()
      ensures file == f && jobs == map[] && actions == []
    {
      file := f;
      jobs := map[];
      actions := [];
    }

    /** The store `load_tasks` reads, with distinct names. */
    lemma LoadedNamesUnique()
      requires Valid()
      ensures UniqueNames(LoadTasks(file))
    {
    }

    /**
     * `add_task`: load, name the task `task_<count+1>`, reject a duplicate of
     * any stored details without touching anything, else store the details
     * under the name, save, and only then add the job with that id.
     */
    method AddTask(interval: int, unit: Unit, emailList: string, messageFile: string, subject: string, attachments: seq<string>)
      returns (outcome: AddOutcome)
      requires Valid()
      modifies this
      ensures Valid()
      ensures var d := TaskDetails(interval, unit, emailList, messageFile, subject, attachments);
        match Add(LoadTasks(old(file)), d)
        case Duplicate =>
          && outcome == AlreadyExists
          && file == old(file) && jobs == old(jobs) && actions == old(actions)
        case Added(name, tasks) =>
          && outcome == AddedTask(name)
          && file == SaveTasks(tasks)
          && jobs == old(jobs)[name := JobFor(name, d)]
          && actions == old(actions) + [Saved(tasks), Scheduled(name, JobFor(name, d))]
    {
      var tasks := LoadTasks(file);
      var name := TaskName(|tasks| + 1);
      var d := TaskDetails(interval, unit, emailList, messageFile, subject, attachments);
      var duplicate := FindDuplicate(tasks, d);
      if duplicate {
        return AlreadyExists;
      }
      LoadedNamesUnique();
      PutKeepsNamesUnique(tasks, name, d);
      tasks := Put(tasks, name, d);
      file := SaveTasks(tasks);
      actions := actions + [Saved(tasks)];
      var job := JobFor(name, d);
      jobs := jobs[name := job];
      actions := actions + [Scheduled(name, job)];
      outcome := AddedTask(name);
    }

    /**
     * `remove_task`: an unknown name changes nothing; a known one is deleted
     * and the store saved, and then its job is removed if there is one (a
     * missing job is reported, not an error).
     */
    method RemoveTask(name: string) returns (outcome: RemoveOutcome)
      requires Valid()
      modifies this
      ensures Valid()
      ensures var tasks := LoadTasks(old(file));
        if name !in Names(tasks) then
          && outcome == NotFound
          && file == old(file) && jobs == old(jobs) && actions == old(actions)
        else
          && outcome == (if name in old(jobs) then Removed else RemovedNotRunning)
          && file == SaveTasks(Delete(tasks, name))
          && jobs == old(jobs) - {name}
          && actions == old(actions) + [Saved(Delete(tasks, name))] +
               (if name in old(jobs) then [Unscheduled(name)] else [])
    {
      var tasks := LoadTasks(file);
      LookupInNames(tasks, name);
      if Lookup(tasks, name).None? {
        return NotFound;
      }
      LoadedNamesUnique();
      DeleteKeepsNamesUnique(tasks, name);
      tasks := Delete(tasks, name);
      file := SaveTasks(tasks);
      actions := actions + [Saved(tasks)];
      if name in jobs {
        jobs := jobs - {name};
        actions := actions + [Unscheduled(name)];
        outcome := Removed;
      } else {
        outcome := RemovedNotRunning;
      }
    }

    /** `list_tasks`: the "no tasks" message for an empty store, else one line per task in store order. */
    method ListTasks() returns (out: Listing)
      ensures LoadTasks(file) == [] <==> out == NoTasks
      ensures out.Tasks? ==> out.lines == Summaries(LoadTasks(file))
    {
      var tasks := LoadTasks(file);
      if tasks == [] {
        return NoTasks;
      }
      var lines: seq<Summary> := [];
      var i := 0;
      while i < |tasks|
        invariant 0 <= i <= |tasks|
        invariant lines == Summaries(tasks[..i])
      {
        lines := lines + [Summary(tasks[i].name, tasks[i].details.interval, tasks[i].details.unit)];
        i := i + 1;
      }
      assert tasks[..i] == tasks;
      out := Tasks(lines);
    }

    /** `load_and_schedule_tasks`: one `add_job` per stored task, in store order, with id = the task's name. */
    method LoadAndScheduleTasks()
      requires Valid()
      modifies this
      ensures Valid()
      ensures file == old(file)
      ensures jobs == old(jobs) + JobsOf(LoadTasks(file))
      ensures actions == old(actions) + Registrations(LoadTasks(file))
    {
      var tasks := LoadTasks(file);
      var i := 0;
      while i < |tasks|
        invariant 0 <= i <= |tasks|
        invariant file == old(file)
        invariant jobs == old(jobs) + JobsOf(tasks[..i])
        invariant actions == old(actions) + Registrations(tasks[..i])
      {
        var e := tasks[i];
        assert tasks[..i + 1][..i] == tasks[..i];
        assert JobsOf(tasks[..i + 1]) == JobsOf(tasks[..i])[e.name := JobFor(e.name, e.details)];
        assert old(jobs) + JobsOf(tasks[..i + 1]) == jobs[e.name := JobFor(e.name, e.details)];
        assert Registrations(tasks[..i + 1]) == Registrations(tasks[..i]) + [Scheduled(e.name, JobFor(e.name, e.details))];
        jobs := jobs[e.name := JobFor(e.name, e.details)];
        actions := actions + [Scheduled(e.name, JobFor(e.name, e.details))];
        i := i + 1;
      }
      assert tasks[..i] == tasks;
    }
  }

  /**
   * After a removal, listing no longer shows the removed name, and shows every
   * other task's line as before, in order: exactly the removed task's line is dropped.
   */
  lemma ListingAfterRemove(s: Store, k: string)
    requires UniqueNames(s)
    requires k in Names(s)
    ensures forall line :: line in Summaries(Delete(s, k)) ==> line.name != k
    ensures var i := IndexOf(s, k);
      i < |s| && Summaries(Delete(s, k)) == Summaries(s)[..i] + Summaries(s)[i + 1..]
  {
    IndexOfInNames(s, k);
    DeleteAt(s, k);
    var i, r := IndexOf(s, k), Delete(s, k);
    var all := Summaries(s);
    assert |all[..i] + all[i + 1..]| == |r|;
    forall m | 0 <= m < |r|
      ensures Summaries(r)[m] == (all[..i] + all[i + 1..])[m]
      ensures r[m].name != k
    {
      if m >= i {
        assert r[m] == s[m + 1];
      }
    }
  }
}
