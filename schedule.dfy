/** The scheduled announcements (`scheduled_tasks`): task records, the task id
    built from the creation time, and the pure list operations one pass of the
    listener applies. */
module Schedule {
  import opened Text

  /** One entry of `scheduled_tasks`. `time` is the text the administrator typed. */
  datatype Task = Task(taskId: string, time: string, content: string, createTime: string)

  /** The id `cmd_schedule_push` gives a task: `"task_"` and the creation timestamp
      rendered in whole seconds. */
  function TaskId(stamp: nat): (id: string)
    ensures |id| > 5 && id[..5] == "task_"
  {
    "task_" + Decimal(stamp)
  }

  /** Two tasks get the same id exactly when their creation timestamps round to the same
      whole number of seconds. */
  lemma TaskIdCollision(a: nat, b: nat)
    ensures TaskId(a) == TaskId(b) <==> a == b
  {
    if TaskId(a) == TaskId(b) {
      assert TaskId(a)[5..] == Decimal(a);
      assert TaskId(b)[5..] == Decimal(b);
      DecimalInjective(a, b);
    }
  }

  /** The tasks due at clock reading `clock`, in list order. */
  function DueAt(tasks: seq<Task>, clock: string): seq<Task> {
    if tasks == [] then []
    else
      var last := tasks[|tasks| - 1];
      DueAt(tasks[..|tasks| - 1], clock) + (if last.time == clock then [last] else [])
  }

  /** The ids carried by `tasks`. */
  function TaskIds(tasks: seq<Task>): set<string> {
    set t | t in tasks :: t.taskId
  }

  /** The filter the listener applies after a task fires, generalised to a set of ids:
      every task whose id is not in `ids`, in list order. */
  function WithoutTaskIds(tasks: seq<Task>, ids: set<string>): seq<Task> {
    if tasks == [] then []
    else
      var last := tasks[|tasks| - 1];
      WithoutTaskIds(tasks[..|tasks| - 1], ids) + (if last.taskId in ids then [] else [last])
  }

  /** A task is due exactly when it is in the list and its time is the clock reading. */
  lemma {:induction false} DueAtMembers(tasks: seq<Task>, clock: string)
    ensures forall t :: t in DueAt(tasks, clock) <==> t in tasks && t.time == clock
  {
    if tasks != [] {
      var init := tasks[..|tasks| - 1];
      DueAtMembers(init, clock);
      assert tasks == init + [tasks[|tasks| - 1]];
    }
  }

  /** A task survives the filter exactly when it is in the list and its id is not in `ids`. */
  lemma {:induction false} WithoutTaskIdsMembers(tasks: seq<Task>, ids: set<string>)
    ensures forall t :: t in WithoutTaskIds(tasks, ids) <==> t in tasks && t.taskId !in ids
  {
    if tasks != [] {
      var init := tasks[..|tasks| - 1];
      WithoutTaskIdsMembers(init, ids);
      assert tasks == init + [tasks[|tasks| - 1]];
    }
  }

  /** What one pass of the listener at `clock` leaves in `scheduled_tasks`. */
  function AfterTick(tasks: seq<Task>, clock: string): seq<Task> {
    WithoutTaskIds(tasks, TaskIds(DueAt(tasks, clock)))
  }

  /** A task is left after a pass exactly when it was in the list and no task due at the
      clock reading shares its id (whatever its own time is). */
  lemma AfterTickMembers(tasks: seq<Task>, clock: string)
    ensures forall t :: t in AfterTick(tasks, clock) <==>
      t in tasks && forall d :: d in tasks && d.time == clock ==> d.taskId != t.taskId
  {
    var due := DueAt(tasks, clock);
    DueAtMembers(tasks, clock);
    WithoutTaskIdsMembers(tasks, TaskIds(due));
  }

  /** Filtering by one set of ids, then by another, is filtering by their union; so
      removing the fired ids one at a time, as the listener does, removes them all. */
  lemma {:induction false} WithoutTaskIdsTwice(tasks: seq<Task>, a: set<string>, b: set<string>)
    ensures WithoutTaskIds(WithoutTaskIds(tasks, a), b) == WithoutTaskIds(tasks, a + b)
  {
    if tasks != [] {
      var init := tasks[..|tasks| - 1];
      var last := tasks[|tasks| - 1];
      WithoutTaskIdsTwice(init, a, b);
      var first := WithoutTaskIds(init, a);
      assert tasks[..|tasks| - 1] == init;
      if last.taskId in a {
        assert WithoutTaskIds(tasks, a) == first;
        assert WithoutTaskIds(tasks, a + b) == WithoutTaskIds(init, a + b);
      } else {
        var once := first + [last];
        assert WithoutTaskIds(tasks, a) == once;
        assert once[..|once| - 1] == first;
        assert WithoutTaskIds(once, b) == WithoutTaskIds(first, b) + (if last.taskId in b then [] else [last]);
      }
    }
  }

  /** Walking the list one task further extends the due list by that task when it is due. */
  lemma DueStep(tasks: seq<Task>, i: nat, clock: string)
    requires i < |tasks|
    ensures DueAt(tasks[..i + 1], clock) == DueAt(tasks[..i], clock) + (if tasks[i].time == clock then [tasks[i]] else [])
  {
    assert tasks[..i + 1][..i] == tasks[..i];
  }

  /** Removing the id of one more fired task from what the earlier firings left. */
  lemma RemoveStep(tasks: seq<Task>, fired: seq<Task>, t: Task)
    ensures WithoutTaskIds(WithoutTaskIds(tasks, TaskIds(fired)), {t.taskId}) == WithoutTaskIds(tasks, TaskIds(fired + [t]))
  {
    WithoutTaskIdsTwice(tasks, TaskIds(fired), {t.taskId});
    assert TaskIds(fired + [t]) == TaskIds(fired) + {t.taskId};
  }

  /** Filtering by no ids changes nothing. */
  lemma {:induction false} WithoutNoTaskIds(tasks: seq<Task>)
    ensures WithoutTaskIds(tasks, {}) == tasks
  {
    if tasks != [] {
      WithoutNoTaskIds(tasks[..|tasks| - 1]);
      assert tasks == tasks[..|tasks| - 1] + [tasks[|tasks| - 1]];
    }
  }

  /** The filter keeps the order of what it keeps: it distributes over concatenation. */
  lemma {:induction false} WithoutTaskIdsAppend(a: seq<Task>, b: seq<Task>, ids: set<string>)
    ensures WithoutTaskIds(a + b, ids) == WithoutTaskIds(a, ids) + WithoutTaskIds(b, ids)
  {
    if b == [] {
      assert a + b == a;
    } else {
      var init := b[..|b| - 1];
      assert (a + b)[..|a + b| - 1] == a + init;
      WithoutTaskIdsAppend(a, init, ids);
    }
  }

  /** A pass of the listener leaves nothing due at the same clock reading: a second pass
      in the same minute fires nothing. */
  lemma FiresAtMostOnce(tasks: seq<Task>, clock: string)
    ensures DueAt(AfterTick(tasks, clock), clock) == []
  {
    var due := DueAt(tasks, clock);
    var rest := AfterTick(tasks, clock);
    DueAtMembers(tasks, clock);
    WithoutTaskIdsMembers(tasks, TaskIds(due));
    forall t | t in rest ensures t.time != clock {
      assert t in tasks && t.taskId !in TaskIds(due);
    }
    NothingDue(rest, clock);
  }

  lemma {:induction false} NothingDue(tasks: seq<Task>, clock: string)
    requires forall t :: t in tasks ==> t.time != clock
    ensures DueAt(tasks, clock) == []
  {
    if tasks != [] {
      var init := tasks[..|tasks| - 1];
      assert forall t :: t in init ==> t in tasks;
      NothingDue(init, clock);
      assert tasks[|tasks| - 1] in tasks;
    }
  }

  /** A pass of the listener changes the task list exactly when some task is due. */
  lemma AfterTickIdleIff(tasks: seq<Task>, clock: string)
    ensures AfterTick(tasks, clock) == tasks <==> DueAt(tasks, clock) == []
  {
    var due := DueAt(tasks, clock);
    if due == [] {
      assert TaskIds(due) == {};
      WithoutNoTaskIds(tasks);
    } else {
      DueAtMembers(tasks, clock);
      WithoutTaskIdsMembers(tasks, TaskIds(due));
      var t := due[0];
      assert t in tasks && t !in AfterTick(tasks, clock);
    }
  }

  /** Tasks whose creation timestamps round to the same whole second share an id, so when the first one fires the
      listener also deletes the second, which is due at another time and never fires. */
  lemma SameStampTasksCancel(tasks: seq<Task>, stamp: nat, first: Task, second: Task)
    requires first in tasks && second in tasks
    requires first.taskId == TaskId(stamp) && second.taskId == TaskId(stamp)
    requires first.time != second.time
    ensures first in DueAt(tasks, first.time)
    ensures second !in DueAt(tasks, first.time)
    ensures second !in AfterTick(tasks, first.time)
  {
    DueAtMembers(tasks, first.time);
    WithoutTaskIdsMembers(tasks, TaskIds(DueAt(tasks, first.time)));
  }
}
