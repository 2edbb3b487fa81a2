/** The plugin object: the two record lists it keeps (`enabled_groups` in the
    group configuration, `scheduled_tasks` in the schedule configuration), the
    commands that change them, the broadcast tally and one pass of the
    scheduled-task listener. Each write of a configuration file is counted. */
module Plugin {
  import opened Text
  import opened Clock
  import opened Registry
  import opened Schedule
  import opened Delivery

  /** What a command answers in the chat. */
  datatype Reply =
    | MissingGroupId
    | AlreadyEnabled(groupId: string)
    | Added(groupId: string, count: nat)
    | NotEnabled(groupId: string)
    | Removed(groupId: string, count: nat)
    | BadTimeFormat
    | BlankContent
    | Scheduled(taskId: string, time: string, content: string)

  class AnnouncementPlugin {
    /** `group_config["enabled_groups"]` */
    var enabledGroups: seq<Group>
    /** `scheduled_config["scheduled_tasks"]` */
    var scheduledTasks: seq<Task>
    /** `scheduled_config["last_scheduled_push_time"]` */
    var lastScheduledPushTime: string
    /** How many times the group configuration file has been written. */
    var groupSaves: nat
    /** How many times the schedule configuration file has been written. */
    var scheduleSaves: nat

    /** The plugin as it starts from the records loaded from disk. */
    constructor (groups: seq<Group>, tasks: seq<Task>, lastScheduled: string)
      ensures enabledGroups == groups && scheduledTasks == tasks
      ensures lastScheduledPushTime == lastScheduled
      ensures groupSaves == 0 && scheduleSaves == 0
    {
      enabledGroups := groups;
      scheduledTasks := tasks;
      lastScheduledPushTime := lastScheduled;
      groupSaves := 0;
      scheduleSaves := 0;
    }

    /** `cmd_push_start`: register the group the command came from. An empty id is
        refused, a registered id is left alone, anything else is appended and saved. */
    method PushStart(groupId: string, umo: string, addTime: string) returns (reply: Reply)
      modifies this
      ensures scheduledTasks == old(scheduledTasks) && scheduleSaves == old(scheduleSaves)
      ensures lastScheduledPushTime == old(lastScheduledPushTime)
      ensures groupId == "" ==> reply == MissingGroupId
      ensures groupId != "" && Enabled(old(enabledGroups), groupId) ==> reply == AlreadyEnabled(groupId)
      ensures groupId == "" || Enabled(old(enabledGroups), groupId) ==>
        enabledGroups == old(enabledGroups) && groupSaves == old(groupSaves)
      ensures groupId != "" && !Enabled(old(enabledGroups), groupId) ==>
        && enabledGroups == old(enabledGroups) + [Group(groupId, umo, addTime)]
        && groupSaves == old(groupSaves) + 1
        && reply == Added(groupId, |enabledGroups|)
      ensures UniqueIds(old(enabledGroups)) ==> UniqueIds(enabledGroups)
    {
      if groupId == "" {
        return MissingGroupId;
      }
      var i := 0;
      while i < |enabledGroups|
        invariant 0 <= i <= |enabledGroups|
        invariant forall k :: 0 <= k < i ==> enabledGroups[k].groupId != groupId
      {
        if enabledGroups[i].groupId == groupId {
          return AlreadyEnabled(groupId);
        }
        i := i + 1;
      }
      var entry := Group(groupId, umo, addTime);
      if UniqueIds(enabledGroups) {
        AppendNewKeepsUnique(enabledGroups, entry);
      }
      enabledGroups := enabledGroups + [entry];
      groupSaves := groupSaves + 1;
      reply := Added(groupId, |enabledGroups|);
    }

    /** `cmd_push_stop`: drop every entry with the group's id; the change in length tells
        "removed" from "was not registered", and only a removal is saved. */
    method PushStop(groupId: string) returns (reply: Reply)
      modifies this
      ensures scheduledTasks == old(scheduledTasks) && scheduleSaves == old(scheduleSaves)
      ensures lastScheduledPushTime == old(lastScheduledPushTime)
      ensures groupId == "" ==> reply == MissingGroupId
      ensures groupId == "" || !Enabled(old(enabledGroups), groupId) ==>
        enabledGroups == old(enabledGroups) && groupSaves == old(groupSaves)
      ensures groupId != "" ==> enabledGroups == WithoutGroup(old(enabledGroups), groupId)
      ensures groupId != "" && !Enabled(old(enabledGroups), groupId) ==> reply == NotEnabled(groupId)
      ensures groupId != "" && Enabled(old(enabledGroups), groupId) ==>
        && reply == Removed(groupId, |enabledGroups|)
        && |enabledGroups| < |old(enabledGroups)|
        && groupSaves == old(groupSaves) + 1
      ensures UniqueIds(old(enabledGroups)) ==> UniqueIds(enabledGroups)
    {
      if groupId == "" {
        return MissingGroupId;
      }
      var originalCount := |enabledGroups|;
      if UniqueIds(enabledGroups) {
        WithoutGroupKeepsUnique(enabledGroups, groupId);
      }
      if !Enabled(enabledGroups, groupId) {
        WithoutAbsentGroup(enabledGroups, groupId);
      }
      enabledGroups := WithoutGroup(enabledGroups, groupId);
      if |enabledGroups| == originalCount {
        return NotEnabled(groupId);
      }
      groupSaves := groupSaves + 1;
      reply := Removed(groupId, |enabledGroups|);
    }

    /** `cmd_schedule_push`: check the time, then the content, then append a task that
        keeps the time exactly as typed and the content stripped, and save. `stamp` is
        the creation time in whole seconds, `createTime` its rendering. */
    method SchedulePush(pushTime: string, content: string, stamp: nat, createTime: string)
      returns (reply: Reply)
      modifies this`scheduledTasks, this`scheduleSaves
      ensures ParseClock(pushTime).None? ==>
        reply == BadTimeFormat && scheduledTasks == old(scheduledTasks) && scheduleSaves == old(scheduleSaves)
      ensures ParseClock(pushTime).Some? ==>
        if Strip(content) == [] then
          reply == BlankContent && scheduledTasks == old(scheduledTasks) && scheduleSaves == old(scheduleSaves)
        else
          && scheduledTasks == old(scheduledTasks) + [Task(TaskId(stamp), pushTime, Strip(content), createTime)]
          && scheduleSaves == old(scheduleSaves) + 1
          && reply == Scheduled(TaskId(stamp), pushTime, Strip(content))
    {
      var time := ParseClock(pushTime);
      if time.None? {
        return BadTimeFormat;
      }
      var text := Strip(content);
      if text == [] {
        return BlankContent;
      }
      var task := Task(TaskId(stamp), pushTime, text, createTime);
      scheduledTasks := scheduledTasks + [task];
      scheduleSaves := scheduleSaves + 1;
      reply := Scheduled(task.taskId, pushTime, text);
    }

    /** `_send_announcement_to_groups`: try every registered group once, in order,
        sending to its session identifier, and tally the outcome. */
    method Broadcast(content: string, delivered: nat -> bool) returns (summary: Summary, targets: seq<string>)
      ensures summary == Summarize(enabledGroups, delivered)
      ensures |targets| == |enabledGroups|
      ensures forall j :: 0 <= j < |targets| ==> targets[j] == enabledGroups[j].umo
    {
      var groups := enabledGroups;
      if groups == [] {
        return NoGroups, [];
      }
      var successes, failures := 0, 0;
      var failedIds := [];
      targets := [];
      var i := 0;
      while i < |groups|
        invariant 0 <= i <= |groups|
        invariant successes == Successes(i, delivered)
        invariant successes + failures == i
        invariant failedIds == FailedIds(groups[..i], delivered)
        invariant |targets| == i
        invariant forall j :: 0 <= j < i ==> targets[j] == groups[j].umo
      {
        var group := groups[i];
        targets := targets + [group.umo];
        assert groups[..i + 1][..i] == groups[..i];
        if delivered(i) {
          successes := successes + 1;
        } else {
          failures := failures + 1;
          failedIds := failedIds + [group.groupId];
        }
        i := i + 1;
      }
      assert groups[..i] == groups;
      summary := Report(successes, failures, failedIds);
    }

    /** The body of the listener for one due task: broadcast its content, record the
        pass time, drop every task with its id and save the task list. */
    method Fire(task: Task, stamp: string, delivered: nat -> bool) returns (report: Summary)
      modifies this`scheduledTasks, this`lastScheduledPushTime, this`scheduleSaves
      ensures report == Summarize(enabledGroups, delivered)
      ensures scheduledTasks == WithoutTaskIds(old(scheduledTasks), {task.taskId})
      ensures lastScheduledPushTime == stamp
      ensures scheduleSaves == old(scheduleSaves) + 1
    {
      var targets;
      report, targets := Broadcast(task.content, delivered);
      lastScheduledPushTime := stamp;
      scheduledTasks := WithoutTaskIds(scheduledTasks, {task.taskId});
      scheduleSaves := scheduleSaves + 1;
    }

    /** One pass of `_scheduled_task_listener` at clock reading `clock` (`"%H:%M"`):
        over a snapshot of the task list, every task whose time equals `clock` is
        broadcast, the pass time is recorded as `stamp`, every task sharing its id is
        removed and the list is saved. `delivered` gives the send outcomes, the same
        for every broadcast of the pass; each broadcast's summary is only logged. */
    method Tick(clock: string, stamp: string, delivered: nat -> bool) returns (fired: seq<Task>)
      modifies this`scheduledTasks, this`lastScheduledPushTime, this`scheduleSaves
      ensures enabledGroups == old(enabledGroups) && groupSaves == old(groupSaves)
      ensures fired == DueAt(old(scheduledTasks), clock)
      ensures scheduledTasks == AfterTick(old(scheduledTasks), clock)
      ensures lastScheduledPushTime == if fired == [] then old(lastScheduledPushTime) else stamp
      ensures scheduleSaves == old(scheduleSaves) + |fired|
    {
      var snapshot := scheduledTasks;
      fired := [];
      var i := 0;
      WithoutNoTaskIds(snapshot);
      assert TaskIds(fired) == {};
      while i < |snapshot|
        invariant 0 <= i <= |snapshot|
        invariant fired == DueAt(snapshot[..i], clock)
        invariant scheduledTasks == WithoutTaskIds(snapshot, TaskIds(fired))
        invariant lastScheduledPushTime == if fired == [] then old(lastScheduledPushTime) else stamp
        invariant scheduleSaves == old(scheduleSaves) + |fired|
      {
        var task := snapshot[i];
        DueStep(snapshot, i, clock);
        if task.time == clock {
          RemoveStep(snapshot, fired, task);
          var report := Fire(task, stamp, delivered);
          fired := fired + [task];
        }
        i := i + 1;
      }
      assert snapshot[..i] == snapshot;
    }
  }
}
