# Announcement push plugin: a Dafny model

The plugin lets chat-bot administrators broadcast announcements to a registry of
group chats, either at once or at a time of day they schedule. This project models
its state and the operations that change it, in Dafny.

The state is two record lists kept by the plugin object:

- the registry of enabled groups (`enabled_groups`), one `{group_id, umo, add_time}` record per group;
- the scheduled tasks (`scheduled_tasks`), one `{task_id, time, content, create_time}` record per task,
  together with `last_scheduled_push_time`.

The model is the class `Plugin.AnnouncementPlugin`. Its sequence fields are reassigned the way the
handlers append to and filter those lists. Two counters record how often each configuration
file is written. The operations are:

- `PushStart` (`cmd_push_start`): refuses an empty group id. It scans the registry for a duplicate,
  and otherwise appends one record and saves. It keeps group ids unique.
- `PushStop` (`cmd_push_stop`): filters out every record with the group id. It compares lengths to
  tell "removed" from "not registered", and saves only on a removal.
- `SchedulePush` (`cmd_schedule_push`): validates `HH:MM` with Python's `split(":")` and `int()`,
  then the range test. It rejects blank content. It appends a task whose time is kept as typed and
  whose content is stripped.
- `Broadcast` (`_send_announcement_to_groups`): answers `NoGroups` for an empty registry. Otherwise it
  tries every group once, in order, and tallies successes, failures and the failing ids.
- `Tick`: one pass of `_scheduled_task_listener` at a given clock reading. Over a snapshot of the
  list, every task whose time equals the reading fires, and every task sharing its id is removed.
  The pass time is recorded.

The pure parts are functions in their own modules, each with lemmas about what it means:

- `Text`: Python's `strip()`, `split()`, `int()` and decimal rendering.
- `Clock`: the `HH:MM` check and `strftime("%H:%M")`.
- `Registry`: the group filter and id uniqueness.
- `Schedule`: due tasks, removal by id, task ids.
- `Delivery`: the broadcast tally.

Two behaviours of the plugin are proved rather than hidden:

- **Unpadded times never fire.** The schedule check accepts `"9:00"` (and `" 09:00"`, `"+9:0"`, ...)
  as nine o'clock (`Clock.SpelledTimeAccepted`). The task keeps that text, but the listener compares against the zero-padded
  clock reading `"09:00"`. An accepted time fires at some minute exactly when it is written in the
  canonical padded form (`Clock.FiresIffCanonical`, `Clock.UnpaddedHourAccepted`). Otherwise the
  task never fires; it leaves the list only when a task sharing its id fires.
- **Task ids collide.** A task id is `"task_"` followed by the creation timestamp rounded to a whole
  number of seconds. Two tasks get the same id exactly when their timestamps round to the same whole
  number (`Schedule.TaskIdCollision`).
  When one of them fires, the listener's removal by id also deletes the other, even if the other is
  due at a different time, so that one never fires (`Schedule.SameStampTasksCancel`).

Inputs that come from outside the plugin are parameters:

- the current clock reading, the timestamps and their renderings;
- the group id the host resolves for a command (`get_group_id()`, else the message's group id,
  with "no id" written as the empty string);
- whether each send succeeds, as an oracle `delivered(j)` for the group at registry position `j`.

## Model

| member | source | states |
|---|---|---|
| `Plugin.AnnouncementPlugin.constructor` | main.py:47-49 | the plugin starts from the loaded group records, task records and last scheduled push time, with nothing written yet |
| `Plugin.AnnouncementPlugin.PushStart` | main.py:201-224 | empty id: reply "no group id", registry and saves unchanged; id already registered: reply "already enabled", registry and saves unchanged; otherwise exactly one record `(id, umo, addTime)` appended at the end, earlier records untouched, one save, reply carries the new count; unique ids stay unique; the task side is untouched |
| `Plugin.AnnouncementPlugin.PushStop` | main.py:233-251 | empty id: reply "no group id", nothing changes; otherwise the registry becomes the filter without that id; reply "removed" with the new count and one save exactly when the id was registered (and the list got shorter), else reply "not registered", list equal to the old one and no save; unique ids stay unique |
| `Plugin.AnnouncementPlugin.SchedulePush` | main.py:328-358 | a time the check rejects: reply "bad format", tasks and saves unchanged; an accepted time with blank content: reply "blank content", unchanged; otherwise one task `(TaskId(stamp), time as typed, stripped content, createTime)` appended, one save, reply carries id, time and stripped content; groups untouched |
| `Plugin.AnnouncementPlugin.Broadcast` | main.py:135-166 | the result is `Summarize` of the registry and the send outcomes (the early answer for an empty registry, else the tally of one attempt per group in order); the sends go to every group's session identifier, in registry order |
| `Plugin.AnnouncementPlugin.Fire` | main.py:121-130 | for one due task: the broadcast summary, the pass time recorded, every task with its id removed, one save |
| `Plugin.AnnouncementPlugin.Tick` | main.py:115-130 | the tasks fired are exactly the tasks of the old list due at the clock reading, in order; the list left is `AfterTick` of the old one; `last_scheduled_push_time` changes (to the pass time) only if something fired; one save per firing; the registry is untouched |
| `Text.Strip` | main.py:341 | `strip()` yields a string that neither starts nor ends with whitespace and is no longer than its input |
| `Text.Trim` | main.py:341 | a trim (by `strip()`'s whitespace, or by the whitespace `int()` skips) is no longer than its input and neither starts nor ends with a character of that set |
| `Text.TrimIsTrimmedSlice` | main.py:351 | what a trim returns occurs in its input at some position as a contiguous slice, and every character before and after that slice belongs to the trimmed set |
| `Text.TrimStartSkipsSpace` | main.py:341 | every character the left-hand trim (`lstrip()`, the first half of `strip()`) cuts away belongs to the trimmed set |
| `Text.TrimEndSkipsSpace` | main.py:341 | every character the right-hand trim (`rstrip()`, the second half of `strip()`) cuts away belongs to the trimmed set |
| `Text.TrimPadded` | main.py:332 | text that neither starts nor ends with a character of the set, padded on both sides with such characters, trims back to exactly that text |
| `Text.StripBlankIff` | main.py:341-344 | `not content.strip()` holds exactly when every character of the content is whitespace |
| `Text.StripIdempotent` | main.py:351 | stripping the stored content again changes nothing |
| `Text.Split` | main.py:332 | `split(":")` gives at least one piece and no piece contains the separator |
| `Text.JoinSplit` | main.py:332 | joining the pieces of `split` with the separator gives back the original string |
| `Text.SplitJoin` | main.py:332 | separator-free pieces are recovered exactly by splitting their join |
| `Text.IntStrip` | main.py:332 | the text `int()` reads neither starts nor ends with the whitespace it skips (Python's whitespace except U+001C..U+001F) and is no longer than its input; as a trim by that set it is the slice `Text.TrimIsTrimmedSlice` describes |
| `Text.ParseInt` | main.py:332 | `int()` succeeds only on text that is not blank after trimming the whitespace it skips, and a negative result comes only from a leading minus sign |
| `Text.SignPart` | main.py:332 | the sign `int()` takes from the trimmed text is empty, `+` or `-`, and is a prefix of that text |
| `Text.ParseIntLiteral` | main.py:332 | a literal made of whitespace `int()` skips, an optional `+` or `-`, a digit body with single underscores between digits, and more such whitespace is read as the body's value, negated for `-` |
| `Text.ParseIntShape` | main.py:332 | conversely, every text `int()` accepts is such a padded, optionally signed literal, and the value is that literal's |
| `Text.LiteralHasNoColon` | main.py:332 | an integer literal contains no colon, so it can stand on either side of the colon of a time |
| `Text.IntRejectsSeparator` | main.py:332-338 | a piece that starts with one of U+001C..U+001F is rejected by `int()`, although `strip()` would discard that character |
| `Text.ParseDecimal` | main.py:332 | `int()` reads a rendered whole number back as that number |
| `Text.Decimal` | main.py:347 | the rendering of a whole number (`str(n)`, `f"{n:.0f}"`) is at least one character long, all decimal digits, and starts with `0` only for zero |
| `Text.DecimalInjective` | main.py:347 | two whole numbers render alike exactly when they are equal |
| `Clock.ParseClock` | main.py:331-338 | an accepted time has hour in 0..23 and minute in 0..59, and its text contains exactly one colon |
| `Text.SplitCount` | main.py:332 | `split(":")` has one more piece than the text has colons, so two parts means exactly one colon |
| `Clock.ParseClockShape` | main.py:331-338 | an accepted time is two colon-free pieces around one colon, and its hour and minute are what `int()` reads from those pieces |
| `Clock.ParseClockParts` | main.py:331-338 | conversely, two colon-free pieces that `int()` reads as an hour in 0..23 and a minute in 0..59 are accepted, joined by a colon, as that time |
| `Clock.SpelledTimeAccepted` | main.py:331-338 | any two literals `int()` accepts whose values are an hour in 0..23 and a minute in 0..59 (with padding, a sign, underscores or any number of leading zeros, as in `" 09:00"` or `"+9:0"`) pass the check as that time |
| `Clock.Format` | main.py:116 | the clock reading is five characters with the colon in the middle |
| `Clock.ParseFormat` | main.py:116 | every clock reading passes the schedule check as the time it shows |
| `Clock.FormatInjective` | main.py:116 | distinct minutes of the day give distinct clock readings |
| `Clock.FiresIffCanonical` | main.py:120 | an accepted time string equals some clock reading exactly when it is the zero-padded spelling of the time it denotes |
| `Clock.UnpaddedHourAccepted` | main.py:331-338 | an hour below ten typed without its zero ("9:00") is accepted as the same time as "09:00", yet equals no clock reading |
| `Registry.WithoutGroup` | main.py:240-245 | the filter keeps exactly the records of other groups, is no longer than the registry, and has the same length exactly when the id was not registered |
| `Registry.WithoutGroupAppend` | main.py:241-243 | the filter distributes over concatenation, so the records it keeps stay in their original order |
| `Registry.WithoutAbsentGroup` | main.py:245-247 | removing an id that is not registered yields the very same list |
| `Registry.WithoutGroupKeepsUnique` | main.py:241-243 | removal keeps group ids unique |
| `Registry.AppendNewKeepsUnique` | main.py:210-221 | appending a record whose id is not registered keeps group ids unique |
| `Schedule.TaskId` | main.py:347 | a task id is `task_` followed by a non-empty rendering of the timestamp |
| `Schedule.TaskIdCollision` | main.py:347 | two tasks get the same id exactly when their creation timestamps round to the same whole number of seconds |
| `Schedule.DueAtMembers` | main.py:119-120 | characterises `Schedule.DueAt`: a task fires in a pass exactly when it is in the list and its stored time equals the clock reading |
| `Schedule.WithoutTaskIdsMembers` | main.py:127-129 | characterises `Schedule.WithoutTaskIds`: a task survives removal exactly when it is in the list and its id is not among the removed ids |
| `Schedule.AfterTickMembers` | main.py:115-130 | characterises `Schedule.AfterTick`: a task is left after a pass exactly when it was in the list and no task due at the clock reading shares its id, whatever its own time |
| `Schedule.WithoutTaskIdsTwice` | main.py:119-129 | removing one set of ids and then another is removing their union, so the one-at-a-time removals of a pass remove every fired id |
| `Schedule.WithoutTaskIdsAppend` | main.py:127-129 | removal distributes over concatenation, so the surviving tasks keep their order |
| `Schedule.WithoutNoTaskIds` | main.py:127-129 | removing no ids leaves the list as it is |
| `Schedule.DueStep` | main.py:119-120 | walking the snapshot one task further adds that task to the fired list exactly when it is due |
| `Schedule.RemoveStep` | main.py:127-129 | removing one more fired id from what earlier firings left equals removing all fired ids from the snapshot |
| `Schedule.FiresAtMostOnce` | main.py:115-130 | after a pass at a clock reading nothing is due at that reading any more, so a second pass in the same minute fires nothing |
| `Schedule.NothingDue` | main.py:119-120 | a list with no task at the clock reading has nothing due |
| `Schedule.AfterTickIdleIff` | main.py:119-130 | a pass changes the task list exactly when some task is due |
| `Schedule.SameStampTasksCancel` | main.py:127-129 | for any two tasks of the list, wherever they stand in it, whose creation timestamps round to the same whole number of seconds and whose times differ: when the first fires, the second is not fired but is removed |
| `Delivery.Successes` | main.py:160 | the success count never exceeds the number of groups |
| `Delivery.AllDelivered` | main.py:145-160 | the success count equals the number of sends exactly when every send went through |
| `Delivery.FailedPositions` | main.py:161-163 | the failed positions are increasing, are exactly the positions whose send failed, and number the groups minus the successes |
| `Delivery.FailedIds` | main.py:161-163 | the number of failing ids plus the number of successes is the number of groups |
| `Delivery.FailedIdsAtFailedPositions` | main.py:145-166 | the failing-id list is, in order, the ids of the groups at the failed positions: the subsequence of the registry whose sends failed |
| `Delivery.Summarize` | main.py:137-166 | an empty registry, and only an empty registry, gives the early answer; otherwise success count + failure count equals the number of groups and the failure count is the length of the failing-id list |
| `Delivery.NoFailureIff` | main.py:145-166 | a broadcast to a non-empty registry reports no failure exactly when every send went through |

## Left out

- Loading and saving the JSON files and creating the data directory (main.py:40-42, 65-109): file I/O. A save is counted in `groupSaves` or `scheduleSaves`, and a failing write is not modelled.
- The default-configuration fallback on a missing or unreadable file (main.py:67-100): the constructor takes the loaded records.
- The background task, `while True` and `asyncio.sleep(60)` (main.py:52, 114, 133): `Tick` models one pass with the clock reading passed in.
- `datetime.now()` and `strftime` (main.py:115-116, 126, 143, 219, 347, 352): the clock reading, the pass time, the add and create times and the whole-second timestamp are parameters. Rounding a float timestamp to whole seconds (`:.0f`, which rounds half to even) is taken as already done: `stamp` is the rounded number.
- Interleaving: at every `await` another command could change the lists in the real plugin. The model runs each command and each pass as one atomic step.
- `send_message`, `MessageChain`, the `@all` component and the message text with its push time (main.py:147-159): the host framework. An oracle `delivered(j)` says whether the send to the group at registry position `j` goes through.
- Plugin.AnnouncementPlugin.Tick: the same `delivered` oracle is used for every broadcast of one pass. The real sends of two broadcasts in one minute could succeed and fail differently. The summaries are only logged by the source (main.py:122), so `Tick` does not return them; `Fire` states each one.
- The summary and reply texts (Chinese wording, `','.join`, the "none" placeholder): `Summary` and `Reply` carry the values those texts show.
- Text.ParseInt: Python's `int()` also reads non-ASCII decimal digits (for example Arabic-Indic digits). The model accepts ASCII digits only, with the surrounding whitespace `int()` skips, a sign and single underscores between digits.
- Text.ParseInt: does not model the limit of 4300 digits that Python 3.11 and later put on `int()` of a string (a `ValueError` there); the limit depends on the interpreter version and settings, and a clock time never comes near it.
- The group-id fallback `event.get_group_id() or event.message_obj.group_id` (main.py:203, 235): the id is a parameter, and "no id" (`None` or `""`) is the empty string.
- The help, config and announce commands (`cmd_push_help`, `cmd_push_config`, `cmd_push_announce`, main.py:175-192, 259-319), the WebUI settings (main.py:56-63), logging, and the permission and message-type decorators: text rendering and framework glue outside this model.
