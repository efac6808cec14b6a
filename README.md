# Email automation scheduler — a Dafny model

The program keeps a set of recurring email jobs ("tasks") in a JSON file and
registers them with an interval scheduler. Each time a task fires, it reads a
recipient list (CSV or XLSX), validates every address, renders a message
template with the recipient's name, sends one message per valid recipient, and
audits every outcome to a log collection. Invalid addresses are appended to a
log file and reported in one warning.

This project models the core of `email_automation.py`:

- `Address`: `is_valid_email`. Its executable check is proved equivalent to
  what `re.match(r"[^@]+@[^@]+\.[^@]+", …)` accepts. That is a prefix match,
  so text after a matching prefix is ignored.
- `Template`: the `{name}` replacement, i.e. Python's left-to-right,
  non-overlapping `str.replace`.
- `TaskStore`:
  - the task file as a Python dict in insertion order: a sequence of entries
    with `tasks[k] = v` (`Put`) and `del tasks[k]` (`Delete`);
  - fail-soft `load_tasks` and `save_tasks`;
  - the `task_<len+1>` naming rule;
  - the duplicate-details rule of `add_task`.
- `Runner`: one firing of `email_task`.
  - The outside world is passed in as values: the rows pandas would read, the
    template text, and `reply(k)`, the result of the k-th `send_email` call of
    the firing.
  - The firing returns what it appends to the mail transport, the audit
    collection and the invalid-address file.
  - `Fire` states the firing as a function. `EmailTask` and its two loops are
    proved equal to it.
- `Controller`:
  - `add_task`, `remove_task`, `list_tasks` and `load_and_schedule_tasks` are
    methods of a class `Context`;
  - its state is the task file and the live scheduler's jobs, as a map from job
    id to job;
  - a ghost log keeps the order of outside effects: file saved, job added, job
    removed.

Behaviour of the code worth knowing, which the model reproduces:

- Task names are not unique identifiers over time. After a removal,
  `task_<len+1>` can be a name that is still stored, and `add_task` then
  silently overwrites that task's details (`TaskStore.RemoveThenAddOverwrites`).
  The keys of one store are still distinct, as in any JSON object.
- A row that raises ends the whole firing. The invalid addresses collected
  before it are then never written to the log file nor reported in a warning
  (`Runner.FireFailsOnBadRow`).
- A non-string address cell (NaN, a number) raises inside `re.match`. A
  non-string name cell raises inside `str.replace`, but only on a row whose
  address is valid.
- The comment at line 240 says saved tasks are scheduled before the command
  line is handled, but `load_and_schedule_tasks()` is called only after the
  command has been dispatched (lines 213-221). The model offers the four
  commands on one shared `Context` without fixing their order.

## Model

| member | source | states |
|---|---|---|
| Address.IsValidEmail | email_automation.py:70-71 | the executable check: the first '@' is not at index 0, and the '@'-free run after it holds a '.' that is neither its first nor its last character |
| Template.Render | email_automation.py:131 | `t.replace("{name}", name)`: scans left to right and replaces each non-overlapping occurrence, resuming right after it |
| TaskStore.Lookup | email_automation.py:187 | `k in tasks` / `tasks[k]`: the details at the first position holding `k`, or none when `k` is not a key |
| TaskStore.Put | email_automation.py:167 | `tasks[k] = v`: replaces the entry for `k` in place, or appends a new entry at the end |
| TaskStore.Delete | email_automation.py:191 | `del tasks[k]`: drops the entry for `k` and keeps the others in order |
| TaskStore.LoadTasks | email_automation.py:58-64 | the store of a file holding a JSON object; the empty store for a missing file, malformed JSON or a non-object |
| TaskStore.TaskName | email_automation.py:150 | `f"task_{n}"`: the prefix `task_` followed by the decimal digits of `n` |
| Runner.Step | email_automation.py:123-135 | one row of the loop: a non-string address raises; an invalid address is collected; a valid one with a non-string name raises; otherwise the rendered message is sent and audited by the send's result; after a raise nothing changes |
| Runner.Scan | email_automation.py:123-135 | the row loop over the rows in order, one `Step` per row |
| Runner.Report | email_automation.py:137-146 | after the loop: one error entry if a row raised; else, when addresses were invalid, they go to the log and one warning entry follows |
| Runner.Fire | email_automation.py:110-146 | the whole firing: an error entry for an unsupported extension, an unreadable list or an unreadable template, in that order; else `Report` of the row loop |
| Controller.Summaries | email_automation.py:182-183 | one listing line per stored task, in store order: name, interval, unit |
| Controller.JobsOf | email_automation.py:224-239 | the jobs the reconciler registers: one `add_job` per stored task in order, keyed by the task's name, a later entry replacing an earlier one with the same id |
| Address.ValidEmailMatches | email_automation.py:70-71 | every address the check accepts is matched by `[^@]+@[^@]+\.[^@]+` at its start |
| Address.MatchIsValidEmail | email_automation.py:70-71 | every string with a prefix the pattern matches is accepted |
| Address.IsValidEmailIsRegexMatch | email_automation.py:70-71 | the check accepts exactly the strings `re.match` matches (both directions) |
| Address.TrailingTextAccepted | email_automation.py:70-71 | `re.match` is anchored only at the start: anything appended to an accepted address is still accepted |
| Address.WellShapedAccepted | email_automation.py:70-71 | every `local@domain.tld` with three non-empty '@'-free parts is accepted |
| Address.NoAtRejected | email_automation.py:70-71 | a string without '@' is rejected |
| Address.NoDotAfterAtRejected | email_automation.py:70-71 | a string with no '.' after its first '@' is rejected |
| Address.LeadingAtRejected | email_automation.py:70-71 | an empty local part is rejected |
| Address.SecondAtAccepted | email_automation.py:70-71 | `a@b.c@d` is accepted: the second '@' lies after the matched prefix |
| Address.MisplacedDotRejected | email_automation.py:70-71 | a '.' right after the '@', a '.' at the end, or no '.' at all: rejected |
| Template.RenderWithoutPlaceholder | email_automation.py:131 | a template without `{name}` is sent unchanged |
| Template.RenderPlaceholderIsIdentity | email_automation.py:131 | replacing `{name}` by `{name}` gives the template back |
| Template.RenderLength | email_automation.py:131 | the message length is the template length plus `count * (len(name) - 6)` |
| Template.CountZeroIffAbsent | email_automation.py:131 | the non-overlapping count is zero exactly when `{name}` does not occur |
| Template.RenderFirstOccurrence | email_automation.py:131 | the scan is left to right: text before the first occurrence is kept, the occurrence becomes the name, rendering resumes after it |
| TaskStore.LookupInNames | email_automation.py:187 | `k in tasks` holds exactly when a lookup finds something, and `tasks[k]` is the entry stored under `k` |
| TaskStore.PutShape | email_automation.py:167 | `tasks[k] = v` overwrites an existing key in place and appends a new key at the end |
| TaskStore.PutAt | email_automation.py:167 | the same, position by position: only the key's position changes |
| TaskStore.PutLookupOther | email_automation.py:167 | after `tasks[k] = v`, every other key maps to what it mapped to before |
| TaskStore.PutLookup | email_automation.py:167 | after `tasks[k] = v`, `k` maps to `v` and every other key is unchanged |
| TaskStore.PutNames | email_automation.py:167 | after `tasks[k] = v`, the key set is the old one plus `k` |
| TaskStore.PutKeepsNamesUnique | email_automation.py:167 | `tasks[k] = v` keeps keys distinct |
| TaskStore.DeleteShape | email_automation.py:191 | `del tasks[k]` removes exactly the entry for `k`; the others keep their order |
| TaskStore.DeleteAt | email_automation.py:191 | the same, position by position: entries after the removed one move up by one |
| TaskStore.DeleteLookupOther | email_automation.py:191 | after `del tasks[k]`, every other key maps to what it mapped to before |
| TaskStore.DeleteLookup | email_automation.py:191 | after `del tasks[k]`, `k` is gone and every other key is unchanged |
| TaskStore.DeleteKeepsNamesUnique | email_automation.py:191 | `del tasks[k]` keeps keys distinct |
| TaskStore.DeleteNames | email_automation.py:191 | after `del tasks[k]`, the key set is the old one minus `k` |
| TaskStore.SaveTasks | email_automation.py:66-68 | the saved file is a JSON object, and loading it gives back exactly the saved store |
| TaskStore.LoadTasksFailsSoft | email_automation.py:58-64 | a missing file, malformed JSON or a non-object loads as the empty store |
| TaskStore.Decimal | email_automation.py:150 | `str(n)` has at least one digit, and at least two from 10 on |
| TaskStore.DecimalInjective | email_automation.py:150 | distinct numbers print differently |
| TaskStore.TaskNameInjective | email_automation.py:150 | `task_<a>` equals `task_<b>` only when `a` equals `b` |
| TaskStore.Add | email_automation.py:148-167 | duplicate rejected exactly when some stored task has equal details; otherwise the name is `task_<len+1>`, it maps to the new details, every other key is unchanged, and the store grows only when the name was new |
| TaskStore.FindDuplicate | email_automation.py:161-165 | the loop over `tasks.values()` reports a duplicate exactly when some stored task has equal details |
| TaskStore.NextNameFresh | email_automation.py:150 | when only additions have happened, `task_<len+1>` is not yet stored |
| TaskStore.AddToSequentialAppends | email_automation.py:148-167 | when only additions have happened, a new task is appended under a fresh name and the names stay `task_1 … task_n` |
| TaskStore.RemoveThenAddOverwrites | email_automation.py:148-198 | with `task_1`, `task_2` stored, removing `task_1` and adding new details names them `task_2` and overwrites that task |
| Runner.ScanAbsorbs | email_automation.py:123-146 | once a row has raised, no later row is processed |
| Runner.ScanPrefix | email_automation.py:123-135 | the loop over the first i+1 rows is the loop over the first i rows followed by row i |
| Runner.ScanStopsAt | email_automation.py:123-146 | a row that raises decides the outcome of the whole loop |
| Runner.ScanInvalidRow | email_automation.py:127-129 | a row with an invalid address only appends it to `invalid_emails` |
| Runner.ScanSendRow | email_automation.py:131-135 | a valid row sends the rendered message and audits sent or failed by the send's result |
| Runner.SendRows | email_automation.py:123-135 | the row loop computes exactly the loop specification `Scan` |
| Runner.WriteReport | email_automation.py:137-146 | after the loop: the invalid addresses are written one per line and one warning follows, or the exception leaves one error entry |
| Runner.EmailTask | email_automation.py:110-146 | the whole firing equals `Fire`, including the early failures for format, list and template |
| Runner.AcceptedRejectedPartition | email_automation.py:127-129 | on rows that do not raise, every row is accepted or rejected; accepted addresses are valid, rejected ones are not |
| Runner.MailsToAppend | email_automation.py:131-132 | one more accepted recipient adds one message at the end |
| Runner.SendAuditAppend | email_automation.py:132-135 | one more accepted recipient adds one audit record at the end, decided by that send's result |
| Runner.ScanWellFormed | email_automation.py:123-135 | on rows that do not raise, the loop sends to and audits exactly the accepted recipients, in order, and collects exactly the rejected addresses |
| Runner.FireWellFormed | email_automation.py:110-142 | a firing that raises nothing: one message per valid row in row order, one audit record per send, invalid addresses logged, and a warning exactly when there are any |
| Runner.FireSendsOnlyValid | email_automation.py:123-140 | nothing is sent to an invalid address, nothing valid is logged as invalid, and every row goes one way or the other |
| Runner.FireFailsEarly | email_automation.py:110-146 | an unsupported list format or an unreadable list or template: no send, no log line, one error record carrying list, message file, subject and attachments |
| Runner.FirstBadRow | email_automation.py:124-131 | the first row that breaks well-formedness has a non-string address, or a valid address and a non-string name |
| Runner.FireFailsOnBadRow | email_automation.py:123-146 | a row that raises keeps the sends and audits made before it, adds one error record, and writes no invalid address |
| Controller.AppendIsPut | email_automation.py:167 | storing a fresh key appends it, adds its name, and leaves other keys unchanged |
| Controller.JobsOfStore | email_automation.py:224-239 | with distinct names, the reconciler registers exactly one job per stored task, under its name and with its details |
| Controller.Context.constructor | email_automation.py:33-36 | the process starts from a task file and an empty scheduler |
| Controller.Context.LoadedNamesUnique | email_automation.py:58-64 | the loaded store has distinct names |
| Controller.Context.AddTask | email_automation.py:148-173 | duplicate: nothing changes; otherwise the store saved has the new task under `task_<len+1>`, then the job with that id is added, in that order |
| Controller.Context.RemoveTask | email_automation.py:185-198 | an unknown name changes nothing; a known one is deleted and saved, then its job is removed if one runs, and the outcome says which |
| Controller.Context.ListTasks | email_automation.py:175-183 | "no tasks" exactly for an empty store; otherwise one line per task in store order with its interval and unit |
| Controller.Context.LoadAndScheduleTasks | email_automation.py:224-239 | one `add_job` per stored task in store order, id = task name; the file is unchanged |
| Controller.ListingAfterRemove | email_automation.py:175-198 | after a removal, the listing drops exactly the removed task's line and keeps the others in order |

## Left out

- Sending mail:
  - SMTP, MIME assembly, attachment reading and the sender credentials are not
    modelled;
  - the result of each `send_email` call is the parameter `reply`;
  - missing sender credentials are one reason `reply` can be false (lines
    74-76), a failing SMTP exchange the other (lines 97-108);
  - a missing attachment file is logged and skipped, and the message is still
    sent without it (lines 87-95); `Mail.attachments` records the argument of
    the call, not what was delivered.
- The wall-clock timestamp of `log_to_mongodb` is not modelled. A failing
  insert into the log collection is not modelled either.
- Reading the list with pandas:
  - the rows are a parameter, or none when reading fails;
  - a missing `name` column is given as the empty string;
  - a missing or non-string cell is `NonText`.
- Reading the template file is a parameter: its text, or none when opening it
  fails.
- Writing `invalid_emails.log`:
  - a failing write is not modelled;
  - the `logging` text file and the exception message text are not modelled.
- JSON parsing and `indent=4` formatting are not modelled:
  - the file is `Missing`, `Malformed`, `NotAnObject` or an object of
    well-typed task details;
  - a stored object with missing or ill-typed fields is not modelled;
  - a failing `save_tasks` write is not modelled.
- The scheduler:
  - its timing, its threads and `IntervalTrigger`'s conversion of the unit are
    not modelled;
  - `add_job` is a map update that replaces a job with the same id;
  - APScheduler's conflicting-id error is not modelled.
- TaskStore.LoadTasks: a task file that exists but cannot be read is not modelled. `load_tasks` catches only `FileNotFoundError` and `json.JSONDecodeError` (line 63). A `PermissionError`, an `IsADirectoryError` or a `UnicodeDecodeError` on bad bytes escapes `load_tasks` and the command that called it: `add_task`, `remove_task`, `list_tasks` or the reconciler. `TaskFile` has no such case, so every existing file loads either as an object or fail-soft as the empty store.
- Controller.Context.LoadAndScheduleTasks: a raising `IntervalTrigger(**{details["unit"]: details["interval"]})` (line 227) is not modelled. An example is an `OverflowError` for an interval beyond the range of a time delta, such as 10^9 days. The loop then stops at that task, the jobs added before it stay, and the exception escapes at line 241. `add_task` can store such a task, because it saves (line 168) before its own trigger raises (line 170). After that, every run of the program fails at line 241 until the task is removed. The contract always registers every stored task.
- Runner.EmailTask: an exception that escapes `send_email` is not modelled. `send_email` catches only `FileNotFoundError` around opening an attachment (lines 87-95). A `PermissionError` or `IsADirectoryError` there reaches the handler of `email_task` (lines 144-146) and ends the firing: earlier sends and audits stay, one error entry follows, and no invalid address is logged. In the model each send only returns the boolean `reply(k)`, so this path cannot occur.
- Controller.Context.AddTask: a raising `IntervalTrigger(**{unit: interval})` (line 170) is not modelled. It runs after `save_tasks` (line 168), for example on an interval too large for a time delta. The task then stays saved, no job is added, and the exception escapes. The contract always adds the job after the save.
- Controller.Context.RemoveTask: `remove_job` raising is modelled as the job
  id not being registered. Other exceptions it could raise are not
  distinguished.
- Command-line parsing, the `--add` argument check, the printed messages'
  text, and the process lifecycle are not modelled:
  - the daemon thread, the keep-alive loops and shutdown on interrupt are
    left out;
  - the reconciler actually runs after the command has been dispatched
    (line 241), despite the comment above it. The model offers the four
    operations on one shared `Context` without fixing their order.
