# Admin system router: activity counters and log tail

A Dafny model of the two pieces of real logic in the admin "system" router of
chatgpt-web-share (`backend/api/routers/system.py`), plus the valid-conversation
count of its system-info endpoint:

- **`check_users`** makes one pass over the user table. It counts the users
  active in the last 5 minutes, the last hour and the last day, and the users
  in the chat queue. A two-variable process-wide cache surrounds the scan: a
  stored result and the time it was stored. `CACHE_DURATION_SECONDS` is 0 and
  `refresh_cache` clears the cache. The model (`activity_counters.dfy`, module
  `ActivityCounters`) has these parts:
  - a `User` record with the three columns the scan reads;
  - a specification function `Count` for each counter;
  - the counting loop as the method `Tally`, proved against `Count`;
  - the cache as the class `UsersCache`. It has the two fields `entry` and
    `stamp`, and the method `CheckUsers` (refresh, hit, miss).
- **`read_last_n_lines`** reverses the log's lines and keeps the lines that
  contain none of the exclude keywords, stopping at `n`. It then restores
  file order. A missing file gives a one-line message. The model is in
  `log_tail.dfy`, module `LogTail`:
  - `Find` is Python's `str.find`;
  - `Excluded` is the `any(...)` test;
  - `Survivors` is the filter;
  - `LastNLines` is the reference result (the last min(n, k) surviving lines);
  - the method `ReadLastNLines` is the imperative scan with its `break`, proved
    equal to `LastNLines`.
- **`get_system_info`** forces a refresh of the counters and reports the
  totals. It also reports the number of valid conversations, computed by a
  filter and count (`system_info.dfy`, module `SystemInfo`).

Times are integer seconds. The user table, the conversation table and the log
file are input sequences. The current time and the process start time are
parameters.

Some points where the model makes a choice:
- `if not user.last_active_time` tests only for `None`, because a Python
  `datetime` is always truthy.
- `rev_chat_status` is reduced to a `queueing` flag, since the scan compares it
  only with `RevChatStatus.queueing`.
- `str.find` reports the empty string at index 0. So an empty exclude keyword
  removes every line of the log (`EmptyKeywordHidesAll`). This is the code's
  behaviour and the model keeps it.
- The zero-duration cache is not quite dead code. The code serves a stored
  result whenever its stamp is strictly later than the current time, which
  happens only if the clock goes backwards. The model follows the code
  (`ServesCached`). `RepeatedChecks` proves that under a non-decreasing clock
  every call returns a fresh scan of its own user table, and that the cache is
  left holding the last call's scan, stamped with its time.

## Model

| member | source | states |
|---|---|---|
| ActivityCounters.Increments | backend/api/routers/system.py:53-64 | which counter a user adds to: nothing without a last-activity time, and never an activity window for a superuser or for activity at or before `now - seconds`; characterised by `NeverActiveCountsNowhere`, `QueueingSuperuserCounted` and `SuperuserNeverActive` |
| ActivityCounters.Count | backend/api/routers/system.py:47-64 | each counter is at most the number of users |
| ActivityCounters.CountInsert | backend/api/routers/system.py:52-64 | a user added anywhere in the table changes a counter by exactly that user's own contribution |
| ActivityCounters.SuperuserNeverActive | backend/api/routers/system.py:57-58 | a superuser never changes any activity-window count, whatever its last activity |
| ActivityCounters.QueueingSuperuserCounted | backend/api/routers/system.py:55-58 | a superuser with a last-activity time and queueing status adds one to the queueing count, because the queue test comes before the superuser skip |
| ActivityCounters.NeverActiveCountsNowhere | backend/api/routers/system.py:53-54 | a user with no last-activity time changes none of the four counters |
| ActivityCounters.WindowsNested | backend/api/routers/system.py:59-64 | a wider window counts at least as many users as a narrower one |
| ActivityCounters.Summary | backend/api/routers/system.py:66 | the result tuple: active_5m <= active_1h <= active_1d <= number of users, queueing count <= number of users, and the full user list is returned |
| ActivityCounters.Tally | backend/api/routers/system.py:47-66 | the counting loop yields exactly the four `Count`s at `now` (windows 300, 3600, 86400 s, strict `>`), nested and bounded, together with the unfiltered user list |
| ActivityCounters.ServesCached | backend/api/routers/system.py:35-39 | the serving test: a refresh call is never served from the cache, and serving needs both cache variables set; with the zero duration it reduces as `ZeroDurationServesOnlyLaterStamps` states |
| ActivityCounters.ZeroDurationServesOnlyLaterStamps | backend/api/routers/system.py:28-41 | with duration 0, a stored result is served exactly when no refresh is asked, both cache variables are set, and the stamp is strictly later than now |
| ActivityCounters.UsersCache.constructor | backend/api/routers/system.py:25-26 | the cache starts empty: no stored result, no stamp |
| ActivityCounters.UsersCache.CheckUsers | backend/api/routers/system.py:31-67 | on a hit, returns the stored result, which is a true scan at its stamp, and changes nothing; otherwise, including on every refresh, rescans at now and stores that result with stamp now |
| ActivityCounters.RepeatedChecks | backend/api/routers/system.py:28-43 | across calls with a non-decreasing clock, every call returns a fresh scan of its own user table, whatever its refresh flag, and the cache ends holding the last call's scan stamped with its time |
| LogTail.Find | backend/api/routers/system.py:140 | `str.find`: -1 or an index at which `sub` fits in `s`; first index of an occurrence, -1 when none, as `FindIsFirstOccurrence` states |
| LogTail.FindIsFirstOccurrence | backend/api/routers/system.py:140 | `find` gives -1 exactly when the keyword does not occur, and otherwise the first index where it occurs |
| LogTail.Excluded | backend/api/routers/system.py:140-141 | the `any(...)` test: with no keywords no line is excluded; exactly the lines in which some keyword occurs, as `ExcludedIffSomeKeywordOccurs` states |
| LogTail.ExcludedIffSomeKeywordOccurs | backend/api/routers/system.py:140-141 | a line is skipped exactly when some exclude keyword occurs in it |
| LogTail.Survivors | backend/api/routers/system.py:140-142 | the filter never produces more lines than it is given |
| LogTail.SurvivorsAppend | backend/api/routers/system.py:137-142 | filtering distributes over concatenation of line blocks |
| LogTail.SurvivorsPass | backend/api/routers/system.py:140-142 | no kept line contains an exclude keyword |
| LogTail.PositionsEmbedSurvivors | backend/api/routers/system.py:133-142 | the kept lines occur in the file in their original order |
| LogTail.PositionsCoverPassingLines | backend/api/routers/system.py:140-142 | every line containing no exclude keyword is kept by the filter |
| LogTail.TakeLast | backend/api/routers/system.py:137-139 | takes min(n, length) trailing elements, none when n <= 0, as a suffix |
| LogTail.LastNLines | backend/api/routers/system.py:137-143 | the result is empty when n <= 0, has at most n lines, and contains no excluded line |
| LogTail.ResultPositions | backend/api/routers/system.py:133-143 | the result occupies increasing file positions, holds min(n, k) of the k surviving lines, and includes every surviving line at or after its first line |
| LogTail.ResultIsSubsequence | backend/api/routers/system.py:133-143 | the result is a subsequence of the file's lines |
| LogTail.SurvivorsWithoutKeywords | backend/api/routers/system.py:129-130 | with no exclude keywords every line passes the filter |
| LogTail.NoKeywordsKeepsLastLines | backend/api/routers/system.py:129-143 | with no exclude keywords the result is the last min(n, number of lines) lines |
| LogTail.EmptyKeywordHidesAll | backend/api/routers/system.py:140-141 | an empty exclude keyword occurs in every line, so nothing is returned |
| LogTail.ExampleTail | backend/api/routers/system.py:128-143 | lines a, b, "ERROR c", d, e with n = 3 and keyword ERROR give b, d, e |
| LogTail.Reversed | backend/api/routers/system.py:133 | `[::-1]` keeps the length |
| LogTail.ReversedTwice | backend/api/routers/system.py:133-143 | reversing twice restores the original order |
| LogTail.ScanStep | backend/api/routers/system.py:137-142 | one more step of the newest-first scan appends the line exactly when it passes the filter |
| LogTail.ScanDone | backend/api/routers/system.py:137-143 | once the file is exhausted or n lines are kept, the kept lines are the last n survivors |
| LogTail.ReadLastNLines | backend/api/routers/system.py:128-143 | a missing file gives ["File not found: " + path]; otherwise, with None read as no keywords, the reverse-scan-with-break loop returns exactly `LastNLines` |
| SystemInfo.ValidCount | backend/api/routers/system.py:80-81 | the valid-conversation count is at most the total number of conversations |
| SystemInfo.AllValidIffFullCount | backend/api/routers/system.py:80-81 | the valid count equals the total exactly when every conversation is valid |
| SystemInfo.NoneValidIffZeroCount | backend/api/routers/system.py:81 | the valid count is zero exactly when no conversation is valid |
| SystemInfo.GetSystemInfo | backend/api/routers/system.py:70-83 | forces a refresh, so the cache then holds a fresh scan at now; reports the start time, total users = length of the user list, total conversations, and the valid count, which is at most the total |

## Left out

- HTTP routing, the `current_super_user` dependency and the response schemas belong to the web framework.
- The database session and the `select` queries are not modelled. Their results are the input sequences `users` and `conversations`.
- Reading the log file with `open` and `readlines` is not modelled. The file is an input of type `Option<seq<string>>`, whose lines are given as `readlines` yields them. Only `FileNotFoundError` is modelled; other I/O errors propagate in the source and are not modelled.
- The clock is a parameter `now` in integer seconds. `check_users` reads the clock three times (lines 39, 43 and 51), and the model uses one instant for all three. Sub-second precision and the mix of naive and timezone-aware datetimes are not modelled.
- Store failures are not modelled. In the source, a failed database fetch after line 43 has set the stamp leaves the cache in one of two states. After a refresh, or on the first call, it holds a new stamp but no result. Otherwise it holds the older result under the new stamp, and with a non-zero duration that older result would then be served as fresh. In the model the two cache fields are always set together, and a stored result is always a scan taken at its stamp (`UsersCache.Valid`).
- The race between concurrent requests on the two module-level cache variables is concurrency and is not modelled; calls are sequential.
- `make_fake_requests_count` and `make_fake_ask_records` are not modelled. They are unused, random, floating-point test generators.
- `get_request_statistics` is not modelled. It passes through counters maintained by other subsystems without computing anything.
- The config and credentials get/update/save endpoints are not modelled. They forward to a persistence subsystem that is not part of this model.
- `get_server_logs` only forwards its options to `read_last_n_lines`, which is modelled.
- The startup time is a process-wide global of the hosting application and is passed in as a parameter.
