# broadcast_bot — a Dafny model of the job dispatch engine

This project models the core of a Telegram broadcast bot. The model has three parts:

- **The dispatch loop** (`bot.py`). Each pass of `broadcast_loop` reads the active jobs and the non-blocked users. It fans every due job out to those users, sleeping `RATE_MS` once after each user, even when that user got a photo and then a document. It cancels each due one-shot job after its fan-out, and it ends with a 5-second sleep.
- **The `Broadcaster`** (`broadcast.py`). It sends one text or photo to a list of recipients. It classifies each answer of the provider as delivered, throttled, permanently rejected or failed otherwise. It keeps the two counters and sleeps between sends.
- **The store** (`db.py`). The SQLite tables `users` and `jobs` are modelled in memory.

Modules follow the source files:

| module | file | contents |
|---|---|---|
| `Common` | `common.dfy` | `Option`, truthiness of an optional string, `max(0, d)`, Python's code-point string order with its order laws |
| `Delivery` | `delivery.dfy` | send requests, the four outcomes, and the channel as an oracle |
| `Broadcast` | `broadcast.dfy` | the class `Broadcaster`, with outcome counting and sleep accounting |
| `Db` | `db.dfy` | row types, the SELECT statements as functions, and the class `Store` whose methods are the INSERT/UPDATE statements |
| `BotText` | `bottext.dfy` | `str.split()`, `str.isdigit()`, `int()`/`str()`, the command argument check, and the reply texts |
| `Bot` | `bot.dfy` | `send_message_with_media`, the due test, one pass of the loop (as a specification function and as the method `Bot.Tick`), and the operator commands |

External inputs become parameters:

- **The provider** is a `Channel`, a function from the requests already sent and the next request to an `Outcome`. An answer may therefore depend on everything sent before it.
- **Time** is `now`, the ISO string of the current instant. Dates are compared as strings, as the source does.
- **Sleeps** are added up as integer milliseconds in a counter. A negative delay sleeps 0, which is what `asyncio.sleep` does with one.
- **Store failures** are the parameter `failAt` of a pass. It is the index of the store call that raises:
  - 0 is `active_jobs`;
  - 1 is `get_all_users`;
  - 2, 3, … are the `cancel_job` calls in order.

  The exception abandons the rest of the pass, which then still sleeps 5 s.

The model follows the code as written:

- A throttled recipient (`RetryAfter`) is skipped, not retried. The `continue` moves on to the next recipient. That recipient is counted neither sent nor failed, and the inter-send delay is not slept (`Broadcast.SkippedThrottleScenario`). For the outcomes success, permanent, throttle(2), success, the code reports sent=2 from recipients 1 and 4.
- A permanent rejection only counts as failed. No code path marks a user blocked after a failed send.
- A due one-shot job is set to `'cancelled'`. The code has no "completed" status.
- The loop never reads `interval_seconds` or `CYCLE_SECONDS`; only the reply of `/set_cycle` shows `CYCLE_SECONDS`. An interval job fires on every pass.
- SQLite stores 64-bit integers. Binding a larger `int` raises `OverflowError`, so `/cancel 9223372036854775808` raises inside `cancel_job` and sends no reply (`Db.Store.CancelJob`, `Bot.Bot.CmdCancel`). An exhausted AUTOINCREMENT counter makes every further job insert fail (`Db.Store.AddJobOnce`, `Db.Store.AddJobInterval`).

## Model

| member | source | states |
|---|---|---|
| Common.Max0 | broadcast.py:14 | `max(0, d)`; what it means is stated by `Max0IsLeastAbove` |
| Common.Max0IsLeastAbove | broadcast.py:14 | `max(0, d)` is the least natural number at or above `d`, so a non-negative delay is kept, and clamping twice is clamping once |
| Common.StrLeMatchesReference | bot.py:125 | the recursive string comparison used for `now >= scheduled_at` agrees, in both directions, with the textbook definition: a prefix, or a first differing code point that is smaller |
| Common.StrLeReflexive | bot.py:125 | every timestamp is `>=` itself |
| Common.StrLeTransitive | bot.py:125 | the string order is transitive |
| Common.StrLeTotal | bot.py:125 | any two timestamps are comparable |
| Common.StrLeAntisymmetric | bot.py:125 | two timestamps each `>=` the other are equal |
| Delivery.Responses | broadcast.py:19-24 | there is one channel answer per request sent |
| Delivery.ResponsesAt | broadcast.py:19-24 | the i-th answer is the channel's answer to the i-th request, given everything sent before it |
| Broadcast.ThrottleSleepMs | broadcast.py:26-29 | a throttle without a timeout sleeps 6000 ms; one with timeout t ≥ 0 sleeps 1000·(t+1) ms |
| Broadcast.OutcomesPartition | broadcast.py:19-35 | every attempt is exactly one of sent, failed or throttled, so sent + failed + throttled = number of attempts |
| Broadcast.NoThrottleNoThrottleSleep | broadcast.py:19-36 | with no throttle, every attempt is sent or failed and no throttle wait is slept |
| Broadcast.TallyCounts | broadcast.py:19-36 | the tally counts exactly the successes as sent and exactly the permanent-or-other outcomes as failed; its sleep is delay · (sent + failed) plus the sum of the throttle waits |
| Broadcast.TallyPartition | broadcast.py:19-36 | sent + failed + throttled = number of attempts, so the two counters never exceed the recipients |
| Broadcast.Account | broadcast.py:25-36 | the `try` and `except` arms for one answer; their combined effect is stated by `TallyCounts` |
| Broadcast.TallyOf | broadcast.py:19-36 | the counters and sleep after a sequence of answers; `TallyCounts` and `TallyPartition` state what they are |
| Broadcast.SendCall | broadcast.py:21-24 | a photo is sent exactly when there is media, otherwise a text; `send_text` never sends a document |
| Broadcast.Broadcaster.constructor | broadcast.py:9-11 | the delay is stored as given (default 1200), not clamped |
| Broadcast.Broadcaster.SetDelay | broadcast.py:13-14 | the new delay is `max(0, d)`, so it is ≥ 0, and since the clamp keeps a non-negative value, setting it again gives the same delay |
| Broadcast.Broadcaster.SendText | broadcast.py:16-37 | one request per recipient, in order, with the right call, the text and parse mode, and the media only on a photo; the returned counters and the time slept are the tally of the channel's answers to those requests (see `TallyCounts` and `TallyPartition` for what the tally means) |
| Broadcast.SkippedThrottleScenario | broadcast.py:26-30 | for success, permanent, throttle(2), success, the tally is sent = 2, failed = 1 with one throttle, and the sleep is three delays plus 3000 ms: the throttled recipient is skipped, not retried |
| Db.GetAllUsers | db.py:63-67 | the fan-out list holds exactly the ids of the non-blocked rows |
| Db.UsersCountIsListLength | db.py:57-67 | `users_count` equals the length of `get_all_users` |
| Db.UsersCount | db.py:57-61 | `SELECT COUNT(*) ... WHERE is_blocked=0`; `UsersCountIsListLength` states its value |
| Db.BlockedUserNeverListed | db.py:63-67 | since ids are unique, a blocked user is never in the fan-out list |
| Db.ActiveJobs | db.py:99-102 | a job is returned exactly when it is in the table with status active |
| Db.ActiveJobsMultiset | db.py:99-102 | each active row is returned exactly as often as the table holds it and no other row is, so no job is fanned out twice in one pass |
| Db.ListJobs | db.py:88-91 | every job, cancelled ones included, is returned exactly once (same multiset), sorted by id descending |
| Db.CancelRows | db.py:93-97 | only the rows with that id get status cancelled; every other row is unchanged |
| Db.CancelledJobLeavesActive | db.py:93-102 | after a cancel, no job with that id is active, and every other active job still is |
| Db.Store.constructor | db.py:30-34 | a new database has empty tables and a zero AUTOINCREMENT counter |
| Db.Store.AddUser | db.py:36-44 | an existing user id leaves the table unchanged; a new id appends a row with `joined_at = last_active = now` that is not blocked |
| Db.Store.UpdateLastActive | db.py:46-50 | only that user's `last_active` changes, and an absent id changes nothing |
| Db.Store.MarkBlocked | db.py:52-55 | only that user's blocked flag is set, and an absent id changes nothing |
| Db.Store.AddJobOnce | db.py:70-77 | when the counter is exhausted or `created_by` does not fit an SQLite INTEGER, the insert fails and nothing changes; otherwise it appends an active 'once' job with `scheduled_at` set and no interval, and its id is one more than the counter, so it is greater than every earlier id |
| Db.Store.AddJobInterval | db.py:79-86 | fails and changes nothing exactly when the counter is exhausted or `created_by` or `interval_seconds` does not fit; otherwise it appends an active 'interval' job with `interval_seconds` set and no `scheduled_at`, and its id is greater than every earlier id |
| Db.Store.CancelJob | db.py:93-97 | an id outside SQLite's 64-bit range raises and changes nothing; any other id soft-cancels its rows, nothing else changes, and the result is true even when the id does not exist |
| BotText.Split | bot.py:62 | `split()` yields non-empty tokens without whitespace; which tokens is stated by `SplitSkipsSpace`, `SplitTakesWord` and `SplitTwoWords` |
| BotText.SplitSkipsSpace | bot.py:62 | leading whitespace of any length produces no token |
| BotText.SplitTakesWord | bot.py:62 | a whitespace-free word ended by whitespace or by the end of the text is exactly the next token |
| BotText.SplitTwoWords | bot.py:62 | two words with any non-empty run of whitespace between them and any whitespace around them split into exactly those two tokens |
| BotText.SplitJoinSpaced | bot.py:62 | splitting tokens joined by single spaces gives the tokens back |
| BotText.NatToString | bot.py:78 | `str(n)` is a string of digits whose `int()` value is n, with no leading zero unless n is 0 |
| BotText.CommandArg | bot.py:62-63 | the argument check: an argument is accepted, with the value `int` of the token, for a command followed by a number whatever the whitespace around it (`CommandArgAcceptsNumber`, `CommandArgAcceptsSpacedNumber`); it is refused for no argument, several arguments (`CommandArgRefusesOtherArity`) or a non-digit one (`CommandArgRefusesNonDigits`) |
| BotText.CommandArgAcceptsNumber | bot.py:62-66 | `/cmd <n>` is accepted with the value n |
| BotText.CommandArgRefusesOtherArity | bot.py:62-65 | a command with no argument, or with more than one, is refused |
| BotText.CommandArgRefusesNonDigits | bot.py:62-65 | a command whose argument is not all digits is refused |
| BotText.CommandArgAcceptsSpacedNumber | bot.py:62-66 | a command and a number with any whitespace between and around them are accepted with that number |
| BotText.CancelWithPaddingExample | bot.py:62-66 | `" /cancel  5\n"` is accepted with job id 5 |
| BotText.ZeroPaddedValue | bot.py:63-66 | `"0050"` passes `isdigit()` and `int()` gives 50 |
| BotText.SetRateLeadingZerosExample | bot.py:72-78 | `/set_rate 0050` is accepted with 50, and the reply shows `str(50)`, which is `50` |
| BotText.CancelLeadingZerosExample | bot.py:62-67 | `/cancel 0050` cancels job 50 but its reply echoes the token `0050` as typed |
| BotText.IsDigits | bot.py:63 | `isdigit()` for ASCII digits; its use is stated by the `CommandArg` lemmas |
| BotText.DigitsValue | bot.py:66 | `int()` of a digit string; `NatToString` proves that `int(str(n)) == n` |
| BotText.SetTokenReply | bot.py:91-99 | the `/set_token` reply; what it says for concrete command texts is stated by `SetTokenReplyEchoesToken` and `SetTokenReplyRefusesOtherArity` |
| BotText.SetTokenReplyEchoesToken | bot.py:91-99 | `/set_token` with one whitespace-free token, whatever the whitespace around it, replies with the saved-token text followed by that token, digits or not |
| BotText.SetTokenReplyRefusesOtherArity | bot.py:94-97 | `/set_token` with no token or with more than one replies with the usage text |
| BotText.JobLines | bot.py:56 | there is one line per row, in row order: `ID`, the id, the type and the status, separated by bars |
| BotText.JobsReplyLines | bot.py:53-57 | for a non-empty list, the reply splits on newlines into the header followed by exactly one line per job |
| BotText.JobsReply | bot.py:53-57 | the `/jobs` text; its line structure is stated by `JobsReplyLines` |
| Bot.Deliver | bot.py:102-112 | the send always ends without error; with media it sends a photo, followed by a document exactly when the photo got anything but success; without media it sends one text message; every request is to that user with the job's text and parse mode; the photo and the document carry the media, the text message none |
| Bot.FutureJobNotDue | bot.py:125 | a job scheduled later than now is not due |
| Bot.IsDue | bot.py:125 | `scheduled_at and now >= scheduled_at`; `FutureJobNotDue` and `DueStaysDue` state its properties |
| Bot.DueStaysDue | bot.py:125 | a due job stays due at every later instant |
| Bot.FanOutTriesEachUserOnce | bot.py:126-127 | a fan-out tries every user of the snapshot exactly once and in order, with at most one fallback per user, so it makes between n and 2n requests |
| Bot.FanOutPayload | bot.py:102-112 | every request of a fan-out goes to one of the snapshot's users with the job's text and parse mode, and a photo or document carries the job's media while a text message carries none; a text message is sent exactly when the job has no media |
| Bot.FanOutLog | bot.py:126-127 | the requests of one fan-out; `FanOutTriesEachUserOnce` and `FanOutPayload` state what they are |
| Bot.FanOutIgnoresTrigger | bot.py:132-135 | what a fan-out sends depends only on the job's text, media and parse mode, not on `interval_seconds` or `scheduled_at` |
| Bot.NotDueOnceJobSkipped | bot.py:124-129 | a 'once' job that is not due sends nothing, sleeps nothing and changes nothing |
| Bot.Step | bot.py:121-135 | one job of the pass specification; the lemmas below state its effect |
| Bot.RunJobs | bot.py:120-135 | the job loop of the pass specification, stopping at the first raising store call; `RunJobsCancelsDueOnce`, `RunJobsSleeps` and `RunJobsSendLog` state its effect |
| Bot.TickSpec | bot.py:115-140 | the pass specification; `TickWithoutFailure`, `FailedReadOnlySleeps` and `DueOnceJobNeverRefires` state its effect |
| Bot.IntervalJobFiresEveryPass | bot.py:132-135 | an 'interval' job is fanned out on every pass that reaches it, sleeps the rate once per user, and keeps its status |
| Bot.FailedCancelAbandonsPass | bot.py:117-140 | when the `cancel_job` after a due job's fan-out raises, the job stays as it was (still active) and no later job of that pass is looked at |
| Bot.FailedReadOnlySleeps | bot.py:117-140 | when `active_jobs` or `get_all_users` raises, the pass sends nothing, changes no job and only sleeps 5 s |
| Bot.RunJobsCancelsDueOnce | bot.py:120-131 | with no store failure, the job loop is never abandoned, and its job table is the old one with the ids of the due 'once' jobs cancelled one after the other |
| Bot.RunJobsSleeps | bot.py:120-135 | the job loop sleeps the rate once per user per firing job |
| Bot.RunJobsSendLog | bot.py:119-135 | with no store failure, the job loop only appends to the send log; the first attempts it appends are the user snapshot once per firing job, each time every user once and in order; nothing is sent when no job fires |
| Bot.TickWithoutFailure | bot.py:115-140 | a fault-free pass turns exactly the active, due 'once' jobs into cancelled and leaves every other row unchanged; the old send log is a prefix of the new one, and the first attempts added are the `get_all_users` list once per firing job; the sleep is 5 s plus the rate · users · firing jobs |
| Bot.DueOnceJobNeverRefires | bot.py:118-129 | after a fault-free pass, a due 'once' job is no longer among the active jobs, so no later pass fans it out again |
| Bot.Bot.constructor | bot.py:12-13 | `RATE_MS` and `CYCLE_SECONDS` start at the configured defaults (1200 ms, 3600 s) |
| Bot.Bot.SendToAll | bot.py:126-128 | the inner `for user_id in users` loop sends exactly the job's fan-out and sleeps `RATE_MS` once per user, after the last user too |
| Bot.Bot.RunJob | bot.py:121-135 | one iteration of the job loop changes the store, the send log and the sleep counter exactly as one step of the pass specification |
| Bot.Bot.RunJobList | bot.py:120-135 | the `for job in jobs_list` loop, left early when a store call raises, changes the store, the send log and the sleep counter exactly as the job loop of the pass specification |
| Bot.Bot.Tick | bot.py:115-140 | one pass of `broadcast_loop` leaves jobs, send log and slept time exactly as the pass specification says; users, the id counter, `RATE_MS` and `CYCLE_SECONDS` are unchanged |
| Bot.Bot.CmdCancel | bot.py:59-67 | with a valid argument that fits an SQLite INTEGER, that job is soft-cancelled and the reply names it; a larger number changes nothing and gets no reply; an invalid argument leaves the table unchanged and gets the usage text |
| Bot.Bot.CmdSetRate | bot.py:69-78 | with a valid argument, `RATE_MS` becomes its value and the reply shows it; otherwise `RATE_MS` is unchanged and the reply is the usage text |
| Bot.Bot.CmdSetCycle | bot.py:80-89 | with a valid argument, `CYCLE_SECONDS` becomes its value and the reply shows it; otherwise it is unchanged and the reply is the usage text |
| Bot.Bot.CmdJobs | bot.py:49-57 | an empty table gives "no jobs"; otherwise the reply is the header followed by one line per job, highest id first |

## Left out

- The aiogram `Bot`, `Dispatcher` and `executor`, handler registration, the `safe_handler` decorator, `message.answer` and logging: these are framework and I/O. Sends are requests to the channel oracle. Replies are returned strings.
- Concurrency: command handlers that run between the `await`s of a pass are not modelled. A command is a separate method called between passes.
- Bot.Bot.Tick: one `now` string serves for the whole pass. The source calls `datetime.utcnow()` again for each 'once' job.
- Bot.Bot.Tick: `RATE_MS` is read once per pass. A `/set_rate` during a pass, which the source would pick up at the next sleep, is not modelled.
- Float seconds (`RATE_MS / 1000`, `asyncio.sleep`) are modelled as integer milliseconds. A `RATE_MS` too large for a float (about 1.8·10^311 or more) makes `RATE_MS / 1000` raise in the source, so every later pass would abandon after its first user and never cancel a due one-shot job; the model has no float range and sleeps the rate as given.
- Broadcast.Broadcaster.SendText: a `RetryAfter` whose `timeout` cannot be converted by `int()` is not modelled. `None` stands for an exception without a `timeout` attribute.
- SQLite connections, transactions and commits are left out.
- Db.Store.constructor: models `init_db` on a new database file only; on an existing file `IF NOT EXISTS` keeps its rows.
- Db.Store.AddUser: a user id outside SQLite's 64-bit range would raise `OverflowError`; the bound is not modelled for user ids, which come from the provider.
- Db.Store.UpdateLastActive: the same `OverflowError` for a user id outside the 64-bit range is not modelled.
- Db.Store.MarkBlocked: the same `OverflowError` for a user id outside the 64-bit range is not modelled.
- Bot.Bot.CmdSetRate: on Python 3.11 and later, `int()` of more than 4300 digits raises `ValueError` and the handler sends no reply; the model has no digit limit.
- Bot.Bot.CmdSetCycle: the same 4300-digit `int()` limit is not modelled. For `/cancel` such a number is already beyond SQLite's range, and the model gives no reply.
- Unordered SELECTs (`get_all_users`, `active_jobs`) return rows in insertion order here.
- `str.split()` splits only on the ASCII whitespace characters and `\x1c`–`\x1f`. The other Unicode whitespace characters are left out.
- `str.isdigit()` accepts only ASCII `0`–`9`. Other Unicode digits are left out.
- `cmd_start`, `cmd_help` and `cmd_stats` are only framework replies. The store operations they call (`add_user`, `users_count`) are modelled.
- `/help` lists `/broadcast`, `/schedule` and `/schedule_every`, but `bot.py` has no handlers for them.
- `scheduler.py` (an APScheduler wrapper), `captcha.py` (an interaction handler that is never registered) and `config.py` (environment loading) are not part of this model. The configured defaults appear as constants.
- The provider's behaviour is entirely the channel oracle's. Why a send fails is not modelled, only which of the four outcomes comes back.
