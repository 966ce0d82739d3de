# Same Picture Posting Bot: a Dafny model of its scheduling core

The bot posts one configured picture to one Telegram channel again and again,
once per configured interval, and lets a single admin change the channel, the
interval and the picture by chat command. This project models the logic of
`main.py` that decides what happens. That logic has three parts:

- **Interval codec** (`codec.dfy`, module `Codec`). `parse_time_interval`
  turns a compact duration such as `1d12h30m45s` into seconds.
  `format_time_interval` turns seconds back into the canonical such string:
  only non-zero components, in d, h, m, s order, hours below 24, minutes and
  seconds below 60, and `0s` only for zero. This is not always the shortest
  string for the value: `"61s"` parses to 61, which formats as `"1m1s"`.
  The regular expression `(?:(\d+)d)?(?:(\d+)h)?(?:(\d+)m)?(?:(\d+)s)?`, used
  with `re.match`, is written out as a scanner. For each unit, in the order
  d, h, m, s, it takes the maximal ASCII digit run and consumes it only when
  the unit letter follows. No backtracking is needed, for two reasons.
  Between groups: every later group may match the empty string, so skipping
  or taking a group never makes the rest of the match fail. Inside a group:
  a run shorter than the maximal one is always followed by a digit, never by
  the unit letter, so only the maximal run can be taken. The match is the
  longest prefix made of groups (`MatchedPrefixLongest`).
- **Configuration record and handlers** (`bot_config.dfy`, module
  `BotConfig`). `config.json` is a `Config` datatype. Each handler that writes
  the record (`set_channel`, `set_interval`, `set_picture`, `post_now`,
  `post_scheduled_picture`) is a function from the old record to an outcome
  and the new record. The transport's answers enter as booleans: whether the
  command replies to a photo, whether the download worked, whether the
  picture file exists, whether the send worked. The clock enters as `now`.
- **Scheduler** (`scheduler.dfy`, module `Scheduler`). `schedule_next_post`
  computes two delays from the stored interval, the last post time and `now`:
  one for the post job and one for the next scheduling run.

`optional.dfy` holds the `Option` datatype used by the other three modules.

What is proved:

- `parse(format(n)) == n` for every `n >= 0`.
- `format` emits the unique canonical form of a duration. So
  `format(parse(s)) == s` for every string `format` can produce.
- The groups and their values fully describe the parse result. Leading zeros
  are accepted, and trailing text is ignored. The match is the longest
  prefix made of groups in d, h, m, s order.
- The error case is characterised exactly, for digit groups of any length.
  The one exception is CPython's digit limit on `int()`, listed under
  "Left out".
- The delay arithmetic is stated in closed form:
  `now + delay == max(last + interval, now + 1)`.
- The admin gate holds: the denial comes exactly for a caller other than the
  admin, and each failing check has its own outcome.
- A rejected command changes nothing, and an accepted one changes only its
  own field.
- Every handler keeps the invariant "the stored interval parses to at least
  10 seconds".
- `last_post_time` moves only on a successful post.

Behaviour of the source worth knowing, which the model keeps:

- `post_scheduled_picture` has no admin check. It is a timer job and has no
  caller, so `PostScheduled` has no gate either.
- Text after the last matched group is ignored rather than rejected
  (main.py:51-52). `"1h1d"` is 3600, not an error.
- A `last_post_time` of `0` counts as "never posted", the same as `null`
  (`None` in the model), because of the truthiness test at main.py:295.
- An interval string that does not parse makes `schedule_next_post` raise.
  That ends the timer chain (`Schedule.Halted`). With no earlier post, the
  first delay is exactly the parsed interval. `set_interval` never stores an
  interval below 10 seconds, but a pre-seeded or hand-edited `config.json`
  can hold one. With no earlier post, the first delay is then that interval
  itself, anywhere from 0 to 9 seconds: a stored `"5s"` gives delays 5 and 6.
- A failed scheduled post is retried quickly, not after a full interval.
  After an overdue post fails, the next scheduling run one second later finds
  the target still overdue and schedules another attempt one second later
  (`FailedPostRetries`).

## Model

| member | source | states |
|---|---|---|
| Codec.NatToString | main.py:73-79 | `str(n)` is a non-empty string of ASCII digits |
| Codec.NatToStringValue | main.py:57-60 | `int(str(n)) == n`: reading back the digits Python writes gives the number |
| Codec.NatToStringLeadingDigit | main.py:73-79 | `str(n)` starts with `0` exactly when `n` is 0 |
| Codec.DecimalValue | main.py:57-60 | `int(ds)` on ASCII digits: a leading zero does not change the value |
| Codec.DigitRun | main.py:51 | the length of the maximal ASCII digit run at the start, so `\d+` can take no more and no fewer |
| Codec.Step | main.py:51-52 | one optional group either captures nothing and consumes nothing, or captures a non-empty digit string and consumes exactly those digits followed by the unit letter |
| Codec.Scan | main.py:51-52 | the input is exactly the text of the well-formed groups matched (in d, h, m, s order) followed by the ignored remainder |
| Codec.MatchedPrefix | main.py:51-52 | the text the match consumed is a prefix of the input |
| Codec.MatchedPrefixLongest | main.py:51-52 | the match is the longest prefix of the input made of well-formed groups in d, h, m, s order: no such prefix is longer than the consumed text |
| Codec.ScanLongest | main.py:51-52 | scanning well-formed groups followed by any text leaves at most that text unconsumed |
| Codec.DigitRunAppend | main.py:51 | a digit run extended by digits is longer by exactly that many digits |
| Codec.StepOwnGroup | main.py:51 | a group with its own unit letter is captured in full, and the rest is left untouched |
| Codec.StepOtherGroup | main.py:51 | a group with another unit letter is skipped, and nothing is consumed |
| Codec.StepNoGroup | main.py:51 | no group is captured from text that does not start with a group (digits followed by d, h, m or s), including text of digits alone, and nothing is consumed |
| Codec.DigitRunPrefix | main.py:51 | a digit run that ends inside a string is not changed by what follows the string |
| Codec.BlockedGroup | main.py:51 | rendered groups of other units, when present, make a step for `unit` capture nothing |
| Codec.StepTail | main.py:51 | a step in front of its own group, or of groups of other units, consumes exactly its own group, whatever text follows |
| Codec.StepCarry | main.py:51 | a step in front of its own group, groups of other units and any text leaves those groups in front of a suffix of that text |
| Codec.CarrySeconds | main.py:51 | the step for seconds leaves a suffix of the text after the seconds group |
| Codec.CarryMinutes | main.py:51 | the steps for minutes and seconds leave a suffix of the text after those groups |
| Codec.CarryHours | main.py:51 | the steps from hours on leave a suffix of the text after the hours, minutes and seconds groups |
| Codec.StepRendered | main.py:51 | a step consumes exactly the group of its own unit in front of text that it would not consume |
| Codec.StepBlocked | main.py:51 | a step does not consume a later unit's group, nor what follows that group when it is absent |
| Codec.ScanRendered | main.py:51-52 | scanning any well-formed groups in d, h, m, s order, followed by text that does not start with a group, gives back exactly those groups and that text |
| Codec.Parse | main.py:42-63 | `ValueError` is raised exactly when the string is non-empty and no digit run followed by d, h, m or s stands at its start; the empty string is accepted |
| Codec.ValueDivMod | main.py:62-69 | components within their bounds (hours < 24, minutes and seconds < 60) are recovered from `days·86400 + hours·3600 + minutes·60 + seconds` by the `divmod` chain of `format_time_interval` |
| Codec.ParseRendered | main.py:42-63 | such a string with at least one group parses to days·86400 + hours·3600 + minutes·60 + seconds, with absent groups counted as 0 and leading zeros allowed |
| Codec.ParseIgnoresTrailing | main.py:51-62 | an accepted result depends only on the matched prefix; the input is that prefix followed by ignored text |
| Codec.ParseEmpty | main.py:47-48 | the empty string parses to 0 |
| Codec.ParseRejects | main.py:54-55 | `"garbage"`, `"5"` and `"h"` are rejected |
| Codec.ParseZeroSeconds | main.py:54-62 | `"0s"` is accepted as 0, because a captured `"0"` is a matched group |
| Codec.ParseAllUnits | main.py:57-62 | `"1d2h3m4s"` is 93784 seconds |
| Codec.ParseLeadingZero | main.py:57 | `"01d"` is 86400 seconds |
| Codec.ParseTrailing | main.py:51-52 | `"1dxyz"` is 86400 seconds: trailing text is ignored |
| Codec.ParseTrailingDigits | main.py:51-52 | `"1h30"` is 3600 seconds: trailing digits without a unit letter are ignored |
| Codec.ParseAs | main.py:42-63 | a string that is known to be well-formed groups, at least one of them present, followed by text that does not start with a digit parses to the value of those groups |
| Codec.ParseDaysAfterHours | main.py:51-52 | an hours group followed by a days group parses to the hours alone: a group out of order ends the match and is ignored as trailing text |
| Codec.ParseOutOfOrder | main.py:51-52 | `"1h1d"` is 3600 seconds: a group out of order ends the match |
| Codec.Format | main.py:65-81 | the output is never empty |
| Codec.PositiveGroupOf | main.py:72-77 | a positive component written with `str` is a canonical group with that value |
| Codec.Breakdown | main.py:65-81 | the emitted components are canonical: only non-zero ones in d, h, m, s order (`0s` only when nothing else is emitted), each written by `str`, hours < 24, minutes and seconds < 60; together they denote the input |
| Codec.EmitCanonical | main.py:72-79 | the emit rule applied to components within their bounds gives canonical groups denoting `days·86400 + hours·3600 + minutes·60 + seconds` |
| Codec.CanonicalIsBreakdown | main.py:65-81 | every canonical component list is the one format emits for its value, so each duration has exactly one canonical form |
| Codec.CanonicalNoLeadingZero | main.py:72-79 | no emitted group starts with `0`, except the lone `0s` of a zero duration |
| Codec.ParseFormat | main.py:42-81 | round trip: `parse(format(n)) == n` for every `n >= 0` |
| Codec.FormatParseCanonical | main.py:42-81 | a canonical string parses to its value, and formatting that value gives the string back |
| Codec.FormatInjective | main.py:65-81 | distinct durations format to distinct strings |
| Codec.FormatAs | main.py:65-81 | a value given by components within their bounds formats as the emit rule applied to those components |
| Codec.FormatZero | main.py:78-79 | `format(0) == "0s"` |
| Codec.FormatMinutes | main.py:65-81 | `format(90) == "1m30s"` |
| Codec.FormatAllUnits | main.py:65-81 | `format(90061) == "1d1h1m1s"` |
| Codec.FormatOneDay | main.py:65-81 | `format(86400) == "1d"` |
| Codec.FormatCanonicalizes | main.py:42-81 | `"01d"` parses, but formats back as `"1d"` |
| BotConfig.IntervalValid | main.py:184-191 | the interval invariant: the stored interval parses to at least 10 seconds; such an interval is non-empty and starts with a group |
| BotConfig.SetChannel | main.py:140-160 | accepted exactly for the admin with a first argument starting with `@`; the denial exactly for a non-admin; the channel error for the admin with no argument or one without `@`; on acceptance only `channel_name` changes, to that argument, and otherwise nothing changes |
| BotConfig.SetInterval | main.py:162-197 | accepted exactly for the admin with a first argument that parses to at least 10 seconds; the denial exactly for a non-admin; for the admin, a missing argument gives the usage error, an unparseable one the format error, and one below 10 seconds the too-short error; on acceptance only `post_interval` changes, to the raw argument, which then satisfies the interval invariant; otherwise nothing changes |
| BotConfig.SetPicture | main.py:199-228 | accepted exactly for the admin replying to a photo whose download worked; the denial exactly for a non-admin; for the admin, a command that does not reply to a photo gives the photo error, and a failed download ends in `DownloadFailed`, which stands for the exception `get_file` or `download_to_drive` raises out of the handler, with no reply sent; on acceptance only `picture_path` changes, to the saved path; otherwise nothing changes |
| BotConfig.Post | main.py:239-261 | the timestamp is recorded exactly when the picture exists and the send worked; a missing picture reports `PictureMissing`, a failed send `SendFailed`; on success only `last_post_time` changes, to `now` |
| BotConfig.PostNow | main.py:230-261 | the admin gate, then the shared post step: done exactly for the admin with an existing picture and a successful send; the denial exactly for a non-admin; for the admin, `PictureMissing` or `SendFailed`; a failure leaves the record unchanged; on success only `last_post_time` changes, to `now` |
| BotConfig.PostScheduled | main.py:263-286 | done exactly when the picture exists and the send worked, with no caller check; otherwise `PictureMissing` or `SendFailed`; on success only `last_post_time` changes, to `now` |
| BotConfig.Apply | main.py:312-337 | the handlers registered at main.py:332-337 and the timer job armed at main.py:312-315 never change `admin_id` or `bot_token` |
| BotConfig.NonAdminChangesNothing | main.py:145-147 | a caller other than `admin_id` gets the denial and changes nothing, through every command handler |
| BotConfig.RejectedChangesNothing | main.py:149-154 | a rejected command leaves the record as it was |
| BotConfig.ApplyKeepsIntervalValid | main.py:184-191 | once the stored interval parses to at least 10 seconds, no handler can break that |
| BotConfig.ApplyLastPostTime | main.py:255-257 | `last_post_time` changes only on a successful post, to that post's time; it never decreases while the clock does not go back |
| BotConfig.AcceptedChangesOneField | main.py:156-157 | an accepted command changes exactly its own field: a `@` channel, a valid interval, the saved picture path, or the post time |
| BotConfig.SetIntervalTooShort | main.py:184-188 | `"5s"` parses but is below the 10-second floor, so it is refused as too short |
| BotConfig.SetIntervalZero | main.py:184-188 | `"0s"` parses to 0 and is refused as too short |
| BotConfig.SetIntervalGarbage | main.py:184-197 | `"garbage"` is refused with the format error |
| BotConfig.SetIntervalAccepts | main.py:184-191 | `"10s"` is accepted and stored as written |
| Scheduler.NextDelays | main.py:295-320 | with no earlier post (`null` or 0) the delay is the interval; otherwise it is at least 1 and `now + delay == max(last + interval, now + 1)`; the reschedule delay is always `delay + 1` |
| Scheduler.ScheduleNext | main.py:288-320 | scheduling halts exactly when the stored interval does not parse; otherwise it uses the delays for the parsed interval |
| Scheduler.CatchUp | main.py:300-304 | an overdue post is caught up with one post after 1 second, however many intervals were missed; a post not yet due fires exactly at last post + interval |
| Scheduler.ValidIntervalSchedules | main.py:293-320 | with a valid stored interval scheduling never halts, the post delay is at least 1 (at least 10 before the first post), and the reschedule comes strictly after the post |
| Scheduler.PostThenSchedule | main.py:280-282 | after a successful post at `now` (for a post time other than 0), a scheduling run at any later time aims at `now` + interval (or 1 second ahead once that has passed); a run at the moment of the post waits one full interval. The lemma takes the post's write of `last_post_time` to come before that run; see the timer-chain line under "Left out" |
| Scheduler.FailedPostRetries | main.py:269-286 | a failed overdue post leaves the timestamp alone, so the run one second later schedules another attempt after 1 second (a full interval when nothing was ever posted) |
| Scheduler.DelayExamples | main.py:295-307 | sample delays: never posted, posted at 0, not yet due, overdue, and a stored 5-second interval with no earlier post |

## Left out

- Telegram transport (`reply_text`, `send_photo`, `get_file`, the async handlers): the model keeps only whether a send or a download succeeded, as a boolean.
- Opening the picture file for sending (main.py:249, 274): a failure there lands in the same `except` as a failed send, so it is part of `sent`.
- `load_config` / `save_config` and JSON (main.py:24-40): file I/O. A `config.json` without a `last_post_time` key makes main.py:120 and 295 raise `KeyError`; the record always has the field, and `None` stands for a JSON `null`. The record is a value. A `save_config` that fails after a successful send is not modelled.
- The job queue and the self-rescheduling timer chain (main.py:312-321): only the two delays handed to `run_once` are modelled. The next scheduling run is armed `delay + 1` seconds after the current run (main.py:318-320), not after the post finishes. If `send_photo` takes more than a second after an earlier post, that run re-reads the old `last_post_time` (main.py:295-302), finds the target overdue, takes delay 1 and posts a second time. The model does not capture this ordering; `PostThenSchedule` takes the post's write to come first.
- The race between the timer chain and the command handlers, which both read, modify and write the whole record: concurrency is out of scope.
- `start` and `status` (main.py:83-138): they only reply. The `datetime` rendering in `status` is display formatting.
- Picture download and naming in `set_picture` (main.py:209-218): the saved path is a parameter, and `os.makedirs` is not modelled.
- `os.path.exists` and `time.time()`: parameters (`pictureExists`, `now`); `now` stands for `int(time.time())`.
- Logging (main.py:14-19, and the `logger` calls).
- Codec.DigitRun: only ASCII `0`-`9` count as digits, although Python's `\d` also matches other Unicode decimal digits.
- Codec.DecimalValue: CPython's `int()` raises `ValueError` on a digit string longer than 4300 digits, while the model reads a digit string of any length. So the model accepts such a group where `parse_time_interval` would raise. A chat argument that long is not possible, because Telegram limits a message to 4096 characters; only a hand-edited `config.json` could hold one.
- Codec.Format: takes a non-negative number. Every caller in the source passes one (a parsed interval, or a delay of at least 1), so Python's `divmod` of a negative number is not modelled.
