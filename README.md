# CatPic daily photo bot — a verified model

This project models `bot.py`, a chat bot that sends every registered user one cat picture a
day, at a time of day the user picks. The bot keeps three tables:

- `users`: user id to "HH:MM";
- `sent`: user id to the images that user has received in the current cycle;
- the scheduler's job table: one daily job per user id.

The model covers:

- the image catalog built from the photo folder (`get_photo_list`);
- the rotation that picks each user's next image (`send_photo_to_user`);
- the two readings of a time string, `strptime("%H:%M")` in `/time` and `split(":")`/`int`/`CronTrigger` in `schedule_user_job`;
- registration and the welcome image (`start`);
- rescheduling (`set_time`);
- the scheduling loop of `main`.

Modules, one per file:

- `Common` (common.dfy): `Option` and duplicate-freedom.
- `Text` (text.dfy): the parts of Python's `str` the bot uses:
  - code-point ordering as used by `sorted`;
  - `lower` and `startswith`;
  - `split` on one character, with its inverse `Join`;
  - `int` of a run of digits.
- `PhotoCatalog` (catalog.dfy): the catalog, with its uniqueness theorem: sorting has one outcome.
- `Rotation` (rotation.dfy):
  - the pure selection policy;
  - what repeated successful deliveries add up to: a cycle through the catalog in order, then the same cycle again.
- `TimeFormat` (time_format.dfy):
  - CPython's regular expression for "%H:%M", `(?P<H>2[0-3]|[0-1]\d|\d):(?P<M>[0-5]\d|\d)`, matched the way `re.match` does, followed by the "unconverted data remains" check;
  - a declarative reference definition of the strings it accepts;
  - the `split`/`int`/trigger-range path, and a proof that it agrees whenever `strptime` accepts.
- `Welcome` (welcome.dfy): the welcome loop of `start`, a `for` loop with `found` and `break`, proved against a reference definition of the replies.
- `PhotoBot` (bot.dfy): class `Bot`.
  - Its fields are the three tables.
  - Its handlers are methods whose contracts give the whole new state.
  - `Valid()` is the invariant `Consistent(users, jobs)`: "every registered user has exactly one job, for them, at their stored time, and no one else has a job".

How Python's behaviour is modelled:

- Outside effects are inputs:
  - the folder listing: `None` when it cannot be read;
  - which start files exist;
  - whether each send succeeds.
- Where Python raises, the model has an explicit error value or result.

Where the code and its design description differ, the model follows the code:

- The history resets when no catalog image is left unseen, not when the history equals the catalog. A history may keep names of images that were removed from the folder.
- A welcome file that exists but fails to send does not end the search; the next extension is tried.
- `/time` stores the time for a user who never sent `/start`.

## Model

| member | source | states |
|---|---|---|
| `Text.LexLeTotal` | bot.py:36 | any two names are ordered one way or the other, as `sorted` needs |
| `Text.LexLeTransitive` | bot.py:36 | the string order used by `sorted` is transitive |
| `Text.LexLeAntisymmetric` | bot.py:36 | two names ordered both ways are equal |
| `Text.Split` | bot.py:60 | `split(":")` gives at least one field, no field contains ':', and joining the fields with ':' gives back the string |
| `Text.SplitJoin` | bot.py:60 | splitting undoes joining for fields without ':' |
| `PhotoCatalog.PhotoList` | bot.py:35-36 | the catalog is ascending in Python's string order; it has a name exactly when the listing has it and its lower-case form does not start with "start"; each kept name occurs exactly as often as in the listing |
| `PhotoCatalog.DropWelcome` | bot.py:36 | the filter keeps every name whose lower-case form does not start with "start", as often as the listing has it, and no other name |
| `PhotoCatalog.SortNames` | bot.py:36 | `sorted` gives an ascending sequence with the same names, each as often |
| `PhotoCatalog.Insert` | bot.py:36 | inserting into an ascending sequence keeps it ascending and adds exactly the one name |
| `PhotoCatalog.SortedUnique` | bot.py:36 | two ascending sequences with the same elements are equal |
| `PhotoCatalog.SortedFirstIsLeast` | bot.py:36 | the head of an ascending sequence comes before every other element |
| `PhotoCatalog.SortedSameHead` | bot.py:36 | two ascending sequences with the same elements begin with the same element |
| `PhotoCatalog.PhotoListIsTheSortedSelection` | bot.py:36 | every ascending sequence holding exactly the non-welcome names of the listing is the catalog |
| `PhotoCatalog.PhotoListNoDuplicates` | bot.py:36 | a listing without repeated names gives a catalog without repeated names |
| `Rotation.Unseen` | bot.py:43 | `available` is empty exactly when every catalog image was received; its head is the first unseen catalog image |
| `Rotation.UnseenSpec` | bot.py:43 | `available` holds exactly the catalog images not in the history |
| `Rotation.FirstUnseenSpec` | bot.py:43-50 | every catalog image before the first unseen one is in the history, and that one is not |
| `Rotation.SelectNextSpec` | bot.py:41-54 | something is sent exactly when the catalog is non-empty; it is a catalog image, and an unseen one whenever one exists; the stored history is the old one plus that image, or just that image after a reset, and a reset sends the first image |
| `Rotation.FirstUnseenIsChosen` | bot.py:43-54 | when image i is the first the user has not received, image i is sent and the history becomes the old history with image i appended |
| `Rotation.ResetWhenAllSeen` | bot.py:45-54 | when the user has received every catalog image, the first image is sent and the history becomes exactly that image |
| `Rotation.NewUserGetsFirstImage` | bot.py:41-54 | catalog a, b, c and an empty history: a is sent and the history becomes [a] |
| `Rotation.ExhaustedHistoryRestarts` | bot.py:45-54 | catalog a, b, c and history [a, b, c]: a is sent and the history becomes [a] |
| `Rotation.SelectionWithinCatalog` | bot.py:43-53 | the chosen image is a catalog image, and a history of catalog images stays a history of catalog images |
| `Rotation.SelectionKeepsHistoryDistinct` | bot.py:43-53 | a history without repeats stays without repeats |
| `Rotation.FirstUnseenAfterPrefix` | bot.py:43 | with distinct images, after the first j of them the first unseen image is image j |
| `Rotation.DeliveryAfterPrefix` | bot.py:43-54 | with distinct images and the first j received, the next successful delivery sends image j |
| `Rotation.DeliveriesWithinCycle` | bot.py:43-54 | with distinct images, successful deliveries within a cycle send the catalog in order and the history grows along it |
| `Rotation.CompletedCycleRestarts` | bot.py:45-54 | after a complete cycle, the following deliveries are exactly those of a new user |
| `Rotation.OneCycle` | bot.py:43-54 | from an empty history, n successful deliveries send the whole catalog in order, and the history becomes the catalog |
| `Rotation.FirstDelivery` | bot.py:41-54 | a new user's first delivery is the first catalog image |
| `Rotation.FullCycle` | bot.py:43-54 | n successful deliveries send each of the n images exactly once in catalog order; delivery n + 1 sends the first image again |
| `Rotation.CycleEnd` | bot.py:45-54 | at the end of a cycle nothing of it remains to send, and what follows is a new user's rotation |
| `Rotation.CycleStep` | bot.py:43-54 | before the end of a cycle, the next delivery sends image j and the rest continue from j + 1 |
| `Rotation.CycleThenRestart` | bot.py:43-54 | from the first j images received, the deliveries send the rest of the catalog, then repeat a new user's rotation |
| `Rotation.Periodic` | bot.py:43-54 | n + k successful deliveries from an empty history send the catalog, then exactly the first k deliveries again, ending with the same history |
| `TimeFormat.FirstMatch` | bot.py:97 | a group of alternatives matches exactly when one of them matches the start of the string, and it consumes only digits |
| `TimeFormat.AfterHour` | bot.py:97 | the rest of the pattern after the hour is ':' followed by digits |
| `TimeFormat.MatchHourThen` | bot.py:97 | a match has a non-empty hour of digits, then ':', then a non-empty minute of digits |
| `TimeFormat.MinuteGroup` | bot.py:97 | the minute group matches when a digit follows the ':', and takes two digits exactly when they spell at most 59 |
| `TimeFormat.HourAlternativesInOrder` | bot.py:97 | the hour alternatives `2[0-3]`, `[0-1]\d` and `\d` are tried in that order |
| `TimeFormat.TwoDigitHour` | bot.py:97 | the two-digit hour alternatives together take exactly the two-digit hours up to 23 |
| `TimeFormat.OneDigitHour` | bot.py:97 | the one-digit hour alternative takes any single digit |
| `TimeFormat.MinuteField` | bot.py:97 | the minute group reaches the end of the string exactly when the rest is one or two digits up to 59 |
| `TimeFormat.AfterHourToEnd` | bot.py:97 | after a k-character hour, the match covers the whole string exactly when ':' and a valid minute field follow |
| `TimeFormat.StrptimeReadsLiteral` | bot.py:97 | a string of a one- or two-digit hour up to 23, ':', and a one- or two-digit minute up to 59 is accepted by `strptime`, which reads the numbers it spells |
| `TimeFormat.StrptimeOnlyLiterals` | bot.py:97 | every string `strptime` accepts has that form, with the ':' at position 1 or 2 |
| `TimeFormat.StrptimeAcceptsLiterals` | bot.py:97 | `strptime(s, "%H:%M")` succeeds exactly for one- or two-digit hours up to 23, ':', and one- or two-digit minutes up to 59, and reads the numbers they spell |
| `TimeFormat.CronFields` | bot.py:60-62 | a time the trigger accepts has hour at most 23 and minute at most 59 |
| `TimeFormat.CronReadsLiteral` | bot.py:60-62 | two colon-separated digit runs with values up to 23 and 59 pass `split`, `int` and the trigger, which use those values |
| `TimeFormat.CronOnlyLiterals` | bot.py:60-62 | every time the trigger path accepts has that form, split at its only ':' |
| `TimeFormat.CronFieldsAcceptsLiterals` | bot.py:60-62 | `split(":")`, `int` and the trigger accept exactly two colon-separated digit runs with values up to 23 and 59, and use those values |
| `TimeFormat.StrptimeAgreesWithCron` | bot.py:97-100 | whatever `/time` accepts is scheduled at the same hour and minute that `strptime` read, so the rescheduling after it cannot raise |
| `TimeFormat.TwoDigitTime` | bot.py:97 | a zero-padded "HH:MM" with hour up to 23 and minute up to 59 is read by `strptime` as the numbers its digits spell, and the trigger path reads the same |
| `TimeFormat.DefaultTimeAccepted` | bot.py:68 | the default "10:00" passes both readings as 10:00 |
| `TimeFormat.HalfPastNineAccepted` | bot.py:97-100 | "09:30" passes both readings as 9:30 |
| `TimeFormat.HourAboveRangeRejected` | bot.py:97 | "25:00" is refused by `strptime` |
| `TimeFormat.NoColonAfterHourRejected` | bot.py:97 | a string with no ':' at position 1 or 2 is refused by `strptime` |
| `TimeFormat.PaddedHourScheduled` | bot.py:60-62 | the trigger path reads "007:05" as 7:05 |
| `TimeFormat.PaddedHourOnlyByTrigger` | bot.py:60-62 | "007:05" is refused by `strptime` but accepted by the trigger path, so only a time read from the users file can be scheduled that way |
| `Welcome.FirstSent` | bot.py:74-81 | the index where the loop stops: the first extension whose file exists and sends; none before it does |
| `Welcome.FailureNotices` | bot.py:82-83 | a failure notice is sent exactly for the start files that exist but fail to send |
| `Welcome.SendWelcome` | bot.py:73-87 | the loop over jpg, jpeg, png and webp with `found` and `break` sends exactly the reference replies: notices for the failed files tried, then the first file that sends, or "No start image found." |
| `Welcome.NoStartImageExactlyWhenNothingSent` | bot.py:86-87 | "No start image found." is sent exactly when no start file both exists and sends |
| `Welcome.WelcomePhotoIsFirstThatSends` | bot.py:74-81 | a welcome photo that is sent is the file of the first extension, in the fixed order, that exists and sends, and it is the last reply |
| `Welcome.StartFilesLeftOutOfCatalog` | bot.py:36 | the welcome files start.jpg, start.jpeg, start.png and start.webp never appear in the daily rotation |
| `PhotoBot.JobFor` | bot.py:59-63 | a job exists exactly when the trigger can be built; it is for that user, at a valid hour and minute |
| `PhotoBot.DefaultJob` | bot.py:68 | a new user's job runs at 10:00 |
| `PhotoBot.ConsistentAfterSchedule` | bot.py:59-63 | storing a user's time and installing the job it yields keeps every registered user with exactly one job at their stored time |
| `PhotoBot.Bot.constructor` | bot.py:32-33 | the bot starts with the loaded `users` and `sent` tables and no jobs |
| `PhotoBot.Bot.SendPhotoToUser` | bot.py:38-57 | an unreadable folder or an empty catalog sends nothing and leaves `sent` as it was; otherwise the image `SelectNext` picks is sent; on success only this user's entry changes, to `SelectNext`'s history; on failure `sent` is unchanged |
| `PhotoBot.Bot.ScheduleUserJob` | bot.py:59-63 | when the time makes a trigger, the user's job is inserted or replaced and no other job changes; otherwise the table is unchanged |
| `PhotoBot.Bot.Start` | bot.py:65-87 | a new user is registered at "10:00"; an existing user's time and the job table are unchanged; the user has a job matching their time; the replies are the welcome loop's; the invariant is kept |
| `PhotoBot.Bot.SetTime` | bot.py:89-103 | no argument gives the usage reply, and a time `strptime` refuses gives the invalid-format reply, both with nothing changed; a valid time is stored, and the user's job is replaced by one at the hour and minute `strptime` read; the invariant is kept |
| `PhotoBot.Bot.ScheduleRegistered` | bot.py:111-113 | start-up succeeds exactly when every stored time makes a trigger; then the job table holds exactly one job per registered user, at that user's time |

## Left out

- Message transport (`send_photo`, `reply_photo`, `reply_text`, `InputFile`) belongs to a foreign library. A send is an input (`success`, or the `sendOk` set of start files that send). Replies are constructors rather than texts. An exception raised by `reply_text` itself is not modelled.
- JSON files (`load_json`, `save_json`): `users` and `sent` are in-memory maps. The constructor takes them already loaded. A failing save is not modelled. A users record `{"time": ...}` is reduced to its time string.
- The file system. `os.listdir` becomes the listing input, with `None` when the folder cannot be read. `os.path.exists` becomes the `present` set of existing start files.
- Scheduler firing is not modelled: `CronTrigger` timing, the Buenos Aires time zone, daily recurrence and `scheduler.start`. Only the job table is modelled: its upsert by id, and the trigger's range check on hour and minute. The trigger's job arguments (`app`, user id) are reduced to the user id.
- Concurrency between the scheduler and the command handlers is not modelled. Each operation is one atomic step.
- Logging, `datetime.now()`, `Application` construction, handler registration and `run_polling` are not modelled.
- `PhotoBot.Bot.ScheduleRegistered`: `main`'s loop visits users in dictionary order; the model visits them in any order. Only which failing user ends start-up depends on the order.
- `PhotoBot.Bot.Start`: requires `Valid()`. Handlers run only after `main`'s loop has scheduled every user, because a failure there stops the process. So the case where `start`'s own scheduling raises does not arise.
- `PhotoBot.Bot.SetTime`: has no path where a `ValueError` from the rescheduling reaches the invalid-format reply. Such an error cannot occur there, as `TimeFormat.StrptimeAgreesWithCron` shows.
- `Text.ParseInt`: accepts only non-empty runs of ASCII digits. Python's `int` also accepts surrounding whitespace, a sign, underscores between digits and non-ASCII decimal digits. This changes `CronFields` only for unusual times read from the users file.
- `TimeFormat.Strptime`: `\d` is modelled as the ASCII digits. Python's regular expressions also match other Unicode decimal digits.
- `Text.Lower` folds only A–Z. This is exact for the catalog's test, because no character but 'S', 'T', 'A' and 'R' lower-cases to any of "start". Python's only multi-character lower-case mapping, for U+0130, begins with 'i'.
- `Rotation.Deliveries` composes successful deliveries only. A failed delivery leaves `sent` unchanged (`PhotoBot.Bot.SendPhotoToUser`), so it adds nothing to the rotation.
