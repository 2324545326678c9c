# Daily wake-up alarm bot, modelled in Dafny

This project models a Telegram bot that sets daily alarms and then holds a
short conversation to wake the user. The bot's state and every command
that changes it are pure functions over immutable data.

- `Registry` and `Conversation` model `AlarmScheduler` (bot/alarm.py). The
  registry is a two-level map from user to alarm text to daily-job handle.
  It moves in step with a job queue that records which jobs are installed
  and which are cancelled. A firing job opens a wake-up session. The
  replies continue it with a language model, a fixed fallback, or canned
  follow-ups.
- `Config` models the message catalogues and `validate_time_format`
  (config.py).
- `TimeUtils`, `MessageUtils` and `ValidationUtils` model the helpers of
  bot/utils.py.
- `SimpleBot` models the polling variant (simple_bot.py). It keeps an
  alarm map without handles, a per-user marker for the alarm that is
  ringing, and a wake-up chat that ends after three exchanges.
- `Strings`, `Numbers`, `Ordering`, `Clock` and `Wrappers` model the
  pieces of Python these rely on: `str.split` and `str.join` on a
  one-character separator, `int()` on a sign and ASCII digits, `str(n)`,
  `f"{n:02d}"`, string `<` with `sorted()`, and a shared reading of
  `H:M` texts.

Time, randomness and the language model are parameters:

- A poll is given the hour and minute that `strftime("%H:%M")` would
  render.
- `random.choice(xs)` is `xs[pick % |xs|]`.
- The model is `Absent`, or a function from prompt to a generated text or
  a failure.
- `delivered` says how many sends succeed before one raises.
- `queueAvailable` says whether the application has a job queue.

## Model

| member | source | states |
|---|---|---|
| Strings.Split | bot/alarm.py:62 | `split` on a one-character separator gives one piece more than there are separators, and no piece contains the separator |
| Strings.JoinSplit | config.py:82 | joining the pieces of a split with the separator gives the text back |
| Strings.SplitJoin | bot/alarm.py:177-185 | splitting the join of separator-free pieces gives the pieces back, so the lines of a joined rendering can be read off one by one |
| Strings.Join | bot/alarm.py:185 | `"\n".join` of no lines is the empty text and of one line is that line |
| Strings.JoinSeparators | bot/alarm.py:185 | a join of `n` pieces holds at least `n - 1` separators, and exactly `n - 1` when no piece contains the separator |
| Strings.SplitTwo | config.py:82-84 | a text splits into exactly two pieces iff it holds the separator exactly once; the pieces are then the text before and after it |
| Strings.SplitPair | config.py:82-84 | two separator-free texts glued with the separator split back into exactly those two |
| Numbers.ParseInt | config.py:86-87 | `int()` accepts exactly an optional sign followed by one or more ASCII digits |
| Numbers.Decimal | bot/utils.py:93-95 | `str(n)` of a natural number is a non-empty run of digits with no leading zero that reads back as `n` |
| Numbers.ParseIntText | bot/utils.py:153 | `int(str(n)) == n` for every integer |
| Numbers.IntText | bot/utils.py:153 | `str(n)` starts with a minus sign exactly when `n` is negative, and the digits after it read back as the magnitude of `n` |
| Numbers.ParsePad2 | bot/utils.py:32 | `int(f"{n:02d}") == n`; the padded text is at least two characters of digits after an optional minus |
| Numbers.Pad2Length | bot/utils.py:32 | a value in 0..99 pads to exactly two characters |
| Numbers.Pad2 | bot/utils.py:32 | `f"{n:02d}"` zero-fills only up to width two: a value in 0..9 is `0` and its digit, a value of 10 or more is its plain `str` with no leading zero (123 gives "123"), and a negative value is its plain `str`; for `n >= 0` the digits read back as `n` |
| Ordering.LessIrreflexive | bot/alarm.py:164 | string `<` never holds between a string and itself |
| Ordering.LessAsymmetric | bot/alarm.py:164 | string `<` never holds in both directions |
| Ordering.LessTransitive | bot/alarm.py:164 | string `<` is transitive |
| Ordering.LessTotal | bot/alarm.py:164 | any two different strings are ordered one way or the other |
| Ordering.LeastExists | bot/alarm.py:164 | every non-empty finite set of strings has a least element |
| Ordering.LeastUnique | bot/alarm.py:164 | that least element is unique |
| Ordering.SortedList | bot/alarm.py:164 | `sorted(keys)` is strictly ascending and holds each key once, and nothing else |
| Clock.Fields | config.py:82-84 | a text has two `:`-pieces iff it holds exactly one `:`; gluing the pieces around `:` rebuilds the text |
| Clock.SplitFields | config.py:82-84 | the two-piece test of `split(':')` and `Fields` agree, and so do their pieces |
| Clock.FieldsOfPair | bot/utils.py:30-33 | two colon-free pieces glued with `:` are read back as those pieces |
| Clock.ReadPair | config.py:82-87 | two colon-free pieces that both parse as integers are read as those integers |
| Clock.ClockTextRoundTrip | bot/utils.py:30-33 | reading back `f"{h:02d}:{m:02d}"` gives `h` and `m`, for any integers |
| Config.ValidateTimeFormat | config.py:79-98 | the result is `invalid_time` unless the text is two integers around one `:`. Otherwise it is `invalid_hour` for an hour outside 0..23, checked before the minute, then `invalid_minute` for a minute outside 0..59, else ok. Every reported key has an error text |
| Config.ValidateClockText | config.py:79-98 | every zero-padded rendering is classified by its hour and minute alone: in range is ok, a bad hour is reported before a bad minute |
| Config.InRangeIsValid | config.py:89-95 | any text read as an in-range hour and minute validates, whatever its padding |
| Config.UnpaddedAccepted | config.py:79-98 | both "07:30" and "7:30" are accepted |
| Config.UnpaddedSameReading | config.py:86-87 | "07:30" and "7:30" read as the same hour and minute |
| Config.HourReportedFirst | config.py:89-93 | "24:99" reports the hour, not the minute |
| Config.NegativeHour | config.py:86-90 | "-1:30" parses and is reported as `invalid_hour`, not as malformed |
| Config.MinuteOutOfRange | config.py:92-93 | "7:60" is reported as `invalid_minute` |
| Config.NoSeparator | config.py:82-84 | "7-30" is malformed |
| Config.TwoSeparators | config.py:82-84 | "7:30:00" is malformed |
| Config.NonIntegerMinute | config.py:86-98 | "7:3a" is malformed: a non-integer piece raises and is caught |
| TimeUtils.FormatTimeForDisplay | bot/utils.py:20-34 | a text that reads as two integers becomes their zero-padded rendering, with no range check; any other text comes back unchanged |
| TimeUtils.FormatTimeIdempotent | bot/utils.py:20-34 | normalising twice is normalising once |
| TimeUtils.FormatTimePreservesReading | bot/utils.py:30-33 | normalising keeps the hour and minute the text denotes; a valid time becomes exactly five characters |
| TimeUtils.FormatTimeExample | bot/utils.py:30-33 | "7:5" is displayed as "07:05" |
| TimeUtils.IsValidTimeString | bot/utils.py:37-57 | accepts exactly the texts of two integers around one `:` with the hour in 0..23 and the minute in 0..59 |
| TimeUtils.ValidatorsAgree | bot/utils.py:47-57 | the boolean validator accepts exactly what `validate_time_format` accepts, config.py:79-98 |
| TimeUtils.FormatTimeKeepsValid | bot/utils.py:20-57 | a valid text stays valid after normalising and denotes the same time |
| MessageUtils.ReplaceExtendsEscape | bot/utils.py:75 | one more `replace(c, '\\' + c)` escapes one more character `c`, provided `c` is not a backslash and was not escaped yet |
| MessageUtils.ReplaceEachEscapes | bot/utils.py:74-75 | replacing distinct, backslash-free characters in turn escapes all of them |
| MessageUtils.EscapeCharsFresh | bot/utils.py:73 | the eighteen listed characters are distinct and none is a backslash |
| MessageUtils.ReplaceEachIsOnePass | bot/utils.py:74-76 | for distinct backslash-free characters, the sequence of `replace` calls equals one pass that escapes each of them |
| MessageUtils.ReplaceChar | bot/utils.py:75 | `text.replace(c, "\\" + c)` makes the text one character longer per occurrence of `c`, and leaves a text without `c` as it is |
| MessageUtils.EscapeMarkdown | bot/utils.py:73-76 | `escape_markdown` equals one left-to-right pass that prefixes each listed character with a backslash, so no backslash it adds is escaped again. It adds exactly one backslash per listed character, unescaping gives the input back, and text without listed characters is returned as it is |
| MessageUtils.EscapeNothing | bot/utils.py:74-76 | escaping no characters changes nothing |
| MessageUtils.EscapeWithLength | bot/utils.py:74-76 | the single pass adds exactly one character per listed character |
| MessageUtils.UnescapeEscapeWith | bot/utils.py:74-76 | reading a backslash and a listed character as that character undoes the single pass |
| MessageUtils.EscapeWithPlain | bot/utils.py:74-76 | text with no listed character passes through unchanged |
| MessageUtils.FormatAlarmList | bot/utils.py:79-97 | the fixed empty text is returned exactly for the empty list |
| MessageUtils.AlarmLines | bot/utils.py:93-94 | line `i` is the `i`-th alarm with its number, in the given order |
| MessageUtils.NumberedLinesJoin | bot/utils.py:93-94 | the text the numbering loop appends equals the numbered lines joined by newlines, followed by what comes after |
| MessageUtils.FormatAlarmListIsJoin | bot/utils.py:89-97 | a non-empty list text is its title, a blank line, the numbered lines, a blank line and the total, joined by newlines |
| MessageUtils.ListLinesHaveNoBreak | bot/utils.py:92-96 | none of those lines holds a line break when no alarm text does |
| MessageUtils.FormatAlarmListLines | bot/utils.py:79-97 | read line by line, a non-empty list text has `n + 4` lines: the title, a blank line, alarm `i` numbered `i` in order, a blank line and `Total: n` |
| ValidationUtils.ValidateUserInput | bot/utils.py:138-155 | an input is valid iff it is non-empty and no longer than the limit. Emptiness is reported first, the length error names the limit, and a valid input has an empty message |
| ValidationUtils.KeepAllowed | bot/utils.py:169 | keeps only non-control characters and line breaks and tabs, and never lengthens; text made only of such characters is kept whole |
| ValidationUtils.KeepAllowedChar | bot/utils.py:169 | a single character is kept exactly when its code is at least 32 or it is a line break, carriage return or tab |
| ValidationUtils.KeepAllowedConcat | bot/utils.py:169 | the filter works piecewise: filtering a concatenation concatenates the filtered parts, so the kept characters stay in their order |
| ValidationUtils.SanitizeInput | bot/utils.py:158-172 | the result is the first `min(1000, kept)` of the kept characters and holds no other control character; clean text within the limit is unchanged |
| ValidationUtils.SanitizeIdempotent | bot/utils.py:158-172 | sanitising twice is sanitising once |
| ValidationUtils.ValidateSanitized | bot/utils.py:138-172 | a sanitised input passes `validate_user_input` with the default limit exactly when at least one character survives the filter, and at most 100 (the default limit) do |
| Registry.Insert | bot/alarm.py:80-83 | storing a handle adds exactly that key, keeps every other key and handle, and creates the user's entry only when needed |
| Registry.Delete | bot/alarm.py:110-115 | dropping a key removes exactly that key, keeps every other key and handle, and drops the user's entry iff it held only that key |
| Registry.EmptyValid | bot/alarm.py:19-23 | the starting registry holds no alarm and satisfies the invariant |
| Registry.JobQueue.RunDaily | bot/alarm.py:72-78 | `run_daily` adds exactly the new job under the returned handle and cancels nothing; with handles below `next` the returned handle is unused |
| Registry.RunDailyKeepsHandles | bot/alarm.py:72-78 | installing keeps handles fresh; the new job is live and no other job starts or stops running |
| Registry.JobQueue.Cancel | bot/alarm.py:108 | `schedule_removal` keeps the jobs and marks exactly the given handles cancelled |
| Registry.CancelKeepsHandles | bot/alarm.py:139-140 | cancelling installed jobs keeps handles fresh, and exactly the cancelled jobs stop running |
| Registry.Install | bot/alarm.py:72-85 | a successful add reports `alarm_set` with the time, adds exactly the new key, and installs one job whose handle is the one stored for that key; nothing is cancelled |
| Registry.AddAlarm | bot/alarm.py:39-89 | a validation error is reported with its own key, and an existing key gives `alarm_exists`; without a job queue the add fails with `general_error`. In each failure nothing changes. It succeeds iff the text validates, the key is new and there is a queue. Then old alarms keep their handles and the new job runs at the hour and minute the text denotes |
| Registry.RemoveAlarm | bot/alarm.py:91-122 | an unknown key gives `alarm_not_found` and changes nothing. Otherwise exactly that key goes, only its job is cancelled, and the user's entry goes with its last key |
| Registry.RemoveAllAlarms | bot/alarm.py:124-150 | a user without alarms gives `no_alarms` and changes nothing. Otherwise the user's entry goes, every other user is untouched, and exactly the user's handles are cancelled |
| Registry.GetUserAlarms | bot/alarm.py:152-164 | the list is strictly ascending and holds exactly the user's alarm texts, each once; an unknown user gets `[]` |
| RegistryProperties.InstallTracked | bot/alarm.py:72-83 | after an install, every alarm still names a live job of its own key |
| RegistryProperties.InstallNoOrphans | bot/alarm.py:72-83 | installing for a new key leaves no live job whose alarm is missing or holds another handle |
| RegistryProperties.InstallNonEmpty | bot/alarm.py:81-83 | no user is left with an empty entry after an install |
| RegistryProperties.InstallJobs | bot/alarm.py:62-78 | every job still runs at the valid hour and minute its text denotes, and handles stay fresh |
| RegistryProperties.InstallValid | bot/alarm.py:62-85 | installing a new, valid key keeps the whole invariant and stores the next fresh handle |
| RegistryProperties.AddAlarmValid | bot/alarm.py:39-89 | `add_alarm` keeps the invariant on every path; on success the stored handle was fresh and its job is live |
| RegistryProperties.DeleteTracked | bot/alarm.py:107-115 | after dropping a key and cancelling its job, every remaining alarm names a live job of its own key |
| RegistryProperties.DeleteNoOrphans | bot/alarm.py:107-115 | the cancelled job was the only job of that key, so no live job is orphaned |
| RegistryProperties.DeleteNonEmpty | bot/alarm.py:113-115 | no user is left with an empty entry after a removal |
| RegistryProperties.DeleteValid | bot/alarm.py:103-118 | removing a present key keeps the whole invariant |
| RegistryProperties.RemoveAlarmValid | bot/alarm.py:91-122 | `remove_alarm` keeps the invariant; the removed alarm's job is the one cancelled and is no longer live |
| RegistryProperties.DistinctValuesCount | bot/alarm.py:139-140 | a map whose values are pairwise distinct has as many values as keys |
| RegistryProperties.UserHandles | bot/alarm.py:139-140 | one user's handles are pairwise distinct live jobs of that user |
| RegistryProperties.ClearTracked | bot/alarm.py:139-143 | cancelling a user's jobs and dropping the user leaves every other alarm tracked |
| RegistryProperties.ClearNoOrphans | bot/alarm.py:139-143 | no live job is orphaned after a user's alarms are cleared |
| RegistryProperties.RemoveAllAlarmsValid | bot/alarm.py:124-150 | `remove_all_alarms` keeps the invariant and changes the state of exactly `N` handles, one per alarm the user had |
| RegistryProperties.InsertDelete | bot/alarm.py:80-115 | storing a fresh key and then dropping it gives the original map back |
| RegistryProperties.AddThenRemove | bot/alarm.py:39-122 | removing an alarm right after adding it restores the map and leaves the new job cancelled; a second removal finds nothing |
| RegistryProperties.InsertTimes | bot/alarm.py:81-83 | after storing a fresh key, the user's texts are the old ones plus the new one |
| RegistryProperties.AddThenList | bot/alarm.py:152-164 | after a successful add the time is listed, and the list is one entry longer |
| RegistryProperties.AddTwiceRefused | bot/alarm.py:58-60 | adding the same text again is refused with `alarm_exists`, from any chat, and changes nothing |
| RegistryProperties.RemoveAllListsNothing | bot/alarm.py:124-164 | after `remove_all_alarms` the user lists nothing and every other user's list is unchanged |
| RegistryProperties.AddToEmpty | bot/alarm.py:39-89 | the first alarm of an empty registry gets handle 0 and is the only job |
| RegistryProperties.AddTwo | bot/alarm.py:39-89 | two different valid texts added in turn get handles 0 and 1, each with its own job at its own time |
| RegistryProperties.ListTwo | bot/alarm.py:152-164 | a user holding exactly two texts lists both, sorted |
| RegistryProperties.DistinctTextsAreDistinctAlarms | bot/alarm.py:58-83 | any two different valid texts are two alarms, even when they name the same minute |
| RegistryProperties.UnpaddedTimesAreDistinctAlarms | bot/alarm.py:58-83 | "07:30" and "7:30" are two alarms of one user, with two jobs that both run at 07:30 |
| RegistryProperties.AddIsInstall | bot/alarm.py:54-85 | a valid, new key with a queue at hand takes the install path at the hour and minute the text denotes |
| RegistryProperties.LiveJobBelongsToAlarm | bot/alarm.py:72-83 | in a consistent registry every live job belongs to a stored alarm, under its stored handle, at that alarm's valid time |
| Conversation.StopConversation | bot/alarm.py:173-175 | reports whether a session existed; afterwards the user has none and every other session is untouched |
| Conversation.StopIsIdempotent | bot/alarm.py:173-175 | a second stop reports that nothing was open and changes nothing |
| Conversation.ReplyNeedsConversation | bot/alarm.py:169-171 | `has_active_conversation` holds exactly when a reply gets answered, and a reply never opens or closes a conversation for anybody |
| Conversation.Window | bot/alarm.py:180 | `history[-6:]` is the last `min(6, n)` turns |
| Conversation.HistoryLines | bot/alarm.py:180-184 | one labelled line per turn of the window, in order |
| Conversation.FormatHistory | bot/alarm.py:177-185 | the rendering is empty iff the history is |
| Conversation.FormatHistoryLines | bot/alarm.py:177-185 | with newline-free texts, the rendering reads back line by line as the labelled last (at most six) turns, oldest first |
| Conversation.FormatHistoryKeepsLastSix | bot/alarm.py:180 | turns older than the last six never reach the rendering |
| Conversation.ContinuationPromptReadsBack | bot/alarm.py:199-208 | the reply prompt is the fixed header, then the rendered history, then the `Asistente:` cue; the history reads back from between them |
| Conversation.ContinuationPromptInjective | bot/alarm.py:199-208 | two histories give the same reply prompt exactly when they render the same |
| Conversation.Answer | bot/alarm.py:210-224 | the answer is never empty. A model's non-empty text is used as it is; a failure or empty text gives the fixed fallback. Without a model it is one of the three follow-ups |
| Conversation.ReplyInConversation | bot/alarm.py:187-227 | without a session nothing happens. Otherwise the user's turn and then a non-empty assistant turn are appended, and that answer goes to the session's chat. No other session changes |
| Conversation.RepliedAnswer | bot/alarm.py:196-226 | the answer a reply stores and sends is non-empty; it is one of the three follow-ups without a model, the model's non-empty text for the prompt built from the history plus the user's text when there is one, and the fixed fallback otherwise |
| Conversation.AnswerDependsOnRecentTurns | bot/alarm.py:199-212 | two sessions that agree on their last five turns get the same answer to the same text |
| Conversation.OpenerPromptReadsBack | bot/alarm.py:250-257 | the greeting prompt is a fixed head, the alarm's time and a fixed tail; the time reads back from between them |
| Conversation.OpenerPromptInjective | bot/alarm.py:250-257 | different alarm times give different greeting prompts |
| Conversation.Opener | bot/alarm.py:244-264 | the greeting is never empty. It is the model's non-empty text, or one of the six catalogue openers, also when the model fails |
| Conversation.OnAlarmFired | bot/alarm.py:232-289 | without job data, or when the greeting's send fails, nothing changes. Otherwise the user's session is replaced by one holding just the greeting. The greeting goes to the job's chat, then the instructions if that send succeeds. No other session changes |
| Conversation.Open | bot/alarm.py:267-283 | the session opened holds only the greeting, for the job's chat and time; the greeting is sent, then the instructions when that send succeeds |
| Conversation.InstructionsReadsBack | bot/alarm.py:277-283 | the instructions are the clock mark, the alarm's time and the fixed text on continuing and `/despierto`; the time reads back from between them |
| Conversation.InstructionsInjective | bot/alarm.py:277-283 | different alarm times give different instructions |
| Conversation.FiredGreeting | bot/alarm.py:244-264 | the greeting stored by a firing is non-empty, from the catalogue when there is no model, and otherwise the model's text for the opener prompt |
| Conversation.FiringKeepsWellFormed | bot/alarm.py:270-274 | a firing keeps every session's turns alternating, assistant first and last |
| Conversation.FiringOpensConversation | bot/alarm.py:270-274 | after a firing the user has an active conversation exactly when the greeting went out or one was already open |
| Conversation.ExchangeKeepsAlternation | bot/alarm.py:196-226 | a user turn followed by an assistant turn keeps the alternation |
| Conversation.ReplyKeepsWellFormed | bot/alarm.py:187-227 | a reply keeps every session's turns alternating |
| Conversation.StopKeepsWellFormed | bot/alarm.py:173-175 | a stop keeps every session's turns alternating |
| Conversation.LiveJobOpensSession | bot/alarm.py:232-274 | the live job of a consistent registry fires for a stored alarm with a valid time, and opens a session that carries that alarm's time and chat |
| SimpleBot.ValidateTime | simple_bot.py:185-197 | accepts exactly two integers around one `:` with the hour in 0..23 and the minute in 0..59 |
| SimpleBot.ValidateTimeAgrees | simple_bot.py:185-197 | the polling bot accepts exactly the texts `is_valid_time_string` accepts, bot/utils.py:37-57 |
| SimpleBot.AddAlarm | simple_bot.py:199-215 | an invalid text or an existing key changes nothing and gets its own reply. Otherwise exactly the raw text is added, active and bound to the chat, and nothing else changes |
| SimpleBot.SortedTimes | simple_bot.py:223 | the user's texts, each once, strictly ascending; none for an unknown user |
| SimpleBot.ListAlarms | simple_bot.py:217-228 | a user without alarms gets the fixed empty text. Otherwise the text is exactly the alarm-list rendering of bot/utils.py:89-97 for the sorted times |
| SimpleBot.RemoveAlarm | simple_bot.py:230-239 | an unknown key changes nothing. Otherwise exactly that key goes, with the user's entry once it is empty. Markers and chats are untouched |
| SimpleBot.RemoveAllAlarms | simple_bot.py:241-250 | a user without alarms changes nothing. Otherwise the user's alarms and ringing marker go; other users and all chats are untouched |
| SimpleBot.StopActiveAlarm | simple_bot.py:252-260 | without a marker nothing changes. Otherwise the reply names the ringing time, and only that user's marker goes |
| SimpleBot.ConversationTurn | simple_bot.py:276-300 | the branch is taken iff the user has a chat and the text is not a command. It records the exchange and speaks the answer. The third exchange also sends the farewell and ends the chat and the marker. Alarms and other chats are untouched |
| SimpleBot.Due | simple_bot.py:386-388 | exactly the users with an active alarm whose text equals the polled minute's text |
| SimpleBot.Fire | simple_bot.py:394-423 | each woken user is marked at the minute and gets a fresh chat in the alarm's chat. Markers of other minutes are dropped, and other chats and the alarms are untouched |
| SimpleBot.CheckAlarms | simple_bot.py:381-423 | wakes exactly the users with an active alarm whose text equals the polled `%H:%M` text and whose marker does not already hold it |
| SimpleBot.CheckAlarmsLeavesCurrentMarkers | simple_bot.py:416-423 | after a poll every marker holds the polled minute |
| SimpleBot.PollTwiceSameMinute | simple_bot.py:389-394 | a second poll in the same minute, with nothing in between, wakes nobody |
| SimpleBot.InitialWf | simple_bot.py:25-27 | the starting state has no empty entry, only valid keys and no chat past its limit |
| SimpleBot.AddAlarmKeepsWf | simple_bot.py:199-215 | every stored key is a valid time and no user has an empty entry |
| SimpleBot.RemoveAlarmKeepsWf | simple_bot.py:230-239 | removal never leaves an empty entry behind |
| SimpleBot.RemoveAllAlarmsKeepsWf | simple_bot.py:241-250 | removing all alarms keeps the state's shape |
| SimpleBot.StopActiveAlarmKeepsWf | simple_bot.py:252-260 | stopping keeps the state's shape |
| SimpleBot.ConversationTurnKeepsWf | simple_bot.py:284-298 | no chat outlives its third exchange |
| SimpleBot.CheckAlarmsKeepsWf | simple_bot.py:381-423 | a poll keeps the state's shape: fresh chats start at zero exchanges |
| SimpleBot.UnpaddedReading | simple_bot.py:185-197 | "7:30" validates and reads as 07:30 |
| SimpleBot.ClockTextLength | simple_bot.py:384 | the polled minute's text is always five characters |
| SimpleBot.UnpaddedAlarmNeverRings | simple_bot.py:384-388 | as written, "7:30" is accepted and stored, but no poll ever wakes its user |
| SimpleBot.AddAlarmPadded | simple_bot.py:199-215 | corrected add: a valid text is stored under the zero-padded text of the minute it denotes |
| SimpleBot.AddAlarmPaddedKeepsPadded | simple_bot.py:199-215 | with the corrected add, every key is the padded text of its own minute |
| SimpleBot.PaddedAlarmRings | simple_bot.py:384-394 | with padded keys every active alarm rings at the minute its text denotes, unless its marker already holds that minute |
| SimpleBot.PaddedAddRings | simple_bot.py:384-394 | through the corrected add a valid text rings at its minute, and another text for the same minute is a duplicate |
| SimpleBot.UnpaddedAlarmRingsWhenPadded | simple_bot.py:199-215 | through the corrected add "7:30" rings at 07:30, and "07:30" is then a duplicate |
| SimpleBot.Waking | simple_bot.py:386-391 | exactly the due users whose last wake-up is not this minute |
| SimpleBot.StopThenPollRingsAgainAt | simple_bot.py:389-394 | as written, `/despierto` in the ringing minute makes the next poll in that minute wake the user again |
| SimpleBot.AddPollStopPollRingsTwice | simple_bot.py:381-423 | the same on the smallest trace: add, poll, `/despierto`, poll again in the same minute |
| SimpleBot.StopThenPollRingsAgain | simple_bot.py:381-423 | that trace for an alarm at "07:30" |
| SimpleBot.CheckAlarmsLogged | simple_bot.py:381-423 | corrected poll: a log of its own, untouched by `/despierto` or the end of a chat, decides who is woken. Otherwise it fires as the original does |
| SimpleBot.LoggedWakesOncePerMinute | simple_bot.py:389-394 | with the log, a user woken in a minute is not woken again in that minute, whatever happens in between |
| SimpleBot.LoggedAgreesWithMarker | simple_bot.py:389-394 | while marker and log agree on the minute, both polls wake the same users and leave the same state |
| SimpleBot.StopThenPollLogged | simple_bot.py:381-423 | with the log, `/despierto` followed by a second poll in the same minute wakes nobody again |

## Left out

- Telegram transport: the HTTP calls, the polling loop, the handlers in bot/handlers.py and the start-up in main.py. bot/handlers.py and main.py are not part of this model.
- Text-to-speech (`send_voice_message`): a spoken message is a `Voice` outbound entry.
- The language model client (llm/model.py) and `call_free_llm` of simple_bot.py. Their answer is a parameter: in `Conversation` a function of the prompt, in `SimpleBot` the `answer` argument.
- The commands `/start`, `/help`, `/testai` and `/testaudio`, the voice-message branch and the command dispatch of simple_bot.py. Only the commands' effects are modelled, through the operations above.
- SimpleBot.CheckAlarms: returns the users woken and the new state; the spoken wake-up text and the instructions sent to each woken user are left out, because they depend only on the alarm's chat, the minute and the language model's question.
- Numbers.ParseInt: does not accept the surrounding whitespace, underscores or non-ASCII digits that Python's `int()` also accepts. Texts with those validate in the source but not here.
- Time zones and the wall clock: the hour and minute of a poll, and the firing of a daily job, come from outside.
- Exceptions other than a missing job queue in `add_alarm` and a failed send in `_send_alarm_message`. The `general_error` replies of `remove_alarm` and `remove_all_alarms` cannot arise from the modelled data.
- Conversation.ReplyInConversation: a failed send at its end is not modelled. In the source the exchange is recorded before that send.
- Logging (`LogUtils`) and the help text.
- The wording of the prompts matters only through the model parameter. The prompts are modelled as texts so that the answer depends on the recent history exactly as the source's does.
- Conversation.Answer: in bot/alarm.py:210-224 a failed or empty model answer gives one fixed text; random follow-ups are used only when no model is configured.
- Concurrency between the job callbacks and the message handlers: each operation is one atomic step.

## Findings

| source | as written | input that shows it | evidently intended | confidence | as-written member | corrected member |
|---|---|---|---|---|---|---|
| simple_bot.py:384-388 | `add_alarm` (lines 199-215) stores the raw text, and `check_alarms` compares keys with the zero-padded `strftime("%H:%M")` text | `/alarma 7:30`: accepted, but "7:30" never equals the five-character "07:30", so it never rings | store the zero-padded text of the validated time, as `format_time_for_display` renders it | high, not executed | SimpleBot.UnpaddedAlarmNeverRings | SimpleBot.AddAlarmPadded |
| simple_bot.py:389-394 | the marker that stops a second ring in the same minute is the one `/despierto` clears (lines 252-260) | an alarm at 07:30 polled at 07:30, then `/despierto`, then another poll at 07:30 (the main loop, lines 441-445, polls about once a second): the alarm rings again and a new chat opens | remember the minute of the last wake-up apart from the ringing marker | high, not executed | SimpleBot.StopThenPollRingsAgain | SimpleBot.CheckAlarmsLogged |
