/**
  The polling variant `SimpleTelegramBot` (simple_bot.py): the same
  registry of daily alarms without job handles, a per-user marker of the
  alarm that is ringing, and a wake-up chat that ends itself after three
  exchanges. The clock is a parameter: each poll is given the hour and
  minute `strftime("%H:%M")` would render.
 */
module SimpleBot {
  import opened Wrappers
  import opened Strings
  import opened Numbers
  import opened Clock
  import opened Ordering
  import TimeUtils
  import MessageUtils
  import Config

  type UserId = int
  type ChatId = int

  /** `{'chat_id': ..., 'active': ...}`: where the alarm rings, and whether it may. */
  datatype AlarmEntry = AlarmEntry(chat: ChatId, active: bool)

  /** `conversations[user]`: the running transcript, the exchanges so far, the chat. */
  datatype Chat = Chat(history: string, messages: int, chat: ChatId)

  /** `alarms`, `active_alarms` (the ringing marker) and `conversations`. */
  datatype Bot = Bot(alarms: map<UserId, map<string, AlarmEntry>>, ringing: map<UserId, string>, conversations: map<UserId, Chat>)

  const Initial: Bot := Bot(map[], map[], map[])

  /** A message handed to the transport, as text or as synthesised speech. */
  datatype Sent = Text(chat: ChatId, text: string) | Voice(chat: ChatId, text: string)

  const InvalidFormatText := "❌ Formato de hora inválido. Usa el formato HH:MM (ejemplo: 07:30)"
  const DuplicateText := "⚠️ Ya tienes una alarma configurada para esta hora"
  const NoAlarmsText := "📭 No tienes alarmas configuradas"
  const NotFoundText := "❌ No se encontró ninguna alarma para esa hora"
  const AllRemovedText := "✅ Todas las alarmas han sido eliminadas."
  const NothingRingingText := "😴 No tienes ninguna alarma sonando en este momento"
  const FarewellText := "¡Excelente conversación! Espero que tengas un día increíble. ¡Nos vemos mañana! 😊"

  /** How many exchanges a wake-up chat lasts. */
  const ExchangeLimit: int := 3

  function AlarmSetText(time: string): string
  {
    "✅ Alarma configurada para las " + time + ". Se repetirá diariamente en horario de Montevideo (GMT-3)."
  }

  function RemovedText(time: string): string
  {
    "✅ Alarma de las " + time + " eliminada correctamente."
  }

  function StoppedText(time: string): string
  {
    "✅ Alarma de las " + time + " detenida. ¡Buenos días! 🌅\n\nTu alarma seguirá configurada para mañana a la misma hora."
  }

  /** `validate_time`: two ':'-separated integers, an hour of the day and a minute. */
  function ValidateTime(s: string): (r: bool)
    ensures r <==> ClockFields(s).Some? && InClockRange(ClockFields(s).value.0, ClockFields(s).value.1)
  {
    SplitFields(s);
    var parts := Split(s, ':');
    if |parts| != 2 then false
    else
      match (ParseInt(parts[0]), ParseInt(parts[1]))
      case (Some(hour), Some(minute)) => 0 <= hour <= 23 && 0 <= minute <= 59
      case _ => false
  }

  /** The polling bot accepts exactly the texts the shared utility accepts. */
  lemma ValidateTimeAgrees(s: string)
    ensures ValidateTime(s) == TimeUtils.IsValidTimeString(s)
  {
  }

  predicate HasAlarm(b: Bot, user: UserId, time: string)
  {
    user in b.alarms && time in b.alarms[user]
  }

  /**
    `add_alarm`, as written: the raw text becomes the key. An invalid text
    or an existing key leaves the bot as it was.
   */
  function AddAlarm(b: Bot, user: UserId, time: string, chat: ChatId): (r: (string, Bot))
    ensures !ValidateTime(time) ==> r == (InvalidFormatText, b)
    ensures ValidateTime(time) && HasAlarm(b, user, time) ==> r == (DuplicateText, b)
    ensures ValidateTime(time) && !HasAlarm(b, user, time) ==>
      && r.0 == AlarmSetText(time)
      && HasAlarm(r.1, user, time) && r.1.alarms[user][time] == AlarmEntry(chat, true)
      && (forall u, t :: HasAlarm(b, u, t) ==> HasAlarm(r.1, u, t) && r.1.alarms[u][t] == b.alarms[u][t])
      && (forall u, t :: HasAlarm(r.1, u, t) ==> HasAlarm(b, u, t) || (u, t) == (user, time))
      && r.1.ringing == b.ringing && r.1.conversations == b.conversations
  {
    if !ValidateTime(time) then (InvalidFormatText, b)
    else
      var inner := if user in b.alarms then b.alarms[user] else map[];
      if time in inner then (DuplicateText, b)
      else (AlarmSetText(time), b.(alarms := b.alarms[user := inner[time := AlarmEntry(chat, true)]]))
  }

  /** `sorted(alarms[user].keys())`, empty for an unknown user. */
  function SortedTimes(b: Bot, user: UserId): (times: seq<string>)
    ensures StrictlyAscending(times)
    ensures forall t :: t in times <==> HasAlarm(b, user, t)
    ensures |times| == if user in b.alarms then |b.alarms[user]| else 0
  {
    if user !in b.alarms then [] else SortedList(b.alarms[user].Keys)
  }

  /**
    `list_alarms`: its own empty text, otherwise exactly the rendering of
    `MessageUtils.format_alarm_list` for the sorted times.
   */
  function ListAlarms(b: Bot, user: UserId): (r: string)
    ensures |SortedTimes(b, user)| == 0 ==> r == NoAlarmsText
    ensures |SortedTimes(b, user)| > 0 ==> r == MessageUtils.FormatAlarmList(SortedTimes(b, user))
  {
    var times := SortedTimes(b, user);
    if user !in b.alarms || |b.alarms[user]| == 0 then NoAlarmsText
    else
      MessageUtils.ListTitle + "\n\n" + MessageUtils.NumberedLines(times, 1)
      + "\n" + MessageUtils.TotalLine(|times|)
  }

  /** `remove_alarm`: drops the key, and the user's map once it is empty. */
  function RemoveAlarm(b: Bot, user: UserId, time: string): (r: (string, Bot))
    ensures !HasAlarm(b, user, time) ==> r == (NotFoundText, b)
    ensures HasAlarm(b, user, time) ==>
      && r.0 == RemovedText(time)
      && !HasAlarm(r.1, user, time)
      && (forall u, t :: HasAlarm(r.1, u, t) ==> HasAlarm(b, u, t) && r.1.alarms[u][t] == b.alarms[u][t])
      && (forall u, t :: HasAlarm(b, u, t) && (u, t) != (user, time) ==> HasAlarm(r.1, u, t))
      && (user in r.1.alarms <==> |b.alarms[user]| > 1)
      && r.1.ringing == b.ringing && r.1.conversations == b.conversations
  {
    if !HasAlarm(b, user, time) then (NotFoundText, b)
    else
      var inner := b.alarms[user] - {time};
      assert |inner| == |b.alarms[user]| - 1;
      var alarms := if |inner| == 0 then b.alarms - {user} else b.alarms[user := inner];
      (RemovedText(time), b.(alarms := alarms))
  }

  /** `remove_all_alarms`: drops the user's alarms and the user's ringing marker. */
  function RemoveAllAlarms(b: Bot, user: UserId): (r: (string, Bot))
    ensures user !in b.alarms || |b.alarms[user]| == 0 ==> r == (NoAlarmsText, b)
    ensures user in b.alarms && |b.alarms[user]| > 0 ==>
      && r.0 == AllRemovedText
      && user !in r.1.alarms && user !in r.1.ringing
      && (forall u :: u != user ==> (u in r.1.alarms <==> u in b.alarms))
      && (forall u :: u != user && u in b.alarms ==> r.1.alarms[u] == b.alarms[u])
      && (forall u :: u != user ==> (u in r.1.ringing <==> u in b.ringing))
      && (forall u :: u != user && u in b.ringing ==> r.1.ringing[u] == b.ringing[u])
      && r.1.conversations == b.conversations
  {
    if user !in b.alarms || |b.alarms[user]| == 0 then (NoAlarmsText, b)
    else (AllRemovedText, b.(alarms := b.alarms - {user}, ringing := b.ringing - {user}))
  }

  /** `stop_active_alarm` (`/despierto`): clears the ringing marker and nothing else. */
  function StopActiveAlarm(b: Bot, user: UserId): (r: (string, Bot))
    ensures user !in b.ringing ==> r == (NothingRingingText, b)
    ensures user in b.ringing ==>
      && r.0 == StoppedText(b.ringing[user])
      && user !in r.1.ringing
      && (forall u :: u != user ==> (u in r.1.ringing <==> u in b.ringing))
      && (forall u :: u != user && u in b.ringing ==> r.1.ringing[u] == b.ringing[u])
      && r.1.alarms == b.alarms && r.1.conversations == b.conversations
  {
    if user !in b.ringing then (NothingRingingText, b)
    else (StoppedText(b.ringing[user]), b.(ringing := b.ringing - {user}))
  }

  /** `text.startswith('/')`. */
  predicate IsCommand(text: string)
  {
    |text| > 0 && text[0] == '/'
  }

  /**
    The conversation branch of `handle_message`: taken for a non-command
    text of a user with an open chat, `None` otherwise (the text then goes
    to the command dispatch). `answer` is what the canned responder
    produced. The exchange is recorded and counted; the third one ends the
    chat with a farewell and clears the ringing marker.
   */
  function ConversationTurn(b: Bot, user: UserId, chat: ChatId, text: string, answer: string): (r: Option<(seq<Sent>, Bot)>)
    ensures r.None? <==> user !in b.conversations || IsCommand(text)
    ensures r.Some? ==>
      var c := b.conversations[user];
      var (sent, b') := r.value;
      && b'.alarms == b.alarms
      && (forall u :: u != user ==> (u in b'.conversations <==> u in b.conversations))
      && (forall u :: u != user && u in b.conversations ==> b'.conversations[u] == b.conversations[u])
      && (c.messages + 1 < ExchangeLimit ==>
            && sent == [Voice(chat, answer)]
            && user in b'.conversations
            && b'.conversations[user] ==
                 Chat(c.history + "\nUsuario: " + text + "\nAsistente: " + answer, c.messages + 1, c.chat)
            && b'.ringing == b.ringing)
      && (c.messages + 1 >= ExchangeLimit ==>
            && sent == [Voice(chat, answer), Text(chat, FarewellText)]
            && user !in b'.conversations && user !in b'.ringing
            && (forall u :: u != user ==> (u in b'.ringing <==> u in b.ringing))
            && (forall u :: u != user && u in b.ringing ==> b'.ringing[u] == b.ringing[u]))
  {
    if user !in b.conversations || IsCommand(text) then None
    else
      var c := b.conversations[user];
      var c' := Chat(c.history + "\nUsuario: " + text + "\nAsistente: " + answer, c.messages + 1, c.chat);
      if c'.messages >= ExchangeLimit then
        Some(([Voice(chat, answer), Text(chat, FarewellText)],
              b.(conversations := b.conversations - {user}, ringing := b.ringing - {user})))
      else
        Some(([Voice(chat, answer)], b.(conversations := b.conversations[user := c'])))
  }

  /** The users whose active alarm is set for the minute `now`. */
  function Due(b: Bot, now: string): (due: set<UserId>)
    ensures forall u :: u in due <==> HasAlarm(b, u, now) && b.alarms[u][now].active
  {
    set u | u in b.alarms && now in b.alarms[u] && b.alarms[u][now].active
  }

  /**
    What a poll does to the users it wakes: each is marked as ringing at
    `now` and gets a fresh chat in the alarm's chat; then every marker of
    another minute is dropped.
   */
  function Fire(b: Bot, fired: set<UserId>, now: string): (b': Bot)
    requires forall u :: u in fired ==> u in b.alarms && now in b.alarms[u]
    ensures b'.alarms == b.alarms
    ensures forall u :: u in b'.ringing <==> u in fired || (u in b.ringing && b.ringing[u] == now)
    ensures forall u :: u in b'.ringing ==> b'.ringing[u] == now
    ensures forall u :: u in b'.conversations <==> u in fired || u in b.conversations
    ensures forall u :: u in fired ==> b'.conversations[u] == Chat("", 0, b.alarms[u][now].chat)
    ensures forall u :: u !in fired && u in b.conversations ==> b'.conversations[u] == b.conversations[u]
  {
    var ringing := map u | u in fired + b.ringing.Keys && (u in fired || b.ringing[u] == now) :: now;
    var conversations := map u | u in fired + b.conversations.Keys ::
      if u in fired then Chat("", 0, b.alarms[u][now].chat) else b.conversations[u];
    Bot(b.alarms, ringing, conversations)
  }

  /**
    `check_alarms`, as written: an active alarm whose text equals the
    current minute's text wakes its user unless the ringing marker already
    holds that text. Returns the users woken.
   */
  function CheckAlarms(b: Bot, hour: int, minute: int): (r: (set<UserId>, Bot))
    requires InClockRange(hour, minute)
    ensures forall u :: u in r.0 <==>
      u in b.alarms && ClockText(hour, minute) in b.alarms[u] && b.alarms[u][ClockText(hour, minute)].active
      && !(u in b.ringing && b.ringing[u] == ClockText(hour, minute))
    ensures r.1 == Fire(b, r.0, ClockText(hour, minute))
  {
    var now := ClockText(hour, minute);
    var fired := set u | u in Due(b, now) && !(u in b.ringing && b.ringing[u] == now);
    (fired, Fire(b, fired, now))
  }

  /** After a poll every ringing marker holds the polled minute. */
  lemma CheckAlarmsLeavesCurrentMarkers(b: Bot, hour: int, minute: int)
    requires InClockRange(hour, minute)
    ensures var b' := CheckAlarms(b, hour, minute).1;
      forall u :: u in b'.ringing ==> b'.ringing[u] == ClockText(hour, minute)
  {
  }

  /** A second poll in the same minute, with nothing in between, wakes nobody. */
  lemma PollTwiceSameMinute(b: Bot, hour: int, minute: int)
    requires InClockRange(hour, minute)
    ensures var b1 := CheckAlarms(b, hour, minute).1;
      CheckAlarms(b1, hour, minute).0 == {}
  {
    var now := ClockText(hour, minute);
    var (fired, b1) := CheckAlarms(b, hour, minute);
    forall u | HasAlarm(b1, u, now) && b1.alarms[u][now].active
      ensures u in b1.ringing && b1.ringing[u] == now
    {
      assert HasAlarm(b, u, now) && b.alarms[u][now].active;
    }
    assert forall u :: u !in CheckAlarms(b1, hour, minute).0;
  }

  /** The shape the bot's state keeps. */
  predicate Wf(b: Bot)
  {
    && (forall u :: u in b.alarms ==> |b.alarms[u]| > 0)
    && (forall u, t :: u in b.alarms && t in b.alarms[u] ==> ValidateTime(t))
    && (forall u :: u in b.conversations ==> 0 <= b.conversations[u].messages < ExchangeLimit)
  }

  lemma InitialWf()
    ensures Wf(Initial)
  {
  }

  lemma AddAlarmKeepsWf(b: Bot, user: UserId, time: string, chat: ChatId)
    requires Wf(b)
    ensures Wf(AddAlarm(b, user, time, chat).1)
  {
    if ValidateTime(time) && !HasAlarm(b, user, time) {
      var inner := if user in b.alarms then b.alarms[user] else map[];
      var alarms := b.alarms[user := inner[time := AlarmEntry(chat, true)]];
      assert AddAlarm(b, user, time, chat).1 == b.(alarms := alarms);
      forall u | u in alarms ensures |alarms[u]| > 0 {
        if u != user {
          assert alarms[u] == b.alarms[u];
        }
      }
      forall u, t | u in alarms && t in alarms[u] ensures ValidateTime(t) {
        if u != user {
          assert alarms[u] == b.alarms[u];
        } else if t != time {
          assert t in inner;
        }
      }
    }
  }

  lemma RemoveAlarmKeepsWf(b: Bot, user: UserId, time: string)
    requires Wf(b)
    ensures Wf(RemoveAlarm(b, user, time).1)
  {
    var b' := RemoveAlarm(b, user, time).1;
    forall u | u in b'.alarms ensures |b'.alarms[u]| > 0 {
      if u != user {
        assert b'.alarms[u] == b.alarms[u];
      }
    }
  }

  lemma RemoveAllAlarmsKeepsWf(b: Bot, user: UserId)
    requires Wf(b)
    ensures Wf(RemoveAllAlarms(b, user).1)
  {
  }

  lemma StopActiveAlarmKeepsWf(b: Bot, user: UserId)
    requires Wf(b)
    ensures Wf(StopActiveAlarm(b, user).1)
  {
  }

  /** No chat outlives its third exchange. */
  lemma ConversationTurnKeepsWf(b: Bot, user: UserId, chat: ChatId, text: string, answer: string)
    requires Wf(b)
    requires ConversationTurn(b, user, chat, text, answer).Some?
    ensures Wf(ConversationTurn(b, user, chat, text, answer).value.1)
  {
  }

  lemma CheckAlarmsKeepsWf(b: Bot, hour: int, minute: int)
    requires Wf(b) && InClockRange(hour, minute)
    ensures Wf(CheckAlarms(b, hour, minute).1)
  {
  }

  /** "7:30" validates and reads as 07:30. */
  lemma UnpaddedReading()
    ensures ValidateTime("7:30")
    ensures ClockFields("7:30") == Some((7, 30))
  {
    Config.UnpaddedSameReading();
  }

  /** The minute text a poll compares with is always five characters long. */
  lemma ClockTextLength(hour: int, minute: int)
    requires InClockRange(hour, minute)
    ensures |ClockText(hour, minute)| == 5
  {
    Pad2Length(hour);
    Pad2Length(minute);
  }

  /**
    As written, an alarm set as "7:30" is accepted and stored under that
    text, but every poll compares keys with a zero-padded minute text, so
    the alarm never rings.
   */
  lemma UnpaddedAlarmNeverRings(user: UserId, chat: ChatId, hour: int, minute: int)
    requires InClockRange(hour, minute)
    ensures AddAlarm(Initial, user, "7:30", chat).0 == AlarmSetText("7:30")
    ensures user !in CheckAlarms(AddAlarm(Initial, user, "7:30", chat).1, hour, minute).0
  {
    UnpaddedReading();
    ClockTextLength(hour, minute);
    assert ClockText(hour, minute) != "7:30";
  }

  /**
    `add_alarm` as evidently intended: a valid text is stored under its
    zero-padded form, the form the poll compares with.
   */
  function AddAlarmPadded(b: Bot, user: UserId, time: string, chat: ChatId): (r: (string, Bot))
    ensures !ValidateTime(time) ==> r == (InvalidFormatText, b)
    ensures ValidateTime(time) ==>
      r == AddAlarm(b, user, ClockText(ClockFields(time).value.0, ClockFields(time).value.1), chat)
  {
    if !ValidateTime(time) then (InvalidFormatText, b)
    else
      TimeUtils.FormatTimeKeepsValid(time);
      AddAlarm(b, user, TimeUtils.FormatTimeForDisplay(time), chat)
  }

  /** Every key is the zero-padded text of the minute it denotes. */
  predicate Padded(b: Bot)
  {
    forall u, t :: u in b.alarms && t in b.alarms[u] ==>
      ClockFields(t).Some? && t == ClockText(ClockFields(t).value.0, ClockFields(t).value.1)
  }

  lemma AddAlarmPaddedKeepsPadded(b: Bot, user: UserId, time: string, chat: ChatId)
    requires Padded(b)
    ensures Padded(AddAlarmPadded(b, user, time, chat).1)
  {
    if ValidateTime(time) {
      var (hour, minute) := ClockFields(time).value;
      ClockTextRoundTrip(hour, minute);
      var b' := AddAlarmPadded(b, user, time, chat).1;
      forall u, t | u in b'.alarms && t in b'.alarms[u]
        ensures ClockFields(t).Some? && t == ClockText(ClockFields(t).value.0, ClockFields(t).value.1)
      {
        if (u, t) != (user, ClockText(hour, minute)) {
          assert HasAlarm(b', u, t);
          assert HasAlarm(b, u, t);
        }
      }
    }
  }

  /**
    With padded keys every active alarm rings at the minute its text
    denotes, unless its marker already holds that minute.
   */
  lemma PaddedAlarmRings(b: Bot, user: UserId, time: string)
    requires Padded(b) && HasAlarm(b, user, time) && b.alarms[user][time].active
    requires !(user in b.ringing && b.ringing[user] == time)
    ensures InClockRange(ClockFields(time).value.0, ClockFields(time).value.1) ==>
      user in CheckAlarms(b, ClockFields(time).value.0, ClockFields(time).value.1).0
  {
  }

  /**
    Through the corrected path, a valid text rings at the minute it
    denotes, and a second text for the same minute is refused as a
    duplicate.
   */
  lemma PaddedAddRings(b: Bot, user: UserId, time: string, other: string, chat: ChatId)
    requires ValidateTime(time) && ValidateTime(other) && ClockFields(other) == ClockFields(time)
    requires !(user in b.ringing && b.ringing[user] == ClockText(ClockFields(time).value.0, ClockFields(time).value.1))
    requires !HasAlarm(b, user, ClockText(ClockFields(time).value.0, ClockFields(time).value.1))
    ensures var b' := AddAlarmPadded(b, user, time, chat).1;
      && user in CheckAlarms(b', ClockFields(time).value.0, ClockFields(time).value.1).0
      && AddAlarmPadded(b', user, other, chat) == (DuplicateText, b')
  {
    var (hour, minute) := ClockFields(time).value;
    var key := ClockText(hour, minute);
    ClockTextRoundTrip(hour, minute);
    assert ValidateTime(key);
    var b' := AddAlarmPadded(b, user, time, chat).1;
    assert HasAlarm(b', user, key) && b'.alarms[user][key].active;
  }

  /** "7:30" set through the corrected path rings at 07:30, and "07:30" is then a duplicate. */
  lemma UnpaddedAlarmRingsWhenPadded(user: UserId, chat: ChatId)
    ensures var b := AddAlarmPadded(Initial, user, "7:30", chat).1;
      && user in CheckAlarms(b, 7, 30).0
      && AddAlarmPadded(b, user, "07:30", chat) == (DuplicateText, b)
  {
    assert ValidateTime("7:30") && ValidateTime("07:30") && ClockFields("07:30") == ClockFields("7:30") == Some((7, 30)) by {
      Config.UnpaddedSameReading();
    }
    PaddedAddRings(Initial, user, "7:30", "07:30", chat);
  }

  /** The users due now whose last wake-up is not this minute. */
  function Waking(b: Bot, marks: map<UserId, string>, now: string): (fired: set<UserId>)
    ensures forall u :: u in fired <==>
      u in b.alarms && now in b.alarms[u] && b.alarms[u][now].active && !(u in marks && marks[u] == now)
  {
    set u | u in Due(b, now) && !(u in marks && marks[u] == now)
  }

  /**
    As written, `/despierto` during the ringing minute clears the marker
    the poll relies on, so the next poll in that minute rings again.
   */
  lemma StopThenPollRingsAgainAt(b: Bot, user: UserId, hour: int, minute: int)
    requires InClockRange(hour, minute)
    requires HasAlarm(b, user, ClockText(hour, minute)) && b.alarms[user][ClockText(hour, minute)].active
    requires !(user in b.ringing && b.ringing[user] == ClockText(hour, minute))
    ensures var (first, b1) := CheckAlarms(b, hour, minute);
      && user in first
      && user in CheckAlarms(StopActiveAlarm(b1, user).1, hour, minute).0
  {
  }

  /**
    The same on the smallest trace: one alarm set with its zero-padded
    text, a poll in its minute, `/despierto`, a second poll in that minute.
   */
  lemma AddPollStopPollRingsTwice(user: UserId, chat: ChatId, hour: int, minute: int)
    requires InClockRange(hour, minute)
    ensures var b0 := AddAlarm(Initial, user, ClockText(hour, minute), chat).1;
      var (first, b1) := CheckAlarms(b0, hour, minute);
      var b2 := StopActiveAlarm(b1, user).1;
      && user in first
      && user in CheckAlarms(b2, hour, minute).0
  {
    ClockTextRoundTrip(hour, minute);
    StopThenPollRingsAgainAt(AddAlarm(Initial, user, ClockText(hour, minute), chat).1, user, hour, minute);
  }

  /** The trace above for an alarm at "07:30". */
  lemma StopThenPollRingsAgain(user: UserId, chat: ChatId)
    ensures var b0 := AddAlarm(Initial, user, "07:30", chat).1;
      var (first, b1) := CheckAlarms(b0, 7, 30);
      var b2 := StopActiveAlarm(b1, user).1;
      && user in first
      && user in CheckAlarms(b2, 7, 30).0
  {
    assert ClockText(7, 30) == "07:30" by {
      assert Pad2(7) == "07";
      assert Decimal(30) == "30";
    }
    AddPollStopPollRingsTwice(user, chat, 7, 30);
  }

  /**
    `check_alarms` as evidently intended: the minute each user was last
    woken is kept in a log of its own that `/despierto` and the end of a
    chat do not touch, and that log decides who is woken.
   */
  function CheckAlarmsLogged(b: Bot, woken: map<UserId, string>, hour: int, minute: int): (r: (set<UserId>, Bot, map<UserId, string>))
    requires InClockRange(hour, minute)
    ensures forall u :: u in r.0 <==>
      u in b.alarms && ClockText(hour, minute) in b.alarms[u] && b.alarms[u][ClockText(hour, minute)].active
      && !(u in woken && woken[u] == ClockText(hour, minute))
    ensures r.1 == Fire(b, r.0, ClockText(hour, minute))
    ensures forall u :: u in r.2 <==> u in woken || u in r.0
    ensures forall u :: u in r.0 ==> r.2[u] == ClockText(hour, minute)
    ensures forall u :: u in woken && u !in r.0 ==> r.2[u] == woken[u]
  {
    var now := ClockText(hour, minute);
    var fired := Waking(b, woken, now);
    var log := map u | u in woken.Keys + fired :: if u in fired then now else woken[u];
    (fired, Fire(b, fired, now), log)
  }

  /**
    With the log, a user woken in a minute is not woken again in that
    minute, whatever happened to the bot in between.
   */
  lemma LoggedWakesOncePerMinute(b: Bot, woken: map<UserId, string>, b2: Bot, hour: int, minute: int)
    requires InClockRange(hour, minute)
    ensures var (first, _, log) := CheckAlarmsLogged(b, woken, hour, minute);
      forall u :: u in first ==> u !in CheckAlarmsLogged(b2, log, hour, minute).0
  {
  }

  /** While the marker and the log agree on this minute, both polls wake the same users. */
  lemma LoggedAgreesWithMarker(b: Bot, woken: map<UserId, string>, hour: int, minute: int)
    requires InClockRange(hour, minute)
    requires forall u :: (u in b.ringing && b.ringing[u] == ClockText(hour, minute)) <==>
                         (u in woken && woken[u] == ClockText(hour, minute))
    ensures CheckAlarmsLogged(b, woken, hour, minute).0 == CheckAlarms(b, hour, minute).0
    ensures CheckAlarmsLogged(b, woken, hour, minute).1 == CheckAlarms(b, hour, minute).1
  {
    var logged := CheckAlarmsLogged(b, woken, hour, minute).0;
    var plain := CheckAlarms(b, hour, minute).0;
    forall u ensures u in logged <==> u in plain {
    }
    assert logged == plain;
  }

  /** The corrected poll does not ring again after `/despierto` in the same minute. */
  lemma StopThenPollLogged(user: UserId, chat: ChatId)
    ensures var b0 := AddAlarm(Initial, user, "07:30", chat).1;
      var (first, b1, log) := CheckAlarmsLogged(b0, map[], 7, 30);
      var b2 := StopActiveAlarm(b1, user).1;
      && user in first
      && user !in CheckAlarmsLogged(b2, log, 7, 30).0
  {
    StopThenPollRingsAgain(user, chat);
    var b0 := AddAlarm(Initial, user, "07:30", chat).1;
    var b1 := CheckAlarmsLogged(b0, map[], 7, 30).1;
    LoggedWakesOncePerMinute(b0, map[], StopActiveAlarm(b1, user).1, 7, 30);
  }
}
