/**
  The wake-up conversation half of `AlarmScheduler` (bot/alarm.py): the
  session a firing alarm opens or replaces, the replies that continue it,
  and the rendering of its recent history for the language model.
 */
module Conversation {
  import opened Wrappers
  import opened Strings
  import opened Clock
  import opened Registry
  import RegistryProperties
  import Config

  datatype Role = User | Assistant

  /** One entry of a session's history: `(role, text)`. */
  datatype Turn = Turn(role: Role, text: string)

  /** `active_conversations[user]`: where to answer, which alarm opened it, what was said. */
  datatype Session = Session(chat: ChatId, time: string, history: seq<Turn>)

  type Sessions = map<UserId, Session>

  /** What one call of the language model gave: a text, possibly empty, or an exception. */
  datatype Generation = Generated(text: string) | GenerationFailed

  /**
    The scheduler's model client: none configured, or one that answers a
    prompt. The answer depends on nothing but the prompt.
   */
  datatype Llm = Absent | Present(generate: string -> Generation)

  /** A message handed to the transport. */
  datatype Outbound = Outbound(chat: ChatId, text: string)

  /** `has_active_conversation`. */
  predicate HasActiveConversation(sessions: Sessions, user: UserId)
  {
    user in sessions
  }

  /** `stop_conversation`: whether a session existed, and the sessions without it. */
  function StopConversation(sessions: Sessions, user: UserId): (r: (bool, Sessions))
    ensures r.0 <==> HasActiveConversation(sessions, user)
    ensures !HasActiveConversation(r.1, user)
    ensures forall u :: u != user ==> (u in r.1 <==> u in sessions)
    ensures forall u :: u != user && u in sessions ==> r.1[u] == sessions[u]
  {
    (user in sessions, sessions - {user})
  }

  /** Stopping twice: the second call reports that nothing was open and changes nothing. */
  lemma StopIsIdempotent(sessions: Sessions, user: UserId)
    ensures var once := StopConversation(sessions, user).1;
      StopConversation(once, user) == (false, once)
  {
    var once := StopConversation(sessions, user).1;
    assert once - {user} == once;
  }

  /** How many of the most recent turns the rendered history shows. */
  const HistoryWindow: nat := 6

  /** `history[-6:]`. */
  function Window(history: seq<Turn>): (w: seq<Turn>)
    ensures |w| == if |history| < HistoryWindow then |history| else HistoryWindow
    ensures w == history[|history| - |w|..]
  {
    if |history| <= HistoryWindow then history else history[|history| - HistoryWindow..]
  }

  const UserLabel := "Usuario: "
  const AssistantLabel := "Asistente: "

  /** One rendered line: the speaker's label, then the text. */
  function HistoryLine(t: Turn): string
  {
    (if t.role == User then UserLabel else AssistantLabel) + t.text
  }

  function HistoryLines(turns: seq<Turn>): (lines: seq<string>)
    ensures |lines| == |turns|
    ensures forall i :: 0 <= i < |turns| ==> lines[i] == HistoryLine(turns[i])
  {
    seq(|turns|, i requires 0 <= i < |turns| => HistoryLine(turns[i]))
  }

  /** `_format_history`: the last six turns, one labelled line each, joined by newlines. */
  function FormatHistory(history: seq<Turn>): (r: string)
    ensures r == "" <==> |history| == 0
  {
    var lines := HistoryLines(Window(history));
    JoinStartsWithHead(lines, '\n');
    Join(lines, '\n')
  }

  /** A rendered line has no newline when the turn's text has none. */
  lemma HistoryLineHasNoBreak(t: Turn)
    requires '\n' !in t.text
    ensures '\n' !in HistoryLine(t)
  {
    var tag := if t.role == User then UserLabel else AssistantLabel;
    assert '\n' !in tag;
    assert HistoryLine(t) == tag + t.text;
  }

  /**
    With newline-free texts, the rendering reads back, line by line, as the
    labelled last (at most six) turns, oldest first.
   */
  lemma FormatHistoryLines(history: seq<Turn>)
    requires |history| > 0
    requires forall i :: 0 <= i < |history| ==> '\n' !in history[i].text
    ensures var lines := Split(FormatHistory(history), '\n');
      var w := Window(history);
      && |lines| == |w| <= HistoryWindow
      && forall i :: 0 <= i < |w| ==>
           lines[i] == (if w[i].role == User then UserLabel else AssistantLabel) + w[i].text
  {
    var w := Window(history);
    var lines := HistoryLines(w);
    forall i | 0 <= i < |lines| ensures '\n' !in lines[i] {
      assert w[i] == history[|history| - |w| + i];
      HistoryLineHasNoBreak(w[i]);
    }
    SplitJoin(lines, '\n');
  }

  /** Turns older than the last six never reach the rendering. */
  lemma FormatHistoryKeepsLastSix(older: seq<Turn>, recent: seq<Turn>)
    requires |recent| >= HistoryWindow
    ensures FormatHistory(older + recent) == FormatHistory(recent)
  {
    var h := older + recent;
    assert Window(h) == Window(recent);
  }

  const ContinuationHeader :=
    "Continúa la conversación para ayudar a despertar. "
    + "No repitas saludos (no digas cosas como 'buen día' ni 'hola' de nuevo)."
    + "No uses markdown.\n\n"
    + "Usa el Historial de la conversación para contexto y continuidad de las respuestas.\n\n"
    + "Historial (más reciente al final):\n"

  const ContinuationTail := "\n\nAsistente:"

  /** The prompt that asks for the next assistant turn. */
  function ContinuationPrompt(history: seq<Turn>): string
  {
    ContinuationHeader + FormatHistory(history) + ContinuationTail
  }

  /** The prompt is the fixed header, the rendered history and the cue; the history reads back from between them. */
  lemma ContinuationPromptReadsBack(history: seq<Turn>)
    ensures var p := ContinuationPrompt(history);
      && |p| == |ContinuationHeader| + |FormatHistory(history)| + |ContinuationTail|
      && p[..|ContinuationHeader|] == ContinuationHeader
      && p[|ContinuationHeader|..|p| - |ContinuationTail|] == FormatHistory(history)
      && p[|p| - |ContinuationTail|..] == ContinuationTail
  {
    assert ContinuationPrompt(history) == Framed(ContinuationHeader, FormatHistory(history), ContinuationTail);
  }

  /** Two histories give the same prompt exactly when they render the same. */
  lemma ContinuationPromptInjective(a: seq<Turn>, b: seq<Turn>)
    ensures ContinuationPrompt(a) == ContinuationPrompt(b) <==> FormatHistory(a) == FormatHistory(b)
  {
    assert ContinuationPrompt(a) == Framed(ContinuationHeader, FormatHistory(a), ContinuationTail);
    assert ContinuationPrompt(b) == Framed(ContinuationHeader, FormatHistory(b), ContinuationTail);
    FramedInjective(ContinuationHeader, FormatHistory(a), FormatHistory(b), ContinuationTail);
  }

  /** The fixed answer when the model fails or answers nothing. */
  const FallbackReply := "¡Sigamos! ¿Qué vas a hacer en los próximos 5 minutos?"

  /** The answers drawn at random when no model is configured. */
  const Followups: seq<string> := [
    "¡Bien! ¿Qué vas a hacer primero ahora mismo?",
    "Genial. ¿Te levantás y tomás un vaso de agua?",
    "¡Vamos! ¿Cuál es tu mini-objetivo de esta mañana?"
  ]

  /**
    The assistant's answer to `prompt`: the model's text when it gives a
    non-empty one, the fixed fallback when it fails or answers nothing,
    and `followups[pick % 3]` when there is no model.
   */
  function Answer(llm: Llm, prompt: string, pick: nat): (a: string)
    ensures |a| > 0
    ensures llm.Absent? ==> a in Followups
    ensures llm.Present? ==> a == FallbackReply || llm.generate(prompt) == Generated(a)
    ensures llm.Present? && llm.generate(prompt).Generated? && |llm.generate(prompt).text| > 0 ==>
      a == llm.generate(prompt).text
  {
    match llm
    case Absent => Followups[pick % |Followups|]
    case Present(generate) =>
      match generate(prompt)
      case Generated(text) => if |text| > 0 then text else FallbackReply
      case GenerationFailed => FallbackReply
  }

  /**
    `reply_in_conversation`: nothing without a session; otherwise the
    user's turn and then the assistant's answer are appended, and the
    answer is sent to the session's chat.
   */
  function ReplyInConversation(sessions: Sessions, user: UserId, text: string, llm: Llm, pick: nat): (r: (Sessions, seq<Outbound>))
    ensures user !in sessions ==> r == (sessions, [])
    ensures user in sessions ==>
      var s := sessions[user];
      && user in r.0
      && r.0[user].chat == s.chat && r.0[user].time == s.time
      && |r.0[user].history| == |s.history| + 2
      && r.0[user].history[..|s.history|] == s.history
      && r.0[user].history[|s.history|] == Turn(User, text)
      && r.0[user].history[|s.history| + 1].role == Assistant
      && |r.0[user].history[|s.history| + 1].text| > 0
      && r.1 == [Outbound(s.chat, r.0[user].history[|s.history| + 1].text)]
    ensures forall u :: u != user ==> (u in r.0 <==> u in sessions)
    ensures forall u :: u != user && u in sessions ==> r.0[u] == sessions[u]
  {
    if user !in sessions then (sessions, [])
    else
      var s := sessions[user];
      var asked := s.history + [Turn(User, text)];
      var answer := Answer(llm, ContinuationPrompt(asked), pick);
      (sessions[user := s.(history := asked + [Turn(Assistant, answer)])], [Outbound(s.chat, answer)])
  }

  /** The answer appended by a reply: the last turn of the user's new history. */
  function LastAnswer(sessions: Sessions, user: UserId, text: string, llm: Llm, pick: nat): string
    requires user in sessions
  {
    var h := ReplyInConversation(sessions, user, text, llm, pick).0[user].history;
    h[|h| - 1].text
  }

  /**
    The answer stored and sent by a reply is the one the configured model
    gives for the history with the user's text appended: a follow-up from
    the catalogue without a model, the model's non-empty text when it gives
    one, and the fixed fallback otherwise.
   */
  lemma RepliedAnswer(sessions: Sessions, user: UserId, text: string, llm: Llm, pick: nat)
    requires user in sessions
    ensures var asked := sessions[user].history + [Turn(User, text)];
      var prompt := ContinuationPrompt(asked);
      var a := LastAnswer(sessions, user, text, llm, pick);
      && |a| > 0
      && (llm.Absent? ==> a in Followups)
      && (llm.Present? ==> a == FallbackReply || llm.generate(prompt) == Generated(a))
      && (llm.Present? && llm.generate(prompt).Generated? && |llm.generate(prompt).text| > 0 ==>
            a == llm.generate(prompt).text)
  {
  }

  /**
    A reply is answered exactly when a conversation is open, and it neither
    opens nor closes one for anybody.
   */
  lemma ReplyNeedsConversation(sessions: Sessions, user: UserId, text: string, llm: Llm, pick: nat)
    ensures var r := ReplyInConversation(sessions, user, text, llm, pick);
      && (|r.1| > 0 <==> HasActiveConversation(sessions, user))
      && forall u :: HasActiveConversation(r.0, u) <==> HasActiveConversation(sessions, u)
  {
  }

  /**
    The model sees only the last six turns: two sessions that agree on their
    last five turns get the same answer to the same text.
   */
  lemma AnswerDependsOnRecentTurns(a: Sessions, b: Sessions, user: UserId, text: string, llm: Llm, pick: nat)
    requires user in a && user in b
    requires |a[user].history| >= 5 && |b[user].history| >= 5
    requires a[user].history[|a[user].history| - 5..] == b[user].history[|b[user].history| - 5..]
    ensures LastAnswer(a, user, text, llm, pick) == LastAnswer(b, user, text, llm, pick)
  {
    var ha := a[user].history;
    var hb := b[user].history;
    var recent := ha[|ha| - 5..] + [Turn(User, text)];
    assert ha + [Turn(User, text)] == ha[..|ha| - 5] + recent;
    assert hb + [Turn(User, text)] == hb[..|hb| - 5] + recent;
    FormatHistoryKeepsLastSix(ha[..|ha| - 5], recent);
    FormatHistoryKeepsLastSix(hb[..|hb| - 5], recent);
  }

  const OpenerPromptHead :=
    "Este es el primer mensaje para ayudar a despertar. Saluda brevemente.\n"
    + "Inicia una conversación interesante con una pregunta que rompa el hielo.\n"
    + "Hora programada: "

  const OpenerPromptTail :=
    ". No uses formato markdown.\n\n"
    + "Ejemplos de estilo:\n"
    + "- ¡Arriba! ¿Qué vas a hacer primero en los próximos 5 minutos?\n"
    + "- ¡Buen día! Toma agua y dime: ¿cuál es tu mini-objetivo de la mañana?\n"

  /** The prompt for the greeting that opens a conversation. */
  function OpenerPrompt(time: string): string
  {
    OpenerPromptHead + time + OpenerPromptTail
  }

  /** The greeting prompt is a fixed head, the alarm's time and a fixed tail; the time reads back from between them. */
  lemma OpenerPromptReadsBack(time: string)
    ensures var p := OpenerPrompt(time);
      && |p| == |OpenerPromptHead| + |time| + |OpenerPromptTail|
      && p[..|OpenerPromptHead|] == OpenerPromptHead
      && p[|OpenerPromptHead|..|p| - |OpenerPromptTail|] == time
      && p[|p| - |OpenerPromptTail|..] == OpenerPromptTail
  {
    assert OpenerPrompt(time) == Framed(OpenerPromptHead, time, OpenerPromptTail);
  }

  /** Different alarm times give different greeting prompts. */
  lemma OpenerPromptInjective(t1: string, t2: string)
    ensures OpenerPrompt(t1) == OpenerPrompt(t2) <==> t1 == t2
  {
    assert OpenerPrompt(t1) == Framed(OpenerPromptHead, t1, OpenerPromptTail);
    assert OpenerPrompt(t2) == Framed(OpenerPromptHead, t2, OpenerPromptTail);
    FramedInjective(OpenerPromptHead, t1, t2, OpenerPromptTail);
  }

  /**
    The greeting: the model's non-empty text, else
    `WAKE_UP_MESSAGES[pick % 6]`, also when the model fails.
   */
  function Opener(llm: Llm, time: string, pick: nat): (m: string)
    ensures |m| > 0
    ensures llm.Absent? ==> m in Config.WakeUpMessages
    ensures m in Config.WakeUpMessages || (llm.Present? && llm.generate(OpenerPrompt(time)) == Generated(m))
    ensures llm.Present? && llm.generate(OpenerPrompt(time)).Generated? && |llm.generate(OpenerPrompt(time)).text| > 0 ==>
      m == llm.generate(OpenerPrompt(time)).text
  {
    var fallback := Config.WakeUpMessages[pick % |Config.WakeUpMessages|];
    match llm
    case Absent => fallback
    case Present(generate) =>
      match generate(OpenerPrompt(time))
      case Generated(text) => if |text| > 0 then text else fallback
      case GenerationFailed => fallback
  }

  const InstructionsHead := "⏰ "
  const InstructionsTail := " · Responde este mensaje para continuar. Cuando ya estés despiert@, enviá /despierto."

  /** The second message of a firing: how to go on and how to stop. */
  function Instructions(time: string): string
  {
    InstructionsHead + time + InstructionsTail
  }

  /** The instructions are a fixed head, the alarm's time and a fixed tail; the time reads back from between them. */
  lemma InstructionsReadsBack(time: string)
    ensures var m := Instructions(time);
      && |m| == |InstructionsHead| + |time| + |InstructionsTail|
      && m[..|InstructionsHead|] == InstructionsHead
      && m[|InstructionsHead|..|m| - |InstructionsTail|] == time
      && m[|m| - |InstructionsTail|..] == InstructionsTail
  {
    assert Instructions(time) == Framed(InstructionsHead, time, InstructionsTail);
  }

  /** Different alarm times give different instructions. */
  lemma InstructionsInjective(t1: string, t2: string)
    ensures Instructions(t1) == Instructions(t2) <==> t1 == t2
  {
    assert Instructions(t1) == Framed(InstructionsHead, t1, InstructionsTail);
    assert Instructions(t2) == Framed(InstructionsHead, t2, InstructionsTail);
    FramedInjective(InstructionsHead, t1, t2, InstructionsTail);
  }

  /**
    `_send_alarm_message`, the job's callback. `data` is the job's context,
    absent when the job carries none. `delivered` counts the sends that
    succeed before one raises: the session is stored only once the greeting
    is out, and the instructions follow it.
   */
  function OnAlarmFired(sessions: Sessions, data: Option<JobContext>, llm: Llm, pick: nat, delivered: nat): (r: (Sessions, seq<Outbound>))
    ensures data.None? || delivered == 0 ==> r == (sessions, [])
    ensures data.Some? && delivered > 0 ==>
      var ctx := data.value;
      && ctx.user in r.0
      && r.0[ctx.user].chat == ctx.chat && r.0[ctx.user].time == ctx.time
      && |r.0[ctx.user].history| == 1
      && r.0[ctx.user].history[0].role == Assistant
      && r.1 == [Outbound(ctx.chat, r.0[ctx.user].history[0].text)]
                + (if delivered >= 2 then [Outbound(ctx.chat, Instructions(ctx.time))] else [])
    ensures data.Some? ==> forall u :: u != data.value.user ==> (u in r.0 <==> u in sessions)
    ensures data.Some? ==> forall u :: u != data.value.user && u in sessions ==> u in r.0 && r.0[u] == sessions[u]
  {
    match data
    case None => (sessions, [])
    case Some(ctx) =>
      if delivered == 0 then (sessions, [])
      else Open(sessions, ctx, Opener(llm, ctx.time, pick), delivered >= 2)
  }

  /**
    The firing once the greeting `message` is out: the user's session is
    replaced by one holding just the greeting; the instructions follow when
    `instructed`.
   */
  function Open(sessions: Sessions, ctx: JobContext, message: string, instructed: bool): (r: (Sessions, seq<Outbound>))
    ensures ctx.user in r.0
    ensures r.0[ctx.user] == Session(ctx.chat, ctx.time, [Turn(Assistant, message)])
    ensures r.1 == [Outbound(ctx.chat, message)] + (if instructed then [Outbound(ctx.chat, Instructions(ctx.time))] else [])
    ensures forall u :: u != ctx.user ==> (u in r.0 <==> u in sessions)
    ensures forall u :: u != ctx.user && u in sessions ==> u in r.0 && r.0[u] == sessions[u]
  {
    var sent := [Outbound(ctx.chat, message)]
      + (if instructed then [Outbound(ctx.chat, Instructions(ctx.time))] else []);
    (sessions[ctx.user := Session(ctx.chat, ctx.time, [Turn(Assistant, message)])], sent)
  }

  /** The greeting stored by a firing is the opener the configured model and catalogue give. */
  lemma FiredGreeting(sessions: Sessions, ctx: JobContext, llm: Llm, pick: nat, delivered: nat)
    requires delivered > 0
    ensures var m := OnAlarmFired(sessions, Some(ctx), llm, pick, delivered).0[ctx.user].history[0].text;
      && |m| > 0
      && (llm.Absent? ==> m in Config.WakeUpMessages)
      && (m in Config.WakeUpMessages || (llm.Present? && llm.generate(OpenerPrompt(ctx.time)) == Generated(m)))
  {
  }

  /** Turns alternate, the assistant first and last. */
  predicate Alternates(history: seq<Turn>)
  {
    && |history| % 2 == 1
    && forall i :: 0 <= i < |history| ==> history[i].role == (if i % 2 == 0 then Assistant else User)
  }

  /** Every open session's history alternates. */
  predicate SessionsWellFormed(sessions: Sessions)
  {
    forall u :: u in sessions ==> Alternates(sessions[u].history)
  }

  /** A firing that got its greeting out leaves the user in a conversation. */
  lemma FiringOpensConversation(sessions: Sessions, ctx: JobContext, llm: Llm, pick: nat, delivered: nat)
    ensures HasActiveConversation(OnAlarmFired(sessions, Some(ctx), llm, pick, delivered).0, ctx.user)
      <==> delivered > 0 || HasActiveConversation(sessions, ctx.user)
  {
  }

  lemma FiringKeepsWellFormed(sessions: Sessions, data: Option<JobContext>, llm: Llm, pick: nat, delivered: nat)
    requires SessionsWellFormed(sessions)
    ensures SessionsWellFormed(OnAlarmFired(sessions, data, llm, pick, delivered).0)
  {
  }

  /** A user turn followed by an assistant turn keeps the alternation. */
  lemma ExchangeKeepsAlternation(h: seq<Turn>, h': seq<Turn>)
    requires Alternates(h)
    requires |h'| == |h| + 2 && h'[..|h|] == h
    requires h'[|h|].role == User && h'[|h| + 1].role == Assistant
    ensures Alternates(h')
  {
    forall i | 0 <= i < |h'|
      ensures h'[i].role == (if i % 2 == 0 then Assistant else User)
    {
      if i < |h| {
        assert h'[i] == h'[..|h|][i];
      }
    }
  }

  lemma ReplyKeepsWellFormed(sessions: Sessions, user: UserId, text: string, llm: Llm, pick: nat)
    requires SessionsWellFormed(sessions)
    ensures SessionsWellFormed(ReplyInConversation(sessions, user, text, llm, pick).0)
  {
    var r := ReplyInConversation(sessions, user, text, llm, pick).0;
    if user in sessions {
      ExchangeKeepsAlternation(sessions[user].history, r[user].history);
    }
  }

  lemma StopKeepsWellFormed(sessions: Sessions, user: UserId)
    requires SessionsWellFormed(sessions)
    ensures SessionsWellFormed(StopConversation(sessions, user).1)
  {
  }

  /**
    A live job of a consistent registry fires for an alarm the registry
    holds, under the handle stored for it, at a valid time; the session it
    opens carries that alarm's time text and chat.
   */
  lemma LiveJobOpensSession(s: Scheduler, id: JobId, sessions: Sessions, llm: Llm, pick: nat, delivered: nat)
    requires Valid(s) && s.queue.Live(id) && delivered > 0
    ensures var ctx := s.queue.jobs[id].context;
      && HasAlarm(s, ctx.user, ctx.time)
      && s.userAlarms[ctx.user][ctx.time] == id
      && Config.ValidateTimeFormat(ctx.time).TimeOk?
      && var started := OnAlarmFired(sessions, Some(ctx), llm, pick, delivered).0[ctx.user];
         started.time == ctx.time && started.chat == ctx.chat
  {
    RegistryProperties.LiveJobBelongsToAlarm(s, id);
  }
}
