/**
  The alarm half of `AlarmScheduler` (bot/alarm.py): the map from user to
  time text to daily job, kept in step with the job queue that runs the
  jobs. Installing and cancelling a job are recorded in `JobQueue`.
 */
module Registry {
  import opened Wrappers
  import opened Clock
  import opened Ordering
  import Config

  type UserId = int
  type ChatId = int
  type JobId = nat

  /** The data a job hands to its callback: who to wake, where, and for which alarm. */
  datatype JobContext = JobContext(user: UserId, chat: ChatId, time: string)

  /** A daily job: its context and the local hour and minute it runs at. */
  datatype Job = Job(context: JobContext, hour: int, minute: int)

  /**
    The job queue: every job ever installed under its handle, the handles
    whose removal has been scheduled, and the next fresh handle.
   */
  datatype JobQueue = JobQueue(jobs: map<JobId, Job>, cancelled: set<JobId>, next: JobId) {

    /** A job that still runs every day. */
    predicate Live(id: JobId)
    {
      id in jobs && id !in cancelled
    }

    /** `run_daily`: installs `job` under a fresh handle. */
    function RunDaily(job: Job): (r: (JobId, JobQueue))
      ensures (forall id :: id in jobs ==> id < next) ==> r.0 !in jobs
      ensures r.1.jobs == jobs[r.0 := job] && r.1.cancelled == cancelled
    {
      (next, JobQueue(jobs[next := job], cancelled, next + 1))
    }

    /** `job.schedule_removal()` for every handle in `ids`. */
    function Cancel(ids: set<JobId>): (q: JobQueue)
      ensures q.jobs == jobs && q.cancelled == cancelled + ids
    {
      JobQueue(jobs, cancelled + ids, next)
    }
  }

  /** The alarm registry: `user_alarms` and the job queue it drives. */
  datatype Scheduler = Scheduler(userAlarms: map<UserId, map<string, JobId>>, queue: JobQueue)

  /** The two-level map `user_alarms`. */
  type AlarmMap = map<UserId, map<string, JobId>>

  predicate In(alarms: AlarmMap, user: UserId, time: string)
  {
    user in alarms && time in alarms[user]
  }

  /** Every `(user, time)` key of a two-level map. */
  function Keys(alarms: AlarmMap): set<(UserId, string)>
  {
    set user, time | user in alarms && time in alarms[user] :: (user, time)
  }

  /** Stores `id` under `(user, time)`, creating the user's entry when needed. */
  function Insert(alarms: AlarmMap, user: UserId, time: string, id: JobId): (r: AlarmMap)
    ensures Keys(r) == Keys(alarms) + {(user, time)}
    ensures r[user][time] == id
    ensures forall u, t :: In(alarms, u, t) && (u, t) != (user, time) ==> In(r, u, t) && r[u][t] == alarms[u][t]
    ensures forall u, t :: In(r, u, t) ==> In(alarms, u, t) || (u, t) == (user, time)
    ensures forall u :: u in alarms && |alarms[u]| > 0 ==> u in r && |r[u]| > 0
    ensures forall u :: u in r ==> u in alarms || u == user
    ensures user in r && |r[user]| > 0
  {
    var inner := if user in alarms then alarms[user] else map[];
    var r := alarms[user := inner[time := id]];
    assert Keys(r) == Keys(alarms) + {(user, time)} by {
      forall k | k in Keys(r) ensures k in Keys(alarms) + {(user, time)} {
        if k != (user, time) {
          assert In(alarms, k.0, k.1);
        }
      }
      forall k | k in Keys(alarms) + {(user, time)} ensures k in Keys(r) {
        assert In(r, k.0, k.1);
      }
    }
    r
  }

  /** Drops `(user, time)`, and the user's entry with it once that is empty. */
  function Delete(alarms: AlarmMap, user: UserId, time: string): (r: AlarmMap)
    requires In(alarms, user, time)
    ensures Keys(r) == Keys(alarms) - {(user, time)}
    ensures forall u, t :: In(r, u, t) ==> In(alarms, u, t) && r[u][t] == alarms[u][t]
    ensures forall u :: u in r ==> u in alarms
    ensures user in r <==> |alarms[user]| > 1
    ensures user in r ==> |r[user]| > 0
    ensures forall u :: u in alarms && u != user ==> u in r && r[u] == alarms[u]
    ensures forall u, t :: In(alarms, u, t) && (u, t) != (user, time) ==> In(r, u, t)
    ensures !In(r, user, time)
  {
    var inner := alarms[user] - {time};
    assert |inner| == |alarms[user]| - 1;
    var r := if |inner| == 0 then alarms - {user} else alarms[user := inner];
    assert Keys(r) == Keys(alarms) - {(user, time)} by {
      forall k | k in Keys(alarms) - {(user, time)} ensures k in Keys(r) {
        if k.0 == user {
          assert k.1 in inner;
        }
        assert In(r, k.0, k.1);
      }
      forall k | k in Keys(r) ensures k in Keys(alarms) - {(user, time)} {
        assert In(alarms, k.0, k.1);
      }
    }
    r
  }

  /** `(success, message)`, the message ready to send to the user. */
  datatype Reply = Reply(success: bool, message: string)

  /** A reply and the registry after the operation. */
  datatype Outcome = Outcome(reply: Reply, scheduler: Scheduler)

  /** The starting registry: no alarms, no jobs. */
  const Empty: Scheduler := Scheduler(map[], JobQueue(map[], {}, 0))

  predicate HasAlarm(s: Scheduler, user: UserId, time: string)
  {
    In(s.userAlarms, user, time)
  }

  /** Every `(user, time)` key of the registry. */
  function AlarmKeys(s: Scheduler): set<(UserId, string)>
  {
    Keys(s.userAlarms)
  }

  /** `id` names a live job that belongs to alarm `(user, time)`. */
  predicate Tracks(q: JobQueue, id: JobId, user: UserId, time: string)
  {
    q.Live(id) && q.jobs[id].context.user == user && q.jobs[id].context.time == time
  }

  /** No user is left with an empty set of alarms. */
  predicate UsersNonEmpty(alarms: AlarmMap)
  {
    forall user :: user in alarms ==> |alarms[user]| > 0
  }

  /** Every alarm holds a live job of its own key. */
  predicate AlarmsTracked(s: Scheduler)
  {
    forall user, time :: user in s.userAlarms && time in s.userAlarms[user] ==>
      Tracks(s.queue, s.userAlarms[user][time], user, time)
  }

  /** Every live job is the job of the alarm its context names: no orphaned timers. */
  predicate NoOrphans(s: Scheduler)
  {
    forall id :: id in s.queue.jobs && id !in s.queue.cancelled ==>
      var ctx := s.queue.jobs[id].context;
      In(s.userAlarms, ctx.user, ctx.time) && s.userAlarms[ctx.user][ctx.time] == id
  }

  /** Every job runs at the valid hour and minute its time text denotes. */
  predicate JobsAtTheirTime(q: JobQueue)
  {
    forall id :: id in q.jobs ==>
      ClockFields(q.jobs[id].context.time) == Some((q.jobs[id].hour, q.jobs[id].minute)) &&
      InClockRange(q.jobs[id].hour, q.jobs[id].minute)
  }

  /** Only installed jobs are cancelled, and handles below `next` are taken. */
  predicate HandlesFresh(q: JobQueue)
  {
    q.cancelled <= q.jobs.Keys && forall id :: id in q.jobs ==> id < q.next
  }

  /**
    Installing keeps the handles fresh, and the new job is live under its
    handle while no other job changes whether it runs.
   */
  lemma RunDailyKeepsHandles(q: JobQueue, job: Job)
    requires HandlesFresh(q)
    ensures var (id, q') := q.RunDaily(job);
      && HandlesFresh(q')
      && q'.Live(id)
      && forall other :: other != id ==> (q'.Live(other) <==> q.Live(other))
  {
  }

  /**
    Cancelling installed jobs keeps the handles fresh, and exactly the
    cancelled ones stop running.
   */
  lemma CancelKeepsHandles(q: JobQueue, ids: set<JobId>)
    requires HandlesFresh(q) && ids <= q.jobs.Keys
    ensures HandlesFresh(q.Cancel(ids))
    ensures forall id :: q.Cancel(ids).Live(id) <==> q.Live(id) && id !in ids
  {
  }

  /** The registry's invariant. */
  predicate Valid(s: Scheduler)
  {
    && UsersNonEmpty(s.userAlarms)
    && AlarmsTracked(s)
    && NoOrphans(s)
    && JobsAtTheirTime(s.queue)
    && HandlesFresh(s.queue)
  }

  lemma EmptyValid()
    ensures Valid(Empty)
    ensures AlarmKeys(Empty) == {}
  {
  }

  function ErrorReply(key: string): Reply
    requires key in Config.ErrorMessages
  {
    Reply(false, Config.ErrorMessages[key])
  }

  /** The successful end of `add_alarm`: the job is installed and its handle stored. */
  function Install(s: Scheduler, user: UserId, time: string, chat: ChatId, hour: int, minute: int): (o: Outcome)
    ensures o.reply == Reply(true, Config.SuccessMessages["alarm_set"].Format(time))
    ensures AlarmKeys(o.scheduler) == AlarmKeys(s) + {(user, time)}
    ensures forall u, t :: HasAlarm(s, u, t) && (u, t) != (user, time) ==>
      HasAlarm(o.scheduler, u, t) && o.scheduler.userAlarms[u][t] == s.userAlarms[u][t]
    ensures o.scheduler.queue.cancelled == s.queue.cancelled
    ensures o.scheduler.queue.jobs ==
      s.queue.jobs[o.scheduler.userAlarms[user][time] := Job(JobContext(user, chat, time), hour, minute)]
  {
    var (id, queue) := s.queue.RunDaily(Job(JobContext(user, chat, time), hour, minute));
    var s' := Scheduler(Insert(s.userAlarms, user, time, id), queue);
    Outcome(Reply(true, Config.SuccessMessages["alarm_set"].Format(time)), s')
  }

  /**
    `add_alarm`: validates the text, refuses a duplicate `(user, time)`
    key, installs a daily job at the validated hour and minute, and stores
    its handle. `queueAvailable` is false when the application has no job
    queue, where the source's `run_daily` call raises and `general_error`
    is reported.
   */
  function AddAlarm(s: Scheduler, user: UserId, time: string, chat: ChatId, queueAvailable: bool): (o: Outcome)
    ensures Config.ValidateTimeFormat(time).TimeError? ==>
      o == Outcome(ErrorReply(Config.ValidateTimeFormat(time).key), s)
    ensures Config.ValidateTimeFormat(time).TimeOk? && HasAlarm(s, user, time) ==>
      o == Outcome(ErrorReply("alarm_exists"), s)
    ensures Config.ValidateTimeFormat(time).TimeOk? && !HasAlarm(s, user, time) && !queueAvailable ==>
      o == Outcome(ErrorReply("general_error"), s)
    ensures o.reply.success <==>
      Config.ValidateTimeFormat(time).TimeOk? && !HasAlarm(s, user, time) && queueAvailable
    ensures o.reply.success ==>
      && o.reply.message == Config.SuccessMessages["alarm_set"].Format(time)
      && AlarmKeys(o.scheduler) == AlarmKeys(s) + {(user, time)}
      && (forall u, t :: HasAlarm(s, u, t) ==>
            HasAlarm(o.scheduler, u, t) && o.scheduler.userAlarms[u][t] == s.userAlarms[u][t])
      && o.scheduler.queue.cancelled == s.queue.cancelled
      && o.scheduler.queue.jobs ==
           s.queue.jobs[o.scheduler.userAlarms[user][time] :=
                          Job(JobContext(user, chat, time), ClockFields(time).value.0, ClockFields(time).value.1)]
  {
    match Config.ValidateTimeFormat(time)
    case TimeError(key) => Outcome(ErrorReply(key), s)
    case TimeOk =>
      if HasAlarm(s, user, time) then Outcome(ErrorReply("alarm_exists"), s)
      else if !queueAvailable then Outcome(ErrorReply("general_error"), s)
      else
        var (hour, minute) := ClockFields(time).value;
        Install(s, user, time, chat, hour, minute)
  }

  /**
    `remove_alarm`: cancels the key's job, drops the key, and drops the
    user's entry once it is empty.
   */
  function RemoveAlarm(s: Scheduler, user: UserId, time: string): (o: Outcome)
    ensures !HasAlarm(s, user, time) ==> o == Outcome(ErrorReply("alarm_not_found"), s)
    ensures o.reply.success <==> HasAlarm(s, user, time)
    ensures o.reply.success ==>
      && o.reply.message == Config.SuccessMessages["alarm_removed"].Format(time)
      && AlarmKeys(o.scheduler) == AlarmKeys(s) - {(user, time)}
      && (forall u, t :: HasAlarm(o.scheduler, u, t) ==>
            HasAlarm(s, u, t) && o.scheduler.userAlarms[u][t] == s.userAlarms[u][t])
      && o.scheduler.queue == s.queue.Cancel({s.userAlarms[user][time]})
      && (user in o.scheduler.userAlarms <==> |s.userAlarms[user]| > 1)
  {
    if !HasAlarm(s, user, time) then Outcome(ErrorReply("alarm_not_found"), s)
    else
      var id := s.userAlarms[user][time];
      var s' := Scheduler(Delete(s.userAlarms, user, time), s.queue.Cancel({id}));
      Outcome(Reply(true, Config.SuccessMessages["alarm_removed"].Format(time)), s')
  }

  /** `remove_all_alarms`: cancels every job of the user and drops the user's entry. */
  function RemoveAllAlarms(s: Scheduler, user: UserId): (o: Outcome)
    ensures o.reply.success <==> user in s.userAlarms && |s.userAlarms[user]| > 0
    ensures !o.reply.success ==> o == Outcome(ErrorReply("no_alarms"), s)
    ensures o.reply.success ==>
      && o.reply.message == Config.SuccessMessages["all_alarms_removed"].text
      && o.scheduler.userAlarms == s.userAlarms - {user}
      && AlarmKeys(o.scheduler) == set k | k in AlarmKeys(s) && k.0 != user
      && o.scheduler.queue == s.queue.Cancel(s.userAlarms[user].Values)
  {
    if user !in s.userAlarms || |s.userAlarms[user]| == 0 then Outcome(ErrorReply("no_alarms"), s)
    else
      var s' := Scheduler(s.userAlarms - {user}, s.queue.Cancel(s.userAlarms[user].Values));
      Outcome(Reply(true, Config.SuccessMessages["all_alarms_removed"].text), s')
  }

  /** `get_user_alarms`: the user's time texts, each once, in ascending string order. */
  function GetUserAlarms(s: Scheduler, user: UserId): (times: seq<string>)
    ensures StrictlyAscending(times)
    ensures forall t :: t in times <==> HasAlarm(s, user, t)
    ensures |times| == if user in s.userAlarms then |s.userAlarms[user]| else 0
  {
    if user !in s.userAlarms then []
    else SortedList(s.userAlarms[user].Keys)
  }
}
