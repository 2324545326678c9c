/**
  What the registry's operations keep and undo: the invariant of
  `Registry.Valid` across every operation, the job accounting of removal,
  and the round trips between adding, listing and removing.
 */
module RegistryProperties {
  import opened Wrappers
  import opened Clock
  import opened Registry
  import Config
  import Ordering

  /** The registry `Install` produces, spelled out. */
  function Installed(s: Scheduler, user: UserId, time: string, chat: ChatId, hour: int, minute: int): (s': Scheduler)
    ensures s' == Install(s, user, time, chat, hour, minute).scheduler
  {
    var id := s.queue.next;
    Scheduler(Insert(s.userAlarms, user, time, id),
              JobQueue(s.queue.jobs[id := Job(JobContext(user, chat, time), hour, minute)], s.queue.cancelled, id + 1))
  }

  lemma InstallTracked(s: Scheduler, user: UserId, time: string, chat: ChatId, hour: int, minute: int)
    requires AlarmsTracked(s) && HandlesFresh(s.queue)
    ensures AlarmsTracked(Installed(s, user, time, chat, hour, minute))
  {
    var s' := Installed(s, user, time, chat, hour, minute);
    var id := s.queue.next;
    assert id !in s.queue.jobs && id !in s.queue.cancelled;
    forall u, t | u in s'.userAlarms && t in s'.userAlarms[u]
      ensures Tracks(s'.queue, s'.userAlarms[u][t], u, t)
    {
      assert In(s'.userAlarms, u, t);
      if (u, t) != (user, time) {
        assert In(s.userAlarms, u, t);
        assert Tracks(s.queue, s.userAlarms[u][t], u, t);
      }
    }
  }

  lemma InstallNoOrphans(s: Scheduler, user: UserId, time: string, chat: ChatId, hour: int, minute: int)
    requires NoOrphans(s) && !HasAlarm(s, user, time)
    ensures NoOrphans(Installed(s, user, time, chat, hour, minute))
  {
    var s' := Installed(s, user, time, chat, hour, minute);
    var id := s.queue.next;
    forall i | i in s'.queue.jobs && i !in s'.queue.cancelled
      ensures In(s'.userAlarms, s'.queue.jobs[i].context.user, s'.queue.jobs[i].context.time)
      ensures s'.userAlarms[s'.queue.jobs[i].context.user][s'.queue.jobs[i].context.time] == i
    {
      if i != id {
        var ctx := s.queue.jobs[i].context;
        assert In(s.userAlarms, ctx.user, ctx.time);
      }
    }
  }

  lemma InstallNonEmpty(s: Scheduler, user: UserId, time: string, chat: ChatId, hour: int, minute: int)
    requires UsersNonEmpty(s.userAlarms)
    ensures UsersNonEmpty(Installed(s, user, time, chat, hour, minute).userAlarms)
  {
  }

  lemma InstallJobs(s: Scheduler, user: UserId, time: string, chat: ChatId, hour: int, minute: int)
    requires JobsAtTheirTime(s.queue) && HandlesFresh(s.queue)
    requires ClockFields(time) == Some((hour, minute)) && InClockRange(hour, minute)
    ensures JobsAtTheirTime(Installed(s, user, time, chat, hour, minute).queue)
    ensures HandlesFresh(Installed(s, user, time, chat, hour, minute).queue)
  {
  }

  /** Installing a job for a new, valid key keeps every part of the invariant. */
  lemma InstallValid(s: Scheduler, user: UserId, time: string, chat: ChatId, hour: int, minute: int)
    requires Valid(s)
    requires !HasAlarm(s, user, time)
    requires ClockFields(time) == Some((hour, minute)) && InClockRange(hour, minute)
    ensures Valid(Install(s, user, time, chat, hour, minute).scheduler)
    ensures Install(s, user, time, chat, hour, minute).scheduler.userAlarms[user][time] == s.queue.next
  {
    var s' := Installed(s, user, time, chat, hour, minute);
    InstallTracked(s, user, time, chat, hour, minute);
    InstallNoOrphans(s, user, time, chat, hour, minute);
    InstallNonEmpty(s, user, time, chat, hour, minute);
    InstallJobs(s, user, time, chat, hour, minute);
  }

  /** `add_alarm` keeps the invariant; a stored handle is fresh and live. */
  lemma AddAlarmValid(s: Scheduler, user: UserId, time: string, chat: ChatId, queueAvailable: bool)
    requires Valid(s)
    ensures Valid(AddAlarm(s, user, time, chat, queueAvailable).scheduler)
    ensures var o := AddAlarm(s, user, time, chat, queueAvailable);
      o.reply.success ==>
        && o.scheduler.userAlarms[user][time] == s.queue.next
        && s.queue.next !in s.queue.jobs
        && o.scheduler.queue.Live(s.queue.next)
  {
    var o := AddAlarm(s, user, time, chat, queueAvailable);
    if o.reply.success {
      var (hour, minute) := ClockFields(time).value;
      assert o == Install(s, user, time, chat, hour, minute);
      InstallValid(s, user, time, chat, hour, minute);
    }
  }

  /** The registry `RemoveAlarm` produces for a present key, spelled out. */
  function Deleted(s: Scheduler, user: UserId, time: string): Scheduler
    requires HasAlarm(s, user, time)
  {
    Scheduler(Delete(s.userAlarms, user, time), s.queue.Cancel({s.userAlarms[user][time]}))
  }

  lemma DeleteTracked(s: Scheduler, user: UserId, time: string)
    requires AlarmsTracked(s) && HasAlarm(s, user, time)
    ensures AlarmsTracked(Deleted(s, user, time))
  {
    var s' := Deleted(s, user, time);
    assert Tracks(s.queue, s.userAlarms[user][time], user, time);
    forall u, t | u in s'.userAlarms && t in s'.userAlarms[u]
      ensures Tracks(s'.queue, s'.userAlarms[u][t], u, t)
    {
      assert In(s'.userAlarms, u, t);
      assert In(s.userAlarms, u, t);
      assert Tracks(s.queue, s.userAlarms[u][t], u, t);
    }
  }

  lemma DeleteNoOrphans(s: Scheduler, user: UserId, time: string)
    requires NoOrphans(s) && HasAlarm(s, user, time)
    ensures NoOrphans(Deleted(s, user, time))
  {
    var s' := Deleted(s, user, time);
    forall i | i in s'.queue.jobs && i !in s'.queue.cancelled
      ensures In(s'.userAlarms, s'.queue.jobs[i].context.user, s'.queue.jobs[i].context.time)
      ensures s'.userAlarms[s'.queue.jobs[i].context.user][s'.queue.jobs[i].context.time] == i
    {
      var ctx := s.queue.jobs[i].context;
      assert In(s.userAlarms, ctx.user, ctx.time);
    }
  }

  lemma DeleteNonEmpty(s: Scheduler, user: UserId, time: string)
    requires UsersNonEmpty(s.userAlarms) && HasAlarm(s, user, time)
    ensures UsersNonEmpty(Deleted(s, user, time).userAlarms)
  {
    var a' := Deleted(s, user, time).userAlarms;
    forall u | u in a'
      ensures |a'[u]| > 0
    {
      if u != user {
        assert a'[u] == s.userAlarms[u];
      }
    }
  }

  /** Deleting a key and cancelling its job keeps every part of the invariant. */
  lemma DeleteValid(s: Scheduler, user: UserId, time: string)
    requires Valid(s)
    requires HasAlarm(s, user, time)
    ensures Valid(Deleted(s, user, time))
  {
    DeleteTracked(s, user, time);
    DeleteNoOrphans(s, user, time);
    DeleteNonEmpty(s, user, time);
    var id := s.userAlarms[user][time];
    assert id in s.queue.jobs by {
      assert Tracks(s.queue, id, user, time);
    }
    CancelKeepsQueue(s.queue, id);
  }

  /** Cancelling an installed job keeps the queue's own invariants. */
  lemma CancelKeepsQueue(q: JobQueue, id: JobId)
    requires JobsAtTheirTime(q) && HandlesFresh(q) && id in q.jobs
    ensures JobsAtTheirTime(q.Cancel({id})) && HandlesFresh(q.Cancel({id}))
  {
  }

  /** `remove_alarm` keeps the invariant, and the removed alarm's job is the one cancelled. */
  lemma RemoveAlarmValid(s: Scheduler, user: UserId, time: string)
    requires Valid(s)
    ensures Valid(RemoveAlarm(s, user, time).scheduler)
    ensures var o := RemoveAlarm(s, user, time);
      o.reply.success ==>
        && !o.scheduler.queue.Live(s.userAlarms[user][time])
        && o.scheduler.queue.cancelled - s.queue.cancelled == {s.userAlarms[user][time]}
  {
    if HasAlarm(s, user, time) {
      DeleteValid(s, user, time);
      assert RemoveAlarm(s, user, time).scheduler == Deleted(s, user, time);
      assert Tracks(s.queue, s.userAlarms[user][time], user, time);
    }
  }

  /** A map whose values are pairwise distinct has as many values as keys. */
  lemma {:induction false} DistinctValuesCount<K, V>(m: map<K, V>)
    requires forall a, b :: a in m && b in m && a != b ==> m[a] != m[b]
    ensures |m.Values| == |m|
    decreases |m|
  {
    if |m| > 0 {
      var k :| k in m;
      var rest := m - {k};
      DistinctValuesCount(rest);
      assert m.Values == rest.Values + {m[k]} by {
        forall v | v in m.Values ensures v in rest.Values + {m[k]} {
          var a :| a in m && m[a] == v;
          if a != k {
            assert a in rest;
          }
        }
      }
      assert m[k] !in rest.Values;
    }
  }

  /** The handles of one user's alarms are live and pairwise distinct. */
  lemma UserHandles(s: Scheduler, user: UserId)
    requires AlarmsTracked(s) && user in s.userAlarms
    ensures forall a, b :: a in s.userAlarms[user] && b in s.userAlarms[user] && a != b ==>
      s.userAlarms[user][a] != s.userAlarms[user][b]
    ensures forall id :: id in s.userAlarms[user].Values ==>
      s.queue.Live(id) && s.queue.jobs[id].context.user == user
  {
    var mine := s.userAlarms[user];
    forall a, b | a in mine && b in mine && a != b
      ensures mine[a] != mine[b]
    {
      assert Tracks(s.queue, mine[a], user, a);
      assert Tracks(s.queue, mine[b], user, b);
    }
    forall id | id in mine.Values
      ensures s.queue.Live(id) && s.queue.jobs[id].context.user == user
    {
      var t :| t in mine && mine[t] == id;
      assert Tracks(s.queue, mine[t], user, t);
    }
  }

  /** The registry `RemoveAllAlarms` produces for a user with alarms, spelled out. */
  function Cleared(s: Scheduler, user: UserId): Scheduler
    requires user in s.userAlarms
  {
    Scheduler(s.userAlarms - {user}, s.queue.Cancel(s.userAlarms[user].Values))
  }

  lemma ClearTracked(s: Scheduler, user: UserId)
    requires AlarmsTracked(s) && user in s.userAlarms
    ensures AlarmsTracked(Cleared(s, user))
  {
    var s' := Cleared(s, user);
    UserHandles(s, user);
    forall u, t | u in s'.userAlarms && t in s'.userAlarms[u]
      ensures Tracks(s'.queue, s'.userAlarms[u][t], u, t)
    {
      assert Tracks(s.queue, s.userAlarms[u][t], u, t);
      assert u != user;
    }
  }

  lemma ClearNoOrphans(s: Scheduler, user: UserId)
    requires NoOrphans(s) && user in s.userAlarms
    ensures NoOrphans(Cleared(s, user))
  {
    var s' := Cleared(s, user);
    var mine := s.userAlarms[user];
    forall i | i in s'.queue.jobs && i !in s'.queue.cancelled
      ensures In(s'.userAlarms, s'.queue.jobs[i].context.user, s'.queue.jobs[i].context.time)
      ensures s'.userAlarms[s'.queue.jobs[i].context.user][s'.queue.jobs[i].context.time] == i
    {
      var ctx := s.queue.jobs[i].context;
      assert In(s.userAlarms, ctx.user, ctx.time) && s.userAlarms[ctx.user][ctx.time] == i;
      assert ctx.user != user;
    }
  }

  /**
    `remove_all_alarms` keeps the invariant and cancels exactly the user's
    N jobs, none cancelled before, so exactly N handles change state.
   */
  lemma RemoveAllAlarmsValid(s: Scheduler, user: UserId)
    requires Valid(s)
    ensures Valid(RemoveAllAlarms(s, user).scheduler)
    ensures var o := RemoveAllAlarms(s, user);
      o.reply.success ==>
        && o.scheduler.queue.cancelled - s.queue.cancelled == s.userAlarms[user].Values
        && |o.scheduler.queue.cancelled - s.queue.cancelled| == |s.userAlarms[user]|
  {
    if user in s.userAlarms && |s.userAlarms[user]| > 0 {
      var s' := Cleared(s, user);
      assert RemoveAllAlarms(s, user).scheduler == s';
      ClearTracked(s, user);
      ClearNoOrphans(s, user);
      UserHandles(s, user);
      DistinctValuesCount(s.userAlarms[user]);
      assert s'.queue.cancelled - s.queue.cancelled == s.userAlarms[user].Values;
      assert UsersNonEmpty(s'.userAlarms);
      assert HandlesFresh(s'.queue);
    }
  }

  lemma InsertDeleteKnownUser(alarms: AlarmMap, user: UserId, time: string, id: JobId)
    requires user in alarms && |alarms[user]| > 0 && time !in alarms[user]
    ensures Delete(Insert(alarms, user, time, id), user, time) == alarms
  {
    var inner: map<string, JobId> := alarms[user][time := id];
    var a1 := alarms[user := inner];
    assert Insert(alarms, user, time, id) == a1;
    assert inner - {time} == alarms[user];
    assert Delete(a1, user, time) == a1[user := alarms[user]];
  }

  lemma InsertDeleteNewUser(alarms: AlarmMap, user: UserId, time: string, id: JobId)
    requires user !in alarms
    ensures Delete(Insert(alarms, user, time, id), user, time) == alarms
  {
    var inner: map<string, JobId> := map[time := id];
    var a1 := alarms[user := inner];
    assert Insert(alarms, user, time, id) == a1;
    assert Delete(a1, user, time) == a1 - {user} by {
      assert inner - {time} == map[];
    }
    DropNewKey(alarms, user, inner);
  }

  /** Adding a key the map did not have and dropping it again gives the map back. */
  lemma DropNewKey<K, V>(m: map<K, V>, k: K, v: V)
    requires k !in m
    ensures m[k := v] - {k} == m
  {
  }

  /** Inserting a fresh key and deleting it again gives back the original map. */
  lemma InsertDelete(alarms: AlarmMap, user: UserId, time: string, id: JobId)
    requires UsersNonEmpty(alarms) && !In(alarms, user, time)
    ensures Delete(Insert(alarms, user, time, id), user, time) == alarms
  {
    if user in alarms {
      InsertDeleteKnownUser(alarms, user, time, id);
    } else {
      InsertDeleteNewUser(alarms, user, time, id);
    }
  }

  /**
    Removing an alarm right after adding it restores the registry's map,
    leaves the new job cancelled, and a second removal finds nothing.
   */
  lemma AddThenRemove(s: Scheduler, user: UserId, time: string, chat: ChatId)
    requires Valid(s)
    requires AddAlarm(s, user, time, chat, true).reply.success
    ensures var s1 := AddAlarm(s, user, time, chat, true).scheduler;
      var o := RemoveAlarm(s1, user, time);
      && o.reply.success
      && o.scheduler.userAlarms == s.userAlarms
      && o.scheduler.queue.cancelled == s.queue.cancelled + {s.queue.next}
      && RemoveAlarm(o.scheduler, user, time) == Outcome(ErrorReply("alarm_not_found"), o.scheduler)
  {
    var (hour, minute) := ClockFields(time).value;
    var s1 := Installed(s, user, time, chat, hour, minute);
    assert AddAlarm(s, user, time, chat, true).scheduler == s1;
    assert s1.userAlarms[user][time] == s.queue.next;
    InsertDelete(s.userAlarms, user, time, s.queue.next);
    assert RemoveAlarm(s1, user, time).scheduler == Deleted(s1, user, time);
  }

  /** The user's times after `Insert` are the old ones plus the new one. */
  lemma InsertTimes(alarms: AlarmMap, user: UserId, time: string, id: JobId)
    requires !In(alarms, user, time)
    ensures var before := if user in alarms then alarms[user].Keys else {};
      && Insert(alarms, user, time, id)[user].Keys == before + {time}
      && |Insert(alarms, user, time, id)[user]| == |before| + 1
  {
    var inner: map<string, JobId> := if user in alarms then alarms[user] else map[];
    assert Insert(alarms, user, time, id)[user] == inner[time := id];
  }

  /** A successful `add_alarm` makes the time show up in the user's list, one entry longer. */
  lemma AddThenList(s: Scheduler, user: UserId, time: string, chat: ChatId)
    requires AddAlarm(s, user, time, chat, true).reply.success
    ensures var s1 := AddAlarm(s, user, time, chat, true).scheduler;
      && time in GetUserAlarms(s1, user)
      && |GetUserAlarms(s1, user)| == |GetUserAlarms(s, user)| + 1
  {
    var (hour, minute) := ClockFields(time).value;
    var s1 := Installed(s, user, time, chat, hour, minute);
    assert AddAlarm(s, user, time, chat, true).scheduler == s1;
    InsertTimes(s.userAlarms, user, time, s.queue.next);
    assert HasAlarm(s1, user, time);
  }

  /** Adding the same time twice for a user is refused and changes nothing. */
  lemma AddTwiceRefused(s: Scheduler, user: UserId, time: string, chat: ChatId, chat': ChatId, queueAvailable: bool)
    requires AddAlarm(s, user, time, chat, true).reply.success
    ensures var s1 := AddAlarm(s, user, time, chat, true).scheduler;
      AddAlarm(s1, user, time, chat', queueAvailable) == Outcome(ErrorReply("alarm_exists"), s1)
  {
    var s1 := AddAlarm(s, user, time, chat, true).scheduler;
    assert (user, time) in AlarmKeys(s1);
    assert HasAlarm(s1, user, time);
  }

  /** After `remove_all_alarms` the user lists nothing, and every other user's list is unchanged. */
  lemma RemoveAllListsNothing(s: Scheduler, user: UserId, other: UserId)
    requires other != user
    ensures var s1 := RemoveAllAlarms(s, user).scheduler;
      && GetUserAlarms(s1, user) == []
      && GetUserAlarms(s1, other) == GetUserAlarms(s, other)
  {
    var s1 := RemoveAllAlarms(s, user).scheduler;
    if !RemoveAllAlarms(s, user).reply.success {
      assert user in s.userAlarms ==> s.userAlarms[user] == map[];
    }
    assert other in s1.userAlarms <==> other in s.userAlarms;
  }

  /** The first alarm added to an empty registry gets handle 0. */
  lemma AddToEmpty(user: UserId, time: string, chat: ChatId)
    requires Config.ValidateTimeFormat(time).TimeOk?
    ensures ClockFields(time).Some?
    ensures var o := AddAlarm(Empty, user, time, chat, true);
      && o.reply.success
      && o.scheduler == Scheduler(map[user := map[time := 0]],
           JobQueue(map[0 := Job(JobContext(user, chat, time), ClockFields(time).value.0, ClockFields(time).value.1)], {}, 1))
  {
    AddIsInstall(Empty, user, time, chat);
    var (h, m) := ClockFields(time).value;
    assert Installed(Empty, user, time, chat, h, m).userAlarms == map[user := map[time := 0]];
  }

  /** A second alarm of the same user, under another text, gets handle 1 beside the first. */
  lemma InstallSecond(user: UserId, chat: ChatId, t1: string, t2: string, j1: Job, hour: int, minute: int)
    requires t1 != t2
    ensures var s1 := Scheduler(map[user := map[t1 := 0]], JobQueue(map[0 := j1], {}, 1));
      && !HasAlarm(s1, user, t2)
      && Installed(s1, user, t2, chat, hour, minute) == Scheduler(map[user := map[t1 := 0, t2 := 1]],
           JobQueue(map[0 := j1, 1 := Job(JobContext(user, chat, t2), hour, minute)], {}, 2))
  {
    var m1: map<string, JobId> := map[t1 := 0];
    var s1 := Scheduler(map[user := m1], JobQueue(map[0 := j1], {}, 1));
    assert s1.userAlarms[user] == m1;
    assert Insert(s1.userAlarms, user, t2, 1) == map[user := m1[t2 := 1]];
  }

  /** Adding two different valid texts to an empty registry, step by step. */
  lemma AddTwo(user: UserId, chat: ChatId, t1: string, t2: string)
    requires Config.ValidateTimeFormat(t1).TimeOk? && Config.ValidateTimeFormat(t2).TimeOk? && t1 != t2
    ensures ClockFields(t1).Some? && ClockFields(t2).Some?
    ensures var o1 := AddAlarm(Empty, user, t1, chat, true);
      var o2 := AddAlarm(o1.scheduler, user, t2, chat, true);
      && o1.reply.success && o2.reply.success
      && o2.scheduler == Scheduler(map[user := map[t1 := 0, t2 := 1]],
           JobQueue(map[0 := Job(JobContext(user, chat, t1), ClockFields(t1).value.0, ClockFields(t1).value.1),
                        1 := Job(JobContext(user, chat, t2), ClockFields(t2).value.0, ClockFields(t2).value.1)], {}, 2))
  {
    AddToEmpty(user, t1, chat);
    var j1 := Job(JobContext(user, chat, t1), ClockFields(t1).value.0, ClockFields(t1).value.1);
    var s1 := Scheduler(map[user := map[t1 := 0]], JobQueue(map[0 := j1], {}, 1));
    var (h, m) := ClockFields(t2).value;
    InstallSecond(user, chat, t1, t2, j1, h, m);
    AddIsInstall(s1, user, t2, chat);
  }

  /**
    Two different valid texts are listed as two alarms of one user, even
    when they name the same hour and minute.
   */
  lemma DistinctTextsAreDistinctAlarms(user: UserId, chat: ChatId, t1: string, t2: string)
    requires Config.ValidateTimeFormat(t1).TimeOk? && Config.ValidateTimeFormat(t2).TimeOk? && t1 != t2
    ensures var o1 := AddAlarm(Empty, user, t1, chat, true);
      var o2 := AddAlarm(o1.scheduler, user, t2, chat, true);
      && o1.reply.success && o2.reply.success
      && GetUserAlarms(o2.scheduler, user) == Ordering.SortedList({t1, t2})
  {
    AddTwo(user, chat, t1, t2);
    ListTwo(AddAlarm(AddAlarm(Empty, user, t1, chat, true).scheduler, user, t2, chat, true).scheduler, user, t1, t2);
  }

  /** A user holding exactly the two texts `t1` and `t2` lists both, sorted. */
  lemma ListTwo(s: Scheduler, user: UserId, t1: string, t2: string)
    requires s.userAlarms == map[user := map[t1 := 0, t2 := 1]]
    ensures GetUserAlarms(s, user) == Ordering.SortedList({t1, t2})
  {
    assert s.userAlarms[user].Keys == {t1, t2};
  }

  /**
    The registry keys alarms by their text, so "07:30" and "7:30" are two
    alarms of one user even though both run at 07:30.
   */
  lemma UnpaddedTimesAreDistinctAlarms(user: UserId, chat: ChatId)
    ensures var o1 := AddAlarm(Empty, user, "07:30", chat, true);
      var o2 := AddAlarm(o1.scheduler, user, "7:30", chat, true);
      && o1.reply.success && o2.reply.success
      && |GetUserAlarms(o2.scheduler, user)| == 2
      && o2.scheduler.queue.jobs == map[
           0 := Job(JobContext(user, chat, "07:30"), 7, 30),
           1 := Job(JobContext(user, chat, "7:30"), 7, 30)]
  {
    Config.UnpaddedAccepted();
    Config.UnpaddedSameReading();
    assert "07:30" != "7:30" by {
      assert |"07:30"| != |"7:30"|;
    }
    DistinctTextsAreDistinctAlarms(user, chat, "07:30", "7:30");
    AddTwo(user, chat, "07:30", "7:30");
  }

  /** A valid, new key with a job queue at hand takes the `Install` path. */
  lemma AddIsInstall(s: Scheduler, user: UserId, time: string, chat: ChatId)
    requires Config.ValidateTimeFormat(time).TimeOk? && !HasAlarm(s, user, time)
    ensures ClockFields(time).Some?
    ensures AddAlarm(s, user, time, chat, true) ==
      Install(s, user, time, chat, ClockFields(time).value.0, ClockFields(time).value.1)
  {
  }

  /**
    In a consistent registry every live job belongs to an alarm the registry
    holds, under the handle stored for it, and runs at the hour and minute
    of that alarm's valid time text.
   */
  lemma LiveJobBelongsToAlarm(s: Scheduler, id: JobId)
    requires Valid(s) && s.queue.Live(id)
    ensures var job := s.queue.jobs[id];
      && HasAlarm(s, job.context.user, job.context.time)
      && s.userAlarms[job.context.user][job.context.time] == id
      && ClockFields(job.context.time) == Some((job.hour, job.minute))
      && Config.ValidateTimeFormat(job.context.time).TimeOk?
  {
    var job := s.queue.jobs[id];
    assert ClockFields(job.context.time) == Some((job.hour, job.minute)) && InClockRange(job.hour, job.minute) by {
      assert JobsAtTheirTime(s.queue);
    }
    Config.InRangeIsValid(job.context.time, job.hour, job.minute);
    assert HasAlarm(s, job.context.user, job.context.time) && s.userAlarms[job.context.user][job.context.time] == id by {
      assert NoOrphans(s);
    }
  }
}
