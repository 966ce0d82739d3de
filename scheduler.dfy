/** The delay computation of `schedule_next_post`.  The job queue, the timers
    and the self-rescheduling chain are not modelled: only the two delays the
    function hands to `run_once`, computed from the stored record and the
    current time `now` (whole seconds, as `int(time.time())`). */
module Scheduler {
  import opened Optional
  import Codec
  import BotConfig

  /** The delay of the post job and the delay of the next scheduling run, in
      seconds. */
  datatype Delays = Delays(post: int, reschedule: int)

  /** What one scheduling run does: arm both timers, or raise because the
      stored interval does not parse, which ends the chain. */
  datatype Schedule = Scheduled(delays: Delays) | Halted

  /** `if config['last_post_time']:` -- both a `null` timestamp (`None`) and
      0 mean that nothing was posted yet. */
  predicate HasPosted(last: Option<int>) { last.Some? && last.value != 0 }

  function Max(a: int, b: int): int { if a >= b then a else b }

  /** The delays for an interval, the last post time and the current time. */
  function NextDelays(interval: nat, last: Option<int>, now: int): (r: Delays)
    ensures r.reschedule == r.post + 1
    ensures !HasPosted(last) ==> r.post == interval
    ensures HasPosted(last) ==> r.post >= 1 && now + r.post == Max(last.value + interval, now + 1)
  {
    var delay :=
      if HasPosted(last) then
        var target := last.value + interval;
        if target <= now then 1 else target - now
      else interval;
    Delays(delay, delay + 1)
  }

  /** `schedule_next_post` on the stored record. */
  function ScheduleNext(cfg: BotConfig.Config, now: int): (r: Schedule)
    ensures r.Halted? <==> Codec.Parse(cfg.postInterval) == Codec.InvalidFormat
    ensures r.Scheduled? ==>
      r.delays == NextDelays(Codec.Parse(cfg.postInterval).seconds, cfg.lastPostTime, now)
  {
    match Codec.Parse(cfg.postInterval)
    case InvalidFormat => Halted
    case Ok(interval) => Scheduled(NextDelays(interval, cfg.lastPostTime, now))
  }

  /** Overdue posts are caught up with a single post one second from now,
      however many intervals were missed; a post that is not yet due fires
      exactly at the last post time plus the interval. */
  lemma CatchUp(interval: nat, last: Option<int>, now: int)
    requires HasPosted(last)
    ensures last.value + interval <= now ==> NextDelays(interval, last, now).post == 1
    ensures last.value + interval > now ==> now + NextDelays(interval, last, now).post == last.value + interval
  {
  }

  /** Before the first post the wait is one full interval, and never 0 or 1
      when the stored interval is valid; with a valid interval the chain
      never halts and the post timer is at least one second away. */
  lemma ValidIntervalSchedules(cfg: BotConfig.Config, now: int)
    requires BotConfig.IntervalValid(cfg)
    ensures ScheduleNext(cfg, now).Scheduled?
    ensures ScheduleNext(cfg, now).delays.post >= 1
    ensures !HasPosted(cfg.lastPostTime) ==> ScheduleNext(cfg, now).delays.post >= BotConfig.MinInterval
    ensures ScheduleNext(cfg, now).delays.reschedule > ScheduleNext(cfg, now).delays.post
  {
  }

  /** After a successful post at `now`, the next scheduling run at any later
      time aims at `now` plus the interval (or one second ahead once that has
      passed); a run at the time of the post itself waits one full interval. */
  lemma PostThenSchedule(cfg: BotConfig.Config, found: bool, sent: bool, now: int, later: int)
    requires BotConfig.IntervalValid(cfg) && now <= later
    requires found && sent
    ensures var after := BotConfig.PostScheduled(cfg, found, sent, now).config;
      ScheduleNext(after, later).Scheduled?
      && (now != 0 ==>
            later + ScheduleNext(after, later).delays.post
            == Max(now + Codec.Parse(cfg.postInterval).seconds, later + 1))
      && ScheduleNext(after, now).delays.post == Codec.Parse(cfg.postInterval).seconds
  {
    var after := BotConfig.PostScheduled(cfg, found, sent, now).config;
    assert BotConfig.PostScheduled(cfg, found, sent, now).outcome == BotConfig.Done;
    assert after.postInterval == cfg.postInterval;
    assert after.lastPostTime == Some(now);
  }

  /** A scheduled post that failed leaves the timestamp alone, so the run
      that follows it one second later retries after one second when posts
      had been made, and after a full interval when none had. */
  lemma FailedPostRetries(cfg: BotConfig.Config, found: bool, sent: bool, fired: int)
    requires BotConfig.IntervalValid(cfg)
    requires BotConfig.PostScheduled(cfg, found, sent, fired).outcome != BotConfig.Done
    requires HasPosted(cfg.lastPostTime) ==>
      cfg.lastPostTime.value + Codec.Parse(cfg.postInterval).seconds <= fired
    ensures var after := BotConfig.PostScheduled(cfg, found, sent, fired).config;
      ScheduleNext(after, fired + 1).Scheduled?
      && ScheduleNext(after, fired + 1).delays.post
         == if HasPosted(cfg.lastPostTime) then 1 else Codec.Parse(cfg.postInterval).seconds
  {
  }

  lemma DelayExamples()
    ensures NextDelays(3600, None, 5000) == Delays(3600, 3601)
    ensures NextDelays(3600, Some(0), 5000) == Delays(3600, 3601)
    ensures NextDelays(3600, Some(1000), 2000) == Delays(2600, 2601)
    ensures NextDelays(3600, Some(1000), 9000) == Delays(1, 2)
    ensures NextDelays(5, None, 5000) == Delays(5, 6)
  {
  }
}
