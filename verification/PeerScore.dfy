/** Peer reputation: penalties, recovery over time, probation and temporary bans. Times are
    nanoseconds of a clock that never goes back. */
module PeerScores {
  import opened Numbers
  import opened Sums

  const SECOND: nat := 1_000_000_000

  datatype Kind = Timeout | InvalidPayload | InconsistentResponse | Success
  datatype Event = Event(kind: Kind, at: nat)

  datatype Reputation = Banned | Probation | Neutral

  datatype PeerScore = PeerScore(score: int, timeouts: nat, invalid: nat, inconsistent: nat,
                                 probationUntil: Option<nat>, bannedUntil: Option<nat>, lastDecay: nat)

  datatype Config = Config(banDuration: nat, probationDuration: nat, recoveryPerMinute: int,
                           probationThreshold: int, banThreshold: int, probationClear: int,
                           invalidLimit: nat, inconsistentLimit: nat)

  function NeutralScore(now: nat): PeerScore {
    PeerScore(0, 0, 0, 0, None, None, now)
  }

  /** The 32-bit two's complement value of an integer. */
  function Wrap32(x: int): int {
    (x + 0x8000_0000) % 0x1_0000_0000 - 0x8000_0000
  }

  function Recovered(elapsed: nat, rate: int): int {
    Wrap32(Wrap32(elapsed) * rate) / 60
  }

  /** Score recovery for the whole seconds since the last recovery. */
  function Decay(s: PeerScore, now: nat, rate: int): PeerScore {
    var elapsed := (if s.lastDecay <= now then now - s.lastDecay else 0) / SECOND;
    if elapsed == 0 || rate <= 0 || Recovered(elapsed, rate) <= 0 then s
    else s.(score := Min(s.score + Recovered(elapsed, rate), 20), lastDecay := now)
  }

  function PenaltyOf(e: Event): nat {
    match e.kind case Timeout => 8 case InvalidPayload => 30 case InconsistentResponse => 18 case Success => 0
  }

  function CreditOf(e: Event): nat {
    if e.kind == Success then 6 else 0
  }

  /** One for each event of the kind. */
  function Is(k: Kind): Event -> nat {
    (e: Event) => if e.kind == k then 1 else 0
  }

  predicate OverLimit(cfg: Config, s: PeerScore) {
    s.score <= cfg.banThreshold || s.invalid >= cfg.invalidLimit || s.inconsistent >= cfg.inconsistentLimit
  }

  function Charged(cfg: Config, s: PeerScore, e: Event): PeerScore {
    var d := Decay(s, e.at, cfg.recoveryPerMinute);
    d.(score := d.score - PenaltyOf(e), timeouts := d.timeouts + Is(Timeout)(e),
       invalid := d.invalid + Is(InvalidPayload)(e), inconsistent := d.inconsistent + Is(InconsistentResponse)(e))
  }

  function Penalized(cfg: Config, s: PeerScore, e: Event): PeerScore {
    var c := Charged(cfg, s, e);
    if OverLimit(cfg, c) then c.(bannedUntil := Some(e.at + cfg.banDuration), probationUntil := None)
    else if c.score <= cfg.probationThreshold then c.(probationUntil := Some(e.at + cfg.probationDuration))
    else c
  }

  function Succeeded(cfg: Config, s: PeerScore): PeerScore {
    var score := Min(s.score + 6, 20);
    s.(score := score, probationUntil := if score > cfg.probationClear then None else s.probationUntil)
  }

  function After(cfg: Config, s: PeerScore, e: Event): PeerScore {
    if e.kind == Success then Succeeded(cfg, s) else Penalized(cfg, s, e)
  }

  function Classify(s: PeerScore, now: nat): Reputation {
    if s.bannedUntil.Some? && now < s.bannedUntil.value then Banned
    else if s.probationUntil.Some? && now < s.probationUntil.value then Probation
    else Neutral
  }

  /** The score of a peer first heard of at `start`. */
  function Run(cfg: Config, start: nat, events: seq<Event>): PeerScore {
    if events == [] then NeutralScore(start)
    else After(cfg, Run(cfg, start, events[..|events| - 1]), events[|events| - 1])
  }

  /** Clock readings never go back. */
  ghost predicate Timed(start: nat, events: seq<Event>, now: nat) {
    && start <= now
    && (forall i :: 0 <= i < |events| ==> start <= events[i].at <= now)
    && (forall i, j :: 0 <= i < j < |events| ==> events[i].at <= events[j].at)
  }

  lemma {:induction false} TimedInit(start: nat, events: seq<Event>, now: nat)
    requires Timed(start, events, now) && events != []
    ensures Timed(start, events[..|events| - 1], events[|events| - 1].at)
  {
  }

  // ----- recovery -----

  function Rate(cfg: Config): nat {
    if cfg.recoveryPerMinute <= 0 then 0 else cfg.recoveryPerMinute
  }

  lemma Wrap32Below(x: int)
    ensures -0x8000_0000 <= Wrap32(x) < 0x8000_0000
    ensures x >= 0 ==> Wrap32(x) <= x
    ensures Wrap32(x) < 0 <= x ==> x >= 0x8000_0000
  {
  }

  lemma Times(a: int, b: int, rate: int)
    requires rate > 0 && a <= b
    ensures a * rate <= b * rate && (0 <= b ==> b <= b * rate) && (0 <= a ==> 0 <= a * rate)
  {
  }

  /** 32-bit overflow can only shorten the recovery. */
  lemma RecoveredBound(elapsed: nat, rate: int)
    requires rate > 0 && Recovered(elapsed, rate) > 0
    ensures 60 * Recovered(elapsed, rate) <= elapsed * rate
  {
    hide Wrap32;
    var w := Wrap32(elapsed);
    Wrap32Below(elapsed);
    Wrap32Below(w * rate);
    Times(w, elapsed, rate);
  }

  lemma SecondsBound(span: nat, rate: nat)
    ensures SECOND * ((span / SECOND) * rate) <= rate * span
  {
    var whole := span / SECOND;
    assert SECOND * whole <= span;
    assert SECOND * (whole * rate) == (SECOND * whole) * rate;
    assert (SECOND * whole) * rate <= span * rate;
  }

  /** Recovery raises the score by at most the rate times the time it accounts for. */
  lemma DecayBound(s: PeerScore, now: nat, cfg: Config)
    requires s.lastDecay <= now && s.score <= 20
    ensures var d := Decay(s, now, cfg.recoveryPerMinute);
            && s.score <= d.score <= 20 && s.lastDecay <= d.lastDecay <= now
            && d == s.(score := d.score, lastDecay := d.lastDecay)
            && 60 * SECOND * (d.score - s.score) <= Rate(cfg) * (d.lastDecay - s.lastDecay)
  {
    hide Recovered;
    var rate, span := cfg.recoveryPerMinute, now - s.lastDecay;
    var elapsed := span / SECOND;
    if elapsed > 0 && rate > 0 && Recovered(elapsed, rate) > 0 {
      RecoveredBound(elapsed, rate);
      SecondsBound(span, rate);
    }
  }

  /** Short of 32-bit overflow the recovery is all that the whole seconds allow: no higher score up
      to 20 is within the rate. */
  lemma DecayIsMaximal(s: PeerScore, now: nat, rate: int, higher: int)
    requires s.lastDecay <= now && rate > 0 && (now - s.lastDecay) / SECOND * rate < 0x8000_0000
    requires higher <= 20 && 60 * (higher - s.score) <= (now - s.lastDecay) / SECOND * rate
    ensures higher <= s.score || higher <= Decay(s, now, rate).score
  {
    var elapsed := (now - s.lastDecay) / SECOND;
    Times(0, elapsed, rate);
    assert Wrap32(elapsed) == elapsed;
    assert Wrap32(elapsed * rate) == elapsed * rate;
  }

  /** At 2^31 the product of seconds and rate turns negative and nothing is recovered. */
  lemma OverflowRecoversNothing(s: PeerScore, now: nat)
    requires now == s.lastDecay + 0x2000_0000 * SECOND
    ensures Decay(s, now, 4) == s
  {
  }

  /** What recovery over time alone gave back, report by report. */
  function Regained(cfg: Config, start: nat, events: seq<Event>): int {
    if events == [] then 0
    else
      var init, e := events[..|events| - 1], events[|events| - 1];
      var s := Run(cfg, start, init);
      Regained(cfg, start, init)
      + (if e.kind == Success then 0 else Decay(s, e.at, cfg.recoveryPerMinute).score - s.score)
  }

  /** What successes gave, after the cap. */
  function Earned(cfg: Config, start: nat, events: seq<Event>): int {
    if events == [] then 0
    else
      var init, e := events[..|events| - 1], events[|events| - 1];
      var s := Run(cfg, start, init);
      Earned(cfg, start, init) + (if e.kind == Success then Succeeded(cfg, s).score - s.score else 0)
  }

  ghost predicate Accounted(cfg: Config, start: nat, events: seq<Event>, s: PeerScore, regained: int, earned: int) {
    && s.score == regained + earned - Sum(PenaltyOf, events) && s.score <= 20
    && 0 <= regained && 0 <= earned <= Sum(CreditOf, events)
    && start <= s.lastDecay && 60 * SECOND * regained <= Rate(cfg) * (s.lastDecay - start)
  }

  lemma RateAdds(rate: nat, a: int, b: int, c: int)
    ensures rate * (b - a) + rate * (c - b) == rate * (c - a)
  {
  }

  lemma RateGrows(rate: nat, a: int, b: int)
    requires a <= b
    ensures rate * a <= rate * b
  {
  }

  lemma {:induction false} ChargeAccounted(cfg: Config, start: nat, init: seq<Event>, s: PeerScore, e: Event,
                                           regained: int, earned: int)
    requires Accounted(cfg, start, init, s, regained, earned) && s.lastDecay <= e.at && e.kind != Success
    ensures Penalized(cfg, s, e).lastDecay <= e.at
    ensures Accounted(cfg, start, init + [e], Penalized(cfg, s, e),
                      regained + Decay(s, e.at, cfg.recoveryPerMinute).score - s.score, earned)
  {
    hide Decay, Sum, OverLimit, Rate;
    var d := Decay(s, e.at, cfg.recoveryPerMinute);
    DecayBound(s, e.at, cfg);
    SumSnoc(PenaltyOf, init, e);
    SumSnoc(CreditOf, init, e);
    RateAdds(Rate(cfg), start, s.lastDecay, d.lastDecay);
  }

  lemma {:induction false} SuccessAccounted(cfg: Config, start: nat, init: seq<Event>, s: PeerScore, e: Event,
                                            regained: int, earned: int)
    requires Accounted(cfg, start, init, s, regained, earned) && e.kind == Success
    ensures Accounted(cfg, start, init + [e], Succeeded(cfg, s), regained, earned + Succeeded(cfg, s).score - s.score)
  {
    hide Sum, Rate;
    SumSnoc(PenaltyOf, init, e);
    SumSnoc(CreditOf, init, e);
  }

  lemma {:induction false} RunAccounted(cfg: Config, start: nat, events: seq<Event>, now: nat)
    requires Timed(start, events, now)
    ensures Run(cfg, start, events).lastDecay <= now
    ensures Accounted(cfg, start, events, Run(cfg, start, events),
                      Regained(cfg, start, events), Earned(cfg, start, events))
  {
    if events == [] {
      NothingAccounted(cfg, start);
    } else {
      hide Accounted, Run, Regained, Earned;
      var init, e := events[..|events| - 1], events[|events| - 1];
      var s, r, x := Run(cfg, start, init), Regained(cfg, start, init), Earned(cfg, start, init);
      TimedInit(start, events, now);
      RunAccounted(cfg, start, init, e.at);
      AccountSnoc(cfg, start, init, e);
      hide After, Succeeded, Penalized, Decay;
      assert events == init + [e];
      if e.kind == Success {
        SuccessAccounted(cfg, start, init, s, e, r, x);
      } else {
        ChargeAccounted(cfg, start, init, s, e, r, x);
      }
    }
  }

  lemma {:induction false} NothingAccounted(cfg: Config, start: nat)
    ensures Run(cfg, start, []) == NeutralScore(start)
    ensures Accounted(cfg, start, [], Run(cfg, start, []), Regained(cfg, start, []), Earned(cfg, start, []))
  {
  }

  /** One report more, in all three running values. */
  lemma {:induction false} AccountSnoc(cfg: Config, start: nat, init: seq<Event>, e: Event)
    ensures var s := Run(cfg, start, init);
            && Run(cfg, start, init + [e]) == (if e.kind == Success then Succeeded(cfg, s) else Penalized(cfg, s, e))
            && Regained(cfg, start, init + [e])
               == Regained(cfg, start, init)
                  + (if e.kind == Success then 0 else Decay(s, e.at, cfg.recoveryPerMinute).score - s.score)
            && Earned(cfg, start, init + [e])
               == Earned(cfg, start, init) + (if e.kind == Success then Succeeded(cfg, s).score - s.score else 0)
  {
    hide Succeeded, Penalized, Decay;
    var events := init + [e];
    assert events[..|events| - 1] == init && events[|events| - 1] == e;
  }

  /** All that recovery ever gave back is within the rate for the time up to the last recovery,
      however the reports divide that time. */
  lemma {:induction false} RecoveryWithinRate(cfg: Config, start: nat, events: seq<Event>, now: nat)
    requires Timed(start, events, now)
    ensures 0 <= Regained(cfg, start, events)
    ensures 60 * SECOND * Regained(cfg, start, events) <= Rate(cfg) * (Run(cfg, start, events).lastDecay - start)
    ensures 60 * SECOND * Regained(cfg, start, events) <= Rate(cfg) * (now - start)
  {
    hide Run, Sum, Rate, Regained, Earned;
    RunAccounted(cfg, start, events, now);
    RateGrows(Rate(cfg), Run(cfg, start, events).lastDecay - start, now - start);
  }

  /** What the reports cost and what they can earn, by the number of each kind. */
  lemma {:induction false} ReportTotals(events: seq<Event>)
    ensures Sum(PenaltyOf, events)
         == 8 * Sum(Is(Timeout), events) + 30 * Sum(Is(InvalidPayload), events)
            + 18 * Sum(Is(InconsistentResponse), events)
    ensures Sum(CreditOf, events) == 6 * Sum(Is(Success), events)
  {
    if events == [] {
      assert Sum(Is(Timeout), events) == Sum(Is(InvalidPayload), events) == 0;
      assert Sum(Is(InconsistentResponse), events) == Sum(Is(Success), events) == 0;
    } else {
      hide Sum;
      var init, e := events[..|events| - 1], events[|events| - 1];
      ReportTotals(init);
      assert events == init + [e];
      SumSnoc(PenaltyOf, init, e);
      SumSnoc(CreditOf, init, e);
      SumSnoc(Is(Timeout), init, e);
      SumSnoc(Is(InvalidPayload), init, e);
      SumSnoc(Is(InconsistentResponse), init, e);
      SumSnoc(Is(Success), init, e);
    }
  }

  /** The score is conserved: it is what recovery and successes gave less 8 for each timeout, 30 for
      each invalid payload and 18 for each inconsistent response, never above 20, and successes
      gave at most six each. */
  lemma {:induction false} ScoreIsAccounted(cfg: Config, start: nat, events: seq<Event>, now: nat)
    requires Timed(start, events, now)
    ensures Run(cfg, start, events).score
         == Regained(cfg, start, events) + Earned(cfg, start, events)
            - 8 * Sum(Is(Timeout), events) - 30 * Sum(Is(InvalidPayload), events)
            - 18 * Sum(Is(InconsistentResponse), events)
    ensures Run(cfg, start, events).score <= 20
    ensures 0 <= Earned(cfg, start, events) <= 6 * Sum(Is(Success), events)
  {
    hide Run, Sum, Rate, Regained, Earned;
    RunAccounted(cfg, start, events, now);
    ReportTotals(events);
  }

  /** A success gives exactly six, up to a score of 20. */
  lemma {:induction false} SuccessGives(cfg: Config, start: nat, init: seq<Event>, at: nat)
    ensures var before, after := Run(cfg, start, init).score, Run(cfg, start, init + [Event(Success, at)]).score;
            after == if before + 6 <= 20 then before + 6 else 20
  {
    AccountSnoc(cfg, start, init, Event(Success, at));
  }

  /** Without a recovery rate and without successes the score is minus the cost of the reports. */
  lemma {:induction false} UnforgivenScore(cfg: Config, start: nat, events: seq<Event>, now: nat)
    requires Timed(start, events, now) && cfg.recoveryPerMinute <= 0 && Sum(Is(Success), events) == 0
    ensures Run(cfg, start, events).score
         == -8 * Sum(Is(Timeout), events) - 30 * Sum(Is(InvalidPayload), events)
            - 18 * Sum(Is(InconsistentResponse), events)
  {
    hide Run, Sum, Regained, Earned;
    ScoreIsAccounted(cfg, start, events, now);
    RecoveryWithinRate(cfg, start, events, now);
  }

  // ----- bans -----

  /** The counters are the numbers of reports: nothing is ever forgiven. */
  lemma {:induction false} CountersExact(cfg: Config, start: nat, events: seq<Event>)
    ensures var s := Run(cfg, start, events);
            && s.timeouts == Sum(Is(Timeout), events) && s.invalid == Sum(Is(InvalidPayload), events)
            && s.inconsistent == Sum(Is(InconsistentResponse), events)
  {
    if events != [] {
      hide Sum, OverLimit;
      var init, e := events[..|events| - 1], events[|events| - 1];
      CountersExact(cfg, start, init);
      assert events == init + [e];
      SumSnoc(Is(Timeout), init, e);
      SumSnoc(Is(InvalidPayload), init, e);
      SumSnoc(Is(InconsistentResponse), init, e);
    } else {
      assert Sum(Is(Timeout), events) == Sum(Is(InvalidPayload), events) == Sum(Is(InconsistentResponse), events) == 0;
    }
  }

  /** Report number `i` is a penalty that leaves the score or a counter past its limit. */
  ghost predicate BansAt(cfg: Config, start: nat, events: seq<Event>, i: nat)
    requires i < |events|
  {
    && events[i].kind != Success
    && (|| Run(cfg, start, events[..i + 1]).score <= cfg.banThreshold
        || Sum(Is(InvalidPayload), events[..i + 1]) >= cfg.invalidLimit
        || Sum(Is(InconsistentResponse), events[..i + 1]) >= cfg.inconsistentLimit)
  }

  /** Report number `i` leaves the score at the probation threshold without banning. */
  ghost predicate ProbatesAt(cfg: Config, start: nat, events: seq<Event>, i: nat)
    requires i < |events|
  {
    && events[i].kind != Success && !BansAt(cfg, start, events, i)
    && Run(cfg, start, events[..i + 1]).score <= cfg.probationThreshold
  }

  /** Report number `i` ends a probation: a ban, or a success that lifts the score far enough. */
  ghost predicate ClearsAt(cfg: Config, start: nat, events: seq<Event>, i: nat)
    requires i < |events|
  {
    || BansAt(cfg, start, events, i)
    || (events[i].kind == Success && Run(cfg, start, events[..i + 1]).score > cfg.probationClear)
  }

  ghost predicate BanRunning(cfg: Config, start: nat, events: seq<Event>, now: nat) {
    exists i: nat :: i < |events| && BansAt(cfg, start, events, i) && now < events[i].at + cfg.banDuration
  }

  /** Report number `i` started a probation that nothing ended since. */
  ghost predicate ProbationFrom(cfg: Config, start: nat, events: seq<Event>, now: nat, i: nat)
    requires i < |events|
  {
    && ProbatesAt(cfg, start, events, i) && now < events[i].at + cfg.probationDuration
    && forall j: nat :: i < j < |events| ==> !ClearsAt(cfg, start, events, j)
  }

  ghost predicate ProbationRunning(cfg: Config, start: nat, events: seq<Event>, now: nat) {
    exists i: nat :: i < |events| && ProbationFrom(cfg, start, events, now, i)
  }

  predicate Before(now: nat, until: Option<nat>) {
    until.Some? && now < until.value
  }

  /** What the reports of a prefix did does not depend on the rest. */
  lemma {:induction false} AtPrefix(cfg: Config, start: nat, events: seq<Event>, n: nat, i: nat)
    requires i < n <= |events|
    ensures BansAt(cfg, start, events[..n], i) <==> BansAt(cfg, start, events, i)
    ensures ProbatesAt(cfg, start, events[..n], i) <==> ProbatesAt(cfg, start, events, i)
    ensures ClearsAt(cfg, start, events[..n], i) <==> ClearsAt(cfg, start, events, i)
  {
    hide Run, Sum;
    assert events[..n][..i + 1] == events[..i + 1];
  }

  lemma {:induction false} StepTimers(cfg: Config, start: nat, events: seq<Event>)
    requires events != []
    ensures var n := |events| - 1; var before, after := Run(cfg, start, events[..n]), Run(cfg, start, events);
            && after.bannedUntil == (if BansAt(cfg, start, events, n) then Some(events[n].at + cfg.banDuration)
                                     else before.bannedUntil)
            && after.probationUntil == (if ClearsAt(cfg, start, events, n) then None
                                        else if ProbatesAt(cfg, start, events, n)
                                        then Some(events[n].at + cfg.probationDuration)
                                        else before.probationUntil)
  {
    hide Sum;
    CountersExact(cfg, start, events);
    assert events[..|events|] == events;
  }

  lemma {:induction false} TimersExact(cfg: Config, start: nat, events: seq<Event>, now: nat)
    requires Timed(start, events, now)
    ensures Before(now, Run(cfg, start, events).bannedUntil) <==> BanRunning(cfg, start, events, now)
    ensures Before(now, Run(cfg, start, events).probationUntil) <==> ProbationRunning(cfg, start, events, now)
  {
    if events == [] {
      assert Run(cfg, start, events) == NeutralScore(start);
    } else {
      hide Run, BansAt, ProbatesAt, ClearsAt;
      var n := |events| - 1;
      TimersExact(cfg, start, events[..n], now);
      StepTimers(cfg, start, events);
      BanRunningSnoc(cfg, start, events, now);
      ProbationRunningSnoc(cfg, start, events, now);
    }
  }

  lemma {:induction false} BanRunningSnoc(cfg: Config, start: nat, events: seq<Event>, now: nat)
    requires Timed(start, events, now) && events != []
    ensures var n := |events| - 1;
            BanRunning(cfg, start, events, now) <==>
              if BansAt(cfg, start, events, n) then now < events[n].at + cfg.banDuration
              else BanRunning(cfg, start, events[..n], now)
  {
    hide BansAt, ProbatesAt, ClearsAt;
    var n := |events| - 1;
    forall i: nat | i < n
      ensures BansAt(cfg, start, events[..n], i) <==> BansAt(cfg, start, events, i)
      ensures events[..n][i] == events[i]
    {
      AtPrefix(cfg, start, events, n, i);
    }
  }

  lemma {:induction false} ProbationFromSnoc(cfg: Config, start: nat, events: seq<Event>, now: nat, i: nat)
    requires i < |events| - 1
    ensures var n := |events| - 1;
            ProbationFrom(cfg, start, events, now, i) <==>
              ProbationFrom(cfg, start, events[..n], now, i) && !ClearsAt(cfg, start, events, n)
  {
    hide BansAt, ProbatesAt, ClearsAt;
    var n := |events| - 1;
    AtPrefix(cfg, start, events, n, i);
    forall j: nat | i < j < n ensures ClearsAt(cfg, start, events[..n], j) <==> ClearsAt(cfg, start, events, j) {
      AtPrefix(cfg, start, events, n, j);
    }
  }

  lemma {:induction false} ProbationFromLast(cfg: Config, start: nat, events: seq<Event>, now: nat, i: nat)
    requires Timed(start, events, now) && i < |events| && ProbationFrom(cfg, start, events, now, i)
    ensures now < events[|events| - 1].at + cfg.probationDuration
    ensures i < |events| - 1 ==> !ClearsAt(cfg, start, events, |events| - 1)
    ensures i == |events| - 1 ==> ProbatesAt(cfg, start, events, i)
  {
    hide ProbatesAt, ClearsAt;
  }

  lemma {:induction false} ProbationRunningSnoc(cfg: Config, start: nat, events: seq<Event>, now: nat)
    requires Timed(start, events, now) && events != []
    ensures var n := |events| - 1;
            ProbationRunning(cfg, start, events, now) <==>
              if ClearsAt(cfg, start, events, n) then false
              else if ProbatesAt(cfg, start, events, n) then now < events[n].at + cfg.probationDuration
              else ProbationRunning(cfg, start, events[..n], now)
  {
    var n := |events| - 1;
    ProbatesOrClears(cfg, start, events);
    hide ProbatesAt, ClearsAt;
    if ProbatesAt(cfg, start, events, n) && now < events[n].at + cfg.probationDuration {
      assert ProbationFrom(cfg, start, events, now, n);
    }
    hide ProbationFrom;
    if i: nat :| i < n && ProbationFrom(cfg, start, events[..n], now, i) {
      ProbationFromSnoc(cfg, start, events, now, i);
    }
    if i: nat :| i < |events| && ProbationFrom(cfg, start, events, now, i) {
      ProbationFromLast(cfg, start, events, now, i);
      if i < n {
        ProbationFromSnoc(cfg, start, events, now, i);
      }
    }
  }

  lemma {:induction false} ProbatesOrClears(cfg: Config, start: nat, events: seq<Event>)
    requires events != []
    ensures !(ProbatesAt(cfg, start, events, |events| - 1) && ClearsAt(cfg, start, events, |events| - 1))
  {
    hide Run, BansAt;
  }

  /** A peer counts as banned exactly while one of its banning reports is less than the ban
      duration ago: successes never lift a ban and later reports never shorten one. Otherwise it
      is on probation exactly while a report that put it there is recent and nothing since then
      banned it or lifted its score above the clearing mark. */
  lemma {:induction false} ReputationIff(cfg: Config, start: nat, events: seq<Event>, now: nat)
    requires Timed(start, events, now)
    ensures Classify(Run(cfg, start, events), now)
         == if BanRunning(cfg, start, events, now) then Banned
            else if ProbationRunning(cfg, start, events, now) then Probation else Neutral
  {
    hide Run, BanRunning, ProbationRunning;
    TimersExact(cfg, start, events, now);
  }

  /** Once enough invalid payloads or inconsistent responses were reported, every further penalty
      of any kind bans the peer again, whatever happened to the score in between. */
  lemma {:induction false} RepeatOffenderIsBanned(cfg: Config, start: nat, events: seq<Event>, now: nat)
    requires Timed(start, events, now) && events != [] && events[|events| - 1].kind != Success
    requires || Sum(Is(InvalidPayload), events) >= cfg.invalidLimit
             || Sum(Is(InconsistentResponse), events) >= cfg.inconsistentLimit
    requires now < events[|events| - 1].at + cfg.banDuration
    ensures Classify(Run(cfg, start, events), now) == Banned
  {
    hide Run, Sum, Classify;
    var n := |events| - 1;
    assert events[..n + 1] == events;
    assert BansAt(cfg, start, events, n);
    ReputationIff(cfg, start, events, now);
  }

  // ----- the table of all peers -----

  type Table<P> = map<P, PeerScore>

  function Entry<P>(t: Table<P>, p: P, now: nat): PeerScore {
    if p in t then t[p] else NeutralScore(now)
  }

  function Report<P>(cfg: Config, t: Table<P>, p: P, e: Event): Table<P> {
    t[p := After(cfg, Entry(t, p, e.at), e)]
  }

  function TableRun<P>(cfg: Config, trace: seq<(P, Event)>): Table<P> {
    if trace == [] then map[]
    else
      var n := |trace| - 1;
      Report(cfg, TableRun(cfg, trace[..n]), trace[n].0, trace[n].1)
  }

  /** The reports about one peer. */
  function About<P(==)>(trace: seq<(P, Event)>, p: P): seq<Event> {
    if trace == [] then []
    else
      var n := |trace| - 1;
      About(trace[..n], p) + (if trace[n].0 == p then [trace[n].1] else [])
  }

  /** However reports about different peers interleave, a peer's entry is the run of the reports
      about that peer alone, started at the first of them. */
  lemma {:induction false} PeersAreIndependent<P(!new)>(cfg: Config, trace: seq<(P, Event)>, p: P)
    ensures var own := About(trace, p);
            && (p in TableRun(cfg, trace) <==> own != [])
            && (own != [] ==> TableRun(cfg, trace)[p] == Run(cfg, own[0].at, own))
  {
    if trace != [] {
      hide After;
      var n := |trace| - 1;
      PeersAreIndependent(cfg, trace[..n], p);
      var before, e := About(trace[..n], p), trace[n].1;
      if trace[n].0 == p {
        var own := before + [e];
        assert About(trace, p) == own && own[..|own| - 1] == before;
        if before == [] {
          assert Run(cfg, own[0].at, before) == NeutralScore(e.at);
        }
      } else {
        assert About(trace, p) == before;
      }
    }
  }

  class PeerTable<P(==)> {
    const config: Config
    var scores: map<P, PeerScore>

    constructor (config: Config)
      ensures this.config == config && scores == map[]
    {
      this.config := config;
      scores := map[];
    }

    /** Returns the classification before and after when they differ. */
    method ApplyPenalty(peer: P, kind: Kind, now: nat) returns (transition: Option<(Reputation, Reputation)>)
      requires kind != Success
      modifies this
      ensures scores == Report(config, old(scores), peer, Event(kind, now))
      ensures var before, after := Classify(Entry(old(scores), peer, now), now), Classify(scores[peer], now);
              transition == if before == after then None else Some((before, after))
    {
      var s := Entry(scores, peer, now);
      var previous := Classify(s, now);
      s := Decay(s, now, config.recoveryPerMinute);
      match kind {
        case Timeout => s := s.(score := s.score - 8, timeouts := s.timeouts + 1);
        case InvalidPayload => s := s.(score := s.score - 30, invalid := s.invalid + 1);
        case InconsistentResponse => s := s.(score := s.score - 18, inconsistent := s.inconsistent + 1);
      }
      if s.score <= config.banThreshold || s.invalid >= config.invalidLimit
         || s.inconsistent >= config.inconsistentLimit {
        s := s.(bannedUntil := Some(now + config.banDuration), probationUntil := None);
      } else if s.score <= config.probationThreshold {
        s := s.(probationUntil := Some(now + config.probationDuration));
      }
      scores := scores[peer := s];
      var current := Classify(s, now);
      transition := if previous == current then None else Some((previous, current));
    }

    method ReportSuccessfulInteraction(peer: P, now: nat)
      modifies this
      ensures scores == Report(config, old(scores), peer, Event(Success, now))
    {
      var s := Entry(scores, peer, now);
      s := s.(score := Min(s.score + 6, 20));
      if s.score > config.probationClear {
        s := s.(probationUntil := None);
      }
      scores := scores[peer := s];
    }
  }
}
