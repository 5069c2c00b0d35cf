/** Bounded polling: a request with retries, then polls until a review appears or the time budget is used. */
module CopilotPoll {
  import opened Text
  import opened ReviewRules

  const MAX_TIMER_MS := 2_147_483_647

  datatype RawConfig = RawConfig(requestAttempts: Option<Number>, pollTimeoutMs: Option<Number>, pollIntervalMs: Option<Number>)

  datatype Config = Config(requestAttempts: int, timeout: int, interval: int)

  const DEFAULTS := Config(3, 300_000, 15_000)

  // ----- normalising -----

  predicate IsInteger(n: Number) {
    n.Finite? && n.value.Floor as real == n.value
  }

  predicate IsUsableTimer(n: Option<Number>) {
    n.Some? && IsInteger(n.value) && 0 <= n.value.value.Floor <= MAX_TIMER_MS
  }

  /** Any config, however hostile, becomes one the loop terminates on; a usable value is kept. */
  function Normalize(raw: RawConfig): (c: Config)
    ensures Sane(c)
    ensures Usable(raw) ==> AsRaw(c) == raw
  {
    var attempts :=
      if raw.requestAttempts.Some? && IsInteger(raw.requestAttempts.value) && raw.requestAttempts.value.value.Floor >= 1
      then raw.requestAttempts.value.value.Floor else DEFAULTS.requestAttempts;
    var timeout := if IsUsableTimer(raw.pollTimeoutMs) then raw.pollTimeoutMs.value.value.Floor else DEFAULTS.timeout;
    var interval :=
      if IsUsableTimer(raw.pollIntervalMs) && (timeout == 0 || raw.pollIntervalMs.value.value.Floor > 0)
      then raw.pollIntervalMs.value.value.Floor else DEFAULTS.interval;
    Config(attempts, timeout, interval)
  }

  /** Field by field: a whole number in range is kept, and anything else, or nothing, becomes 3 attempts,
      five minutes, fifteen seconds. A zero interval is in range only under a zero timeout. */
  lemma NormalizedMeans(raw: RawConfig)
    ensures var n := Normalize(raw).requestAttempts;
      || (n >= 1 && raw.requestAttempts == Some(Whole(n)))
      || (n == 3 && forall k: int :: k >= 1 ==> raw.requestAttempts != Some(Whole(k)))
    ensures var n := Normalize(raw).timeout;
      || (0 <= n <= 0x7fff_ffff && raw.pollTimeoutMs == Some(Whole(n)))
      || (n == 300_000 && forall k: int :: 0 <= k <= 0x7fff_ffff ==> raw.pollTimeoutMs != Some(Whole(k)))
    ensures var n, least := Normalize(raw).interval, if Normalize(raw).timeout == 0 then 0 else 1;
      || (least <= n <= 0x7fff_ffff && raw.pollIntervalMs == Some(Whole(n)))
      || (n == 15_000 && forall k: int :: least <= k <= 0x7fff_ffff ==> raw.pollIntervalMs != Some(Whole(k)))
  {
    forall k: int ensures IsInteger(Whole(k)) && Whole(k).value.Floor == k { assert (k as real).Floor == k; }
  }

  /** At least one attempt, timers in range, and no busy loop under a positive timeout. */
  predicate Sane(c: Config) {
    && c.requestAttempts >= 1 && 0 <= c.timeout <= MAX_TIMER_MS && 0 <= c.interval <= MAX_TIMER_MS
    && (c.timeout > 0 ==> c.interval > 0)
  }

  function AsRaw(c: Config): RawConfig {
    RawConfig(Some(Whole(c.requestAttempts)), Some(Whole(c.timeout)), Some(Whole(c.interval)))
  }

  /** Every field is given, and is what a sane config may hold. */
  ghost predicate Usable(raw: RawConfig) {
    exists c: Config :: Sane(c) && raw == AsRaw(c)
  }

  // ----- the world -----

  datatype PollResult = Reviewed | StillPending | PollError

  /** The clock never goes back, a sleep lasts at least as long as asked, either may throw, and the
      reviewer answers as it likes. */
  class World {
    const lag: nat -> nat
    const throws: nat -> bool
    const requestOk: nat -> bool
    const pollResult: nat -> PollResult
    var time: int
    var ticks: nat
    var requests: nat
    var polled: nat

    constructor (lag: nat -> nat, throws: nat -> bool, requestOk: nat -> bool, pollResult: nat -> PollResult, start: int)
      ensures this.lag == lag && this.throws == throws && this.requestOk == requestOk && this.pollResult == pollResult
      ensures time == start && requests == 0 && polled == 0
    {
      this.lag, this.throws, this.requestOk, this.pollResult := lag, throws, requestOk, pollResult;
      time, ticks, requests, polled := start, 0, 0, 0;
    }

    /** Nothing takes any time beyond what a sleep asks for. */
    ghost predicate Ideal() {
      forall k :: lag(k) == 0
    }

    /** Neither the clock nor a sleep ever throws. */
    ghost predicate Calm() {
      forall k :: !throws(k)
    }

    method Sleep(ms: nat) returns (ok: bool)
      modifies this`time, this`ticks
      ensures time >= old(time) && (ok ==> time >= old(time) + ms)
      ensures Calm() ==> ok
      ensures Ideal() && ok ==> time == old(time) + ms
    {
      ok := !throws(ticks);
      time := time + (if ok then ms else 0) + lag(ticks);
      ticks := ticks + 1;
    }

    method Now() returns (ok: bool, t: int)
      modifies this`time, this`ticks
      ensures t == time >= old(time) && (Calm() ==> ok) && (Ideal() && ok ==> time == old(time))
    {
      ok := Sleep(0);
      t := time;
    }

    method Request() returns (ok: bool)
      modifies this`time, this`ticks, this`requests
      ensures ok == requestOk(old(requests)) && requests == old(requests) + 1
      ensures time >= old(time) && (Ideal() ==> time == old(time))
    {
      time := time + lag(ticks);
      ticks := ticks + 1;
      ok := requestOk(requests);
      requests := requests + 1;
    }

    method Poll() returns (r: PollResult)
      modifies this`time, this`ticks, this`polled
      ensures r == pollResult(old(polled)) && polled == old(polled) + 1
      ensures time >= old(time) && (Ideal() ==> time == old(time))
    {
      time := time + lag(ticks);
      ticks := ticks + 1;
      r := pollResult(polled);
      polled := polled + 1;
    }
  }

  // ----- the run -----

  datatype Status = WasReviewed | Skipped | Failed

  datatype Outcome = Outcome(status: Status, attempts: nat, polls: nat)

  function CeilDiv(a: nat, b: nat): nat
    requires b > 0
  {
    (a + b - 1) / b
  }

  /** At least the mandatory first poll; beyond it, one per interval that starts within the timeout. */
  function MaxPolls(c: Config): nat
    requires Sane(c)
  {
    if c.timeout == 0 then 1 else CeilDiv(c.timeout, c.interval)
  }

  lemma PollsWithin(c: Config, polls: nat)
    requires Sane(c) && polls >= 1 && (polls > 1 ==> (polls - 1) * c.interval < c.timeout)
    ensures polls <= MaxPolls(c) && MaxPolls(c) >= 1
  {
    if c.timeout > 0 {
      var q := CeilDiv(c.timeout, c.interval);
      assert q * c.interval >= c.timeout by { DivisionCovers(c.timeout, c.interval); }
      if polls > q {
        MoreIntervals(q, polls - 1, c.interval);
      }
    }
  }

  lemma DivisionCovers(a: nat, b: nat)
    requires b > 0
    ensures CeilDiv(a, b) * b >= a && (a > 0 ==> CeilDiv(a, b) >= 1 && (CeilDiv(a, b) - 1) * b < a)
  {
    var q, r := (a + b - 1) / b, (a + b - 1) % b;
    assert a + b - 1 == q * b + r;
    assert (q - 1) * b == q * b - b;
  }

  lemma MoreIntervals(m: nat, n: nat, interval: nat)
    requires m <= n
    ensures m * interval <= n * interval
  {
  }

  /** With nothing but the sleeps taking time, the bound is reached. */
  lemma PollsReach(c: Config, polls: nat)
    requires Sane(c) && polls >= 1 && (polls > 1 ==> (polls - 1) * c.interval < c.timeout) && polls * c.interval >= c.timeout
    ensures polls == MaxPolls(c)
  {
    PollsWithin(c, polls);
    if c.timeout > 0 {
      DivisionCovers(c.timeout, c.interval);
      if polls < MaxPolls(c) { MoreIntervals(polls, MaxPolls(c) - 1, c.interval); }
    }
  }

  datatype Requested = Asked | Refused | RequestAborted

  /** The request phase stops at the first success, after the last attempt, or when a sleep throws. */
  method RequestReview(w: World, c: Config) returns (end: Requested, attempts: nat)
    requires Sane(c) && w.requests == 0
    modifies w
    ensures 1 <= attempts <= c.requestAttempts && w.polled == old(w.polled)
    ensures forall k: nat :: k < attempts - 1 ==> !w.requestOk(k)
    ensures end == Asked <==> w.requestOk(attempts - 1)
    ensures end == Refused ==> attempts == c.requestAttempts
    ensures w.Calm() ==> end != RequestAborted
  {
    attempts, end := 0, Refused;
    while attempts < c.requestAttempts
      invariant attempts <= c.requestAttempts && w.requests == attempts && w.polled == old(w.polled)
      invariant forall k: nat :: k < attempts ==> !w.requestOk(k)
    {
      attempts := attempts + 1;
      var ok := w.Request();
      if ok {
        end := Asked;
        return;
      }
      if attempts < c.requestAttempts {
        ok := w.Sleep(c.interval);
        if !ok {
          end := RequestAborted;
          return;
        }
      }
    }
  }

  datatype Polled = Found | TimedOut | PollAborted

  /** What holds after `polls` turns that brought no review. */
  ghost predicate NoneFound(w: World, polls: nat)
    reads w
  {
    && w.polled <= polls && (w.Calm() ==> w.polled == polls)
    && forall k: nat :: k < w.polled ==> !w.pollResult(k).Reviewed?
  }

  /** Whatever the reviewer does and whatever throws: never more polls than the bound, a review is reported
      only if a poll said so, and the run is given up only once the budget is used. */
  method PollUntilReviewed(w: World, c: Config) returns (end: Polled, polls: nat)
    requires Sane(c) && w.polled == 0
    modifies w
    ensures polls <= MaxPolls(c) && (end != PollAborted ==> polls >= 1) && w.polled <= polls
    ensures w.Calm() ==> end != PollAborted && w.polled == polls
    ensures end == Found ==> w.polled >= 1 && w.pollResult(w.polled - 1).Reviewed?
    ensures end != Found ==> NoneFound(w, polls)
    ensures forall k: nat :: k < w.polled - 1 ==> !w.pollResult(k).Reviewed?
    ensures end == TimedOut ==> w.time >= old(w.time) + c.timeout
    ensures end == TimedOut && w.Calm() && w.Ideal() ==> polls == MaxPolls(c)
  {
    polls := 0;
    PollsWithin(c, 1);
    var ok, start := w.Now();
    if !ok {
      return PollAborted, 0;
    }
    var deadline := start + c.timeout;
    while true
      invariant NoneFound(w, polls) && w.time >= start + polls * c.interval && start >= old(w.time)
      invariant polls > 0 ==> w.time < deadline && polls * c.interval < c.timeout
      invariant w.Calm() && w.Ideal() ==> start == old(w.time) && w.time == start + polls * c.interval
      decreases MaxPolls(c) - polls
    {
      polls := polls + 1;
      PollsWithin(c, polls);
      StepInterval(polls, c.interval);
      var t;
      ok, t := w.Now();
      if ok {
        var result := w.Poll();
        if result.Reviewed? {
          return Found, polls;
        }
      }
      var wait := WaitForNext(w, c, deadline);
      if wait == WaitAborted {
        return PollAborted, polls;
      }
      if wait == Over {
        if w.Calm() && w.Ideal() { PollsReach(c, polls); }
        return TimedOut, polls;
      }
    }
  }

  datatype Waited = Again | Over | WaitAborted

  /** Between polls: look at the clock, sleep no longer than what is left, look again. */
  method WaitForNext(w: World, c: Config, deadline: int) returns (r: Waited)
    requires Sane(c)
    modifies w`time, w`ticks
    ensures w.Calm() ==> r != WaitAborted
    ensures r == Again ==> old(w.time) + c.interval <= w.time < deadline
    ensures r == Over ==> w.time >= deadline
    ensures w.Calm() && w.Ideal() ==>
      (r == Again ==> w.time == old(w.time) + c.interval) && (r == Over ==> old(w.time) + c.interval >= deadline)
  {
    var ok, t := w.Now();
    if !ok {
      return WaitAborted;
    }
    if t >= deadline {
      return Over;
    }
    ok, t := w.Now();
    if !ok {
      return WaitAborted;
    }
    var left := if deadline - t < 0 then 0 else deadline - t;
    ok := w.Sleep(if c.interval < left then c.interval else left);
    if !ok {
      return WaitAborted;
    }
    ok, t := w.Now();
    if !ok {
      return WaitAborted;
    }
    r := if t >= deadline then Over else Again;
  }

  lemma StepInterval(polls: nat, interval: nat)
    requires polls >= 1
    ensures polls * interval == (polls - 1) * interval + interval
  {
  }

  /** The whole run on a raw config. */
  method RunCopilotReview(w: World, raw: RawConfig) returns (o: Outcome)
    requires w.requests == 0 && w.polled == 0
    modifies w
    ensures var c := Normalize(raw);
      && 1 <= o.attempts <= c.requestAttempts && o.polls <= MaxPolls(c)
      && (o.status != Failed ==> 1 <= o.polls && w.requestOk(o.attempts - 1))
      && (o.status == WasReviewed ==> w.polled >= 1 && w.pollResult(w.polled - 1).Reviewed?)
      && (o.status != WasReviewed ==> forall k: nat :: k < w.polled ==> !w.pollResult(k).Reviewed?)
    ensures w.Calm() ==> var c := Normalize(raw);
      && w.polled == o.polls
      && (o.status == Failed <==> forall k: nat :: k < c.requestAttempts ==> !w.requestOk(k))
      && (o.status == Failed ==> o.polls == 0 && o.attempts == c.requestAttempts)
      && (o.status == Skipped && w.Ideal() ==> o.polls == MaxPolls(c))
  {
    var c := Normalize(raw);
    var asked, attempts := RequestReview(w, c);
    if asked != Asked {
      return Outcome(Failed, attempts, 0);
    }
    var end, polls := PollUntilReviewed(w, c);
    o := Outcome(match end case Found => WasReviewed case TimedOut => Skipped case PollAborted => Failed, attempts, polls);
  }
}
