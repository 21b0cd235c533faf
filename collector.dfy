/** The per-account reward collector (src/bin/collector.rs): the wait-time text, the
    window calculator that turns the server's next-claim timestamp into a sleep, one
    eligibility-then-claim attempt, and the endless claim loop, run here for as many
    iterations as there are recorded outcomes of the outside world. */
module Collector {
  import opened Wrappers
  import opened Decimal
  import opened Models

  /** One configured account, read once at start-up. */
  datatype UserCreds = UserCreds(name: string, apiKey: string, cookie: Option<string>)

  /** Grace added to the server's remaining time before claiming. */
  const GraceMs: nat := 5000
  /** Sleep after a successful claim when the server gives no usable next-claim time (12 h + 60 s). */
  const FallbackMs: nat := (60 * 60 * 12 + 60) * 1000
  /** Sleep after any failed attempt. */
  const BackoffMs: nat := 60 * 1000

  const MsPerMinute: nat := 60000
  const NanosPerMilli: nat := 1000000

  // ---------------------------------------------------------------------------
  // format_wait_time
  // ---------------------------------------------------------------------------

  /** Whole hours in `ms`, computed as the source does: through whole seconds. */
  function Hours(ms: nat): nat {
    (ms / 1000) / 3600
  }

  /** Whole minutes past the hour in `ms`, computed through whole seconds. */
  function Minutes(ms: nat): nat {
    ((ms / 1000) % 3600) / 60
  }

  /** The hours and minutes split the whole minutes of `ms` exactly: seconds and
      milliseconds are dropped, and the minute part stays below an hour. */
  lemma HoursMinutesSplit(ms: nat)
    ensures Minutes(ms) < 60
    ensures Hours(ms) * 60 + Minutes(ms) == ms / MsPerMinute
    ensures Hours(ms) == (ms / MsPerMinute) / 60 && Minutes(ms) == (ms / MsPerMinute) % 60
  {
  }

  /** Human-readable wait: "Hh Mm", dropping a zero part unless both are zero. */
  function FormatWaitTime(ms: nat): (r: string)
    ensures r == "0m" <==> ms < MsPerMinute
    ensures |r| >= 2 && (r[|r| - 1] == 'm' || r[|r| - 1] == 'h')
  {
    var totalSeconds := ms / 1000;
    var hours := totalSeconds / 3600;
    var minutes := (totalSeconds % 3600) / 60;
    HoursMinutesSplit(ms);
    match (hours, minutes)
    case (0, 0) => "0m"
    case (0, m) =>
      assert (ToDecimal(m) + "m")[0] == ToDecimal(m)[0];
      ToDecimal(m) + "m"
    case (h, 0) =>
      assert (ToDecimal(h) + "h")[|ToDecimal(h)|] == 'h';
      ToDecimal(h) + "h"
    case (h, m) => ToDecimal(h) + "h " + ToDecimal(m) + "m"
  }

  /** The first position of `c` in `s`, if any. */
  function Find(s: string, c: char): (r: Option<nat>)
    ensures r.Some? ==> r.value < |s| && s[r.value] == c
    ensures r.Some? ==> forall j :: 0 <= j < r.value ==> s[j] != c
    ensures r.None? ==> forall j :: 0 <= j < |s| ==> s[j] != c
  {
    if s == [] then None
    else if s[0] == c then Some(0)
    else match Find(s[1..], c)
      case None => None
      case Some(i) => Some(i + 1)
  }

  /** Reads a wait text of the shape "Mm", "Hh" or "Hh Mm" back to whole minutes. */
  function ParseWaitTime(s: string): Option<nat> {
    if |s| < 2 then None
    else if s[|s| - 1] == 'h' then
      if AllDigits(s[..|s| - 1]) then Some(ParseDecimal(s[..|s| - 1]) * 60) else None
    else if s[|s| - 1] == 'm' then ParseMinutesPart(s[..|s| - 1])
    else None
  }

  /** Reads "M" or "Hh M" (a wait text without its final 'm') to whole minutes. */
  function ParseMinutesPart(body: string): Option<nat> {
    match SplitHours(body)
    case Some((hours, minutes)) => Some(ParseDecimal(hours) * 60 + ParseDecimal(minutes))
    case None => if AllDigits(body) then Some(ParseDecimal(body)) else None
  }

  /** Splits "Hh M" into its two non-empty digit strings. */
  function SplitHours(body: string): (r: Option<(string, string)>)
    ensures r.Some? ==> AllDigits(r.value.0) && AllDigits(r.value.1)
  {
    match Find(body, ' ')
    case None => None
    case Some(i) =>
      if 2 <= i < |body| - 1 && body[i - 1] == 'h' && AllDigits(body[..i - 1]) && AllDigits(body[i + 1..])
      then Some((body[..i - 1], body[i + 1..]))
      else None
  }

  /** The text in terms of the whole minutes of `ms` alone: hours and the minutes past
      the hour, a zero part omitted unless both are zero. */
  lemma FormatWaitTimeShape(ms: nat)
    ensures var t := ms / MsPerMinute; var h, m := t / 60, t % 60;
      FormatWaitTime(ms) ==
        if h == 0 then ToDecimal(m) + "m"
        else if m == 0 then ToDecimal(h) + "h"
        else ToDecimal(h) + "h " + ToDecimal(m) + "m"
  {
    HoursMinutesSplit(ms);
  }

  lemma ParseMinutesText(m: nat)
    ensures ParseWaitTime(ToDecimal(m) + "m") == Some(m)
  {
    var r := ToDecimal(m) + "m";
    assert r[..|r| - 1] == ToDecimal(m);
    NoSpaceInDigits(ToDecimal(m));
    DecimalRoundTrip(m);
  }

  lemma NoSpaceInDigits(s: string)
    requires AllDigits(s)
    ensures Find(s, ' ').None?
  {
  }

  lemma ParseHoursText(h: nat)
    ensures ParseWaitTime(ToDecimal(h) + "h") == Some(h * 60)
  {
    var r := ToDecimal(h) + "h";
    assert r[..|r| - 1] == ToDecimal(h);
    DecimalRoundTrip(h);
  }

  lemma FindSpaceAfterHours(dh: string, dm: string)
    requires AllDigits(dh)
    ensures Find(dh + "h " + dm, ' ') == Some(|dh| + 1)
  {
    var body := dh + "h " + dm;
    assert body[|dh| + 1] == ' ';
    forall j | 0 <= j < |dh| + 1 ensures body[j] != ' ' {
      if j < |dh| { assert body[j] == dh[j]; }
    }
  }

  lemma SplitHoursText(dh: string, dm: string)
    requires AllDigits(dh) && AllDigits(dm) && |dh| >= 1 && |dm| >= 1
    ensures SplitHours(dh + "h " + dm) == Some((dh, dm))
  {
    var body := dh + "h " + dm;
    FindSpaceAfterHours(dh, dm);
    var i := |dh| + 1;
    assert body[..i - 1] == dh;
    assert body[i + 1..] == dm;
  }

  lemma ParseHoursMinutesPart(dh: string, dm: string)
    requires AllDigits(dh) && AllDigits(dm) && |dh| >= 1 && |dm| >= 1
    ensures ParseMinutesPart(dh + "h " + dm) == Some(ParseDecimal(dh) * 60 + ParseDecimal(dm))
  {
    SplitHoursText(dh, dm);
    ParseSplitMinutesPart(dh + "h " + dm, dh, dm);
  }

  lemma ParseSplitMinutesPart(body: string, dh: string, dm: string)
    requires SplitHours(body) == Some((dh, dm))
    ensures ParseMinutesPart(body) == Some(ParseDecimal(dh) * 60 + ParseDecimal(dm))
  {
  }

  lemma ParseHoursMinutesText(h: nat, m: nat)
    ensures ParseWaitTime(ToDecimal(h) + "h " + ToDecimal(m) + "m") == Some(h * 60 + m)
  {
    var dh, dm := ToDecimal(h), ToDecimal(m);
    var r := dh + "h " + dm + "m";
    assert r[..|r| - 1] == dh + "h " + dm && r[|r| - 1] == 'm';
    ParseHoursMinutesPart(dh, dm);
    DecimalRoundTrip(h);
    DecimalRoundTrip(m);
  }

  /** The text denotes exactly the whole minutes in `ms`: sub-minute parts are truncated. */
  lemma {:induction false} FormatWaitTimeRoundTrip(ms: nat)
    ensures ParseWaitTime(FormatWaitTime(ms)) == Some(ms / MsPerMinute)
  {
    FormatWaitTimeShape(ms);
    var t := ms / MsPerMinute;
    var h, m := t / 60, t % 60;
    if h == 0 {
      ParseMinutesText(m);
    } else if m == 0 {
      ParseHoursText(h);
    } else {
      ParseHoursMinutesText(h, m);
    }
  }

  /** Two waits print the same text exactly when they hold the same whole minutes. */
  lemma FormatWaitTimeSameMinutes(a: nat, b: nat)
    ensures FormatWaitTime(a) == FormatWaitTime(b) <==> a / MsPerMinute == b / MsPerMinute
  {
    HoursMinutesSplit(a);
    HoursMinutesSplit(b);
    if FormatWaitTime(a) == FormatWaitTime(b) {
      FormatWaitTimeRoundTrip(a);
      FormatWaitTimeRoundTrip(b);
    }
  }

  /** Worked examples of the format: under a minute, minutes only, whole hours, both. */
  lemma FormatWaitTimeExamples()
    ensures FormatWaitTime(0) == "0m"
    ensures FormatWaitTime(59999) == "0m"
    ensures FormatWaitTime(3540000) == "59m"
    ensures FormatWaitTime(7200000) == "2h"
    ensures FormatWaitTime(7500000) == "2h 5m"
  {
    assert ToDecimal(59) == "59";
  }

  // ---------------------------------------------------------------------------
  // parse_next_claim_time
  // ---------------------------------------------------------------------------

  /** Whole milliseconds in a signed span of nanoseconds, truncated toward zero
      (chrono's `TimeDelta::num_milliseconds`). */
  function NumMilliseconds(deltaNs: int): (r: int)
    ensures deltaNs >= 0 ==> 0 <= r && r * NanosPerMilli <= deltaNs < (r + 1) * NanosPerMilli
    ensures deltaNs < 0 ==> r <= 0 && (r - 1) * NanosPerMilli < deltaNs <= r * NanosPerMilli
  {
    if deltaNs >= 0 then deltaNs / NanosPerMilli else -((-deltaNs) / NanosPerMilli)
  }

  /** The wait until the server's next claim time, in whole milliseconds, when that time
      is present, is valid RFC 3339 (as decided by `rfc3339`, which yields nanoseconds since
      the Unix epoch) and lies at least a millisecond after `now`; otherwise None. */
  function ParseNextClaimTime(nextClaimTime: Option<string>, rfc3339: string -> Option<int>, now: int): (r: Option<nat>)
    ensures r.Some? <==>
      nextClaimTime.Some? && rfc3339(nextClaimTime.value).Some? &&
      rfc3339(nextClaimTime.value).value - now >= NanosPerMilli
    ensures r.Some? ==>
      r.value > 0 &&
      r.value * NanosPerMilli <= rfc3339(nextClaimTime.value).value - now < (r.value + 1) * NanosPerMilli
  {
    match nextClaimTime
    case None => None
    case Some(text) =>
      match rfc3339(text)
      case None => None
      case Some(target) =>
        var waitMs := NumMilliseconds(target - now);
        if waitMs > 0 then Some(waitMs) else None
  }

  /** Worked examples: no timestamp, one 10 s ahead, one 10 s behind, and one less than a
      millisecond ahead (which truncates to a zero wait and so is refused). */
  lemma ParseNextClaimTimeExamples(rfc3339: string -> Option<int>, text: string, now: int)
    ensures ParseNextClaimTime(None, rfc3339, now) == None
    ensures rfc3339(text) == Some(now + 10000 * NanosPerMilli) ==> ParseNextClaimTime(Some(text), rfc3339, now) == Some(10000)
    ensures rfc3339(text) == Some(now - 10000 * NanosPerMilli) ==> ParseNextClaimTime(Some(text), rfc3339, now) == None
    ensures rfc3339(text) == Some(now + NanosPerMilli - 1) ==> ParseNextClaimTime(Some(text), rfc3339, now) == None
  {
  }

  /** The sleep after a successful claim: the wait until the server's next claim time
      when it is usable, the 12 h + 60 s fallback otherwise. Never zero. */
  function NextCycleWait(status: RewardStatus, rfc3339: string -> Option<int>, now: int): (ms: nat)
    ensures ms > 0
    ensures status.nextClaimTime.None? ==> ms == FallbackMs
    ensures status.nextClaimTime.Some? && rfc3339(status.nextClaimTime.value).None? ==> ms == FallbackMs
    ensures status.nextClaimTime.Some? && rfc3339(status.nextClaimTime.value).Some? ==>
      var delta := rfc3339(status.nextClaimTime.value).value - now;
      if delta >= NanosPerMilli then ms * NanosPerMilli <= delta < (ms + 1) * NanosPerMilli
      else ms == FallbackMs
  {
    ParseNextClaimTime(status.nextClaimTime, rfc3339, now).GetOr(FallbackMs)
  }

  // ---------------------------------------------------------------------------
  // try_claim and claim_loop
  // ---------------------------------------------------------------------------

  /** What the collector does to the outside world, in order. */
  datatype Action = Fetch | Claim | Sleep(ms: nat)

  /** What the outside world answers during one pass of the claim loop: the eligibility
      fetch, the claim submission (unused when the fetch fails) and the clock read after
      a successful claim. */
  datatype Round = Round(info: Result<ClaimInfo, ApiError>, reward: Result<RewardStatus, ApiError>, now: int)

  /** The failure of one attempt, tagged with the step that failed. */
  datatype ClaimError =
    | InfoUnavailable(cause: ApiError)
    | ClaimFailed(cause: ApiError)
    | ClaimFailedAfterWait(cause: ApiError)

  /** One attempt: fetch eligibility; claim at once when claimable, otherwise sleep the
      remaining time plus the grace and then claim without fetching again. */
  method TryClaim(round: Round) returns (effects: seq<Action>, result: Result<RewardStatus, ClaimError>)
    ensures round.info.Err? ==>
      effects == [Fetch] && result == Err(InfoUnavailable(round.info.error))
    ensures round.info.Ok? && round.info.value.canClaim ==>
      effects == [Fetch, Claim] &&
      result == if round.reward.Ok? then Ok(round.reward.value) else Err(ClaimFailed(round.reward.error))
    ensures round.info.Ok? && !round.info.value.canClaim ==>
      effects == [Fetch, Sleep(round.info.value.timeRemaining + GraceMs), Claim] &&
      result == if round.reward.Ok? then Ok(round.reward.value) else Err(ClaimFailedAfterWait(round.reward.error))
  {
    effects := [Fetch];
    if round.info.Err? {
      return effects, Err(InfoUnavailable(round.info.error));
    }
    var claimInfo := round.info.value;
    if claimInfo.canClaim {
      effects := effects + [Claim];
      match round.reward {
        case Ok(status) => result := Ok(status);
        case Err(e) => result := Err(ClaimFailed(e));
      }
      return;
    }
    var waitTime := claimInfo.timeRemaining + GraceMs;
    effects := effects + [Sleep(waitTime)];
    effects := effects + [Claim];
    match round.reward {
      case Ok(status) => result := Ok(status);
      case Err(e) => result := Err(ClaimFailedAfterWait(e));
    }
  }

  /** The actions of one pass of the claim loop, as the code performs it. */
  function Iteration(round: Round, rfc3339: string -> Option<int>): seq<Action> {
    match round.info
    case Err(_) => [Fetch, Sleep(BackoffMs)]
    case Ok(info) =>
      var attempt := if info.canClaim then [Fetch, Claim] else [Fetch, Sleep(info.timeRemaining + GraceMs), Claim];
      var rest := match round.reward
        case Ok(status) => NextCycleWait(status, rfc3339, round.now)
        case Err(_) => BackoffMs;
      attempt + [Sleep(rest)]
  }

  /** The actions of the claim loop over the given passes, in order. */
  function Run(rounds: seq<Round>, rfc3339: string -> Option<int>): seq<Action>
    decreases |rounds|
  {
    if rounds == [] then []
    else Run(rounds[..|rounds| - 1], rfc3339) + Iteration(rounds[|rounds| - 1], rfc3339)
  }

  /** The endless loop, for as many passes as `rounds` records: after a successful attempt
      it sleeps the parsed wait or the fallback, after a failed one the backoff. */
  method ClaimLoop(rounds: seq<Round>, rfc3339: string -> Option<int>) returns (trace: seq<Action>)
    ensures trace == Run(rounds, rfc3339)
  {
    trace := [];
    var i := 0;
    while i < |rounds|
      invariant 0 <= i <= |rounds|
      invariant trace == Run(rounds[..i], rfc3339)
    {
      var round := rounds[i];
      var effects, result := TryClaim(round);
      trace := trace + effects;
      match result {
        case Ok(status) =>
          var sleepDuration := NextCycleWait(status, rfc3339, round.now);
          trace := trace + [Sleep(sleepDuration)];
        case Err(_) =>
          trace := trace + [Sleep(BackoffMs)];
      }
      assert rounds[..i + 1][..i] == rounds[..i];
      i := i + 1;
    }
    assert rounds[..|rounds|] == rounds;
  }

  // ---------------------------------------------------------------------------
  // Properties of the loop's trace
  // ---------------------------------------------------------------------------

  /** How often `a` occurs in `t`. */
  function Count(t: seq<Action>, a: Action): nat {
    if t == [] then 0 else Count(t[..|t| - 1], a) + (if t[|t| - 1] == a then 1 else 0)
  }

  /** Total time slept in `t`. */
  function Elapsed(t: seq<Action>): nat {
    if t == [] then 0 else Elapsed(t[..|t| - 1]) + (if t[|t| - 1].Sleep? then t[|t| - 1].ms else 0)
  }

  lemma {:induction false} CountConcat(s: seq<Action>, t: seq<Action>, a: Action)
    ensures Count(s + t, a) == Count(s, a) + Count(t, a)
    decreases |t|
  {
    if t != [] {
      assert (s + t)[..|s + t| - 1] == s + t[..|t| - 1];
      CountConcat(s, t[..|t| - 1], a);
    } else {
      assert s + t == s;
    }
  }

  /** Each pass fetches eligibility once, claims once when the fetch succeeded and never
      otherwise, and ends with a sleep that is never zero. */
  lemma IterationShape(round: Round, rfc3339: string -> Option<int>)
    ensures var t := Iteration(round, rfc3339);
      && |t| >= 2 && t[0] == Fetch && t[|t| - 1].Sleep? && t[|t| - 1].ms > 0
      && Count(t, Fetch) == 1
      && Count(t, Claim) == (if round.info.Ok? then 1 else 0)
  {
    var t := Iteration(round, rfc3339);
    var last := t[|t| - 1];
    if round.info.Err? {
      CountConcat([Fetch], [last], Fetch);
      CountConcat([Fetch], [last], Claim);
    } else if round.info.value.canClaim {
      assert t == [Fetch] + [Claim] + [last];
      CountConcat([Fetch], [Claim], Fetch);
      CountConcat([Fetch], [Claim], Claim);
      CountConcat([Fetch, Claim], [last], Fetch);
      CountConcat([Fetch, Claim], [last], Claim);
    } else {
      var wait := t[1];
      assert t == [Fetch] + [wait] + [Claim] + [last];
      CountConcat([Fetch], [wait], Fetch);
      CountConcat([Fetch], [wait], Claim);
      CountConcat([Fetch, wait], [Claim], Fetch);
      CountConcat([Fetch, wait], [Claim], Claim);
      CountConcat([Fetch, wait, Claim], [last], Fetch);
      CountConcat([Fetch, wait, Claim], [last], Claim);
    }
  }

  /** The loop never stops early: n passes fetch eligibility exactly n times, and claim
      exactly once per successful fetch. */
  lemma {:induction false} RunCounts(rounds: seq<Round>, rfc3339: string -> Option<int>)
    ensures Count(Run(rounds, rfc3339), Fetch) == |rounds|
    ensures Count(Run(rounds, rfc3339), Claim) == |SuccessfulFetches(rounds)|
    decreases |rounds|
  {
    if rounds != [] {
      var init, last := rounds[..|rounds| - 1], rounds[|rounds| - 1];
      RunCounts(init, rfc3339);
      IterationShape(last, rfc3339);
      CountConcat(Run(init, rfc3339), Iteration(last, rfc3339), Fetch);
      CountConcat(Run(init, rfc3339), Iteration(last, rfc3339), Claim);
    }
  }

  /** The passes whose eligibility fetch succeeded. */
  function SuccessfulFetches(rounds: seq<Round>): seq<Round> {
    if rounds == [] then []
    else SuccessfulFetches(rounds[..|rounds| - 1]) + (if rounds[|rounds| - 1].info.Ok? then [rounds[|rounds| - 1]] else [])
  }

  /** After at least one pass, the trace ends with a sleep. */
  lemma RunEndsWithSleep(rounds: seq<Round>, rfc3339: string -> Option<int>)
    requires rounds != []
    ensures var t := Run(rounds, rfc3339); |t| > 0 && t[|t| - 1].Sleep?
  {
    var last := rounds[|rounds| - 1];
    IterationShape(last, rfc3339);
    var a, b := Run(rounds[..|rounds| - 1], rfc3339), Iteration(last, rfc3339);
    assert Run(rounds, rfc3339) == a + b;
    assert (a + b)[|a + b| - 1] == b[|b| - 1];
  }

  /** The last pass begins right after the trace of the earlier ones, with a fetch. */
  lemma RunLastPassStart(rounds: seq<Round>, rfc3339: string -> Option<int>)
    requires rounds != []
    ensures var i := |rounds| - 1; var before := Run(rounds[..i], rfc3339); var t := Run(rounds, rfc3339);
      && |before| < |t| && t[..|before|] == before && t[|before|] == Fetch
      && (i > 0 ==> t[|before| - 1].Sleep?)
  {
    var init, last := rounds[..|rounds| - 1], rounds[|rounds| - 1];
    var a, b := Run(init, rfc3339), Iteration(last, rfc3339);
    var t := Run(rounds, rfc3339);
    assert t == a + b;
    IterationShape(last, rfc3339);
    assert t[..|a|] == a && t[|a|] == b[0];
    if init != [] {
      RunEndsWithSleep(init, rfc3339);
      assert t[|a| - 1] == a[|a| - 1];
    }
  }

  /** The trace up to pass i is a prefix of the whole trace; pass i begins with an
      eligibility fetch, and every earlier pass ended with a sleep. */
  lemma {:induction false} RunPassStart(rounds: seq<Round>, rfc3339: string -> Option<int>, i: nat)
    requires i < |rounds|
    ensures var before := Run(rounds[..i], rfc3339); var t := Run(rounds, rfc3339);
      && |before| < |t| && t[..|before|] == before && t[|before|] == Fetch
      && (i > 0 ==> t[|before| - 1].Sleep?)
    decreases |rounds|
  {
    if i == |rounds| - 1 {
      RunLastPassStart(rounds, rfc3339);
    } else {
      var init := rounds[..|rounds| - 1];
      RunPassStart(init, rfc3339, i);
      assert init[..i] == rounds[..i];
      var a, t := Run(init, rfc3339), Run(rounds, rfc3339);
      assert t == a + Iteration(rounds[|rounds| - 1], rfc3339);
      var before := Run(rounds[..i], rfc3339);
      assert t[..|before|] == a[..|before|];
      assert t[|before|] == a[|before|];
      if i > 0 {
        assert t[|before| - 1] == a[|before| - 1];
      }
    }
  }

  /** Every sleep the loop performs is strictly positive. */
  ghost predicate SleepsPositive(t: seq<Action>) {
    forall k :: 0 <= k < |t| && t[k].Sleep? ==> t[k].ms > 0
  }

  lemma {:induction false} RunSleepsPositive(rounds: seq<Round>, rfc3339: string -> Option<int>)
    ensures SleepsPositive(Run(rounds, rfc3339))
    decreases |rounds|
  {
    if rounds != [] {
      var init, last := rounds[..|rounds| - 1], rounds[|rounds| - 1];
      RunSleepsPositive(init, rfc3339);
      var a, b := Run(init, rfc3339), Iteration(last, rfc3339);
      assert SleepsPositive(b) by {
        IterationSleepsPositive(last, rfc3339);
      }
      forall k | 0 <= k < |a + b| && (a + b)[k].Sleep? ensures (a + b)[k].ms > 0 {
        if k >= |a| { assert (a + b)[k] == b[k - |a|]; }
      }
    }
  }

  /** Within one pass: the grace wait, the backoff and the next-cycle wait are all positive. */
  lemma IterationSleepsPositive(round: Round, rfc3339: string -> Option<int>)
    ensures SleepsPositive(Iteration(round, rfc3339))
  {
  }

  /** No claim is ever the first action, and each one comes right after either an
      eligibility fetch or a sleep of at least the grace period. */
  ghost predicate ClaimsGuarded(t: seq<Action>) {
    forall k :: 0 <= k < |t| && t[k] == Claim ==>
      0 < k && (t[k - 1] == Fetch || (t[k - 1].Sleep? && t[k - 1].ms >= GraceMs))
  }

  lemma {:induction false} RunClaimsGuarded(rounds: seq<Round>, rfc3339: string -> Option<int>)
    ensures ClaimsGuarded(Run(rounds, rfc3339))
    decreases |rounds|
  {
    if rounds != [] {
      var init, last := rounds[..|rounds| - 1], rounds[|rounds| - 1];
      RunClaimsGuarded(init, rfc3339);
      var a, b := Run(init, rfc3339), Iteration(last, rfc3339);
      assert ClaimsGuarded(b);
      IterationShape(last, rfc3339);
      forall k | 0 <= k < |a + b| && (a + b)[k] == Claim
        ensures 0 < k && ((a + b)[k - 1] == Fetch || ((a + b)[k - 1].Sleep? && (a + b)[k - 1].ms >= GraceMs))
      {
        if k >= |a| {
          assert (a + b)[k] == b[k - |a|];
          assert k - |a| > 0;
          assert (a + b)[k - 1] == b[k - 1 - |a|];
        }
      }
    }
  }

  /** When the server says the reward is not yet claimable, the claim of that pass comes
      after exactly the remaining time plus the grace, and no second fetch precedes it. */
  lemma EligibilityWaitLaw(round: Round, rfc3339: string -> Option<int>)
    requires round.info.Ok? && !round.info.value.canClaim
    ensures var t := Iteration(round, rfc3339);
      && t[2] == Claim && Count(t[..2], Fetch) == 1 && Count(t[..2], Claim) == 0
      && Elapsed(t[..2]) == round.info.value.timeRemaining + GraceMs
  {
    var t := Iteration(round, rfc3339);
    assert t[..2][..1] == [Fetch];
    assert [Fetch][..0] == [];
  }

  /** k copies of one pass's actions. */
  function Repeat(pass: seq<Action>, k: nat): seq<Action> {
    if k == 0 then [] else Repeat(pass, k - 1) + pass
  }

  /** When every fetch says claimable and every claim fails, the loop claims and backs
      off 60 s, again and again, for as long as it runs. */
  lemma {:induction false} FailingClaimsRetryForever(rounds: seq<Round>, rfc3339: string -> Option<int>)
    requires forall i :: 0 <= i < |rounds| ==>
      rounds[i].info.Ok? && rounds[i].info.value.canClaim && rounds[i].reward.Err?
    ensures Run(rounds, rfc3339) == Repeat([Fetch, Claim, Sleep(BackoffMs)], |rounds|)
    decreases |rounds|
  {
    if rounds != [] {
      FailingClaimsRetryForever(rounds[..|rounds| - 1], rfc3339);
    }
  }

  /** When every eligibility fetch fails, the loop fetches and backs off 60 s, forever,
      and never submits a claim. */
  lemma {:induction false} FailingFetchesRetryForever(rounds: seq<Round>, rfc3339: string -> Option<int>)
    requires forall i :: 0 <= i < |rounds| ==> rounds[i].info.Err?
    ensures Run(rounds, rfc3339) == Repeat([Fetch, Sleep(BackoffMs)], |rounds|)
    decreases |rounds|
  {
    if rounds != [] {
      FailingFetchesRetryForever(rounds[..|rounds| - 1], rfc3339);
    }
  }
}
