# Rugplay reward collector: claim scheduler and filter codec

This project models the reward collector of the `rusplay` repository and proves properties of the model. The collector runs one endless claim loop per configured account. Each pass of the loop works like this:
- it asks the Rugplay API whether the daily reward can be claimed;
- if the reward is not claimable yet, it sleeps the remaining time plus a 5 s grace;
- it submits the claim;
- it sleeps until the next claim window, or 12 h + 60 s when the server gives no usable next-claim time;
- after any failure it sleeps 60 s instead.

The project also models the `HopiumFilter` query codec of the client library: `TryFrom<&str>` and `Display`.

Modules:
- `Wrappers` (`wrappers.dfy`): `Option` and `Result`.
- `Decimal` (`decimal.dfy`): the decimal text Rust's `{}` prints for an unsigned integer, and the reading that undoes it.
- `Models` (`models.dfy`): the response records `ClaimInfo` and `RewardStatus`, the API error kinds and `HopiumFilter`.
- `Collector` (`collector.dfy`):
  - `format_wait_time`, with a reader for its text (`ParseWaitTime`) as the partner of the round-trip proofs.
  - `parse_next_claim_time`, with an injected clock.
  - `try_claim` and `claim_loop` as methods. They record the actions `Fetch`, `Claim` and `Sleep(ms)` in a trace.

How the outside world is modelled:
- The network calls and the clock are not performed. Every pass of the loop consumes one recorded `Round`, which holds:
  - the answer to the eligibility fetch;
  - the answer to the claim submission;
  - the clock reading taken after a successful claim.
- `ClaimLoop` runs as many passes as it is given rounds. It is proved equal to the trace specification `Run`. The lemmas about `Run` state what the endless loop does in every finite prefix of its run.
- Instants are integers: nanoseconds since the Unix epoch. This is the resolution of the `chrono` crate the source uses.
- RFC 3339 decoding (section 5.6 of RFC 3339, done by `chrono::DateTime::parse_from_rfc3339`) is a parameter `rfc3339: string -> Option<int>`. `None` means the text does not parse.

Behaviour of the code that the model keeps, and that a reader might not expect:
- After the wait for the claim window, the code claims without fetching eligibility again (`src/bin/collector.rs:86-92`). Eligibility is not confirmed a second time just before the claim. `TryClaim` and `EligibilityWaitLaw` state this: exactly one fetch per pass.
- The code refuses any next-claim wait that truncates to zero whole milliseconds (`src/bin/collector.rs:130-131`). So a timestamp at or before `now`, and also one less than 1 ms ahead, gives the 12 h + 60 s fallback. `ParseNextClaimTime` states this rule.
- The client's error type has four variants: `Request`, `Deserialize`, `InvalidResponse` and `NoCookie`. The collector wraps each with the step that failed. The model uses these variants (`ApiError`) and the step tags (`ClaimError`). Every one of them leads to the same 60 s backoff: an authentication failure is retried forever, just like a transient network failure.

## Model

| member | source | states |
|---|---|---|
| `Decimal.ToDecimal` | src/bin/collector.rs:61-63 | a number prints as at least one decimal digit, with no leading zero, and prints as "0" exactly when it is zero |
| `Decimal.DecimalRoundTrip` | src/bin/collector.rs:61-63 | reading back the printed digits gives the number again |
| `Decimal.ToDecimalInjective` | src/bin/collector.rs:61-63 | distinct numbers print to distinct digit strings |
| `Models.TryFrom` | rusplay/src/models.rs:159-168 | "ACTIVE", "RESOLVED" and "CANCELLED" parse to their variants, each exactly for that text; every other text is refused, "ALL", lower case and the empty text included; `ALL` is never produced |
| `Models.ToString` | rusplay/src/models.rs:179-188 | `ALL` prints as exactly "ALL", which `TryFrom` refuses; every other variant prints to a text that parses back to that same variant (and by `TryFrom` that text is its exact upper-case name) |
| `Models.ParseThenPrint` | rusplay/src/models.rs:159-188 | any text that parses prints back to exactly that text |
| `Models.ToStringInjective` | rusplay/src/models.rs:181-186 | distinct variants print to distinct texts |
| `Collector.HoursMinutesSplit` | src/bin/collector.rs:55-57 | the minutes part is below 60, and hours * 60 + minutes equals the whole minutes in the input, so seconds and milliseconds are truncated |
| `Collector.FormatWaitTime` | src/bin/collector.rs:54-65 | the text is "0m" exactly when the wait is under a minute, and it always ends in 'm' or 'h' |
| `Collector.FormatWaitTimeShape` | src/bin/collector.rs:59-64 | in terms of whole minutes t: "{t%60}m" when t/60 = 0, "{t/60}h" when t%60 = 0, and "{t/60}h {t%60}m" otherwise |
| `Collector.FormatWaitTimeRoundTrip` | src/bin/collector.rs:54-65 | the text reads back to exactly the whole minutes of the input |
| `Collector.FormatWaitTimeSameMinutes` | src/bin/collector.rs:54-65 | two waits print the same text if and only if they have the same whole minutes |
| `Collector.FormatWaitTimeExamples` | src/bin/collector.rs:59-64 | 0 ms prints "0m", 59 999 ms "0m", 3 540 000 ms "59m", 7 200 000 ms "2h", and 7 500 000 ms "2h 5m" |
| `Collector.NumMilliseconds` | src/bin/collector.rs:130-133 | a nanosecond span becomes whole milliseconds truncated toward zero, for spans of either sign |
| `Collector.ParseNextClaimTime` | src/bin/collector.rs:125-138 | the result is present exactly when a timestamp is given, it parses, and it lies at least 1 ms after now; the wait is then positive and is the whole milliseconds between now and the timestamp |
| `Collector.ParseNextClaimTimeExamples` | src/bin/collector.rs:125-138 | no timestamp gives no wait; 10 s ahead gives 10 000 ms; 10 s behind, or less than 1 ms ahead, gives no wait |
| `Collector.NextCycleWait` | src/bin/collector.rs:104-108 | the sleep after a successful claim is positive; it is the parsed wait when the timestamp is usable, and 43 260 000 ms (12 h + 60 s) when it is absent, does not parse or is not ahead |
| `Collector.TryClaim` | src/bin/collector.rs:67-93 | a failed fetch gives only `[Fetch]` and an error, with no claim; when claimable, `[Fetch, Claim]` with no sleep between; otherwise `[Fetch, Sleep(time_remaining + 5000), Claim]` with no second fetch; the claim's answer is returned, and its failure is tagged with the step that failed |
| `Collector.ClaimLoop` | src/bin/collector.rs:95-123 | n passes of the loop produce exactly the trace `Run` specifies: after a successful attempt the next-cycle wait, after any failed one 60 000 ms |
| `Collector.IterationShape` | src/bin/collector.rs:96-122 | each pass starts with an eligibility fetch, fetches exactly once, claims exactly once if the fetch succeeded and never otherwise, and ends with a positive sleep |
| `Collector.RunCounts` | src/bin/collector.rs:95-123 | n passes fetch eligibility exactly n times, so the loop never stops early; the number of claims equals the number of successful fetches |
| `Collector.RunPassStart` | src/bin/collector.rs:96-97 | the trace of the first i passes is a prefix of the whole trace; pass i begins with a fetch, and the action just before it is a sleep |
| `Collector.RunSleepsPositive` | src/bin/collector.rs:95-123 | every sleep in the loop's trace is strictly positive, so none is zero or negative |
| `Collector.IterationSleepsPositive` | src/bin/collector.rs:86-119 | within one pass, the grace wait, the backoff and the next-cycle wait are all strictly positive |
| `Collector.RunClaimsGuarded` | src/bin/collector.rs:73-92 | no claim comes first; every claim comes right after an eligibility fetch or right after a sleep of at least the 5 s grace |
| `Collector.EligibilityWaitLaw` | src/bin/collector.rs:81-92 | when the fetch says not claimable, exactly time_remaining + 5000 ms are slept between the fetch and the claim, with no other fetch or claim between them |
| `Collector.FailingClaimsRetryForever` | src/bin/collector.rs:116-120 | when every fetch says claimable and every claim fails, the trace is fetch, claim, sleep 60 000 ms, repeated once per pass with no end |
| `Collector.FailingFetchesRetryForever` | src/bin/collector.rs:68-71 | when every eligibility fetch fails, the trace is fetch, sleep 60 000 ms, repeated once per pass, and no claim is ever submitted |

## Left out

- Orchestrator (`main`, `src/bin/collector.rs:23-52`): reading and TOML-parsing `tokens.toml`, the logging setup, and running one loop per account concurrently. The model covers one account's loop. Isolation between accounts and a panic at `.expect` inside one task are concurrency and runtime behaviour, and are not modelled. `UserCreds` is kept as a plain record.
- Real time: `tokio::time::sleep` becomes a recorded `Sleep(ms)` action. `Utc::now()` becomes a clock reading supplied with each round. Network calls take no simulated time.
- The endless loop: `ClaimLoop` runs one pass per recorded round. The lemmas over `Run` hold for every finite number of passes.
- RFC 3339 parsing is not re-implemented. It is an opaque parameter from text to an instant.
- The HTTP client (`rusplay/src/lib.rs`): requests, cookies, bearer authentication and JSON decoding. Only its contract is modelled: each call returns a value or an `ApiError`. The error payloads (library errors, response text) are dropped.
- `RewardStatus.new_balance` and all other `f64` fields of `models.rs`: floating point. The other response records of `models.rs` and the `HopiumStatus` enum only feed serde deserialisation, and have no logic.
- Logging (`tracing` macros, and the `format_wait_time` calls that only feed debug messages) does not affect control flow. The claim-after-wait error context at `src/bin/collector.rs:92` holds the literal text `{e:?}`, because `context` does not interpolate. That only affects log text.
- `RewardStatus.success` is carried but not consulted, as in the source: any `Ok` answer counts as a successful claim.
- TryClaim: does not model the `u64` overflow of `time_remaining + 5000` (`src/bin/collector.rs:86`). With unbounded naturals the sum cannot wrap. The source would panic in debug builds or wrap in release builds only for a remaining time within 5000 of 2^64 ms.
- ParseNextClaimTime: does not model the `as u64` cast of the millisecond count (`src/bin/collector.rs:133`). The count is positive there, and the model's `nat` has no upper bound.
