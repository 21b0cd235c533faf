/** The response shapes of the claim endpoint and the `HopiumFilter` query codec
    (rusplay/src/models.rs). Floating-point fields are not modelled. */
module Models {
  import opened Wrappers

  /** The failures the API client reports (`RugplayError`). The payloads (library error
      values and response text) are dropped: the collector never looks at them. */
  datatype ApiError = Request | Deserialize | InvalidResponse | NoCookie

  /** Answer of the eligibility fetch (`ClaimInfo`); timestamps stay as the server's text. */
  datatype ClaimInfo = ClaimInfo(
    canClaim: bool,
    rewardAmount: nat,
    baseReward: nat,
    prestigeBonus: nat,
    prestigeLevel: nat,
    timeRemaining: nat,
    nextClaimTime: Option<string>,
    totalRewardsClaimed: nat,
    lastRewardClaim: Option<string>,
    loginStreak: nat)

  /** Answer of the claim submission (`RewardStatus`); `new_balance` (an f64) is left out. */
  datatype RewardStatus = RewardStatus(
    success: bool,
    rewardAmount: nat,
    baseReward: nat,
    prestigeBonus: nat,
    prestigeLevel: nat,
    totalRewardsClaimed: nat,
    loginStreak: nat,
    nextClaimTime: Option<string>)

  /** Which prediction-market questions to list. */
  datatype HopiumFilter = ACTIVE | RESOLVED | CANCELLED | ALL

  /** `TryFrom<&str>`: exactly the three upper-case names of the statuses parse; every other
      text, `"ALL"` among them, is refused with the unit error. */
  function TryFrom(value: string): (r: Result<HopiumFilter, ()>)
    ensures r == Ok(ACTIVE) <==> value == "ACTIVE"
    ensures r == Ok(RESOLVED) <==> value == "RESOLVED"
    ensures r == Ok(CANCELLED) <==> value == "CANCELLED"
    ensures r != Ok(ALL)
    ensures r.Err? <==> value !in {"ACTIVE", "RESOLVED", "CANCELLED"}
  {
    match value
    case "ACTIVE" => Ok(ACTIVE)
    case "RESOLVED" => Ok(RESOLVED)
    case "CANCELLED" => Ok(CANCELLED)
    case _ => Err(())
  }

  /** `Display`: every variant prints as its upper-case name; the print parses back to the
      same variant except for `ALL`, the one variant `TryFrom` refuses. */
  function ToString(f: HopiumFilter): (r: string)
    ensures f == ALL ==> r == "ALL"
    ensures TryFrom(r) == if f == ALL then Err(()) else Ok(f)
  {
    match f
    case ACTIVE => "ACTIVE"
    case RESOLVED => "RESOLVED"
    case CANCELLED => "CANCELLED"
    case ALL => "ALL"
  }

  /** Whatever parses prints back to the very same text. */
  lemma ParseThenPrint(s: string, f: HopiumFilter)
    requires TryFrom(s) == Ok(f)
    ensures ToString(f) == s
  {
  }

  /** Distinct variants print to distinct texts. */
  lemma ToStringInjective(f: HopiumFilter, g: HopiumFilter)
    ensures ToString(f) == ToString(g) <==> f == g
  {
  }
}
