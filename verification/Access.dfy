/** What the community operations ask about the person calling, and why they refuse. */
module Access {
  import opened Wrappers

  datatype Refusal =
    | NotVerified | NotAllowed | BannedHere | NotFound | Locked | Archived | AnonymousNotAllowed
    | RateLimited | Invalid | Exists | TooDeep | Myself | SelfVote | LastOwner | MutedHere | PinCap
    | GateKarma | GateAccountAge | Closed

  const COMMENTS_PER_HOUR := 30
  const VOTES_PER_HOUR := 200
  const REPORTS_PER_HOUR := 10

  /** The answers the transaction gets about the caller from the identity tables. */
  datatype Caller = Caller(
    userId: string, verified: bool, banned: bool, muted: bool,
    allowed: bool, gate: Option<Refusal>, recent: nat)
}
