/** The brass economy: balances and a pruned replay log, kept as rows of one key-value table. */
module EconomyModel {
  import opened Prelude
  import opened Text

  const LEDGER_KEPT := 200
  const MAX_EVENT_BYTES := 256
  const MAX_REASON_BYTES := 128

  type U64 = n: nat | n <= U64_MAX

  /** A stored value. Ledger rows from before timestamps have no `at`. */
  datatype Entry = Balance(amount: U64) | Ledger(amount: U64, spend: bool, reason: string, at: Option<int>)

  type Kv = map<string, Entry>

  datatype Request = Request(server: string, profileId: string, amount: U64, eventId: string, reason: string)

  // ----- Keys -------------------------------------------------------------------------------

  function BalanceKey(server: string, profileId: string): string {
    "economy:balance:" + server + ":" + profileId
  }

  function LedgerPrefix(server: string, profileId: string): string {
    "economy:ledger:" + server + ":" + profileId + ":"
  }

  function LedgerKey(server: string, profileId: string, eventId: string): string {
    LedgerPrefix(server, profileId) + eventId
  }

  const LAST_CHAR: char := '\U{10FFFF}'

  /** A prefix scan: the key range from the prefix up to the prefix followed by U+10FFFF. */
  function Listed(kv: Kv, prefix: string): set<string> {
    set k | k in kv && !Less(k, prefix) && Less(k, prefix + [LAST_CHAR]) && prefix <= k
  }

  // ----- Pruning ----------------------------------------------------------------------------

  function At(kv: Kv, k: string): int {
    if k in kv && kv[k].Ledger? then kv[k].at.GetOr(0) else 0
  }

  /** Oldest first; rows of the same second in key order. */
  predicate Earlier(kv: Kv, a: string, b: string) {
    At(kv, a) < At(kv, b) || (At(kv, a) == At(kv, b) && Less(a, b))
  }

  function Later(kv: Kv, keys: set<string>, k: string): set<string> {
    set o | o in keys && Earlier(kv, k, o)
  }

  /** A scanned row goes when at least `LEDGER_KEPT` scanned rows are later. */
  predicate IsStale(kv: Kv, prefix: string, k: string) {
    k in Listed(kv, prefix) && |Later(kv, Listed(kv, prefix), k)| >= LEDGER_KEPT
  }

  function Prune(kv: Kv, prefix: string): Kv {
    map k | k in kv && !IsStale(kv, prefix, k) :: kv[k]
  }

  // ----- A change ---------------------------------------------------------------------------

  predicate ValidRequest(r: Request) {
    && !IsBlank(r.server) && !IsBlank(r.profileId) && r.amount != 0
    && !IsBlank(r.eventId) && Utf8Len(r.eventId) <= MAX_EVENT_BYTES && Utf8Len(r.reason) <= MAX_REASON_BYTES
    && (forall i :: 0 <= i < |r.eventId| ==> !IsControl(r.eventId[i]) && !IsSpace(r.eventId[i]))
    && (forall i :: 0 <= i < |r.reason| ==> r.reason[i] != '\r' && r.reason[i] != '\n')
  }

  /** None when the stored value is not a number. */
  function BalanceOf(kv: Kv, server: string, profileId: string): Option<U64> {
    var k := BalanceKey(server, profileId);
    if k !in kv then Some(0) else if kv[k].Balance? then Some(kv[k].amount) else None
  }

  datatype ChangeError = InvalidRequest | UnknownProfile | MalformedBalance | BalanceOverflow

  datatype Verdict =
    | Refused(error: ChangeError)
    | Replay(balance: U64)
    | TooPoor(balance: U64)
    | Fresh(next: U64)

  function Judge(kv: Kv, known: bool, r: Request, spend: bool): Verdict {
    var balance := BalanceOf(kv, r.server, r.profileId);
    if !ValidRequest(r) then Refused(InvalidRequest)
    else if !known then Refused(UnknownProfile)
    else if balance.None? then Refused(MalformedBalance)
    else if LedgerKey(r.server, r.profileId, r.eventId) in kv then Replay(balance.value)
    else if spend && balance.value < r.amount then TooPoor(balance.value)
    else if spend then Fresh(balance.value - r.amount)
    else if balance.value + r.amount > U64_MAX then Refused(BalanceOverflow)
    else Fresh(balance.value + r.amount)
  }

  datatype Response = Response(balance: U64, applied: bool, duplicate: bool)

  function ResponseTo(v: Verdict): Result<Response, ChangeError> {
    match v
    case Refused(error) => Err(error)
    case Replay(balance) => Ok(Response(balance, true, true))
    case TooPoor(balance) => Ok(Response(balance, false, false))
    case Fresh(next) => Ok(Response(next, true, false))
  }

  /** The table with the new balance and the new ledger row, before pruning. */
  function Written(kv: Kv, r: Request, spend: bool, next: U64, at: int): Kv {
    kv[BalanceKey(r.server, r.profileId) := Balance(next)]
      [LedgerKey(r.server, r.profileId, r.eventId) := Ledger(r.amount, spend, r.reason, Some(at))]
  }

  function ChangeStep(kv: Kv, known: bool, r: Request, spend: bool, at: int): Kv {
    match Judge(kv, known, r, spend)
    case Fresh(next) => Prune(Written(kv, r, spend, next, at), LedgerPrefix(r.server, r.profileId))
    case _ => kv
  }

  // ----- Runs -------------------------------------------------------------------------------

  /** One request; `known` says whether the profile exists at that moment and `at` is the clock. */
  datatype Event = Event(known: bool, r: Request, spend: bool, at: int)

  function Step(kv: Kv, e: Event): Kv {
    ChangeStep(kv, e.known, e.r, e.spend, e.at)
  }

  predicate Applies(kv: Kv, e: Event) {
    Judge(kv, e.known, e.r, e.spend).Fresh?
  }

  function Exec(kv: Kv, es: seq<Event>): Kv
    decreases |es|
  {
    if es == [] then kv else Exec(Step(kv, es[0]), es[1..])
  }
}
