/** One-time codes as a state machine. Every store call of every guess and every send is one
    action, so a history of actions is one interleaving of any number of requests. */
module OtpProtocol {
  import opened Prelude

  const MAX_ATTEMPTS := 5
  const CALLER_GUESSES := 10
  const TARGET_GUESSES := 50
  const CALLER_SENDS := 5
  const TARGET_SENDS := 20
  const RESEND_COOLDOWN := 60
  const CODE_LIFETIME := 600

  datatype Purpose = Phone | PersonalEmail | CorporateEmail | EmailSignup | EmailLogin | AccountClaim

  /** The key of a pending code: per user for the three signed-in purposes, per target for the rest. */
  datatype Slot = UserSlot(purpose: Purpose, user: nat) | TargetSlot(purpose: Purpose, target: string)

  /** The two allowances one guess or send is charged to. Keys are hashes in the store; a
      collision-free hash is modelled by the value itself. */
  datatype Key = CallerKey(purpose: Purpose, target: string, caller: string)
               | TargetKey(purpose: Purpose, target: string)

  /** A pending code. `issue` numbers the sends, so a resend is a different row in the same slot;
      `code` stands for its hash. */
  datatype Row = Row(issue: nat, target: string, code: nat, attempts: nat, created: int, expires: int)

  datatype Outcome = Accepted | BudgetSpent | Unavailable | NoCode | Expired | TooMany
                   | WrongTarget | WrongCode | StoreError | CoolingDown | Sent

  /** Where a guess stands: the store call it makes next. */
  datatype GuessStage = TakeCaller | TakeTarget | Claim | Explain | DropExpired(row: Row)
                      | Compare(row: Row) | DropSpent | Consume(row: Row)
                      | RefundCaller | RefundTarget | Ended(outcome: Outcome)

  /** A guess and what it has done so far: the allowances it holds, the issue whose attempt it
      claimed, whether it compared the code, and the issue it spent. */
  datatype Guess = Guess(caller: string, slot: Slot, target: string, code: nat, stage: GuessStage,
                         holdsCaller: bool, holdsTarget: bool,
                         claimed: Option<nat>, compared: bool, spent: Option<nat>)

  datatype SendStage = CheckCooldown | ChargeCaller | ChargeTarget | Upsert | Over(outcome: Outcome)

  datatype Send = Send(caller: string, slot: Slot, target: string, stage: SendStage,
                       chargedCaller: bool, chargedTarget: bool, issued: Option<nat>)

  /** The store (two counter tables and the pending codes), the codes issued so far by issue
      number, and the requests made so far. */
  datatype State = State(guessed: map<Key, nat>, sent: map<Key, nat>, rows: map<Slot, Row>, codes: seq<nat>,
                         guesses: seq<Guess>, sends: seq<Send>)

  datatype Action =
    | BeginGuess(caller: string, slot: Slot, target: string, code: nat)
    | BeginSend(caller: string, slot: Slot, target: string)
    | GuessStep(i: nat, fault: Fault, now: int)
    | SendStep(i: nat, fault: Fault, now: int, code: nat)
    | DropSlot(slot: Slot)   // account deletion cascades to the user's pending codes

  const Init := State(map[], map[], map[], [], [], [])

  // --- the store's atomic statements ---

  function Used(m: map<Key, nat>, k: Key): nat {
    if k in m then m[k] else 0
  }

  function Take(m: map<Key, nat>, k: Key, cap: nat, f: Fault): map<Key, nat> {
    if f.Down? || Used(m, k) >= cap then m else m[k := Used(m, k) + 1]
  }

  function Refund(m: map<Key, nat>, k: Key, f: Fault): map<Key, nat> {
    if f.Down? || Used(m, k) == 0 then m else m[k := (Used(m, k) - 1) as nat]
  }

  predicate Claimable(rows: map<Slot, Row>, slot: Slot, now: int) {
    slot in rows && rows[slot].attempts < MAX_ATTEMPTS && rows[slot].expires > now
  }

  function ClaimAttempt(rows: map<Slot, Row>, slot: Slot, now: int, f: Fault): map<Slot, Row> {
    if f.Down? || !Claimable(rows, slot, now) then rows
    else rows[slot := rows[slot].(attempts := rows[slot].attempts + 1)]
  }

  predicate Consumable(rows: map<Slot, Row>, slot: Slot, code: nat) {
    slot in rows && rows[slot].code == code
  }

  function ConsumeCode(rows: map<Slot, Row>, slot: Slot, code: nat, f: Fault): map<Slot, Row> {
    if f.Down? || !Consumable(rows, slot, code) then rows else rows - {slot}
  }

  function Delete(rows: map<Slot, Row>, slot: Slot, f: Fault): map<Slot, Row> {
    if f.Down? then rows else rows - {slot}
  }

  // --- one step of a guess ---

  function CallerOf(g: Guess): Key { CallerKey(g.slot.purpose, g.target, g.caller) }

  function TargetOf(g: Guess): Key { TargetKey(g.slot.purpose, g.target) }

  function NextGuessed(s: State, g: Guess, f: Fault): map<Key, nat> {
    match g.stage
    case TakeCaller => Take(s.guessed, CallerOf(g), CALLER_GUESSES, f)
    case TakeTarget => Take(s.guessed, TargetOf(g), TARGET_GUESSES, f)
    case RefundCaller => Refund(s.guessed, CallerOf(g), f)
    case RefundTarget => Refund(s.guessed, TargetOf(g), f)
    case _ => s.guessed
  }

  function NextRows(s: State, g: Guess, f: Fault, now: int): map<Slot, Row> {
    match g.stage
    case Claim => ClaimAttempt(s.rows, g.slot, now, f)
    case DropExpired(_) => Delete(s.rows, g.slot, f)
    case DropSpent => Delete(s.rows, g.slot, f)
    case Consume(row) => ConsumeCode(s.rows, g.slot, row.code, f)
    case _ => s.rows
  }

  function NextGuess(s: State, g: Guess, f: Fault, now: int): Guess {
    match g.stage
    case TakeCaller =>
      var took := Used(s.guessed, CallerOf(g)) < CALLER_GUESSES;
      g.(holdsCaller := took && !f.Down?,
         stage := if !f.Fine? then Ended(Unavailable) else if took then TakeTarget else Ended(BudgetSpent))
    case TakeTarget =>
      var took := Used(s.guessed, TargetOf(g)) < TARGET_GUESSES;
      g.(holdsTarget := took && !f.Down?,
         stage := if !f.Fine? then Ended(Unavailable) else if took then Claim else Ended(BudgetSpent))
    case Claim =>
      var ok := Claimable(s.rows, g.slot, now);
      g.(claimed := if ok && !f.Down? then Some(s.rows[g.slot].issue) else None,
         stage := if !f.Fine? then Ended(StoreError)
                  else if ok then Compare(ClaimAttempt(s.rows, g.slot, now, f)[g.slot]) else Explain)
    case Explain =>
      g.(stage := if !f.Fine? then Ended(StoreError)
                  else if g.slot !in s.rows then Ended(NoCode)
                  else if now > s.rows[g.slot].expires then DropExpired(s.rows[g.slot]) else Ended(TooMany))
    case DropExpired(_) => g.(stage := Ended(Expired))
    case Compare(row) =>
      if g.slot.UserSlot? && row.target != g.target then g.(stage := Ended(WrongTarget))
      else g.(compared := true,
              stage := if row.code == g.code then Consume(row)
                       else if row.attempts >= MAX_ATTEMPTS then DropSpent else Ended(WrongCode))
    case DropSpent => g.(stage := Ended(WrongCode))
    case Consume(row) =>
      var ok := Consumable(s.rows, g.slot, row.code);
      g.(spent := if ok && !f.Down? then Some(s.rows[g.slot].issue) else None,
         stage := if !f.Fine? then Ended(StoreError) else if ok then RefundCaller else Ended(WrongCode))
    case RefundCaller => g.(holdsCaller := f.Down?, stage := RefundTarget)
    case RefundTarget => g.(holdsTarget := f.Down?, stage := Ended(Accepted))
    case Ended(_) => g
  }

  // --- one step of a send ---

  function PayerOf(d: Send): Key { CallerKey(d.slot.purpose, d.target, d.caller) }

  function PayeeOf(d: Send): Key { TargetKey(d.slot.purpose, d.target) }

  function NextSentBudget(s: State, d: Send, f: Fault): map<Key, nat> {
    match d.stage
    case ChargeCaller => Take(s.sent, PayerOf(d), CALLER_SENDS, f)
    case ChargeTarget => Take(s.sent, PayeeOf(d), TARGET_SENDS, f)
    case _ => s.sent
  }

  function NextSend(s: State, d: Send, f: Fault, now: int): Send {
    match d.stage
    case CheckCooldown =>
      d.(stage := if !f.Fine? then Over(StoreError)
                  else if d.slot in s.rows && now - s.rows[d.slot].created < RESEND_COOLDOWN then Over(CoolingDown)
                  else ChargeCaller)
    case ChargeCaller =>
      var took := Used(s.sent, PayerOf(d)) < CALLER_SENDS;
      d.(chargedCaller := took && !f.Down?,
         stage := if !f.Fine? then Over(Unavailable) else if took then ChargeTarget else Over(BudgetSpent))
    case ChargeTarget =>
      var took := Used(s.sent, PayeeOf(d)) < TARGET_SENDS;
      d.(chargedTarget := took && !f.Down?,
         stage := if !f.Fine? then Over(Unavailable) else if took then Upsert else Over(BudgetSpent))
    case Upsert =>
      d.(issued := if f.Down? then None else Some(|s.codes|), stage := Over(if f.Fine? then Sent else StoreError))
    case Over(_) => d
  }

  predicate Issues(d: Send, f: Fault) {
    d.stage.Upsert? && !f.Down?
  }

  // --- histories ---

  predicate Proper(slot: Slot, target: string) {
    slot.TargetSlot? ==> slot.target == target
  }

  function NewGuess(caller: string, slot: Slot, target: string, code: nat): Guess {
    Guess(caller, slot, target, code, TakeCaller, false, false, None, false, None)
  }

  function NewSend(caller: string, slot: Slot, target: string): Send {
    Send(caller, slot, target, CheckCooldown, false, false, None)
  }

  function Next(s: State, a: Action): State {
    match a
    case BeginGuess(caller, slot, target, code) =>
      if !Proper(slot, target) then s else s.(guesses := s.guesses + [NewGuess(caller, slot, target, code)])
    case BeginSend(caller, slot, target) =>
      if !Proper(slot, target) then s
      else s.(sends := s.sends + [NewSend(caller, slot, target)])
    case GuessStep(i, f, now) =>
      if i >= |s.guesses| then s else
      var g := s.guesses[i];
      s.(guessed := NextGuessed(s, g, f), rows := NextRows(s, g, f, now),
         guesses := s.guesses[i := NextGuess(s, g, f, now)])
    case SendStep(i, f, now, code) =>
      if i >= |s.sends| then s else
      var d := s.sends[i];
      s.(sent := NextSentBudget(s, d, f), sends := s.sends[i := NextSend(s, d, f, now)],
         rows := if Issues(d, f) then s.rows[d.slot := Row(|s.codes|, d.target, code, 0, now, now + CODE_LIFETIME)]
                 else s.rows,
         codes := if Issues(d, f) then s.codes + [code] else s.codes)
    case DropSlot(slot) => s.(rows := s.rows - {slot})
  }

  function After(s: State, h: seq<Action>): State
    decreases |h|
  {
    if h == [] then s else Next(After(s, h[..|h| - 1]), h[|h| - 1])
  }

  // --- the invariant ---

  predicate Holds(g: Guess, k: Key) {
    (g.holdsCaller && k == CallerOf(g)) || (g.holdsTarget && k == TargetOf(g))
  }

  predicate Charged(d: Send, k: Key) {
    (d.chargedCaller && k == PayerOf(d)) || (d.chargedTarget && k == PayeeOf(d))
  }

  ghost function Holding(k: Key): Guess -> bool { g => Holds(g, k) }
  ghost function Charging(k: Key): Send -> bool { d => Charged(d, k) }
  ghost function Claiming(n: nat): Guess -> bool { (g: Guess) => g.claimed == Some(n) }
  ghost function Spending(n: nat): Guess -> bool { (g: Guess) => g.spent == Some(n) }

  function GuessCap(k: Key): nat { if k.CallerKey? then CALLER_GUESSES else TARGET_GUESSES }
  function SendCap(k: Key): nat { if k.CallerKey? then CALLER_SENDS else TARGET_SENDS }

  /** A counter is exactly the number of requests charged to it, and never above its cap. */
  ghost predicate GuessBudgetExact(s: State, k: Key) {
    Used(s.guessed, k) == Count(s.guesses, Holding(k)) <= GuessCap(k)
  }

  ghost predicate SendBudgetExact(s: State, k: Key) {
    Used(s.sent, k) == Count(s.sends, Charging(k)) <= SendCap(k)
  }

  /** No issue has more claimed attempts than the cap, or is spent twice; none is touched before it exists. */
  ghost predicate IssueBounded(s: State, n: nat) {
    && Count(s.guesses, Claiming(n)) <= MAX_ATTEMPTS
    && Count(s.guesses, Spending(n)) <= 1
    && (n >= |s.codes| ==> Count(s.guesses, Claiming(n)) == Count(s.guesses, Spending(n)) == 0)
  }

  /** A pending row's attempt count is exactly the number of guesses that claimed one of its
      attempts, and nobody has spent it. */
  ghost predicate RowExact(s: State, slot: Slot)
    requires slot in s.rows
  {
    var row := s.rows[slot];
    && row.issue < |s.codes|
    && s.codes[row.issue] == row.code
    && Proper(slot, row.target)
    && Count(s.guesses, Claiming(row.issue)) == row.attempts
    && Count(s.guesses, Spending(row.issue)) == 0
  }

  predicate OneSlotPerIssue(rows: map<Slot, Row>) {
    forall a, b :: a in rows && b in rows && a != b ==> rows[a].issue != rows[b].issue
  }

  /** What a guess has done follows from where it stands. */
  predicate GuessCoherent(g: Guess) {
    && Proper(g.slot, g.target)
    && (g.compared ==> g.claimed.Some?)
    && match g.stage
       case TakeCaller => !g.holdsCaller && !g.holdsTarget && g.claimed.None? && g.spent.None?
       case TakeTarget => g.holdsCaller && !g.holdsTarget && g.claimed.None? && g.spent.None?
       case Compare(row) =>
         g.holdsCaller && g.holdsTarget && g.claimed == Some(row.issue) && g.spent.None? && Proper(g.slot, row.target)
       case Consume(row) =>
         && g.holdsCaller && g.holdsTarget && g.claimed == Some(row.issue) && g.spent.None?
         && g.compared && row.code == g.code
       case Claim => g.holdsCaller && g.holdsTarget && g.claimed.None? && g.spent.None?
       case DropSpent => g.holdsCaller && g.holdsTarget && g.spent.None? && g.compared
       case RefundCaller => g.holdsCaller && g.holdsTarget && g.spent.Some? && g.compared
       case RefundTarget => g.holdsTarget && g.spent.Some? && g.compared
       case Ended(o) =>
         if o.Accepted? then g.spent.Some? && g.compared
         else if o.BudgetSpent? || o.Unavailable? then g.claimed.None? && g.spent.None?
         else g.holdsCaller && g.holdsTarget && (g.spent.Some? ==> o.StoreError? && g.compared)
       case _ => g.holdsCaller && g.holdsTarget && g.spent.None?
  }

  /** The codes a guess has met are the ones issued: it compares the code of the issue it claimed,
      and it has presented the code of the issue it spent. */
  predicate CodesMet(codes: seq<nat>, g: Guess) {
    && (g.claimed.Some? ==> g.claimed.value < |codes|)
    && (g.spent.Some? ==> g.spent.value < |codes| && codes[g.spent.value] == g.code)
    && (g.stage.Compare? || g.stage.Consume? ==>
          g.claimed.Some? && codes[g.claimed.value] == g.stage.row.code)
    && (g.spent.Some? ==> g.claimed.Some? && codes[g.claimed.value] == g.code)
  }

  predicate SendCoherent(d: Send) {
    && Proper(d.slot, d.target)
    && (d.issued.Some? ==> d.chargedCaller && d.chargedTarget)
    && match d.stage
       case CheckCooldown => !d.chargedCaller && !d.chargedTarget && d.issued.None?
       case ChargeCaller => !d.chargedCaller && !d.chargedTarget && d.issued.None?
       case ChargeTarget => d.chargedCaller && !d.chargedTarget && d.issued.None?
       case Upsert => d.chargedCaller && d.chargedTarget && d.issued.None?
       case Over(_) => true
  }

  ghost predicate Inv(s: State) {
    && (forall k :: GuessBudgetExact(s, k))
    && (forall k :: SendBudgetExact(s, k))
    && (forall n: nat :: IssueBounded(s, n))
    && (forall slot :: slot in s.rows ==> RowExact(s, slot))
    && OneSlotPerIssue(s.rows)
    && (forall g :: g in s.guesses ==> GuessCoherent(g) && CodesMet(s.codes, g))
    && (forall d :: d in s.sends ==> SendCoherent(d))
  }

  lemma GuessKeepsBudget(s: State, i: nat, f: Fault, now: int, k: Key)
    requires i < |s.guesses| && GuessCoherent(s.guesses[i]) && GuessBudgetExact(s, k)
    ensures GuessBudgetExact(Next(s, GuessStep(i, f, now)), k)
  {
    CountAfterUpdate(s.guesses, i, NextGuess(s, s.guesses[i], f, now), Holding(k));
  }

  lemma GuessKeepsIssue(s: State, i: nat, f: Fault, now: int, n: nat)
    requires i < |s.guesses| && GuessCoherent(s.guesses[i]) && IssueBounded(s, n)
    requires forall slot :: slot in s.rows ==> RowExact(s, slot)
    ensures IssueBounded(Next(s, GuessStep(i, f, now)), n)
  {
    var g := s.guesses[i];
    var g' := NextGuess(s, g, f, now);
    CountAfterUpdate(s.guesses, i, g', Claiming(n));
    CountAfterUpdate(s.guesses, i, g', Spending(n));
    if g.slot in s.rows {
      assert RowExact(s, g.slot);
    }
  }

  lemma GuessKeepsRow(s: State, i: nat, f: Fault, now: int, slot: Slot)
    requires i < |s.guesses| && GuessCoherent(s.guesses[i]) && OneSlotPerIssue(s.rows)
    requires slot in NextRows(s, s.guesses[i], f, now) && slot in s.rows && RowExact(s, slot)
    ensures RowExact(Next(s, GuessStep(i, f, now)), slot)
  {
    var g := s.guesses[i];
    var g' := NextGuess(s, g, f, now);
    var n := s.rows[slot].issue;
    CountAfterUpdate(s.guesses, i, g', Claiming(n));
    CountAfterUpdate(s.guesses, i, g', Spending(n));
  }

  lemma GuessStaysCoherent(s: State, g: Guess, f: Fault, now: int)
    requires forall slot :: slot in s.rows ==> RowExact(s, slot)
    requires GuessCoherent(g) && CodesMet(s.codes, g)
    ensures GuessCoherent(NextGuess(s, g, f, now)) && CodesMet(s.codes, NextGuess(s, g, f, now))
  {
    if g.slot in s.rows {
      assert RowExact(s, g.slot);
    }
  }

  lemma GuessStepInv(s: State, i: nat, f: Fault, now: int)
    requires Inv(s) && i < |s.guesses|
    ensures Inv(Next(s, GuessStep(i, f, now)))
  {
    var s' := Next(s, GuessStep(i, f, now));
    forall k ensures GuessBudgetExact(s', k) { GuessKeepsBudget(s, i, f, now, k); }
    forall k ensures SendBudgetExact(s', k) { assert SendBudgetExact(s, k); }
    forall n: nat ensures IssueBounded(s', n) { GuessKeepsIssue(s, i, f, now, n); }
    forall slot | slot in s'.rows ensures RowExact(s', slot) { GuessKeepsRow(s, i, f, now, slot); }
    GuessStaysCoherent(s, s.guesses[i], f, now);
  }

  lemma SendKeepsBudget(s: State, i: nat, f: Fault, now: int, code: nat, k: Key)
    requires i < |s.sends| && SendCoherent(s.sends[i]) && SendBudgetExact(s, k)
    ensures SendBudgetExact(Next(s, SendStep(i, f, now, code)), k)
  {
    CountAfterUpdate(s.sends, i, NextSend(s, s.sends[i], f, now), Charging(k));
  }

  lemma SendKeepsRow(s: State, i: nat, f: Fault, now: int, code: nat, slot: Slot)
    requires i < |s.sends| && SendCoherent(s.sends[i]) && IssueBounded(s, |s.codes|)
    requires slot in s.rows ==> RowExact(s, slot)
    requires slot in Next(s, SendStep(i, f, now, code)).rows
    ensures RowExact(Next(s, SendStep(i, f, now, code)), slot)
  {
  }

  lemma SendStepInv(s: State, i: nat, f: Fault, now: int, code: nat)
    requires Inv(s) && i < |s.sends|
    ensures Inv(Next(s, SendStep(i, f, now, code)))
  {
    var s' := Next(s, SendStep(i, f, now, code));
    assert SendCoherent(s.sends[i]);
    forall k ensures SendBudgetExact(s', k) { SendKeepsBudget(s, i, f, now, code, k); }
    forall k ensures GuessBudgetExact(s', k) { assert GuessBudgetExact(s, k); }
    forall n: nat ensures IssueBounded(s', n) { assert IssueBounded(s, n); }
    forall slot | slot in s'.rows ensures RowExact(s', slot) {
      assert IssueBounded(s, |s.codes|);
      SendKeepsRow(s, i, f, now, code, slot);
    }
    forall other | other in s.rows ensures s.rows[other].issue < |s.codes| { assert RowExact(s, other); }
    forall g | g in s'.guesses ensures GuessCoherent(g) && CodesMet(s'.codes, g) { assert CodesMet(s.codes, g); }
    assert SendCoherent(NextSend(s, s.sends[i], f, now));
  }

  lemma NewGuessInv(s: State, g: Guess)
    requires Inv(s) && GuessCoherent(g) && g.stage.TakeCaller? && !g.compared
    ensures Inv(s.(guesses := s.guesses + [g]))
  {
    var s' := s.(guesses := s.guesses + [g]);
    forall k ensures GuessBudgetExact(s', k) {
      assert GuessBudgetExact(s, k);
      CountAfterAppend(s.guesses, g, Holding(k));
    }
    forall k ensures SendBudgetExact(s', k) { assert SendBudgetExact(s, k); }
    forall n: nat
      ensures IssueBounded(s', n)
      ensures Count(s'.guesses, Claiming(n)) == Count(s.guesses, Claiming(n))
      ensures Count(s'.guesses, Spending(n)) == Count(s.guesses, Spending(n))
    {
      assert IssueBounded(s, n);
      CountAfterAppend(s.guesses, g, Claiming(n));
      CountAfterAppend(s.guesses, g, Spending(n));
    }
    forall slot | slot in s'.rows ensures RowExact(s', slot) { assert RowExact(s, slot); }
  }

  lemma NewSendInv(s: State, d: Send)
    requires Inv(s) && SendCoherent(d) && d.stage.CheckCooldown?
    ensures Inv(s.(sends := s.sends + [d]))
  {
    var s' := s.(sends := s.sends + [d]);
    forall k ensures SendBudgetExact(s', k) {
      assert SendBudgetExact(s, k);
      CountAfterAppend(s.sends, d, Charging(k));
    }
    forall k ensures GuessBudgetExact(s', k) { assert GuessBudgetExact(s, k); }
    forall n: nat ensures IssueBounded(s', n) { assert IssueBounded(s, n); }
    forall slot | slot in s'.rows ensures RowExact(s', slot) { assert RowExact(s, slot); }
  }

  lemma DropSlotInv(s: State, slot: Slot)
    requires Inv(s)
    ensures Inv(s.(rows := s.rows - {slot}))
  {
    var s' := s.(rows := s.rows - {slot});
    forall k ensures GuessBudgetExact(s', k) { assert GuessBudgetExact(s, k); }
    forall k ensures SendBudgetExact(s', k) { assert SendBudgetExact(s, k); }
    forall n: nat ensures IssueBounded(s', n) { assert IssueBounded(s, n); }
    forall kept | kept in s'.rows ensures RowExact(s', kept) { assert RowExact(s, kept); }
  }

  lemma NextInv(s: State, a: Action)
    requires Inv(s)
    ensures Inv(Next(s, a))
  {
    match a
    case BeginGuess(caller, slot, target, code) =>
      if Proper(slot, target) { NewGuessInv(s, NewGuess(caller, slot, target, code)); }
    case BeginSend(caller, slot, target) =>
      if Proper(slot, target) { NewSendInv(s, NewSend(caller, slot, target)); }
    case GuessStep(i, f, now) => if i < |s.guesses| { GuessStepInv(s, i, f, now); }
    case SendStep(i, f, now, code) => if i < |s.sends| { SendStepInv(s, i, f, now, code); }
    case DropSlot(slot) => DropSlotInv(s, slot);
  }

  lemma {:induction false} AfterInv(h: seq<Action>)
    ensures Inv(After(Init, h))
    decreases |h|
  {
    if h != [] {
      AfterInv(h[..|h| - 1]);
      NextInv(After(Init, h[..|h| - 1]), h[|h| - 1]);
    }
  }
}
