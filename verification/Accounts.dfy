/** Accounts, the identities that open them and the trust level stored on them. Every database statement
    of the sign-up, link, claim and verification code is one action; only the unique indexes are atomic. */
module Accounts {
  import opened Prelude

  /** 0 stands for the empty string (NULL in the table) in every text column. */
  const NONE: nat := 0

  // --- trustlevel.go ---

  /** `workHash` is the keyed hash of the verified work email. */
  datatype User = User(linkedIn: nat, email: nat, phone: nat, legalName: nat, workVerified: bool, company: nat, workHash: nat,
                       guest: bool, level: nat)

  function ComputeTrustLevel(u: User): nat {
    var level2 := u.linkedIn != NONE && u.phone != NONE && u.email != NONE && u.legalName != NONE;
    var level3 := level2 && u.workVerified && u.company != NONE;
    if level3 then 3 else if level2 then 2 else if !u.guest then 1 else 0
  }

  /** What a stored level says: 2 is LinkedIn, phone, email and legal name together, 3 is a verified work
      email of a named company besides, and 0 is a guest. */
  predicate LevelStands(u: User) {
    && (u.level >= 2 <==> u.linkedIn != NONE && u.phone != NONE && u.email != NONE && u.legalName != NONE)
    && (u.level == 3 <==> u.level >= 2 && u.workVerified && u.company != NONE)
    && (u.level == 0 <==> u.guest)
    && u.level <= 3
  }

  /** The row as a verification statement leaves it. */
  function AfterVerification(u: User): User {
    u.(guest := false)
  }

  /** The row and the level the same statement writes. */
  function Verified(u: User): User {
    AfterVerification(u).(level := ComputeTrustLevel(AfterVerification(u)))
  }

  function NewUser(linkedIn: nat, email: nat, guest: bool): User {
    User(linkedIn, email, NONE, NONE, false, NONE, NONE, guest,
         ComputeTrustLevel(User(linkedIn, NONE, NONE, NONE, false, NONE, NONE, guest, 0)))
  }

  // --- state ---

  /** The providers with rows of their own; LinkedIn's subject is a column of the account. */
  datatype Provider = Apple | Google

  datatype Key = Key(provider: Provider, subject: nat)

  /** `codes` are the accounts that have ever had a phone code issued. */
  datatype State = State(users: map<nat, User>, identities: map<Key, nat>, codes: set<nat>, next: nat)

  const Init := State(map[], map[], {}, 0)

  datatype Action =
    | Create(linkedIn: nat, email: nat, guest: bool)
    | Bind(user: nat, key: Key)
    | SetLinkedIn(user: nat, linkedIn: nat)
    | ClearGuest(user: nat)
    | SetEmail(user: nat, email: nat)
    | IssuePhoneCode(user: nat)
    | SetPhone(user: nat, phone: nat)
    | SetDetails(user: nat, legalName: nat)
    | SetWork(user: nat, verified: bool, company: nat, hash: nat)
    | Delete(user: nat)

  predicate LinkedInFree(s: State, linkedIn: nat, owner: Option<nat>) {
    linkedIn == NONE || forall u | u in s.users && Some(u) != owner :: s.users[u].linkedIn != linkedIn
  }

  predicate EmailFree(s: State, email: nat, owner: Option<nat>) {
    email == NONE || forall u | u in s.users && Some(u) != owner :: s.users[u].email != email
  }

  predicate PhoneFree(s: State, phone: nat, owner: Option<nat>) {
    phone == NONE || forall u | u in s.users && Some(u) != owner :: s.users[u].phone != phone
  }

  predicate WorkHashFree(s: State, hash: nat, owner: nat) {
    hash == NONE || forall u | u in s.users && u != owner :: s.users[u].workHash != hash
  }

  /** UNIQUE (provider, subject) and UNIQUE (user_id, provider). */
  predicate Bindable(s: State, user: nat, key: Key) {
    key !in s.identities && forall k | k in s.identities :: s.identities[k] == user ==> k.provider != key.provider
  }

  /** Whether a statement changes anything: its row is there, no unique index refuses it, and what the
      code checks before it issues the statement holds. */
  predicate Takes(s: State, a: Action) {
    match a
    case Create(linkedIn, email, guest) =>
      LinkedInFree(s, linkedIn, None) && EmailFree(s, email, None) && (guest ==> linkedIn == NONE && email == NONE)
    case Bind(user, key) => user in s.users && Bindable(s, user, key)
    case SetLinkedIn(user, linkedIn) => user in s.users && linkedIn != NONE && LinkedInFree(s, linkedIn, Some(user))
    case ClearGuest(user) => user in s.users
    case SetEmail(user, email) => user in s.users && email != NONE && EmailFree(s, email, Some(user))
    case IssuePhoneCode(user) => user in s.users && s.users[user].linkedIn != NONE
    case SetPhone(user, phone) => user in s.users && user in s.codes && phone != NONE && PhoneFree(s, phone, Some(user))
    case SetDetails(user, legalName) => user in s.users && legalName != NONE && s.users[user].linkedIn != NONE
    case SetWork(user, verified, company, hash) => user in s.users && company != NONE && hash != NONE && WorkHashFree(s, hash, user)
    case Delete(user) => user in s.users
  }

  function Apply(s: State, a: Action): State
    requires Takes(s, a)
  {
    match a
    case Create(linkedIn, email, guest) =>
      s.(users := s.users[s.next := NewUser(linkedIn, email, guest)], next := s.next + 1)
    case Bind(user, key) => s.(identities := s.identities[key := user])
    case SetLinkedIn(user, linkedIn) => s.(users := s.users[user := Verified(s.users[user].(linkedIn := linkedIn))])
    case ClearGuest(user) => s.(users := s.users[user := Verified(s.users[user])])
    case SetEmail(user, email) => s.(users := s.users[user := Verified(s.users[user].(email := email))])
    case IssuePhoneCode(user) => s.(codes := s.codes + {user})
    case SetPhone(user, phone) => s.(users := s.users[user := Verified(s.users[user].(phone := phone))])
    case SetDetails(user, legalName) => s.(users := s.users[user := Verified(s.users[user].(legalName := legalName))])
    case SetWork(user, verified, company, hash) =>
      s.(users := s.users[user := Verified(s.users[user].(workVerified := verified, company := company, workHash := hash))])
    case Delete(user) =>
      s.(users := s.users - {user}, codes := s.codes - {user},
         identities := map k | k in s.identities && s.identities[k] != user :: s.identities[k])
  }

  function Next(s: State, a: Action): State {
    if Takes(s, a) then Apply(s, a) else s
  }

  function After(s: State, h: seq<Action>): State
    decreases |h|
  {
    if h == [] then s else Next(After(s, h[..|h| - 1]), h[|h| - 1])
  }

  lemma AfterOne(s: State, h: seq<Action>, a: Action)
    ensures After(s, h + [a]) == Next(After(s, h), a)
  {
    assert (h + [a])[..|h|] == h;
  }

  // --- the invariant ---

  ghost predicate UserInv(s: State, u: nat)
    requires u in s.users
  {
    var row := s.users[u];
    && u < s.next
    && row.level == ComputeTrustLevel(row)
    && (row.phone != NONE || row.legalName != NONE || u in s.codes ==> row.linkedIn != NONE)
    && (row.guest ==> row == User(NONE, NONE, NONE, NONE, false, NONE, NONE, true, 0))
  }

  predicate Apart(a: User, b: User) {
    && (a.linkedIn == b.linkedIn ==> a.linkedIn == NONE)
    && (a.email == b.email ==> a.email == NONE)
    && (a.phone == b.phone ==> a.phone == NONE)
    && (a.workHash == b.workHash ==> a.workHash == NONE)
  }

  ghost predicate RowsApart(s: State) {
    forall u, v :: u in s.users && v in s.users && u != v ==> Apart(s.users[u], s.users[v])
  }

  ghost predicate KeysApart(s: State) {
    && (forall k :: k in s.identities ==> s.identities[k] in s.users)
    && (forall k, l :: k in s.identities && l in s.identities && s.identities[k] == s.identities[l] && k.provider == l.provider ==> k == l)
  }

  ghost predicate Inv(s: State) {
    && (forall u :: u in s.users ==> UserInv(s, u))
    && s.codes <= s.users.Keys
    && RowsApart(s) && KeysApart(s)
  }

  /** What every statement on one account keeps: the others' rows are apart from it. */
  ghost predicate Changes(s: State, s': State, user: nat, row: User) {
    s' == s.(users := s.users[user := row])
  }

  lemma ChangeInv(s: State, s': State, user: nat, row: User)
    requires Inv(s) && user in s.users && Changes(s, s', user, row) && UserInv(s', user)
    requires forall v :: v in s.users && v != user ==> Apart(row, s.users[v])
    ensures Inv(s')
  {
    forall u | u in s'.users ensures UserInv(s', u) {
      assert u != user ==> UserInv(s, u);
    }
    forall u, v | u in s'.users && v in s'.users && u != v ensures Apart(s'.users[u], s'.users[v]) {
      if u == user {
        assert Apart(row, s.users[v]);
      } else if v == user {
        assert Apart(row, s.users[u]);
      }
    }
  }

  lemma UpdateInv(s: State, a: Action)
    requires Inv(s) && Takes(s, a) && (a.SetLinkedIn? || a.ClearGuest? || a.SetEmail? || a.SetPhone? || a.SetDetails? || a.SetWork?)
    ensures Inv(Apply(s, a))
  {
    var s' := Apply(s, a);
    assert UserInv(s, a.user);
    forall v | v in s.users && v != a.user ensures Apart(s'.users[a.user], s.users[v]) {
      assert Apart(s.users[a.user], s.users[v]) && Some(v) != Some(a.user);
    }
    ChangeInv(s, s', a.user, s'.users[a.user]);
  }

  lemma CreateInv(s: State, a: Action)
    requires Inv(s) && a.Create? && Takes(s, a)
    ensures Inv(Apply(s, a))
  {
    var s' := Apply(s, a);
    assert s.next in s.users ==> UserInv(s, s.next);
    forall u | u in s'.users ensures UserInv(s', u) {
      assert u in s.users ==> UserInv(s, u);
    }
    forall u, v | u in s'.users && v in s'.users && u != v ensures Apart(s'.users[u], s'.users[v]) {
      assert u in s.users ==> Some(u) != None;
      assert v in s.users ==> Some(v) != None;
    }
  }

  lemma DeleteInv(s: State, user: nat)
    requires Inv(s) && user in s.users
    ensures Inv(Apply(s, Delete(user)))
  {
    var s' := Apply(s, Delete(user));
    forall u | u in s'.users ensures UserInv(s', u) {
      assert UserInv(s, u);
    }
  }

  lemma NextInv(s: State, a: Action)
    requires Inv(s)
    ensures Inv(Next(s, a))
  {
    if Takes(s, a) {
      match a
      case Create(_, _, _) => CreateInv(s, a);
      case Bind(user, key) => BindInv(s, user, key);
      case IssuePhoneCode(user) =>
      case Delete(user) => DeleteInv(s, user);
      case _ => UpdateInv(s, a);
    }
  }

  lemma BindInv(s: State, user: nat, key: Key)
    requires Inv(s) && Takes(s, Bind(user, key))
    ensures Inv(Apply(s, Bind(user, key)))
  {
    var s' := Apply(s, Bind(user, key));
    forall u | u in s'.users ensures UserInv(s', u) {
      assert UserInv(s, u);
    }
  }

  lemma {:induction false} AfterInv(h: seq<Action>)
    ensures Inv(After(Init, h))
    decreases |h|
  {
    if h != [] {
      AfterInv(h[..|h| - 1]);
      NextInv(After(Init, h[..|h| - 1]), h[|h| - 1]);
    }
  }

  // --- what a sign-in finds ---

  /** A provider-verified subject; it is never empty. */
  datatype SignIn = ViaLinkedIn(subject: nat) | Via(key: Key) {
    predicate Valid() { ViaLinkedIn? ==> subject != NONE }
  }

  predicate Opens(s: State, via: SignIn, u: nat) {
    u in s.users && match via
    case ViaLinkedIn(subject) => s.users[u].linkedIn == subject
    case Via(key) => key in s.identities && s.identities[key] == u
  }

  predicate HasEmail(s: State, email: nat, u: nat) {
    u in s.users && s.users[u].email == email && email != NONE
  }

  datatype Found = Account(user: nat) | ClaimOf(user: nat) | Nobody

  /** What resolving a sign-in comes to in one state, before anything is created. */
  ghost function Resolution(s: State, via: SignIn, email: nat): Found {
    if exists u :: Opens(s, via, u) then
      var u :| Opens(s, via, u);
      Account(u)
    else if exists u :: HasEmail(s, email, u) then
      var u :| HasEmail(s, email, u);
      ClaimOf(u)
    else
      Nobody
  }

  lemma OneOwner(s: State, via: SignIn, email: nat, u: nat, v: nat)
    requires Inv(s) && via.Valid()
    ensures Opens(s, via, u) && Opens(s, via, v) ==> u == v
    ensures HasEmail(s, email, u) && HasEmail(s, email, v) ==> u == v
  {
    if u in s.users && v in s.users && u != v {
      assert Apart(s.users[u], s.users[v]);
    }
  }

  lemma ResolutionFinds(s: State, via: SignIn, email: nat, u: nat)
    requires Inv(s) && via.Valid()
    ensures Opens(s, via, u) ==> Resolution(s, via, email) == Account(u)
    ensures Resolution(s, via, email) == Account(u) ==> Opens(s, via, u)
    ensures HasEmail(s, email, u) && (forall v :: !Opens(s, via, v)) ==> Resolution(s, via, email) == ClaimOf(u)
    ensures Resolution(s, via, email) == ClaimOf(u) ==> HasEmail(s, email, u)
  {
    forall v ensures Opens(s, via, u) && Opens(s, via, v) ==> u == v {
      OneOwner(s, via, email, u, v);
    }
    forall v ensures HasEmail(s, email, u) && HasEmail(s, email, v) ==> u == v {
      OneOwner(s, via, email, u, v);
    }
  }

  // --- theorems over every history ---

  /** The stored level always says what the stored row has, and a phone number, a legal name or a phone code
      ever issued implies LinkedIn. */
  lemma StoredLevelsAndLinkedInFirst(h: seq<Action>, u: nat)
    requires u in After(Init, h).users
    ensures var row := After(Init, h).users[u];
            && (row.level >= 2 <==> row.linkedIn != NONE && row.phone != NONE && row.email != NONE && row.legalName != NONE)
            && (row.level == 3 <==> row.level >= 2 && row.workVerified && row.company != NONE)
            && (row.level == 0 <==> row.guest)
            && row.level <= 3
            && (row.phone != NONE || row.legalName != NONE || u in After(Init, h).codes ==> row.linkedIn != NONE)
  {
    AfterInv(h);
    assert UserInv(After(Init, h), u);
  }

  /** Each sign-in and each address has at most one account, whatever runs concurrently. */
  lemma {:induction false} OneAccountEach(h: seq<Action>, via: SignIn, email: nat, u: nat, v: nat)
    requires via.Valid()
    ensures var s := After(Init, h); Opens(s, via, u) && Opens(s, via, v) ==> u == v
    ensures var s := After(Init, h); HasEmail(s, email, u) && HasEmail(s, email, v) ==> u == v
  {
    AfterInv(h);
    OneOwner(After(Init, h), via, email, u, v);
  }

  /** An account that is gone stays gone, and its number is not given out again. */
  ghost predicate BoundTo(s: State, key: Key, u: nat) {
    u < s.next && (if u in s.users then key in s.identities && s.identities[key] == u
                   else key in s.identities ==> s.identities[key] != u)
  }

  lemma NextKeepsBinding(s: State, a: Action, key: Key, u: nat)
    requires Inv(s) && BoundTo(s, key, u)
    ensures BoundTo(Next(s, a), key, u)
  {
  }

  /** A known Apple or Google subject always opens the account it was first bound to, until that account
      is deleted. */
  lemma {:induction false} AKnownSubjectOpensItsFirstAccount(s: State, later: seq<Action>, key: Key, u: nat)
    requires Inv(s) && BoundTo(s, key, u)
    ensures Inv(After(s, later)) && BoundTo(After(s, later), key, u)
    ensures u in After(s, later).users ==> Opens(After(s, later), Via(key), u)
    decreases |later|
  {
    if later != [] {
      var front := later[..|later| - 1];
      AKnownSubjectOpensItsFirstAccount(s, front, key, u);
      NextInv(After(s, front), later[|later| - 1]);
      NextKeepsBinding(After(s, front), later[|later| - 1], key, u);
    }
  }

  /** LinkedIn is not like that: what ends an account's hold on a LinkedIn subject is its deletion, or
      linking a different subject to it, which replaces the one it had. */
  lemma WhenALinkedInSubjectLosesItsAccount(s: State, a: Action, subject: nat, u: nat)
    requires Inv(s) && subject != NONE && Opens(s, ViaLinkedIn(subject), u)
    ensures !Opens(Next(s, a), ViaLinkedIn(subject), u)
            <==> a == Delete(u) || (a.SetLinkedIn? && a.user == u && a.linkedIn != subject && Takes(s, a))
    ensures u in Next(s, a).users ==> Next(s, a).users[u].linkedIn != NONE
  {
    assert UserInv(s, u);
  }

  /** Exactly one thing lowers an account's level: a work email of a company nobody knows, whose mailbox no
      other account has used, verified on an account that was at level 3. */
  lemma WhenTheLevelDrops(s: State, a: Action, u: nat)
    requires Inv(s) && u in s.users && u in Next(s, a).users
    ensures Next(s, a).users[u].level < s.users[u].level
            <==> a.SetWork? && a.user == u && !a.verified && s.users[u].level == 3
                 && a.company != NONE && a.hash != NONE && WorkHashFree(s, a.hash, u)
    ensures Next(s, a).users[u].level < s.users[u].level ==> Next(s, a).users[u].level == 2
  {
    assert UserInv(s, u);
  }

  /** So over any run of other steps a level never drops. */
  lemma {:induction false} NothingElseLowersALevel(s: State, later: seq<Action>, u: nat)
    requires Inv(s) && u in s.users && u in After(s, later).users
    requires forall a :: a in later && a.SetWork? && a.user == u ==> a.verified
    ensures Inv(After(s, later)) && After(s, later).users[u].level >= s.users[u].level
    decreases |later|
  {
    if later != [] {
      var front, a := later[..|later| - 1], later[|later| - 1];
      assert a in later && UserInv(s, u);
      StaysGone(s, front, u);
      assert u in After(s, front).users;
      NothingElseLowersALevel(s, front, u);
      NextInv(After(s, front), a);
      WhenTheLevelDrops(After(s, front), a, u);
    }
  }

  /** Account numbers are not given out twice. */
  lemma {:induction false} StaysGone(s: State, later: seq<Action>, u: nat)
    requires Inv(s) && u < s.next
    ensures u < After(s, later).next && Inv(After(s, later))
    decreases |later|
  {
    if later != [] {
      StaysGone(s, later[..|later| - 1], u);
      NextInv(After(s, later[..|later| - 1]), later[|later| - 1]);
    }
  }

  // --- a sign-up that stops after creating its account ---

  predicate ActsOn(a: Action, u: nat) {
    !a.Create? && a.user == u
  }

  /** Gives the subject to some account. */
  predicate TakesSubject(a: Action, via: SignIn) {
    match via
    case ViaLinkedIn(subject) => (a.Create? || a.SetLinkedIn?) && a.linkedIn == subject
    case Via(key) => a.Bind? && a.key == key
  }

  ghost predicate OpensNobody(s: State, via: SignIn) {
    forall v :: !Opens(s, via, v)
  }

  lemma {:induction false} AddressStays(s: State, later: seq<Action>, u: nat, email: nat, via: SignIn)
    requires Inv(s) && via.Valid() && HasEmail(s, email, u) && OpensNobody(s, via)
    requires forall a :: a in later ==> !ActsOn(a, u) && !TakesSubject(a, via)
    ensures Inv(After(s, later)) && HasEmail(After(s, later), email, u) && OpensNobody(After(s, later), via)
    decreases |later|
  {
    if later != [] {
      var front, a := later[..|later| - 1], later[|later| - 1];
      assert a in later;
      AddressStays(s, front, u, email, via);
      NextInv(After(s, front), a);
      AddressStep(After(s, front), a, u, email, via);
    }
  }

  lemma AddressStep(s: State, a: Action, u: nat, email: nat, via: SignIn)
    requires Inv(s) && via.Valid() && HasEmail(s, email, u) && OpensNobody(s, via) && !ActsOn(a, u) && !TakesSubject(a, via)
    ensures HasEmail(Next(s, a), email, u) && OpensNobody(Next(s, a), via)
  {
    assert UserInv(s, u);
    forall v ensures !Opens(Next(s, a), via, v) {
      assert !Opens(s, via, v);
    }
  }

  /** No sign-in and no address leads to the account. */
  ghost predicate Orphan(s: State, u: nat) {
    u < s.next && (forall k :: k in s.identities ==> s.identities[k] != u)
    && (u in s.users ==> s.users[u].linkedIn == NONE && s.users[u].email == NONE)
  }

  lemma {:induction false} OrphanStays(s: State, later: seq<Action>, u: nat)
    requires Inv(s) && Orphan(s, u) && forall a :: a in later ==> !ActsOn(a, u)
    ensures Inv(After(s, later)) && Orphan(After(s, later), u)
    decreases |later|
  {
    if later != [] {
      var front, a := later[..|later| - 1], later[|later| - 1];
      assert a in later;
      OrphanStays(s, front, u);
      NextInv(After(s, front), a);
      OrphanStep(After(s, front), a, u);
    }
  }

  lemma OrphanStep(s: State, a: Action, u: nat)
    requires Inv(s) && Orphan(s, u) && !ActsOn(a, u)
    ensures Orphan(Next(s, a), u)
  {
  }

  /** The sign-up stops with its account created and nothing bound to it. Whatever others do, as long as
      nobody works on that account: if it was given an address, the next sign-in with that address and a
      subject nobody has taken claims that same account, and no second one can be created with it; without
      an address, no sign-in ever finds it. */
  lemma ACreatedAccountIsFoundAgainExactlyByItsEmail(h: seq<Action>, email: nat, later: seq<Action>, via: SignIn, address: nat)
    requires via.Valid() && Takes(After(Init, h), Create(NONE, email, false))
    requires forall a :: a in later ==> !ActsOn(a, After(Init, h).next)
    ensures var s := After(Init, h); var end := After(Next(s, Create(NONE, email, false)), later);
            email != NONE && OpensNobody(s, via) && (forall a :: a in later ==> !TakesSubject(a, via)) ==>
              && Resolution(end, via, email) == ClaimOf(s.next)
              && (forall linkedIn, guest :: !Takes(end, Create(linkedIn, email, guest)))
    ensures var s := After(Init, h); var end := After(Next(s, Create(NONE, email, false)), later);
            email == NONE ==> Resolution(end, via, address) !in {Account(s.next), ClaimOf(s.next)}
  {
    AfterInv(h);
    var s := After(Init, h);
    var s' := Next(s, Create(NONE, email, false));
    NextInv(s, Create(NONE, email, false));
    assert s.next in s.users ==> UserInv(s, s.next);
    if email == NONE {
      assert Orphan(s', s.next);
      OrphanStays(s', later, s.next);
      ResolutionFinds(After(s', later), via, address, s.next);
    } else if OpensNobody(s, via) && forall a :: a in later ==> !TakesSubject(a, via) {
      forall v ensures !Opens(s', via, v) {
        assert !Opens(s, via, v);
      }
      AddressStays(s', later, s.next, email, via);
      ResolutionFinds(After(s', later), via, email, s.next);
    }
  }

  // --- the claim's last step ---

  /** The provider already has another subject on the account. */
  predicate HasOtherSubject(s: State, via: SignIn, u: nat)
    requires u in s.users
  {
    match via
    case ViaLinkedIn(subject) => s.users[u].linkedIn != NONE && s.users[u].linkedIn != subject
    case Via(key) => exists k | k in s.identities :: s.identities[k] == u && k.provider == key.provider && k != key
  }

  /** The state after linking a sign-in to an account, when nothing else runs meanwhile. */
  function Linked(s: State, via: SignIn, u: nat): State
    requires u in s.users
  {
    match via
    case ViaLinkedIn(subject) => Next(s, SetLinkedIn(u, subject))
    case Via(key) =>
      if Takes(s, Bind(u, key)) && s.users[u].guest then Next(Next(s, Bind(u, key)), ClearGuest(u)) else Next(s, Bind(u, key))
  }

  /** The same for a claim, which leaves a LinkedIn connection as it is. */
  function Attached(s: State, via: SignIn, u: nat): State
    requires u in s.users
  {
    if via.ViaLinkedIn? && s.users[u].linkedIn != NONE then s else Linked(s, via, u)
  }

  /** After a completed claim the sign-in opens the claimed account, except when it already opens another
      one, or the account has a different subject of the same provider: LinkedIn's column or one row of
      Apple's or Google's. In those cases nothing changes at all. */
  lemma WhenAClaimAttaches(s: State, via: SignIn, u: nat)
    requires Inv(s) && via.Valid() && u in s.users
    ensures Opens(Attached(s, via, u), via, u)
            <==> !HasOtherSubject(s, via, u) && forall v :: Opens(s, via, v) ==> v == u
    ensures !Opens(Attached(s, via, u), via, u) ==> Attached(s, via, u) == s
    ensures Opens(Attached(s, via, u), via, u) && !Opens(s, via, u) ==> !Attached(s, via, u).users[u].guest
  {
    match via
    case ViaLinkedIn(subject) =>
      assert LinkedInFree(s, subject, Some(u)) <==> forall v :: Opens(s, via, v) ==> v == u by {
        if !LinkedInFree(s, subject, Some(u)) {
          var v :| v in s.users && Some(v) != Some(u) && s.users[v].linkedIn == subject;
          assert Opens(s, via, v);
        }
      }
    case Via(key) =>
      if key in s.identities {
        assert Opens(s, via, s.identities[key]);
      }
  }
}
