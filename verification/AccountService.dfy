/** The sign-up, link, claim and verification code, statement by statement, with other requests running
    between any two statements and any statement failing. */
module AccountService {
  import opened Prelude
  import opened Accounts

  /** How one statement ended: `Missing` is a row that is not there, `Conflict` a unique index. */
  datatype Reply = Done | Missing | Conflict | Broken

  datatype Answer = Existing(user: nat) | Created(user: nat) | ClaimRequired | AgeRequired | Refused(why: Reply)

  /** What a company name and an email domain come to against the known companies. */
  datatype Company = Known | Mismatch | Unknown

  /** How the last step of a claim ended: the sign-in was linked, it was refused, or the account's LinkedIn
      connection was left as it is. */
  datatype Attachment = Attached | Conflicted | LeftAlone

  /** Why a link can be refused: the sign-in is another account's, or the provider already has a subject on
      this one, be it another or this very one. */
  ghost predicate Occupied(s: State, via: SignIn, u: nat) {
    u in s.users && (Opens(s, via, u) || HasOtherSubject(s, via, u) || exists v :: v != u && Opens(s, via, v))
  }

  lemma RefusedLinksAreOccupied(s: State, via: SignIn, u: nat)
    requires Inv(s) && via.Valid() && u in s.users
    ensures via.ViaLinkedIn? && !Takes(s, SetLinkedIn(u, via.subject)) ==> Occupied(s, via, u)
    ensures via.Via? && !Takes(s, Bind(u, via.key)) ==> Occupied(s, via, u)
  {
    match via
    case ViaLinkedIn(subject) =>
      if !LinkedInFree(s, subject, Some(u)) {
        var v :| v in s.users && Some(v) != Some(u) && s.users[v].linkedIn == subject;
        assert Opens(s, via, v);
      }
    case Via(key) =>
      if key in s.identities {
        assert Opens(s, via, s.identities[key]);
      }
  }

  /** A subject or an address nobody has can be given to a new account. */
  lemma FreeExactlyWhenNobodys(s: State, subject: nat, email: nat)
    requires subject != NONE
    ensures LinkedInFree(s, subject, None) <==> forall u :: !Opens(s, ViaLinkedIn(subject), u)
    ensures EmailFree(s, email, None) <==> forall u :: !HasEmail(s, email, u)
  {
    if u :| u in s.users && s.users[u].linkedIn == subject {
      assert Opens(s, ViaLinkedIn(subject), u) && Some(u) != None;
    }
    if u :| u in s.users && s.users[u].email == email && email != NONE {
      assert HasEmail(s, email, u) && Some(u) != None;
    }
  }

  /** And a sign-in nobody has to the account just created. */
  lemma ANewAccountTakesTheSignIn(s: State, key: Key, email: nat)
    requires Inv(s) && Takes(s, Create(NONE, email, false)) && key !in s.identities
    ensures Takes(Next(s, Create(NONE, email, false)), Bind(s.next, key))
  {
    assert s.next in s.users ==> UserInv(s, s.next);
  }

  /** Or an address nobody has. */
  lemma ANewAccountTakesTheAddress(s: State, email: nat)
    requires Inv(s) && email != NONE && EmailFree(s, email, None)
    ensures Takes(s, Create(NONE, NONE, false)) && Takes(Next(s, Create(NONE, NONE, false)), SetEmail(s.next, email))
  {
    assert s.next in s.users ==> UserInv(s, s.next);
    forall u | u in s.users ensures s.users[u].email != email {
      assert Some(u) != None;
    }
  }

  /** What never goes back on an account that is still there, whoever else writes to it. */
  ghost predicate Later(s: State, s': State) {
    && s.next <= s'.next
    && (forall u :: u < s.next && u !in s.users ==> u !in s'.users)
    && (forall u :: u in s.users && u in s'.users ==>
          && (s.users[u].linkedIn != NONE ==> s'.users[u].linkedIn != NONE)
          && (s'.users[u].guest ==> s.users[u].guest)
          && (u in s.codes ==> u in s'.codes))
    && (forall k :: k in s.identities && s.identities[k] in s'.users ==> k in s'.identities && s'.identities[k] == s.identities[k])
  }

  lemma NextIsLater(s: State, a: Action)
    requires Inv(s)
    ensures Later(s, Next(s, a))
  {
    forall u | u in s.users ensures u < s.next {
      assert UserInv(s, u);
    }
  }

  lemma LaterTwice(s: State, s': State, s'': State)
    requires Inv(s) && Later(s, s') && Later(s', s'')
    ensures Later(s, s'')
  {
    forall u | u in s.users && u in s''.users ensures u in s'.users {
      assert UserInv(s, u);
      assert u < s'.next;
    }
    forall k | k in s.identities && s.identities[k] in s''.users ensures s.identities[k] in s'.users {
      assert UserInv(s, s.identities[k]);
      assert s.identities[k] < s'.next;
    }
  }

  /** What the code has made sure of before it issues a statement. */
  predicate Checked(s: State, a: Action) {
    match a
    case Create(linkedIn, email, guest) => guest ==> linkedIn == NONE && email == NONE
    case SetLinkedIn(user, linkedIn) => linkedIn != NONE
    case SetEmail(user, email) => email != NONE
    case IssuePhoneCode(user) => user in s.users ==> s.users[user].linkedIn != NONE
    case SetPhone(user, phone) => phone != NONE && (user in s.users ==> user in s.codes)
    case SetDetails(user, legalName) => legalName != NONE && (user in s.users ==> s.users[user].linkedIn != NONE)
    case SetWork(user, verified, company, hash) => company != NONE && hash != NONE
    case _ => true
  }

  /** Nothing refuses linking the sign-in to the account. */
  predicate Linkable(s: State, via: SignIn, u: nat) {
    match via
    case ViaLinkedIn(subject) => Takes(s, SetLinkedIn(u, subject))
    case Via(key) => Takes(s, Bind(u, key))
  }

  predicate RowThere(s: State, a: Action) {
    a.Create? || a.user in s.users
  }

  class Service {
    var users: map<nat, User>
    var identities: map<Key, nat>
    var codes: set<nat>
    var next: nat
    const alone: bool     // nothing else runs
    const healthy: bool   // no statement fails
    ghost var log: seq<Action>

    function View(): State
      reads this
    {
      State(users, identities, codes, next)
    }

    ghost predicate Valid()
      reads this
    {
      View() == After(Init, log)
    }

    constructor (alone: bool, healthy: bool)
      ensures Valid() && View() == Init && this.alone == alone && this.healthy == healthy
    {
      users, identities, codes, next, log, this.alone, this.healthy := map[], map[], {}, 0, [], alone, healthy;
    }

    method Breaks() returns (broken: bool)
      ensures healthy ==> !broken
    {
      broken := *;
      broken := broken && !healthy;
    }

    /** One statement, or the transaction that locks a row, recomputes its level and writes both. */
    method Execute(a: Action) returns (reply: Reply)
      requires Valid() && Checked(View(), a)
      modifies this
      ensures Valid() && old(log) <= log && Later(old(View()), View())
      ensures View() == old(View()) || View() == Next(old(View()), a)
      ensures reply.Done? ==> Takes(old(View()), a) && View() == Apply(old(View()), a)
      ensures reply.Missing? ==> !RowThere(old(View()), a)
      ensures reply.Conflict? ==> RowThere(old(View()), a) && !Takes(old(View()), a)
      ensures alone && reply.Conflict? ==> View() == old(View())
      ensures healthy ==> !reply.Broken?
    {
      AfterInv(log);
      NextIsLater(View(), a);
      var fault: Fault := *;
      fault := if healthy then Fine else fault;
      if fault.Down? {
        return Broken;
      }
      var s := View();
      var s' := Next(s, a);
      users, identities, codes, next := s'.users, s'.identities, s'.codes, s'.next;
      AfterOne(Init, log, a);
      log := log + [a];
      reply := if fault.Lost? then Broken
               else if Takes(s, a) then Done
               else if RowThere(s, a) then Conflict else Missing;
    }

    method Others()
      requires Valid()
      modifies this
      ensures Valid() && old(log) <= log && Later(old(View()), View())
      ensures alone ==> View() == old(View())
    {
      AfterInv(log);
      var steps: nat := *;
      while steps > 0
        invariant Valid() && old(log) <= log && Later(old(View()), View())
        invariant alone ==> View() == old(View())
      {
        var a: Action := *;
        if !alone && Checked(View(), a) {
          ghost var s := View();
          var reply := Execute(a);
          LaterTwice(old(View()), s, View());
        }
        steps := steps - 1;
      }
    }

    // --- lookups; any of them may fail ---

    method FindByLinkedIn(subject: nat) returns (found: Option<nat>, broken: bool)
      ensures !broken && found.Some? ==> Opens(View(), ViaLinkedIn(subject), found.value)
      ensures !broken && found.None? ==> forall u :: !Opens(View(), ViaLinkedIn(subject), u)
      ensures healthy ==> !broken
    {
      broken := Breaks();
      found := None;
      if broken {
        return;
      }
      if u :| u in users && users[u].linkedIn == subject {
        found := Some(u);
      }
    }

    method FindByIdentity(key: Key) returns (found: Option<nat>, broken: bool)
      ensures !broken ==> found == if key in identities then Some(identities[key]) else None
      ensures healthy ==> !broken
    {
      broken := Breaks();
      found := if key in identities && !broken then Some(identities[key]) else None;
    }

    method FindByEmail(email: nat) returns (found: Option<nat>, broken: bool)
      ensures !broken && found.Some? ==> HasEmail(View(), email, found.value)
      ensures !broken && found.None? ==> forall u :: !HasEmail(View(), email, u)
      ensures healthy ==> !broken
    {
      broken := Breaks();
      found := None;
      if broken {
        return;
      }
      if u :| u in users && users[u].email == email && email != NONE {
        found := Some(u);
      }
    }

    method GetByID(user: nat) returns (row: Option<User>, broken: bool)
      ensures !broken ==> row == if user in users then Some(users[user]) else None
      ensures healthy ==> !broken
    {
      broken := Breaks();
      row := if user in users && !broken then Some(users[user]) else None;
    }

    // --- identity_resolution.go ---

    /** Before creating an account: is there one with this address already? */
    method ClaimIfEmailTaken(email: nat) returns (taken: bool, broken: bool)
      requires Valid()
      modifies this
      ensures Valid() && old(log) <= log && Later(old(View()), View()) && (alone ==> View() == old(View()))
      ensures !broken ==> (taken <==> exists u :: HasEmail(View(), email, u))
      ensures healthy ==> !broken
    {
      Others();
      var found;
      found, broken := FindByEmail(email);
      taken := found.Some?;
    }

    /** A sign-in that answers with an account answers with the one it opens. */
    method ResolveOrCreateLinkedIn(subject: nat, email: nat, over18: bool) returns (r: Answer)
      requires Valid() && subject != NONE
      modifies this
      ensures Valid() && old(log) <= log
      ensures r.Existing? || r.Created? ==> Opens(View(), ViaLinkedIn(subject), r.user)
      ensures r.Created? ==> over18 && r.user >= old(next) && users[r.user] == NewUser(subject, email, false)
      ensures r.ClaimRequired? ==> exists u :: HasEmail(View(), email, u)
      ensures r.AgeRequired? ==> !over18
      ensures alone ==> Agrees(old(View()), ViaLinkedIn(subject), email, r)
      ensures alone && healthy ==> !r.Refused?
      ensures alone && !r.Refused? ==> View() == if r.Created? then Next(old(View()), Create(subject, email, false)) else old(View())
    {
      AfterInv(log);
      ghost var start := View();
      Others();
      var found, broken := FindByLinkedIn(subject);
      if broken {
        return Refused(Broken);
      }
      if found.Some? {
        ResolutionFinds(start, ViaLinkedIn(subject), email, found.value);
        return Existing(found.value);
      }
      if !over18 {
        return AgeRequired;
      }
      var taken;
      taken, broken := ClaimIfEmailTaken(email);
      if broken {
        return Refused(Broken);
      }
      if taken {
        return ClaimRequired;
      }
      FreeExactlyWhenNobodys(View(), subject, email);
      Others();
      var id := next;
      var reply := Execute(Create(subject, email, false));
      r := if reply.Done? then Created(id) else Refused(reply);
    }

    /** The same for Apple and Google: the identity row, then the account; and on creation the account,
        then the identity row. */
    method ResolveOrCreateAppleGoogle(key: Key, email: nat, over18: bool) returns (r: Answer)
      requires Valid()
      modifies this
      ensures Valid() && old(log) <= log
      ensures r.Existing? || r.Created? ==> Opens(View(), Via(key), r.user)
      ensures r.Created? ==> over18 && r.user >= old(next)
      ensures r.ClaimRequired? ==> exists u :: HasEmail(View(), email, u)
      ensures r.AgeRequired? ==> !over18
      ensures alone ==> Agrees(old(View()), Via(key), email, r)
      ensures alone && healthy ==> !r.Refused?
      ensures alone && !r.Refused? ==> View() == if r.Created? then CreatedWith(old(View()), key, email) else old(View())
    {
      AfterInv(log);
      ghost var start := View();
      Others();
      var holder, broken := FindByIdentity(key);
      if broken {
        return Refused(Broken);
      }
      if holder.Some? {
        var user := holder.value;
        Others();
        var row, failed := GetByID(user);
        if failed || row.None? {
          return Refused(if failed then Broken else Missing);
        }
        ResolutionFinds(start, Via(key), email, user);
        return Existing(user);
      }
      if !over18 {
        return AgeRequired;
      }
      var taken;
      taken, broken := ClaimIfEmailTaken(email);
      if broken {
        return Refused(Broken);
      }
      if taken {
        return ClaimRequired;
      }
      FreeExactlyWhenNobodys(View(), 1, email);
      r := CreateWithIdentity(key, email);
    }

    method CreateWithIdentity(key: Key, email: nat) returns (r: Answer)
      requires Valid()
      modifies this
      ensures Valid() && old(log) <= log && (r.Created? || r.Refused?)
      ensures r.Created? ==> Opens(View(), Via(key), r.user) && r.user >= old(next)
      ensures alone && r.Created? ==> View() == CreatedWith(old(View()), key, email)
      ensures alone && healthy && key !in old(identities) && EmailFree(old(View()), email, None) ==> r.Created?
    {
      Others();
      var id := next;
      ghost var before := View();
      var reply := Execute(Create(NONE, email, false));
      if !reply.Done? {
        return Refused(reply);
      }
      Others();
      if alone && key !in before.identities {
        AfterInv(old(log));
        ANewAccountTakesTheSignIn(before, key, email);
      }
      reply := Execute(Bind(id, key));
      r := if reply.Done? then Created(id) else Refused(reply);
    }

    ghost function CreatedWith(s: State, key: Key, email: nat): State {
      Next(Next(s, Create(NONE, email, false)), Bind(s.next, key))
    }

    /** What a resolution answers when nothing else runs is what the state it began in says. */
    ghost predicate Agrees(s: State, via: SignIn, email: nat, r: Answer) {
      match r
      case Existing(u) => Resolution(s, via, email) == Account(u)
      case ClaimRequired => Resolution(s, via, email).ClaimOf?
      case Created(_) => Resolution(s, via, email).Nobody?
      case AgeRequired => !Resolution(s, via, email).Account?
      case Refused(_) => true
    }

    /** Adds a sign-in to an account. On success it opens the account, which is then no guest; a sign-in
        that is another account's is refused. */
    method LinkIdentityToUser(user: nat, via: SignIn) returns (reply: Reply)
      requires Valid() && via.Valid()
      modifies this
      ensures Valid() && old(log) <= log && Later(old(View()), View())
      ensures reply.Done? ==> Opens(View(), via, user) && !users[user].guest
      ensures reply.Conflict? ==> Occupied(View(), via, user)
      ensures alone && reply.Conflict? ==> View() == old(View())
      ensures alone && reply.Done? ==> user in old(users) && View() == Linked(old(View()), via, user)
      ensures alone && reply.Conflict? && user in old(users) ==> Linked(old(View()), via, user) == old(View())
      ensures alone && healthy ==>
        reply == if user !in old(users) then Missing else if old(Linkable(View(), via, user)) then Done else Conflict
    {
      AfterInv(log);
      ghost var start := View();
      Others();
      var row, broken := GetByID(user);
      if broken || row.None? {
        return if broken then Broken else Missing;
      }
      ghost var read := View();
      LaterTwice(start, start, read);
      Others();
      LaterTwice(start, read, View());
      reply := LinkNow(user, via, row.value.guest, start);
    }

    method LinkNow(user: nat, via: SignIn, wasGuest: bool, ghost start: State) returns (reply: Reply)
      requires Valid() && via.Valid() && Inv(start) && Later(start, View())
      requires user in users && users[user].guest ==> wasGuest
      requires alone && user in users ==> wasGuest == users[user].guest
      modifies this
      ensures Valid() && old(log) <= log && Later(start, View())
      ensures reply.Done? ==> Opens(View(), via, user) && !users[user].guest
      ensures reply.Conflict? ==> Occupied(View(), via, user)
      ensures alone && reply.Conflict? ==> View() == old(View()) && user in users && Linked(View(), via, user) == View()
      ensures alone && reply.Done? ==> user in old(users) && View() == Linked(old(View()), via, user)
      ensures alone && healthy && user in old(users) ==> reply == if old(Linkable(View(), via, user)) then Done else Conflict
    {
      ghost var before := View();
      AfterInv(log);
      if user in users {
        RefusedLinksAreOccupied(before, via, user);
      }
      match via
      case ViaLinkedIn(subject) =>
        reply := Execute(SetLinkedIn(user, subject));
        LaterTwice(start, before, View());
      case Via(key) =>
        reply := Execute(Bind(user, key));
        LaterTwice(start, before, View());
        if reply.Done? && wasGuest {
          reply := ClearGuestFlag(user, key, start);
        }
    }

    method ClearGuestFlag(user: nat, key: Key, ghost start: State) returns (reply: Reply)
      requires Valid() && Opens(View(), Via(key), user) && Inv(start) && Later(start, View())
      modifies this
      ensures Valid() && old(log) <= log && Later(start, View())
      ensures reply.Done? ==> Opens(View(), Via(key), user) && !users[user].guest
      ensures !reply.Conflict?
      ensures alone && reply.Done? ==> View() == Next(old(View()), ClearGuest(user))
      ensures alone && healthy ==> reply.Done?
    {
      ghost var before := View();
      Others();
      LaterTwice(start, before, View());
      before := View();
      reply := Execute(ClearGuest(user));
      LaterTwice(start, before, View());
    }

    /** Email sign-up, after the code for the address has been checked: on success the account has it. */
    method SignUpOrRecoverWithEmail(email: nat, over18: bool) returns (r: Answer)
      requires Valid() && email != NONE
      modifies this
      ensures Valid() && old(log) <= log && !r.ClaimRequired?
      ensures r.Existing? || r.Created? ==> HasEmail(View(), email, r.user)
      ensures r.Created? ==> over18 && r.user >= old(next)
      ensures r.AgeRequired? ==> !over18
      ensures alone && !r.Refused? ==>
        View() == if r.Created? then Next(Next(old(View()), Create(NONE, NONE, false)), SetEmail(old(next), email)) else old(View())
      ensures alone && healthy ==> !r.Refused? && (r.Existing? <==> exists u :: HasEmail(old(View()), email, u))
    {
      Others();
      var found, broken := FindByEmail(email);
      if broken {
        return Refused(Broken);
      }
      if found.Some? {
        return Existing(found.value);
      }
      if !over18 {
        return AgeRequired;
      }
      FreeExactlyWhenNobodys(View(), 1, email);
      r := CreateWithEmail(email);
    }

    /** The account first, then its address. */
    method CreateWithEmail(email: nat) returns (r: Answer)
      requires Valid() && email != NONE
      modifies this
      ensures Valid() && old(log) <= log && (r.Created? || r.Refused?)
      ensures r.Created? ==> HasEmail(View(), email, r.user) && r.user >= old(next)
      ensures alone && r.Created? ==> View() == Next(Next(old(View()), Create(NONE, NONE, false)), SetEmail(old(next), email))
      ensures alone && healthy && EmailFree(old(View()), email, None) ==> r.Created?
    {
      Others();
      var id := next;
      if alone && EmailFree(View(), email, None) {
        AfterInv(old(log));
        ANewAccountTakesTheAddress(View(), email);
      }
      var reply := Execute(Create(NONE, NONE, false));
      if !reply.Done? {
        return Refused(reply);
      }
      Others();
      reply := Execute(SetEmail(id, email));
      r := if reply.Done? then Created(id) else Refused(reply);
    }

    // --- guest.go ---

    method GuestSignup(over18: bool) returns (r: Answer)
      requires Valid()
      modifies this
      ensures Valid() && old(log) <= log
      ensures r.Created? ==> over18 && r.user in users && users[r.user].level == 0
      ensures r.AgeRequired? <==> !over18
      ensures alone && r.Created? ==> View() == Apply(old(View()), Create(NONE, NONE, true))
      ensures healthy ==> !r.Refused?
    {
      if !over18 {
        return AgeRequired;
      }
      Others();
      var id := next;
      var reply := Execute(Create(NONE, NONE, true));
      r := if reply.Done? then Created(id) else Refused(reply);
    }

    // --- accountclaim.go ---

    /** Links the sign-in to the claimed account, unless that would replace a different LinkedIn subject.
        Attached, the sign-in opens the account; otherwise something is in the way. Alone, it leaves exactly
        the attached account. */
    method AttachClaimedIdentity(user: nat, row: User, via: SignIn) returns (failed: bool, ghost how: Attachment)
      requires Valid() && via.Valid() && (alone ==> user in users && row == users[user])
      modifies this
      ensures Valid() && old(log) <= log && Later(old(View()), View())
      ensures !failed && how.Attached? ==> Opens(View(), via, user) && !users[user].guest
      ensures !failed && how.Conflicted? ==> Occupied(View(), via, user)
      ensures how.LeftAlone? <==> via.ViaLinkedIn? && row.linkedIn != NONE
      ensures how.LeftAlone? ==> !failed && View() == old(View())
      ensures alone && !failed ==> View() == Accounts.Attached(old(View()), via, user)
      ensures alone && healthy ==> !failed && (how.Attached? <==> !how.LeftAlone? && old(Linkable(View(), via, user)))
    {
      AfterInv(log);
      if via.ViaLinkedIn? && row.linkedIn != NONE {
        return false, LeftAlone;   // another subject, which stays, or this one already
      }
      var reply := LinkIdentityToUser(user, via);
      failed := !reply.Done? && !reply.Conflict?;
      how := if reply.Done? then Attached else Conflicted;
    }

    /** After the ticket and its code have been checked: the account with the ticket's address is handed
        over. `seen` is the moment of the attach: then the sign-in opened the account, or something was in
        the way. An Apple or Google sign-in that was attached opens it still when the session is issued,
        and an account that was given LinkedIn still has it. */
    method CompleteAccountClaim(email: nat, via: SignIn) returns (r: Answer, ghost how: Attachment, ghost seen: State)
      requires Valid() && via.Valid() && email != NONE
      modifies this
      ensures Valid() && old(log) <= log && (r.Existing? || r.Refused?)
      ensures r.Existing? ==> r.user in users && Later(seen, View())
      ensures r.Existing? && how.Attached? ==> Opens(seen, via, r.user)
      ensures r.Existing? && how.Attached? ==> if via.Via? then Opens(View(), via, r.user) else users[r.user].linkedIn != NONE
      ensures r.Existing? && how.Conflicted? ==> Occupied(seen, via, r.user)
      ensures r.Existing? && how.LeftAlone? ==> via.ViaLinkedIn? && users[r.user].linkedIn != NONE
      ensures alone && r.Existing? ==> HasEmail(old(View()), email, r.user) && View() == Accounts.Attached(old(View()), via, r.user)
      ensures alone && healthy ==> (r.Existing? <==> exists u :: HasEmail(old(View()), email, u))
    {
      AfterInv(log);
      Others();
      var found, broken := FindByEmail(email);
      how, seen := LeftAlone, View();
      if broken || found.None? {
        return Refused(if broken then Broken else Missing), how, seen;
      }
      var user := found.value;
      var row := users[user];
      ghost var read := View();
      AfterInv(log);
      Others();
      ghost var before := View();
      var failed;
      failed, how := AttachClaimedIdentity(user, row, via);
      seen := View();
      if failed {
        return Refused(Broken), how, seen;
      }
      LaterTwice(read, before, seen);
      AfterInv(log);
      Others();
      LaterTwice(read, seen, View());
      var refreshed, lost := GetByID(user);
      r := if lost then Refused(Broken) else if refreshed.None? then Refused(Missing) else Existing(user);
    }

    // --- verification.go ---

    /** LinkedIn comes first; once connected it stays connected. */
    method RequireLinkedIn(user: nat) returns (ok: bool)
      requires Valid()
      modifies this
      ensures Valid() && old(log) <= log
      ensures ok ==> user in users && users[user].linkedIn != NONE
      ensures alone ==> View() == old(View())
      ensures alone && healthy ==> (ok <==> user in users && users[user].linkedIn != NONE)
    {
      Others();
      var row, broken := GetByID(user);
      ok := !broken && row.Some? && row.value.linkedIn != NONE;
    }

    method StartPhoneVerification(user: nat) returns (reply: Reply)
      requires Valid()
      modifies this
      ensures Valid() && old(log) <= log
      ensures reply.Done? ==> user in users && user in codes && users[user].linkedIn != NONE
      ensures alone && reply.Done? ==> View() == old(View()).(codes := old(codes) + {user})
      ensures alone && healthy ==> (reply.Done? <==> user in old(users) && old(users)[user].linkedIn != NONE)
    {
      var ok := RequireLinkedIn(user);
      if !ok {
        return Missing;
      }
      AfterInv(log);
      assert UserInv(View(), user);
      Others();
      reply := Execute(IssuePhoneCode(user));
    }

    /** No look at LinkedIn here: a phone code can only have been issued with it connected. */
    method VerifyPhoneCode(user: nat, phone: nat) returns (reply: Reply)
      requires Valid() && phone != NONE
      modifies this
      ensures Valid() && old(log) <= log
      ensures reply.Done? ==> user in users && users[user].phone == phone && users[user].linkedIn != NONE
                              && LevelStands(users[user])
      ensures alone && reply.Done? ==> user in old(codes) && View() == Next(old(View()), SetPhone(user, phone))
      ensures alone && healthy ==> (reply.Done? <==> user in old(codes) && old(PhoneFree(View(), phone, Some(user))))
    {
      Others();
      if user !in codes {
        return Missing;   // the code is not accepted
      }
      AfterInv(log);
      assert user in users && UserInv(View(), user);
      Others();
      reply := Execute(SetPhone(user, phone));
      AfterInv(log);
      assert user in users ==> UserInv(View(), user);
    }

    method SubmitPersonalDetails(user: nat, legalName: nat) returns (reply: Reply)
      requires Valid()
      modifies this
      ensures Valid() && old(log) <= log
      ensures reply.Done? ==> legalName != NONE && user in users && users[user].legalName == legalName && users[user].linkedIn != NONE
                              && LevelStands(users[user])
      ensures alone && reply.Done? ==> View() == Next(old(View()), SetDetails(user, legalName))
      ensures alone && healthy ==> (reply.Done? <==> legalName != NONE && user in old(users) && old(users)[user].linkedIn != NONE)
    {
      if legalName == NONE {
        return Missing;
      }
      var ok := RequireLinkedIn(user);
      if !ok {
        return Missing;
      }
      AfterInv(log);
      assert UserInv(View(), user);
      Others();
      reply := Execute(SetDetails(user, legalName));
      AfterInv(log);
      assert user in users ==> UserInv(View(), user);
    }

    method FindByWorkHash(hash: nat) returns (holder: Option<nat>, broken: bool)
      ensures !broken && holder.Some? ==> holder.value in users && users[holder.value].workHash == hash
      ensures !broken && holder.None? ==> forall u :: u in users ==> users[u].workHash != hash
      ensures healthy ==> !broken
    {
      broken := Breaks();
      holder := None;
      if broken {
        return;
      }
      if u :| u in users && users[u].workHash == hash {
        holder := Some(u);
      }
    }

    /** Whether another account has verified with this mailbox. */
    method MailboxUsedElsewhere(user: nat, hash: nat) returns (used: bool, broken: bool)
      requires Valid() && hash != NONE
      modifies this
      ensures Valid() && old(log) <= log && (alone ==> View() == old(View()))
      ensures !broken ==> (used <==> !WorkHashFree(View(), hash, user))
      ensures healthy ==> !broken
    {
      Others();
      AfterInv(log);
      var holder;
      holder, broken := FindByWorkHash(hash);
      used := holder.Some? && holder.value != user;
      if holder.Some? && !broken {
        assert forall u :: u in users && u != holder.value ==> Apart(users[u], users[holder.value]);
      }
    }

    /** A mailbox that has verified another account is refused, here or by the index. An unknown company
        keeps its name and the proven domain, but not level 3. */
    method VerifyCorporateEmail(user: nat, company: nat, match': Company, hash: nat) returns (reply: Reply)
      requires Valid() && hash != NONE
      modifies this
      ensures Valid() && old(log) <= log
      ensures reply.Done? ==> company != NONE && !match'.Mismatch? && user in users
                              && users[user].company == company && users[user].workHash == hash
                              && (users[user].level == 3 ==> match'.Known?) && LevelStands(users[user])
      ensures reply.Done? ==> WorkHashFree(View(), hash, user)
      ensures alone && reply.Done? ==> View() == Next(old(View()), SetWork(user, match'.Known?, company, hash))
      ensures alone && !WorkHashFree(old(View()), hash, user) ==> !reply.Done? && View() == old(View())
      ensures alone && healthy ==>
        (reply.Done? <==> company != NONE && user in old(users) && !match'.Mismatch? && old(WorkHashFree(View(), hash, user)))
    {
      if company == NONE {
        return Missing;
      }
      Others();
      var row, broken := GetByID(user);
      if broken || row.None? {
        return if broken then Broken else Missing;
      }
      var used, failed := MailboxUsedElsewhere(user, hash);
      if used || failed || match'.Mismatch? {
        return if failed then Broken else if used then Conflict else Missing;
      }
      Others();
      reply := Execute(SetWork(user, match'.Known?, company, hash));
      AfterInv(log);
      assert user in users ==> UserInv(View(), user);
    }
  }
}
