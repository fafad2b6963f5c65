/** Where what is stored about an account comes from: each cell is the last value written to it, each sign-in
    was bound, and each phone code was issued. */
module AccountOrigins {
  import opened Prelude
  import opened Accounts

  ghost function Run(): seq<Action> -> State { h => After(Init, h) }

  /** The columns a statement can write. */
  datatype Column = LinkedInColumn | EmailColumn | PhoneColumn | NameColumn | CompanyColumn | HashColumn | VerifiedColumn | GuestColumn

  /** A cell of the table, truth being 1. */
  function Cell(row: User, c: Column): nat {
    match c
    case LinkedInColumn => row.linkedIn
    case EmailColumn => row.email
    case PhoneColumn => row.phone
    case NameColumn => row.legalName
    case CompanyColumn => row.company
    case HashColumn => row.workHash
    case VerifiedColumn => One(row.workVerified)
    case GuestColumn => One(row.guest)
  }

  /** What a new account is given. */
  function Given(a: Action, c: Column): nat
    requires a.Create?
  {
    match c
    case LinkedInColumn => a.linkedIn
    case EmailColumn => a.email
    case GuestColumn => One(a.guest)
    case _ => 0
  }

  /** What a statement on an account is for; all of them end its being a guest. */
  function Stated(a: Action, c: Column): Option<nat> {
    match (a, c)
    case (SetLinkedIn(_, linkedIn), LinkedInColumn) => Some(linkedIn)
    case (SetEmail(_, email), EmailColumn) => Some(email)
    case (SetPhone(_, phone), PhoneColumn) => Some(phone)
    case (SetDetails(_, legalName), NameColumn) => Some(legalName)
    case (SetWork(_, _, company, _), CompanyColumn) => Some(company)
    case (SetWork(_, _, _, hash), HashColumn) => Some(hash)
    case (SetWork(_, verified, _, _), VerifiedColumn) => Some(One(verified))
    case (SetLinkedIn(_, _), GuestColumn) => Some(0)
    case (ClearGuest(_), GuestColumn) => Some(0)
    case (SetEmail(_, _), GuestColumn) => Some(0)
    case (SetPhone(_, _), GuestColumn) => Some(0)
    case (SetDetails(_, _), GuestColumn) => Some(0)
    case (SetWork(_, _, _, _), GuestColumn) => Some(0)
    case _ => None
  }

  /** What a step writes into one cell of account `u`, when it takes effect. */
  ghost function Writes(u: nat, c: Column): (State, Action) -> Option<nat> {
    (s: State, a: Action) =>
      if !Takes(s, a) then None
      else if a.Create? then (if s.next == u then Some(Given(a, c)) else None)
      else if a.user == u then Stated(a, c)
      else None
  }

  lemma CellAfterNext(s: State, a: Action, u: nat, c: Column)
    requires Inv(s) && Takes(s, a) && u in Apply(s, a).users
    ensures Cell(Apply(s, a).users[u], c) == if a.Create? && s.next == u then Given(a, c)
                                             else if !a.Create? && a.user == u && Stated(a, c).Some? then Stated(a, c).value
                                             else if u in s.users then Cell(s.users[u], c) else 0
    ensures u !in s.users ==> a.Create? && u == s.next
  {
    assert s.next in s.users ==> UserInv(s, s.next);
  }

  /** Every cell holds the last value written to it: what the account was created with, or what the one
      statement for that column stored since. */
  lemma {:induction false} EveryCellIsTheLastWritten(h: seq<Action>, u: nat, c: Column)
    requires u in After(Init, h).users
    ensures LastWritten(Run(), h, Writes(u, c)) == Some(Cell(After(Init, h).users[u], c))
    decreases |h|
  {
    var front, a := h[..|h| - 1], h[|h| - 1];
    var s := After(Init, front);
    AfterInv(front);
    if Takes(s, a) {
      CellAfterNext(s, a, u, c);
    }
    if Writes(u, c)(s, a).None? {
      EveryCellIsTheLastWritten(front, u, c);
    }
  }

  ghost function Binds(u: nat, key: Key): (State, Action) -> bool {
    (s: State, a: Action) => a == Bind(u, key) && Takes(s, a)
  }

  ghost function IssuesCode(u: nat): (State, Action) -> bool {
    (s: State, a: Action) => a == IssuePhoneCode(u) && u in s.users && s.users[u].linkedIn != NONE
  }

  /** Nothing has been bound or issued to an account before there is one. */
  lemma {:induction false} NothingYet(h: seq<Action>, u: nat, key: Key)
    requires After(Init, h).next <= u
    ensures !Happened(Run(), h, Binds(u, key)) && !Happened(Run(), h, IssuesCode(u))
    decreases |h|
  {
    if h != [] {
      var front, a := h[..|h| - 1], h[|h| - 1];
      var s := After(Init, front);
      AfterInv(front);
      NothingYet(front, u, key);
      assert u in s.users ==> UserInv(s, u);
      HappenedGrows(Run(), front, a, Binds(u, key));
      HappenedGrows(Run(), front, a, IssuesCode(u));
      assert h == front + [a];
    }
  }

  lemma BoundByNext(s: State, a: Action, u: nat, key: Key)
    requires Inv(s) && u in Next(s, a).users
    ensures u in s.users ==> (Opens(Next(s, a), Via(key), u) <==> Opens(s, Via(key), u) || Binds(u, key)(s, a))
    ensures u in s.users ==> (u in Next(s, a).codes <==> u in s.codes || IssuesCode(u)(s, a))
    ensures u !in s.users ==> u == s.next && !Opens(Next(s, a), Via(key), u) && u !in Next(s, a).codes
    ensures u !in s.users ==> !Binds(u, key)(s, a) && !IssuesCode(u)(s, a)
  {
    assert s.next in s.users ==> UserInv(s, s.next);
  }

  /** A sign-in of Apple or Google opens an account exactly when it was bound to it, and a phone code was
      issued to it exactly when it was asked for with LinkedIn connected. */
  lemma {:induction false} ASignInWasBoundAndACodeIssued(h: seq<Action>, u: nat, key: Key)
    requires u in After(Init, h).users
    ensures Opens(After(Init, h), Via(key), u) <==> Happened(Run(), h, Binds(u, key))
    ensures u in After(Init, h).codes <==> Happened(Run(), h, IssuesCode(u))
    decreases |h|
  {
    var front, a := h[..|h| - 1], h[|h| - 1];
    AfterInv(front);
    BoundByNext(After(Init, front), a, u, key);
    HappenedGrows(Run(), front, a, Binds(u, key));
    HappenedGrows(Run(), front, a, IssuesCode(u));
    assert h == front + [a];
    if u in After(Init, front).users {
      ASignInWasBoundAndACodeIssued(front, u, key);
    } else {
      NothingYet(front, u, key);
    }
  }
}
