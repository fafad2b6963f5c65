/** The retention sweep over refresh tokens. A pass can only remove rows nothing points at, so a
    sweep peels every chain from its oldest end. */
module ChainSweep {
  import opened Prelude
  import opened RefreshTokens
  import opened RefreshTheorems

  const BATCH_SIZE := 1000
  const MAX_BATCHES := 50

  /** A row this sweep can never reach: itself or an older token of its chain is neither revoked nor expired
      before the cut-off. */
  ghost predicate Pinned(t: map<nat, Token>, next: nat, cutoff: int, id: nat) {
    exists u :: u in t && Reaches(t, next, u, id) && !t[u].revoked && cutoff <= t[u].expires
  }

  function Candidates(t: map<nat, Token>, cutoff: int): set<nat> {
    set id | id in t && Eligible(t[id], cutoff) && !Referenced(t, id)
  }

  /** What one DELETE may do: remove `limit` of the candidates, or all of them when there are fewer. */
  ghost predicate Pass(before: map<nat, Token>, after: map<nat, Token>, cutoff: int, limit: nat, deleted: nat) {
    var gone := before.Keys - after.Keys;
    && after == before - gone
    && gone <= Candidates(before, cutoff)
    && deleted == |gone|
    && deleted == if |Candidates(before, cutoff)| < limit then |Candidates(before, cutoff)| else limit
  }

  /** How a sweep ended: a pass deleted nothing, the ceiling was hit, the context ended, or a pass failed. */
  datatype Stop = EmptyPass | Ceiling | Cancelled | PassFailed

  lemma {:induction false} ReachesThrough(t: map<nat, Token>, next: nat, u: nat, r: nat, id: nat)
    requires Chains(t, next) && u in t && r in t && Reaches(t, next, u, r) && t[r].replacedBy == Some(id)
    ensures Reaches(t, next, u, id)
    decreases next - u
  {
    assert Linked(t, next, u) && Linked(t, next, r);
    if u != r { ReachesThrough(t, next, t[u].replacedBy.value, r, id); }
  }

  /** An eligible row is pinned only through a token that points at it. */
  lemma PinnedThroughReferrer(t: map<nat, Token>, next: nat, cutoff: int, id: nat) returns (r: nat)
    requires Chains(t, next) && id in t && Eligible(t[id], cutoff) && Pinned(t, next, cutoff, id)
    ensures r in t && t[r].replacedBy == Some(id) && Pinned(t, next, cutoff, r)
  {
    var u :| u in t && Reaches(t, next, u, id) && !t[u].revoked && cutoff <= t[u].expires;
    r := LastStep(t, next, u, id);
  }

  /** How far a sweep that started from `start` has come. */
  ghost predicate Progress(start: map<nat, Token>, rows: map<nat, Token>, next: nat, cutoff: int) {
    && (forall id :: id in rows ==> id in start && rows[id] == start[id])
    && (forall id :: id in start && id !in rows ==>
          && !Pinned(start, next, cutoff, id)
          && (forall r :: r in start && start[r].replacedBy == Some(id) ==> r !in rows))
  }

  lemma LaterCutoffKeepsProgress(start: map<nat, Token>, rows: map<nat, Token>, next: nat, c: int, c': int)
    requires Progress(start, rows, next, c) && c <= c'
    ensures Progress(start, rows, next, c')
  {
  }

  lemma PassMakesProgress(start: map<nat, Token>, rows: map<nat, Token>, rows': map<nat, Token>,
                          next: nat, cutoff: int, limit: nat, deleted: nat)
    requires Chains(start, next) && Progress(start, rows, next, cutoff) && Pass(rows, rows', cutoff, limit, deleted)
    ensures Progress(start, rows', next, cutoff)
  {
    forall id | id in start && id !in rows'
      ensures !Pinned(start, next, cutoff, id)
      ensures forall r :: r in start && start[r].replacedBy == Some(id) ==> r !in rows'
    {
      if id in rows {
        assert id in Candidates(rows, cutoff);
        forall r | r in start && start[r].replacedBy == Some(id) ensures r !in rows { }
        if Pinned(start, next, cutoff, id) {
          var r := PinnedThroughReferrer(start, next, cutoff, id);
          assert false;
        }
      }
    }
  }

  /** After an empty pass every row left is pinned. */
  lemma {:induction false} LeftoversArePinned(start: map<nat, Token>, rows: map<nat, Token>, next: nat, cutoff: int, id: nat)
    requires Chains(start, next) && Progress(start, rows, next, cutoff)
    requires Candidates(rows, cutoff) == {} && id in rows
    ensures Pinned(start, next, cutoff, id)
    decreases id
  {
    if Eligible(start[id], cutoff) {
      assert id !in Candidates(rows, cutoff);
      var r :| r in rows && rows[r].replacedBy == Some(id);
      assert Linked(start, next, r);
      LeftoversArePinned(start, rows, next, cutoff, r);
      var u :| u in start && Reaches(start, next, u, r) && !start[u].revoked && cutoff <= start[u].expires;
      ReachesThrough(start, next, u, r, id);
    } else {
      assert Reaches(start, next, id, id);
    }
  }

  /** Every token that points at an eligible one is eligible too. */
  ghost predicate ClosedEligibility(t: map<nat, Token>, cutoff: int) {
    forall r, child :: r in t && t[r].replacedBy == Some(child) && child in t && Eligible(t[child], cutoff) ==> Eligible(t[r], cutoff)
  }

  lemma ClosedPinsOnlyIneligible(t: map<nat, Token>, next: nat, cutoff: int, id: nat)
    requires Chains(t, next) && id in t && ClosedEligibility(t, cutoff)
    ensures Pinned(t, next, cutoff, id) <==> !Eligible(t[id], cutoff)
    decreases id
  {
    if !Eligible(t[id], cutoff) {
      assert Reaches(t, next, id, id);
    } else if Pinned(t, next, cutoff, id) {
      var r := PinnedThroughReferrer(t, next, cutoff, id);
      assert Linked(t, next, r);
      ClosedPinsOnlyIneligible(t, next, cutoff, r);
    }
  }

  /** Exactly when eligibility is closed towards older tokens is nothing eligible pinned: exactly then a
      sweep that ends on an empty pass leaves no eligible row at all. */
  lemma ClosedEligibilityPinsNothing(t: map<nat, Token>, next: nat, cutoff: int)
    requires Chains(t, next)
    ensures ClosedEligibility(t, cutoff)
            <==> forall id :: id in t ==> (Pinned(t, next, cutoff, id) <==> !t[id].revoked && cutoff <= t[id].expires)
  {
    if ClosedEligibility(t, cutoff) {
      forall id | id in t ensures Pinned(t, next, cutoff, id) <==> !Eligible(t[id], cutoff) {
        ClosedPinsOnlyIneligible(t, next, cutoff, id);
      }
    } else {
      var r, child :| r in t && t[r].replacedBy == Some(child) && child in t && Eligible(t[child], cutoff) && !Eligible(t[r], cutoff);
      assert Linked(t, next, r);
      assert Reaches(t, next, r, r);
      ReachesThrough(t, next, r, r, child);
      assert Pinned(t, next, cutoff, child);
    }
  }

  /** It is not closed in general. A session refreshed once and then logged out: the revoked token is
      eligible at once, but the token it replaced is not revoked, only replaced, and pins it until
      that one has expired too. */
  lemma LogoutLeavesAPinnedRow() returns (h: seq<Action>)
    ensures var s := After(Init, h);
            && s.tokens == map[0 := Token(7, 0, 100, false, Some(1)), 1 := Token(7, 0, 200, true, None)]
            && Eligible(s.tokens[1], 0) && Pinned(s.tokens, s.next, 0, 1)
  {
    h := Extend([], Login(7, 100));
    h := Extend(h, Begin(0));
    h := Extend(h, Step(0, Fine, 5, 200));
    h := Extend(h, Step(0, Fine, 5, 200));
    assert After(Init, h).refreshes == [Refresh(0, Rotate(7))];
    h := Extend(h, Step(0, Fine, 5, 200));
    h := Extend(h, Logout(1));
    var s := After(Init, h);
    assert s.next == 2 && Reaches(s.tokens, s.next, 1, 1) && Reaches(s.tokens, s.next, 0, 1);
  }

  lemma RemovingCandidatesIsAPass(t: map<nat, Token>, next: nat, cutoff: int, limit: nat, batch: set<nat>)
    requires Chains(t, next) && batch <= Candidates(t, cutoff)
    requires |batch| == if |Candidates(t, cutoff)| < limit then |Candidates(t, cutoff)| else limit
    ensures Chains(t - batch, next) && Pass(t, t - batch, cutoff, limit, |batch|)
  {
    assert t.Keys - (t - batch).Keys == batch;
    assert forall id :: id in t ==> Linked(t, next, id);
    FewerTokensKeepChains(t, t - batch, next);
  }

  /** Any `limit` of the rows, or all of them when there are fewer. */
  method TakeUpTo(all: set<nat>, limit: nat) returns (batch: set<nat>)
    ensures batch <= all && |batch| == if |all| < limit then |all| else limit
  {
    var todo := all;
    batch := {};
    while |batch| < limit && todo != {}
      invariant todo + batch == all && todo !! batch && |batch| <= limit
      decreases todo
    {
      var id :| id in todo;
      todo, batch := todo - {id}, batch + {id};
    }
    assert |todo + batch| == |todo| + |batch|;
  }

  class TokenTable {
    var rows: map<nat, Token>
    ghost const next: nat

    ghost predicate Valid()
      reads this
    {
      Chains(rows, next)
    }

    /** The DELETE: one batch of eligible rows nothing points at, any `limit` of them. */
    method DeleteExpired(cutoff: int, limit: nat) returns (deleted: nat)
      requires Valid()
      modifies this
      ensures Valid() && Pass(old(rows), rows, cutoff, limit, deleted)
    {
      var batch := TakeUpTo(Candidates(rows, cutoff), limit);
      RemovingCandidatesIsAPass(rows, next, cutoff, limit, batch);
      rows := rows - batch;
      deleted := |batch|;
    }

    /** Passes until one deletes nothing. The rows that stay are then exactly the pinned ones, and the
        total is exactly the number of rows removed; however it ends, no row that is pinned or still
        pointed at has been removed. */
    method SweepExpiredRefreshTokens() returns (total: nat, stop: Stop, cutoff: int)
      requires Valid()
      modifies this
      ensures Valid() && Progress(old(rows), rows, next, cutoff)
      ensures total == |old(rows)| - |rows|
      ensures stop.EmptyPass? ==> forall id :: id in old(rows) ==> (id in rows <==> Pinned(old(rows), next, cutoff, id))
      ensures stop.Ceiling? ==> total >= 50
    {
      total, cutoff := 0, *;
      for batch := 0 to MAX_BATCHES
        invariant Valid() && Progress(old(rows), rows, next, cutoff) && total == |old(rows)| - |rows| >= batch
      {
        var cancelled, failed, elapsed: nat := *, *, *;
        if cancelled {
          return total, Cancelled, cutoff;
        }
        if failed {
          return total, PassFailed, cutoff;
        }
        ghost var before := rows;
        LaterCutoffKeepsProgress(old(rows), rows, next, cutoff, cutoff + elapsed);
        cutoff := cutoff + elapsed;   // each pass reads the clock again
        var deleted := DeleteExpired(cutoff, BATCH_SIZE);
        PassMakesProgress(old(rows), before, rows, next, cutoff, BATCH_SIZE, deleted);
        PassCounts(before, rows, cutoff, BATCH_SIZE, deleted);
        total := total + deleted;
        if deleted == 0 {
          forall id | id in rows ensures Pinned(old(rows), next, cutoff, id) {
            LeftoversArePinned(old(rows), rows, next, cutoff, id);
          }
          return total, EmptyPass, cutoff;
        }
      }
      stop := Ceiling;
    }
  }

  lemma SetCounts(before: set<nat>, after: set<nat>, candidates: set<nat>, limit: nat, deleted: nat)
    requires after <= before && before - after <= candidates && deleted == |before - after|
    requires deleted == if |candidates| < limit then |candidates| else limit
    ensures |before| - |after| == deleted
    ensures deleted == 0 ==> before == after
    ensures deleted < limit ==> before - after == candidates
  {
    assert before == after + (before - after);
    if deleted < limit {
      EqualBySize(before - after, candidates);
    }
  }

  /** What the count of a pass says about the table after it. */
  lemma PassCounts(before: map<nat, Token>, after: map<nat, Token>, cutoff: int, limit: nat, deleted: nat)
    requires Pass(before, after, cutoff, limit, deleted)
    ensures |before| - |after| == deleted
    ensures deleted == 0 && limit > 0 ==> after == before && Candidates(after, cutoff) == {}
    ensures deleted < limit ==> before.Keys - after.Keys == Candidates(before, cutoff)
  {
    SetCounts(before.Keys, after.Keys, Candidates(before, cutoff), limit, deleted);
  }

  // --- the other stop: a short batch ---

  /** Stopping on a short batch is right exactly when no eligible row was pointed at, which is the case
      for a flat table and not for chains. */
  lemma ShortBatchIsTheLastExactlyWhenFlat(before: map<nat, Token>, after: map<nat, Token>, cutoff: int, limit: nat, deleted: nat)
    requires Pass(before, after, cutoff, limit, deleted) && deleted < limit
    ensures (forall id :: id in after ==> !Eligible(after[id], cutoff))
            <==> (forall id :: id in before && Eligible(before[id], cutoff) ==> !Referenced(before, id))
  {
    PassCounts(before, after, cutoff, limit, deleted);
    if exists id :: id in before && Eligible(before[id], cutoff) && Referenced(before, id) {
      var id :| id in before && Eligible(before[id], cutoff) && Referenced(before, id);
      assert id !in Candidates(before, cutoff) && id in after;
    }
  }

  /** A flat table: rows that nothing points at, such as guests or safety holds. */
  class FlatTable {
    var rows: set<nat>

    method DeleteBatch(eligible: set<nat>, limit: nat) returns (deleted: nat)
      modifies this
      ensures rows <= old(rows) && old(rows) - rows <= eligible && deleted == |old(rows) - rows|
      ensures deleted == if |old(rows) * eligible| < limit then |old(rows) * eligible| else limit
    {
      var batch := TakeUpTo(rows * eligible, limit);
      assert rows - (rows - batch) == batch;
      rows := rows - batch;
      deleted := |batch|;
    }

    /** The loop of the two flat sweeps: it may stop on a short batch, and then nothing eligible is left. */
    method SweepFlat(eligible: set<nat>) returns (total: nat, stop: Stop)
      modifies this
      ensures rows <= old(rows) && old(rows) - rows <= eligible
      ensures total == |old(rows)| - |rows|
      ensures stop.EmptyPass? ==> rows == old(rows) - eligible
      ensures stop.Ceiling? ==> total == 50_000
    {
      total := 0;
      for batch := 0 to MAX_BATCHES
        invariant rows <= old(rows) && old(rows) - rows <= eligible && total == |old(rows)| - |rows| == batch * BATCH_SIZE
      {
        var cancelled, failed := *, *;
        if cancelled {
          return total, Cancelled;
        }
        if failed {
          return total, PassFailed;
        }
        ghost var before := rows;
        var deleted := DeleteBatch(eligible, BATCH_SIZE);
        assert before == rows + (before - rows);
        total := total + deleted;
        if deleted < BATCH_SIZE {
          SubsetSize(before - rows, before * eligible);
          EqualBySize(before - rows, before * eligible);
          return total, EmptyPass;
        }
      }
      stop := Ceiling;
    }
  }
}
