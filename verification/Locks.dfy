/** The lock protocol of mvcc.rs: deadlock detection is exact, conflicting holds never
    coexist, and the recorded waits never form a cycle. */
module Locks {
  import opened Basics
  import opened Versions
  import opened Publish
  import opened Catalog
  import opened Plans
  import opened Transactions

  // ---- Deadlock detection ----

  /** Everything found from `visited` on has all its successors in `found`, and none
      of them is the target. */
  ghost predicate Explored(txs: Txs, visited: set<Token>, found: set<Token>, target: Token) {
    forall a, b | a in found && a !in visited && Edge(txs, a, b) :: b != target && b in found
  }

  lemma WalkOne(txs: Txs, a: Token, b: Token)
    requires Edge(txs, a, b)
    ensures Reaches(txs, a, b)
  {
    assert Walk(txs, [a, b]);
  }

  lemma WalkMore(txs: Txs, a: Token, b: Token, c: Token)
    requires Edge(txs, a, b) && Reaches(txs, b, c)
    ensures Reaches(txs, a, c)
  {
    var w :| Walk(txs, w) && w[0] == b && w[|w| - 1] == c;
    var v := [a] + w;
    forall i | 0 <= i < |v| - 1
      ensures Edge(txs, v[i], v[i + 1])
    {
      if i > 0 {
        assert v[i] == w[i - 1] && v[i + 1] == w[i - 1 + 1];
      }
    }
    assert Walk(txs, v) && v[0] == a && v[|v| - 1] == c;
  }

  /** mvcc.rs `cycle`: a depth-first search with a shared visited set. */
  method Cycle(txs: Txs, current: Token, target: Token, visited: set<Token>) returns (found: bool, visited': set<Token>)
    ensures found ==> Reaches(txs, current, target)
    ensures !found ==> visited + {current} <= visited' && Explored(txs, visited, visited', target)
    decreases txs.Keys - visited
  {
    if current in visited {
      return false, visited;
    }
    visited' := visited + {current};
    if current !in txs {
      return false, visited';
    }
    var owners := txs[current].waiting;
    while owners != {}
      invariant owners <= txs[current].waiting
      invariant visited + {current} <= visited'
      invariant forall b | Edge(txs, current, b) && b !in owners :: b != target && b in visited'
      invariant Explored(txs, visited + {current}, visited', target)
      decreases owners
    {
      var owner :| owner in owners;
      owners := owners - {owner};
      if owner == target {
        WalkOne(txs, current, owner);
        return true, visited';
      }
      ghost var before := visited';
      var deeper;
      deeper, visited' := Cycle(txs, owner, target, visited');
      if deeper {
        WalkMore(txs, current, owner, target);
        return true, visited';
      }
      assert Explored(txs, before, visited', target);
    }
    return false, visited';
  }

  /** Walks out of an explored set stay in it, so none of them ends in the target. */
  lemma {:induction false} ExploredWalk(txs: Txs, found: set<Token>, target: Token, w: seq<Token>, n: nat)
    requires Explored(txs, {}, found, target) && Walk(txs, w) && w[0] in found && 0 < n < |w|
    ensures w[n] in found && w[n] != target
  {
    if n > 1 {
      ExploredWalk(txs, found, target, w, n - 1);
    }
    assert Edge(txs, w[n - 1], w[n - 1 + 1]);
  }

  /** The search answers exactly whether a non-empty path of waits leads from the
      transaction back to itself. */
  method DetectCycle(txs: Txs, token: Token) returns (found: bool)
    ensures found <==> Reaches(txs, token, token)
  {
    var visited;
    found, visited := Cycle(txs, token, token, {});
    if !found {
      forall w | Walk(txs, w) && w[0] == token
        ensures w[|w| - 1] != token
      {
        ExploredWalk(txs, visited, token, w, |w| - 1);
      }
    }
  }

  // ---- What blocks a request ----

  /** Another live transaction holds the key, and one of the two holds is exclusive. */
  ghost predicate Conflicts(txs: Txs, token: Token, key: Key, exclusive: bool, other: Token) {
    && other != token && other in txs && txs[other].aborted.None?
    && key in txs[other].held && (exclusive || txs[other].held[key])
  }

  /** A wait that is recorded, or that the request itself would add. */
  ghost predicate WaitsFor(txs: Txs, token: Token, key: Key, exclusive: bool, a: Token, b: Token) {
    if a == token then Conflicts(txs, token, key, exclusive, b) else a in txs && b in txs[a].waiting
  }

  /** The blockers of the request wait, directly or not, for the transaction itself. */
  ghost predicate ClosesCycle(txs: Txs, token: Token, key: Key, exclusive: bool) {
    exists w: seq<Token> :: IsRing(txs, token, key, exclusive, w)
  }

  ghost predicate IsRing(txs: Txs, token: Token, key: Key, exclusive: bool, w: seq<Token>) {
    && |w| >= 2 && w[0] == token && w[|w| - 1] == token
    && forall i | 0 <= i < |w| - 1 :: WaitsFor(txs, token, key, exclusive, w[i], w[i + 1])
  }

  lemma BlockersAre(txs: Txs, token: Token, key: Key, exclusive: bool)
    ensures forall other :: other in Blockers(txs, token, key, exclusive) <==> Conflicts(txs, token, key, exclusive, other)
  {
  }

  /** What `Wait` records makes the search find exactly the cycles that the request closes. */
  lemma WaitFindsCycle(txs: Txs, token: Token, key: Key, exclusive: bool)
    requires token in txs
    ensures Reaches(Wait(txs, token, Blockers(txs, token, key, exclusive)), token, token) <==> ClosesCycle(txs, token, key, exclusive)
  {
    var txs' := Wait(txs, token, Blockers(txs, token, key, exclusive));
    BlockersAre(txs, token, key, exclusive);
    assert forall a, b :: Edge(txs', a, b) <==> WaitsFor(txs, token, key, exclusive, a, b);
    if Reaches(txs', token, token) {
      var w :| Walk(txs', w) && w[0] == token && w[|w| - 1] == token;
      assert IsRing(txs, token, key, exclusive, w);
    }
    if w :| IsRing(txs, token, key, exclusive, w) {
      assert Walk(txs', w);
    }
  }

  // ---- The recorded waits stay acyclic ----

  lemma {:induction false} WalkIn(txs: Txs, txs': Txs, w: seq<Token>)
    requires Walk(txs', w)
    requires forall i | 0 <= i < |w| - 1 :: Edge(txs', w[i], w[i + 1]) ==> Edge(txs, w[i], w[i + 1])
    ensures Walk(txs, w)
  {
  }

  lemma FewerEdges(txs: Txs, txs': Txs)
    requires Acyclic(txs)
    requires forall a, b | Edge(txs', a, b) :: Edge(txs, a, b)
    ensures Acyclic(txs')
  {
    forall a | Reaches(txs', a, a)
      ensures false
    {
      var w :| Walk(txs', w) && w[0] == a && w[|w| - 1] == a;
      WalkIn(txs, txs', w);
      assert Reaches(txs, a, a);
    }
  }

  /** A closed walk can start at any transaction it passes. */
  lemma Rotate(txs: Txs, w: seq<Token>, k: nat)
    requires Walk(txs, w) && w[0] == w[|w| - 1] && k < |w| - 1
    ensures Reaches(txs, w[k], w[k])
  {
    var v := w[k..] + w[1..k + 1];
    forall i | 0 <= i < |v| - 1
      ensures Edge(txs, v[i], v[i + 1])
    {
      if i < |w| - 1 - k {
        assert Edge(txs, w[k + i], w[k + i + 1]);
      } else {
        var j := i - (|w| - 1 - k);
        assert Edge(txs, w[j], w[j + 1]);
      }
    }
    assert Walk(txs, v) && v[0] == w[k] && v[|v| - 1] == w[k];
  }

  /** New waits of one transaction close a cycle only through that transaction. */
  lemma WaitAcyclic(txs: Txs, token: Token, blockers: set<Token>)
    requires token in txs && Acyclic(txs)
    requires !Reaches(Wait(txs, token, blockers), token, token)
    ensures Acyclic(Wait(txs, token, blockers))
  {
    var txs' := Wait(txs, token, blockers);
    forall a | Reaches(txs', a, a)
      ensures false
    {
      var w :| Walk(txs', w) && w[0] == a && w[|w| - 1] == a;
      if k :| 0 <= k < |w| - 1 && w[k] == token {
        Rotate(txs', w, k);
      } else {
        WalkIn(txs, txs', w);
        assert Reaches(txs, a, a);
      }
    }
  }

  // ---- Conflicting holds never coexist ----

  ghost predicate Compatible(txs: Txs, a: Token, b: Token) {
    a != b && Live(txs, a) && Live(txs, b) ==>
      forall key | key in txs[a].held && key in txs[b].held :: !txs[a].held[key] && !txs[b].held[key]
  }

  ghost predicate Exclusive(txs: Txs) {
    forall a, b :: Compatible(txs, a, b)
  }

  /** `txs'` holds no more than `txs`. */
  ghost predicate HoldsLess(txs: Txs, txs': Txs) {
    forall token | Live(txs', token) ::
      txs'[token].held == map[] || (Live(txs, token) && txs'[token].held == txs[token].held)
  }

  lemma HoldsLessExclusive(txs: Txs, txs': Txs)
    requires Exclusive(txs) && HoldsLess(txs, txs')
    ensures Exclusive(txs')
  {
    forall a, b
      ensures Compatible(txs', a, b)
    {
      assert Compatible(txs, a, b);
    }
  }

  lemma GrantExclusive(txs: Txs, token: Token, key: Key, exclusive: bool)
    requires Live(txs, token) && Exclusive(txs) && Blockers(txs, token, key, exclusive) == {}
    ensures Exclusive(Grant(txs, token, key, exclusive))
  {
    var txs' := Grant(txs, token, key, exclusive);
    forall a, b
      ensures Compatible(txs', a, b)
    {
      assert Compatible(txs, a, b);
      assert a !in Blockers(txs, token, key, exclusive) && b !in Blockers(txs, token, key, exclusive);
    }
  }

  // ---- The protocol ----

  ghost predicate LockInv(txs: Txs) {
    Exclusive(txs) && Acyclic(txs)
  }

  lemma TurnKeepsLocks(s: System, token: Token, key: Key, s': System)
    requires LockInv(s.state.txs) && LockTurns(s, token, key, s')
    ensures LockInv(s'.state.txs)
  {
    hide Exclusive, Acyclic, Reaches, Grant, Wait, AbortTx, LockInv, Validated;
    var txs := s.state.txs;
    var exclusive := s.requests[token].todo[key];
    GrantLocks(txs, token, key, exclusive);
    WaitLocks(txs, token, Blockers(txs, token, key, exclusive));
  }

  lemma GrantLocks(txs: Txs, token: Token, key: Key, exclusive: bool)
    requires Live(txs, token) && LockInv(txs)
    ensures Blockers(txs, token, key, exclusive) == {} ==> LockInv(Grant(txs, token, key, exclusive))
  {
    hide Exclusive, Acyclic;
    if Blockers(txs, token, key, exclusive) == {} {
      GrantExclusive(txs, token, key, exclusive);
      FewerEdges(txs, Grant(txs, token, key, exclusive));
    }
  }

  lemma WaitLocks(txs: Txs, token: Token, blockers: set<Token>)
    requires Live(txs, token) && LockInv(txs)
    ensures !Reaches(Wait(txs, token, blockers), token, token) ==> LockInv(Wait(txs, token, blockers))
    ensures LockInv(AbortTx(Wait(txs, token, blockers), token, "deadlock_detected: transaction aborted"))
  {
    hide Exclusive, Acyclic;
    var waiting := Wait(txs, token, blockers);
    if !Reaches(waiting, token, token) {
      HoldsLessExclusive(txs, waiting);
      WaitAcyclic(txs, token, blockers);
    }
    var aborted := AbortTx(waiting, token, "deadlock_detected: transaction aborted");
    HoldsLessExclusive(txs, aborted);
    FewerEdges(txs, aborted);
  }

  lemma OtherKeepsLocks(s: System, a: Action, s': System)
    requires LockInv(s.state.txs) && Next(s, a, s') && !a.LockTurn? && !a.Begin?
    ensures LockInv(s'.state.txs)
  {
    hide Exclusive, Acyclic, Validated, PlanAll, WantedLocks, ReadTables, Reaches, Blockers, ChangesOk, PublishDurable, PruneDurable, Oldest;
    HoldsLessExclusive(s.state.txs, s'.state.txs);
    FewerEdges(s.state.txs, s'.state.txs);
  }

  lemma BeginKeepsLocks(s: State, schemas: seq<Schema>, serializable: bool, s': State)
    requires LockInv(s.txs) && BeginState(s, schemas, serializable) == Ok(s') && s.nextTx + 1 !in s.txs
    ensures LockInv(s'.txs)
  {
    HoldsLessExclusive(s.txs, s'.txs);
    FewerEdges(s.txs, s'.txs);
  }

  /** Tokens are never reused while they are in use. */
  ghost predicate TokensOk(s: State) {
    forall token <- s.txs :: token <= s.nextTx
  }

  /** Every step keeps the lock protocol: a grant never conflicts, and a wait that
      would close a cycle aborts instead. */
  lemma StepKeepsLocks(s: System, a: Action, s': System)
    requires LockInv(s.state.txs) && TokensOk(s.state) && Next(s, a, s')
    ensures LockInv(s'.state.txs) && TokensOk(s'.state)
  {
    if a.LockTurn? {
      TurnKeepsLocks(s, a.token, a.key, s');
    } else if a.Begin? {
      BeginKeepsLocks(s.state, a.schemas, a.serializable, s'.state);
    } else {
      OtherKeepsLocks(s, a, s');
    }
  }

  /** In every reachable state no two live transactions hold one key with either hold
      exclusive, and the recorded waits are acyclic. */
  lemma {:induction false} LockSafety(r: Run, i: nat)
    requires i < |r.run|
    ensures LockInv(r.run[i].state.txs) && TokensOk(r.run[i].state)
  {
    if i == 0 {
      NoTransactions(r.run[0].state.txs);
    } else {
      LockSafety(r, i - 1);
      assert StepAt(r, i - 1);
      StepKeepsLocks(r.run[i - 1], r.actions[i - 1], r.run[i]);
    }
  }

  lemma WalkStarts(txs: Txs, w: seq<Token>)
    requires Walk(txs, w)
    ensures w[0] in txs
  {
    assert Edge(txs, w[0], w[0 + 1]);
  }

  lemma NoTransactions(txs: Txs)
    requires txs == map[]
    ensures LockInv(txs)
  {
    forall w | Walk(txs, w)
      ensures false
    {
      WalkStarts(txs, w);
    }
  }
}
