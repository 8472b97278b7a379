/** What every step of the transaction engine does to every transaction (mvcc.rs), and what
    follows over whole runs: who stays live, who waits for whom, and what a lock call stores. */
module TxSteps {
  import opened Basics
  import opened Versions
  import opened Publish
  import opened Catalog
  import opened Plans
  import opened Transactions
  import opened Snapshots
  import opened Locks

  // ---- One step ----

  /** The turn is a request whose blockers wait for the transaction itself. */
  ghost predicate Deadlocks(s: System, token: Token, key: Key) {
    token in s.requests && key in s.requests[token].todo && ClosesCycle(s.state.txs, token, key, s.requests[token].todo[key])
  }

  /** The step ends the transaction: its own abort, finish or deadlocked turn. */
  ghost predicate Ends(s: System, a: Action, token: Token) {
    || ((a.Abort? || a.Finish?) && a.token == token)
    || (a.LockTurn? && a.token == token && Deadlocks(s, token, a.key))
  }

  /** The step is taken by the transaction, or on its behalf. */
  predicate ActsFor(a: Action, token: Token) {
    (a.LockStart? || a.LockTurn? || a.LockDone? || a.Abort? || a.Finish?) && a.token == token
  }

  /** The transaction as others leave it: they only stop being waited for. */
  ghost predicate LeftAlone(s: System, a: Action, s': System, token: Token)
    requires token in s.state.txs
  {
    && token in s'.state.txs
    && s'.state.txs[token] == s.state.txs[token].(waiting := s'.state.txs[token].waiting)
    && forall other :: other in s'.state.txs[token].waiting <==>
                         other in s.state.txs[token].waiting && !Ends(s, a, other)
  }

  lemma TurnIs(s: System, token: Token, key: Key, s': System)
    requires LockTurns(s, token, key, s')
    ensures Deadlocks(s, token, key) ==>
      s'.state.txs == AbortTx(Wait(s.state.txs, token, Blockers(s.state.txs, token, key, s.requests[token].todo[key])), token, "deadlock_detected: transaction aborted")
    ensures !Deadlocks(s, token, key) ==>
      && s'.state.txs.Keys == s.state.txs.Keys && (forall t <- s.state.txs | t != token :: s'.state.txs[t] == s.state.txs[t])
      && s'.state.txs[token] == s.state.txs[token].(held := s'.state.txs[token].held, waiting := s'.state.txs[token].waiting)
      && forall other :: other in s'.state.txs[token].waiting <==> Conflicts(s.state.txs, token, key, s.requests[token].todo[key], other)
  {
    hide Reaches, ClosesCycle, Validated, Blockers;
    var txs, exclusive := s.state.txs, s.requests[token].todo[key];
    WaitFindsCycle(txs, token, key, exclusive);
    BlockersAre(txs, token, key, exclusive);
    if ClosesCycle(txs, token, key, exclusive) {
      CycleHasBlocker(txs, token, key, exclusive);
    }
  }

  lemma CycleHasBlocker(txs: Txs, token: Token, key: Key, exclusive: bool)
    requires ClosesCycle(txs, token, key, exclusive)
    ensures Blockers(txs, token, key, exclusive) != {}
  {
    BlockersAre(txs, token, key, exclusive);
    var w: seq<Token> :| IsRing(txs, token, key, exclusive, w);
    assert WaitsFor(txs, token, key, exclusive, w[0], w[0 + 1]);
  }

  /** A step leaves every transaction alone that it does not act for. */
  lemma Bystander(s: System, a: Action, s': System, token: Token)
    requires Next(s, a, s') && TokensOk(s.state) && token in s.state.txs && !ActsFor(a, token)
    ensures LeftAlone(s, a, s', token)
  {
    if a.LockTurn? {
      TurnBystander(s, a.token, a.key, s', token);
    } else {
      hide Reaches, Validated, PlanAll, WantedLocks, ClosesCycle, PublishDurable, PruneDurable, Oldest, ReadTables, ChangesOk;
    }
  }

  lemma TurnBystander(s: System, turner: Token, key: Key, s': System, token: Token)
    requires LockTurns(s, turner, key, s') && token in s.state.txs && token != turner
    ensures LeftAlone(s, LockTurn(turner, key), s', token)
  {
    hide LockTurns, Deadlocks;
    assert Live(s.state.txs, turner) && turner in s.requests && key in s.requests[turner].todo by { TurnStarts(s, turner, key, s'); }
    TurnIs(s, turner, key, s');
  }

  lemma TurnStarts(s: System, token: Token, key: Key, s': System)
    requires LockTurns(s, token, key, s')
    ensures Live(s.state.txs, token) && token in s.requests && key in s.requests[token].todo
  {
  }

  /** A live transaction stays live exactly unless the step is its own abort, finish or
      deadlocked turn. */
  lemma LiveStep(s: System, a: Action, s': System, token: Token)
    requires Next(s, a, s') && TokensOk(s.state) && Live(s.state.txs, token)
    ensures Live(s'.state.txs, token) <==> !Ends(s, a, token)
  {
    if !ActsFor(a, token) {
      hide Next;
      Bystander(s, a, s', token);
    } else if a.LockTurn? {
      TurnStarts(s, token, a.key, s');
      TurnIs(s, token, a.key, s');
      hide LockTurns, Deadlocks;
    } else {
      hide Reaches, Validated, PlanAll, WantedLocks, PruneDurable, Oldest, ReadTables, ChangesOk;
    }
  }

  /** No step brings a transaction to life but its own begin. */
  lemma StaysLive(s: System, a: Action, s': System, token: Token)
    requires Next(s, a, s') && Live(s'.state.txs, token)
    requires a.Begin? ==> token != s.state.nextTx + 1
    ensures Live(s.state.txs, token)
  {
    hide Reaches, Validated, PlanAll, WantedLocks, PruneDurable, Oldest, ReadTables, ChangesOk, PublishDurable, Blockers;
  }

  // ---- Lives of transactions ----

  /** The number is given out: it will not be a new transaction's. */
  lemma {:induction false} NumberTaken(r: Run, i: nat, j: nat, token: Token)
    requires i <= j < |r.run| && token <= r.run[i].state.nextTx
    ensures token <= r.run[j].state.nextTx
    decreases j
  {
    hide Next, IsRun;
    if i < j {
      NumberTaken(r, i, j - 1, token);
      NumbersRise(r, j - 1);
    }
  }

  lemma NumbersRise(r: Run, i: nat)
    requires i + 1 < |r.run|
    ensures i < |r.actions| && Next(r.run[i], r.actions[i], r.run[i + 1]) && TokensOk(r.run[i].state)
    ensures r.run[i].state.nextTx <= r.run[i + 1].state.nextTx
    ensures r.actions[i].Begin? ==> r.run[i + 1].state.nextTx == r.run[i].state.nextTx + 1
  {
    hide Reaches, Validated, PlanAll, WantedLocks, PruneDurable, Oldest, ReadTables, ChangesOk, PublishDurable, LockInv;
    LockSafety(r, i);
    assert StepAt(r, i);
  }

  /** A live transaction lives until its own abort, finish or deadlocked turn, and no longer. */
  lemma {:induction false} LivesUntil(r: Run, i: nat, j: nat, token: Token)
    requires i <= j < |r.run| && |r.run| == |r.actions| + 1 && Live(r.run[i].state.txs, token)
    ensures Live(r.run[j].state.txs, token) <==> forall k | i <= k < j :: !Ends(r.run[k], r.actions[k], token)
    decreases j
  {
    hide Next, IsRun, Ends, TokensOk;
    if i < j {
      LivesUntil(r, i, j - 1, token);
      LifeStep(r, i, j - 1, token);
    }
  }

  lemma LifeStep(r: Run, i: nat, k: nat, token: Token)
    requires i <= k && k + 1 < |r.run| && |r.run| == |r.actions| + 1 && Live(r.run[i].state.txs, token)
    ensures Live(r.run[k + 1].state.txs, token) <==> Live(r.run[k].state.txs, token) && !Ends(r.run[k], r.actions[k], token)
  {
    hide Next, IsRun, Ends;
    NumbersRise(r, k);
    LockSafety(r, i);
    NumberTaken(r, i, k, token);
    if Live(r.run[k].state.txs, token) {
      LiveStep(r.run[k], r.actions[k], r.run[k + 1], token);
    } else if Live(r.run[k + 1].state.txs, token) {
      StaysLive(r.run[k], r.actions[k], r.run[k + 1], token);
    }
  }

  /** What is live at the end was live all along. */
  lemma {:induction false} LiveBetween(r: Run, i: nat, k: nat, j: nat, token: Token)
    requires i <= k <= j < |r.run| && |r.run| == |r.actions| + 1 && Live(r.run[i].state.txs, token) && Live(r.run[j].state.txs, token)
    ensures Live(r.run[k].state.txs, token)
  {
    hide IsRun, Ends;
    LivesUntil(r, i, k, token);
    LivesUntil(r, i, j, token);
  }

  // ---- Deadlocks do not last ----

  /** Step `j` is a turn of `token` for a key that `other` holds in conflict. */
  ghost predicate BlockedAt(r: Run, j: nat, token: Token, other: Token)
    requires j < |r.run| && j < |r.actions|
  {
    var s, a := r.run[j], r.actions[j];
    && a.LockTurn? && a.token == token && token in s.requests && a.key in s.requests[token].todo
    && Conflicts(s.state.txs, token, a.key, s.requests[token].todo[a.key], other)
  }

  /** No turn of `token` follows step `j` before state `e`. */
  predicate LastTurn(r: Run, j: nat, e: nat, token: Token)
    requires e <= |r.actions|
  {
    forall k | j < k < e :: !(r.actions[k].LockTurn? && r.actions[k].token == token)
  }

  /** A blocked turn records the blocker. */
  lemma BlockedWaits(r: Run, j: nat, token: Token, other: Token)
    requires j + 1 < |r.run| && j < |r.actions| && BlockedAt(r, j, token, other) && Live(r.run[j + 1].state.txs, token)
    ensures Edge(r.run[j + 1].state.txs, token, other) && Live(r.run[j].state.txs, token)
  {
    hide IsRun, Deadlocks, ClosesCycle;
    NumbersRise(r, j);
    var s, s', a := r.run[j], r.run[j + 1], r.actions[j];
    TurnStarts(s, token, a.key, s');
    TurnIs(s, token, a.key, s');
    hide LockTurns;
  }

  lemma EdgeStep(s: System, a: Action, s': System, token: Token, other: Token)
    requires Next(s, a, s') && TokensOk(s.state) && Edge(s.state.txs, token, other)
    requires Live(s.state.txs, token) && Live(s'.state.txs, token) && Live(s.state.txs, other) && Live(s'.state.txs, other)
    requires !(a.LockTurn? && a.token == token)
    ensures Edge(s'.state.txs, token, other)
  {
    LiveStep(s, a, s', other);
    LiveStep(s, a, s', token);
    if !ActsFor(a, token) {
      hide Next;
      Bystander(s, a, s', token);
    } else {
      hide Reaches, Validated, PlanAll, WantedLocks, PruneDurable, Oldest, ReadTables, ChangesOk;
    }
  }

  /** The recorded wait stays while both live and the waiter takes no other turn. */
  lemma {:induction false} WaitStays(r: Run, j: nat, e: nat, token: Token, other: Token)
    requires |r.run| == |r.actions| + 1 && j < e < |r.run| && BlockedAt(r, j, token, other) && LastTurn(r, j, e, token)
    requires forall k | j < k <= e :: Live(r.run[k].state.txs, token) && Live(r.run[k].state.txs, other)
    ensures Edge(r.run[e].state.txs, token, other)
    decreases e
  {
    hide Next, IsRun, Edge;
    if e == j + 1 {
      BlockedWaits(r, j, token, other);
    } else {
      WaitStays(r, j, e - 1, token, other);
      NumbersRise(r, e - 1);
      EdgeStep(r.run[e - 1], r.actions[e - 1], r.run[e], token, other);
    }
  }

  /** Each transaction of the ring was blocked by the next in its last turn. */
  ghost predicate BlockedRing(r: Run, e: nat, ring: seq<Token>, turns: seq<nat>)
    requires |r.run| == |r.actions| + 1 && e < |r.run|
  {
    && |ring| == |turns| + 1 >= 2 && ring[0] == ring[|turns|]
    && forall p | 0 <= p < |turns| :: turns[p] < e && BlockedAt(r, turns[p], ring[p], ring[p + 1]) && LastTurn(r, turns[p], e, ring[p])
  }

  /** No deadlock lasts: when each transaction of a ring has taken a turn in which the next one
      blocked it, and no later turn, one of them is aborted or finished. */
  lemma RingBroken(r: Run, e: nat, ring: seq<Token>, turns: seq<nat>)
    requires |r.run| == |r.actions| + 1 && e < |r.run| && BlockedRing(r, e, ring, turns)
    ensures exists p | 0 <= p < |turns| :: !Live(r.run[e].state.txs, ring[p])
  {
    hide IsRun, LastTurn, BlockedAt, Exclusive, Reaches;
    if forall p | 0 <= p < |turns| :: Live(r.run[e].state.txs, ring[p]) {
      LockSafety(r, e);
      RingCycle(r, e, ring, turns);
    }
  }

  lemma RingCycle(r: Run, e: nat, ring: seq<Token>, turns: seq<nat>)
    requires |r.run| == |r.actions| + 1 && e < |r.run| && BlockedRing(r, e, ring, turns)
    requires forall p | 0 <= p < |turns| :: Live(r.run[e].state.txs, ring[p])
    ensures Reaches(r.run[e].state.txs, ring[0], ring[0])
  {
    hide IsRun, Edge;
    forall p | 0 <= p < |ring| - 1
      ensures Edge(r.run[e].state.txs, ring[p], ring[p + 1])
    {
      RingEdge(r, e, ring, turns, p);
    }
    assert Walk(r.run[e].state.txs, ring);
  }

  lemma RingEdge(r: Run, e: nat, ring: seq<Token>, turns: seq<nat>, p: nat)
    requires |r.run| == |r.actions| + 1 && e < |r.run| && BlockedRing(r, e, ring, turns) && p < |turns|
    requires forall q | 0 <= q < |turns| :: Live(r.run[e].state.txs, ring[q])
    ensures Edge(r.run[e].state.txs, ring[p], ring[p + 1])
  {
    hide IsRun, Next, LastTurn;
    var j, token, other := turns[p], ring[p], ring[p + 1];
    assert p + 1 == |turns| ==> ring[p + 1] == ring[0];
    assert Live(r.run[e].state.txs, other);
    NumbersRise(r, j);
    TurnLive(r, j, token);
    forall k | j < k <= e
      ensures Live(r.run[k].state.txs, token) && Live(r.run[k].state.txs, other)
    {
      LiveBetween(r, j, k, e, token);
      LiveBetween(r, j, k, e, other);
    }
    WaitStays(r, j, e, token, other);
  }

  lemma TurnLive(r: Run, j: nat, token: Token)
    requires j + 1 < |r.run| && j < |r.actions| && r.actions[j].LockTurn? && r.actions[j].token == token
    ensures Live(r.run[j].state.txs, token)
  {
    assert StepAt(r, j);
  }

  // ---- What a lock call stores ----

  /** One of the names is that of the table. */
  ghost predicate Declared(schemas: seq<Schema>, names: seq<string>, t: nat) {
    exists i | 0 <= i < |names| :: Names(schemas, names[i], t)
  }

  ghost predicate Names(schemas: seq<Schema>, name: string, t: nat) {
    SchemaNamed(schemas, name).Some? && SchemaNamed(schemas, name).value.objectId == t
  }

  lemma DeclaredTail(schemas: seq<Schema>, names: seq<string>, t: nat)
    requires names != []
    ensures Declared(schemas, names, t) <==> Names(schemas, names[0], t) || Declared(schemas, names[1..], t)
  {
    hide Names;
    if i :| 0 <= i < |names| && Names(schemas, names[i], t) {
      assert i > 0 ==> names[1..][i - 1] == names[i];
    }
    if i :| 0 <= i < |names[1..]| && Names(schemas, names[1..][i], t) {
      assert names[i + 1] == names[1..][i];
    }
  }

  /** The declared reads are exactly the named tables; an unknown name is refused. */
  lemma {:induction false} ReadTablesAre(schemas: seq<Schema>, names: seq<string>)
    ensures ReadTables(schemas, names).Err? <==> exists i | 0 <= i < |names| :: SchemaNamed(schemas, names[i]).None?
    ensures ReadTables(schemas, names).Ok? ==> forall t :: t in ReadTables(schemas, names).value <==> Declared(schemas, names, t)
    decreases |names|
  {
    hide Declared;
    if names == [] {
      NoneDeclared(schemas);
    } else {
      ReadTablesAre(schemas, names[1..]);
      forall t: nat
        ensures Declared(schemas, names, t) <==> Names(schemas, names[0], t) || Declared(schemas, names[1..], t)
      {
        DeclaredTail(schemas, names, t);
      }
      UnknownTail(schemas, names);
    }
  }

  lemma NoneDeclared(schemas: seq<Schema>)
    ensures forall t :: !Declared(schemas, [], t)
  {
  }

  lemma UnknownTail(schemas: seq<Schema>, names: seq<string>)
    requires names != []
    ensures (exists i | 0 <= i < |names| :: SchemaNamed(schemas, names[i]).None?) <==>
      SchemaNamed(schemas, names[0]).None? || exists i | 0 <= i < |names[1..]| :: SchemaNamed(schemas, names[1..][i]).None?
  {
    if i :| 0 <= i < |names| && SchemaNamed(schemas, names[i]).None? {
      assert i > 0 ==> names[1..][i - 1] == names[i];
    }
    if i :| 0 <= i < |names[1..]| && SchemaNamed(schemas, names[1..][i]).None? {
      assert names[i + 1] == names[1..][i];
    }
  }

  /** A request goes on from step to step only as itself. */
  lemma CallStep(s: System, a: Action, s': System, token: Token)
    requires Next(s, a, s') && TokensOk(s.state) && token in s'.requests && !(a.LockStart? && a.token == token) && token in s.state.txs
    ensures token in s.requests && s'.requests[token].ops == s.requests[token].ops && token in s'.state.txs
    ensures var tx, tx' := s.state.txs[token], s'.state.txs[token];
      tx'.readSet == tx.readSet && tx'.schemas == tx.schemas && tx'.snapshot == tx.snapshot
  {
    if !ActsFor(a, token) {
      Bystander(s, a, s', token);
    }
    hide Reaches, Validated, PlanAll, WantedLocks, PruneDurable, Oldest, ReadTables, ChangesOk, PublishDurable, Blockers;
  }

  /** Between its start and its end, a lock call keeps its operations and declared reads. */
  ghost predicate InCall(s: System, token: Token, ops: seq<StorageOp>, names: seq<string>, schemas: seq<Schema>) {
    token in s.requests ==>
      && token in s.state.txs && s.requests[token].ops == ops && s.state.txs[token].schemas == schemas
      && ReadTables(schemas, names) == Ok(s.state.txs[token].readSet)
  }

  lemma {:induction false} CallGoesOn(r: Run, i: nat, k: nat, token: Token)
    requires |r.run| == |r.actions| + 1 && i < k < |r.run| && r.actions[i].LockStart? && r.actions[i].token == token
    requires forall m | i < m < k :: !(r.actions[m].LockStart? && r.actions[m].token == token)
    ensures Live(r.run[i].state.txs, token)
    ensures InCall(r.run[k], token, r.actions[i].ops, r.actions[i].names, r.run[i].state.txs[token].schemas)
    decreases k
  {
    hide IsRun, ReadTables, Next;
    StartsCall(r, i, token);
    if k > i + 1 {
      CallGoesOn(r, i, k - 1, token);
      NumbersRise(r, k - 1);
      if token in r.run[k].requests {
        CallBefore(r, k - 1, token);
        CallStep(r.run[k - 1], r.actions[k - 1], r.run[k], token);
      }
    }
  }

  lemma StartsCall(r: Run, i: nat, token: Token)
    requires |r.run| == |r.actions| + 1 && i < |r.actions| && r.actions[i].LockStart? && r.actions[i].token == token
    ensures Live(r.run[i].state.txs, token)
    ensures InCall(r.run[i + 1], token, r.actions[i].ops, r.actions[i].names, r.run[i].state.txs[token].schemas)
  {
    hide IsRun, Validated, PlanAll, WantedLocks;
    NumbersRise(r, i);
  }

  /** A request that is there after a step, and that the step did not start, was there before. */
  lemma CallBefore(r: Run, k: nat, token: Token)
    requires |r.run| == |r.actions| + 1 && k < |r.actions| && token in r.run[k + 1].requests
    requires !(r.actions[k].LockStart? && r.actions[k].token == token)
    ensures token in r.run[k].requests
  {
    hide IsRun, Validated, PlanAll, WantedLocks, Reaches, Blockers;
    NumbersRise(r, k);
  }

  /** A lock call that returns has stored exactly its operations as the plan, and exactly the
      tables it named as the declared reads. */
  lemma CallStores(r: Run, i: nat, j: nat, token: Token)
    requires |r.run| == |r.actions| + 1 && i < j < |r.actions| && r.actions[i].LockStart? && r.actions[i].token == token
    requires r.actions[j].LockDone? && r.actions[j].token == token
    requires forall m | i < m < j :: !(r.actions[m].LockStart? && r.actions[m].token == token)
    ensures token in r.run[j + 1].state.txs
    ensures var tx := r.run[j + 1].state.txs[token];
      && tx.plan == r.actions[i].ops
      && forall t :: t in tx.readSet <==> Declared(tx.schemas, r.actions[i].names, t)
  {
    CallGoesOn(r, i, j, token);
    NumbersRise(r, j);
    ReadTablesAre(r.run[i].state.txs[token].schemas, r.actions[i].names);
    hide IsRun, ReadTables, Validated;
  }
}
