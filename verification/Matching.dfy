/** Matching a wanted row list against the rows already stored, the loop shared
    by `plans` and `publish_changed` (mvcc.rs): a row with a business key takes
    the first unused stored row with that key, a row without one the first
    unused stored row equal to it. */
module Matching {
  import opened Basics
  import opened Rows

  predicate Fits(kept: Row, row: Row) {
    match UniqueKey(row, ID)
    case Some(key) => UniqueKey(kept, ID) == Some(key)
    case None => kept == row
  }

  /** The first position at or after `from` that is free and fits `row`. */
  function FirstFree(stored: seq<Row>, used: set<nat>, row: Row, from: nat): (r: Option<nat>)
    requires from <= |stored|
    ensures r.Some? ==> from <= r.value < |stored| && r.value !in used && Fits(stored[r.value], row)
    ensures forall q | from <= q < (if r.Some? then r.value else |stored|) :: q in used || !Fits(stored[q], row)
    decreases |stored| - from
  {
    if from == |stored| then None
    else if from !in used && Fits(stored[from], row) then Some(from)
    else FirstFree(stored, used, row, from + 1)
  }

  /** The stored position taken by each wanted row, in order. */
  function Match(stored: seq<Row>, rows: seq<Row>, used: set<nat>): (priors: seq<Option<nat>>)
    ensures |priors| == |rows|
  {
    if rows == [] then [] else
    var p := FirstFree(stored, used, rows[0], 0);
    [p] + Match(stored, rows[1..], if p.Some? then used + {p.value} else used)
  }

  /** No stored row is taken twice, and every one taken fits its wanted row. */
  lemma {:induction false} MatchInjective(stored: seq<Row>, rows: seq<Row>, used: set<nat>)
    ensures var priors := Match(stored, rows, used);
      && (forall j | 0 <= j < |rows| && priors[j].Some? ::
            && priors[j].value < |stored|
            && priors[j].value !in used
            && Fits(stored[priors[j].value], rows[j]))
      && (forall i, j | 0 <= i < j < |rows| && priors[i].Some? :: priors[i] != priors[j])
  {
    if rows != [] {
      var p := FirstFree(stored, used, rows[0], 0);
      var used' := if p.Some? then used + {p.value} else used;
      var rest := Match(stored, rows[1..], used');
      MatchInjective(stored, rows[1..], used');
      forall i, j | 0 <= i < j < |rows| && ([p] + rest)[i].Some?
        ensures ([p] + rest)[i] != ([p] + rest)[j]
      {
        assert ([p] + rest)[j] == rest[j - 1];
        if i > 0 {
          assert ([p] + rest)[i] == rest[i - 1];
        }
      }
    }
  }

  /** The positions that are not free for wanted row `j`. */
  function TakenBefore(priors: seq<Option<nat>>, used: set<nat>, j: nat): set<nat>
    requires j <= |priors|
  {
    used + set i | 0 <= i < j && priors[i].Some? :: priors[i].value
  }

  /** Every wanted row takes the first stored row that fits it and that no earlier one took, and
      goes without exactly if there is none. */
  lemma {:induction false} MatchGreedy(stored: seq<Row>, rows: seq<Row>, used: set<nat>, j: nat)
    requires j < |rows|
    ensures var priors := Match(stored, rows, used);
      var taken := TakenBefore(priors, used, j);
      && (priors[j].Some? ==> priors[j].value < |stored| && priors[j].value !in taken && Fits(stored[priors[j].value], rows[j]))
      && forall q | 0 <= q < (if priors[j].Some? then priors[j].value else |stored|) :: q in taken || !Fits(stored[q], rows[j])
    decreases |rows|
  {
    hide Fits;
    var priors := Match(stored, rows, used);
    if j == 0 {
      assert TakenBefore(priors, used, 0) == used;
    } else {
      var p := FirstFree(stored, used, rows[0], 0);
      var used' := if p.Some? then used + {p.value} else used;
      MatchGreedy(stored, rows[1..], used', j - 1);
      TakenTail(priors, used, used', j);
    }
  }

  lemma TakenTail(priors: seq<Option<nat>>, used: set<nat>, used': set<nat>, j: nat)
    requires 0 < j <= |priors| && used' == if priors[0].Some? then used + {priors[0].value} else used
    ensures TakenBefore(priors, used, j) == TakenBefore(priors[1..], used', j - 1)
  {
    assert forall i | 0 <= i < j - 1 :: priors[1..][i] == priors[i + 1];
    forall q | q in TakenBefore(priors, used, j)
      ensures q in TakenBefore(priors[1..], used', j - 1)
    {
      if q !in used' {
        var i :| 0 <= i < j && priors[i].Some? && priors[i].value == q;
        assert priors[1..][i - 1] == priors[i];
      }
    }
  }

  /** A list matched against itself takes every row at its own position. */
  lemma {:induction false} MatchSelf(stored: seq<Row>, from: nat, used: set<nat>)
    requires from <= |stored|
    requires forall p :: p in used <==> 0 <= p < from
    ensures forall j | 0 <= j < |stored| - from :: Match(stored, stored[from..], used)[j] == Some(from + j)
    decreases |stored| - from
  {
    if from < |stored| {
      assert stored[from..][1..] == stored[from + 1..];
      assert FirstFree(stored, used, stored[from], 0) == Some(from) by {
        assert Fits(stored[from], stored[from]);
      }
      MatchSelf(stored, from + 1, used + {from});
    }
  }

  // ---- The queues of positions that make the matching fast ----

  /** The business key of every stored row. */
  function Keys(stored: seq<Row>): (keys: seq<Option<seq<byte>>>)
    ensures |keys| == |stored|
    ensures forall p | 0 <= p < |stored| :: keys[p] == UniqueKey(stored[p], ID)
  {
    seq(|stored|, p requires 0 <= p < |stored| => UniqueKey(stored[p], ID))
  }

  /** Free positions below `n` whose row has this key, oldest first. */
  function Queue(keys: seq<Option<seq<byte>>>, key: seq<byte>, used: set<nat>, n: nat): (q: seq<nat>)
    requires n <= |keys|
    ensures forall p | p in q :: p < n && p !in used && keys[p] == Some(key)
  {
    if n == 0 then []
    else if n - 1 !in used && keys[n - 1] == Some(key) then Queue(keys, key, used, n - 1) + [n - 1]
    else Queue(keys, key, used, n - 1)
  }

  /** The front of the queue is the first free fit, and taking it leaves the tail. */
  lemma {:induction false} QueueFront(keys: seq<Option<seq<byte>>>, key: seq<byte>, used: set<nat>, n: nat)
    requires n <= |keys|
    ensures var q := Queue(keys, key, used, n);
      if q == [] then forall p | 0 <= p < n :: p in used || keys[p] != Some(key)
      else && q[0] < n && q[0] !in used && keys[q[0]] == Some(key)
           && (forall p | 0 <= p < q[0] :: p in used || keys[p] != Some(key))
           && Queue(keys, key, used + {q[0]}, n) == q[1..]
  {
    if n > 0 {
      QueueFront(keys, key, used, n - 1);
      if Queue(keys, key, used, n - 1) == [] {
        QueueSkips(keys, key, used, n - 1, n - 1);
      }
    }
  }

  /** Taking a position of another kind leaves a queue alone. */
  lemma {:induction false} QueueSkips(keys: seq<Option<seq<byte>>>, key: seq<byte>, used: set<nat>, p: nat, n: nat)
    requires n <= |keys|
    requires p >= n || keys[p] != Some(key)
    ensures Queue(keys, key, used + {p}, n) == Queue(keys, key, used, n)
  {
    if n > 0 {
      QueueSkips(keys, key, used, p, n - 1);
    }
  }

  ghost predicate QueuesAgree(positions: map<seq<byte>, seq<nat>>, keys: seq<Option<seq<byte>>>, used: set<nat>, n: nat)
    requires n <= |keys|
  {
    forall key :: Queue(keys, key, used, n) == if key in positions then positions[key] else []
  }

  /** mvcc.rs `key_positions`: the candidates of every business key in row order. */
  method KeyPositions(stored: seq<Row>) returns (positions: map<seq<byte>, seq<nat>>)
    ensures QueuesAgree(positions, Keys(stored), {}, |stored|)
  {
    positions := map[];
    for n := 0 to |stored|
      invariant QueuesAgree(positions, Keys(stored), {}, n)
    {
      var key := UniqueKey(stored[n], ID);
      assert Keys(stored)[n] == key;
      if key.Some? {
        var queue := if key.value in positions then positions[key.value] else [];
        positions := positions[key.value := queue + [n]];
      }
    }
  }

  /** One turn of the matching loop: take a row from the front of its queue, or
      the first equal row when it has no business key. */
  method Take(positions: map<seq<byte>, seq<nat>>, stored: seq<Row>, used: set<nat>, row: Row)
    returns (prior: Option<nat>, positions': map<seq<byte>, seq<nat>>)
    requires QueuesAgree(positions, Keys(stored), used, |stored|)
    ensures prior == FirstFree(stored, used, row, 0)
    ensures QueuesAgree(positions', Keys(stored), if prior.Some? then used + {prior.value} else used, |stored|)
  {
    hide Queue, Keys, UniqueKey;
    positions' := positions;
    var key := UniqueKey(row, ID);
    if key.None? {
      prior := FirstFree(stored, used, row, 0);
      if prior.Some? {
        KeysSkip(Keys(stored), used, prior.value);
      }
    } else {
      QueueFront(Keys(stored), key.value, used, |stored|);
      if key.value in positions && positions[key.value] != [] {
        var queue := positions[key.value];
        prior := Some(queue[0]);
        KeysSkip(Keys(stored), used, queue[0]);
        positions' := positions[key.value := queue[1..]];
      } else {
        prior := None;
      }
    }
  }

  /** The matching loop with its queues finds exactly the first free fits. */
  method MatchRows(stored: seq<Row>, rows: seq<Row>) returns (priors: seq<Option<nat>>)
    ensures priors == Match(stored, rows, {})
  {
    var positions := KeyPositions(stored);
    var used: set<nat> := {};
    priors := [];
    for i := 0 to |rows|
      invariant QueuesAgree(positions, Keys(stored), used, |stored|)
      invariant priors + Match(stored, rows[i..], used) == Match(stored, rows, {})
    {
      var prior;
      prior, positions := Take(positions, stored, used, rows[i]);
      assert rows[i..][0] == rows[i] && rows[i..][1..] == rows[i + 1..];
      if prior.Some? {
        used := used + {prior.value};
      }
      priors := priors + [prior];
    }
  }

  /** Taking position `p` touches at most the queue of its own key. */
  lemma KeysSkip(keys: seq<Option<seq<byte>>>, used: set<nat>, p: nat)
    requires p < |keys|
    ensures forall key | keys[p] != Some(key) :: Queue(keys, key, used + {p}, |keys|) == Queue(keys, key, used, |keys|)
  {
    forall key | keys[p] != Some(key)
      ensures Queue(keys, key, used + {p}, |keys|) == Queue(keys, key, used, |keys|)
    {
      QueueSkips(keys, key, used, p, |keys|);
    }
  }
}
