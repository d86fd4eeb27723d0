/** The safety algorithm of the Banker's allocator. A state is safe when
    some order of the customers lets each one in turn obtain its remaining
    need from what is available plus what the customers before it have
    handed back. The allocator decides this greedily: passes over the
    customers in ascending order finish every customer whose need fits the
    work vector, until a pass finishes nobody. PassFrom and Run mirror that
    loop as functions; SafetyCheckSound and SafetyCheckComplete relate it to
    the existence of a safe order. */
module Safety {
  import opened BankState

  // ---------------------------------------------------------------------
  // Safe orders

  predicate InRange(order: seq<nat>, n: nat) {
    forall k :: 0 <= k < |order| ==> order[k] < n
  }

  predicate Distinct(order: seq<nat>) {
    forall a, b :: 0 <= a < b < |order| ==> order[a] != order[b]
  }

  /** Sum of column j of the allocations of the customers listed in order. */
  function Gathered(s: State, order: seq<nat>, j: nat): (sum: int)
    requires WellFormed(s) && InRange(order, Customers(s)) && j < Resources(s)
  {
    if |order| == 0 then 0
    else Gathered(s, order[..|order| - 1], j) + s.allocation[order[|order| - 1]][j]
  }

  /** The work vector once the customers in order have finished and handed
      back their allocations. */
  function Work(s: State, order: seq<nat>): (w: Vector)
    requires WellFormed(s) && InRange(order, Customers(s))
    ensures |w| == Resources(s)
  {
    seq(Resources(s), j requires 0 <= j < Resources(s) => s.available[j] + Gathered(s, order, j))
  }

  /** order lists every customer once, and each customer's need fits the
      work vector left by the customers before it. */
  ghost predicate IsSafeSequence(s: State, order: seq<nat>) {
    WellFormed(s) && InRange(order, Customers(s)) && Distinct(order) &&
    (forall c :: 0 <= c < Customers(s) ==> c in order) &&
    forall k :: 0 <= k < |order| ==> Fits(s.need[order[k]], Work(s, order[..k]))
  }

  ghost predicate SafeSequenceExists(s: State) {
    exists order :: IsSafeSequence(s, order)
  }

  predicate NonNegativeAllocation(s: State)
    requires WellFormed(s)
  {
    forall c, j :: 0 <= c < Customers(s) && 0 <= j < Resources(s) ==> s.allocation[c][j] >= 0
  }

  // ---------------------------------------------------------------------
  // The greedy check

  /** Number of finished customers. */
  function Count(finish: seq<bool>): (n: nat)
    ensures n <= |finish|
  {
    if |finish| == 0 then 0
    else Count(finish[..|finish| - 1]) + (if finish[|finish| - 1] then 1 else 0)
  }

  function NoneFinished(n: nat): (f: seq<bool>)
    ensures |f| == n && forall c :: 0 <= c < n ==> !f[c]
  {
    seq(n, c => false)
  }

  predicate AllFinished(finish: seq<bool>) {
    forall c :: 0 <= c < |finish| ==> finish[c]
  }

  /** The local state of one pass: the work vector, the finish flags, and
      whether the pass has finished anybody yet. */
  datatype Scan = Scan(work: Vector, finish: seq<bool>, progress: bool)

  /** The rest of one pass, from customer i on: an unfinished customer whose
      need fits the work vector hands back its allocation and is finished. */
  function PassFrom(s: State, work: Vector, finish: seq<bool>, i: nat, progress: bool): (r: Scan)
    requires WellFormed(s) && |work| == Resources(s) && |finish| == Customers(s) && i <= Customers(s)
    ensures |r.work| == Resources(s) && |r.finish| == Customers(s)
    decreases Customers(s) - i
  {
    if i == Customers(s) then Scan(work, finish, progress)
    else if !finish[i] && Fits(s.need[i], work) then
      PassFrom(s, Add(work, s.allocation[i]), finish[i := true], i + 1, true)
    else
      PassFrom(s, work, finish, i + 1, progress)
  }

  /** Within a pass the finished set only grows, and with non-negative
      allocations the work vector never decreases; a pass that finishes
      somebody raises the count of finished customers, and one that finishes
      nobody leaves work and finish as they were. */
  lemma {:induction false} PassMonotone(s: State, work: Vector, finish: seq<bool>, i: nat, progress: bool)
    requires WellFormed(s) && |work| == Resources(s) && |finish| == Customers(s) && i <= Customers(s)
    ensures var r := PassFrom(s, work, finish, i, progress);
      (forall c :: 0 <= c < Customers(s) && finish[c] ==> r.finish[c]) &&
      Count(r.finish) >= Count(finish) &&
      (progress ==> r.progress) &&
      (r.progress && !progress ==> Count(r.finish) > Count(finish)) &&
      (!r.progress ==> r.finish == finish && r.work == work) &&
      (NonNegativeAllocation(s) ==> Fits(work, r.work))
    decreases Customers(s) - i
  {
    if i < Customers(s) {
      if !finish[i] && Fits(s.need[i], work) {
        CountSet(finish, i);
        PassMonotone(s, Add(work, s.allocation[i]), finish[i := true], i + 1, true);
      } else {
        PassMonotone(s, work, finish, i + 1, progress);
      }
    }
  }

  /** A whole pass either finishes somebody new or changes nothing. */
  lemma PassProgress(s: State, work: Vector, finish: seq<bool>)
    requires WellFormed(s) && |work| == Resources(s) && |finish| == Customers(s)
    ensures var r := PassFrom(s, work, finish, 0, false);
      (r.progress ==> Count(r.finish) > Count(finish)) && (!r.progress ==> r.finish == finish)
  {
    PassMonotone(s, work, finish, 0, false);
  }

  /** Passes repeated until one finishes nobody; the final finish flags. */
  function Run(s: State, work: Vector, finish: seq<bool>): (f: seq<bool>)
    requires WellFormed(s) && |work| == Resources(s) && |finish| == Customers(s)
    ensures |f| == Customers(s)
    decreases Customers(s) - Count(finish)
  {
    var r := PassFrom(s, work, finish, 0, false);
    PassProgress(s, work, finish);
    if r.progress then Run(s, r.work, r.finish) else finish
  }

  /** One unfolding of Run, with what the pass does to the count. */
  lemma RunUnfold(s: State, work: Vector, finish: seq<bool>)
    requires WellFormed(s) && |work| == Resources(s) && |finish| == Customers(s)
    ensures var r := PassFrom(s, work, finish, 0, false);
      Run(s, work, finish) == (if r.progress then Run(s, r.work, r.finish) else finish) &&
      (r.progress ==> Count(r.finish) > Count(finish)) && (!r.progress ==> r.finish == finish)
  {
    PassProgress(s, work, finish);
  }

  /** The result of system_in_safe_state on state s. */
  predicate SafetyCheck(s: State)
    requires WellFormed(s)
  {
    AllFinished(Run(s, s.available, NoneFinished(Customers(s))))
  }

  // ---------------------------------------------------------------------
  // Lemmas about counting and sums

  lemma {:induction false} CountSet(finish: seq<bool>, i: nat)
    requires i < |finish| && !finish[i]
    ensures Count(finish[i := true]) == Count(finish) + 1
    decreases |finish|
  {
    var n := |finish| - 1;
    if i < n {
      assert finish[i := true][..n] == finish[..n][i := true];
      CountSet(finish[..n], i);
    } else {
      assert finish[i := true][..n] == finish[..n];
    }
  }

  lemma {:induction false} GatheredConcat(s: State, a: seq<nat>, b: seq<nat>, j: nat)
    requires WellFormed(s) && InRange(a, Customers(s)) && InRange(b, Customers(s)) && j < Resources(s)
    ensures InRange(a + b, Customers(s))
    ensures Gathered(s, a + b, j) == Gathered(s, a, j) + Gathered(s, b, j)
    decreases |b|
  {
    assert InRange(a + b, Customers(s));
    if |b| == 0 {
      assert a + b == a;
    } else {
      var b' := b[..|b| - 1];
      assert (a + b)[..|a + b| - 1] == a + b';
      GatheredConcat(s, a, b', j);
    }
  }

  lemma {:induction false} GatheredNonNegative(s: State, order: seq<nat>, j: nat)
    requires WellFormed(s) && InRange(order, Customers(s)) && j < Resources(s)
    requires NonNegativeAllocation(s)
    ensures Gathered(s, order, j) >= 0
    decreases |order|
  {
    if |order| > 0 {
      GatheredNonNegative(s, order[..|order| - 1], j);
    }
  }

  /** Taking the customer at position m out of order takes its allocation
      out of the sum. */
  lemma GatheredRemove(s: State, order: seq<nat>, m: nat, j: nat)
    requires WellFormed(s) && InRange(order, Customers(s)) && m < |order| && j < Resources(s)
    ensures InRange(order[..m] + order[m + 1..], Customers(s))
    ensures Gathered(s, order, j) == Gathered(s, order[..m] + order[m + 1..], j) + s.allocation[order[m]][j]
  {
    var a, x, b := order[..m], [order[m]], order[m + 1..];
    assert order == (a + x) + b;
    GatheredConcat(s, a + x, b, j);
    GatheredConcat(s, a, x, j);
    GatheredConcat(s, a, b, j);
    assert x[..0] == [];
  }

  /** With non-negative allocations, handing back the allocations of a set of
      customers yields no more than handing back those of a superset. */
  lemma {:induction false} GatheredMonotone(s: State, p: seq<nat>, o: seq<nat>, j: nat)
    requires WellFormed(s) && InRange(p, Customers(s)) && InRange(o, Customers(s)) && j < Resources(s)
    requires Distinct(p) && Distinct(o) && NonNegativeAllocation(s)
    requires forall t :: 0 <= t < |p| ==> p[t] in o
    ensures Gathered(s, p, j) <= Gathered(s, o, j)
    decreases |p|
  {
    if |p| == 0 {
      GatheredNonNegative(s, o, j);
    } else {
      var x := p[|p| - 1];
      var p' := p[..|p| - 1];
      var m :| 0 <= m < |o| && o[m] == x;
      var o' := o[..m] + o[m + 1..];
      GatheredRemove(s, o, m, j);
      RemoveKeepsDistinct(o, m);
      forall t | 0 <= t < |p'| ensures p'[t] in o' {
        assert p'[t] != x;
        RemoveKeepsOthers(o, m, p'[t]);
      }
      GatheredMonotone(s, p', o', j);
    }
  }

  lemma RemoveKeepsOthers(o: seq<nat>, m: nat, y: nat)
    requires m < |o| && y in o && y != o[m]
    ensures y in o[..m] + o[m + 1..]
  {
    var idx :| 0 <= idx < |o| && o[idx] == y;
    if idx < m {
      assert (o[..m] + o[m + 1..])[idx] == y;
    } else {
      assert (o[..m] + o[m + 1..])[idx - 1] == y;
    }
  }

  lemma RemoveKeepsDistinct(o: seq<nat>, m: nat)
    requires m < |o| && Distinct(o)
    ensures Distinct(o[..m] + o[m + 1..])
  {
    var o' := o[..m] + o[m + 1..];
    forall a, b | 0 <= a < b < |o'| ensures o'[a] != o'[b] {
      var a' := if a < m then a else a + 1;
      var b' := if b < m then b else b + 1;
      assert o'[a] == o[a'] && o'[b] == o[b'];
    }
  }

  lemma WorkOfNone(s: State)
    requires WellFormed(s)
    ensures Work(s, []) == s.available
  {
  }

  lemma WorkAppend(s: State, order: seq<nat>, c: nat)
    requires WellFormed(s) && InRange(order, Customers(s)) && c < Customers(s)
    ensures InRange(order + [c], Customers(s))
    ensures Work(s, order + [c]) == Add(Work(s, order), s.allocation[c])
  {
    assert (order + [c])[..|order|] == order;
  }

  // ---------------------------------------------------------------------
  // The greedy check against safe orders

  /** The pass loop has finished exactly the customers of order, in that
      order, each one fitting when it was finished, and work is what they
      handed back on top of the available vector. */
  ghost predicate Reached(s: State, order: seq<nat>, work: Vector, finish: seq<bool>) {
    WellFormed(s) && |work| == Resources(s) && |finish| == Customers(s) &&
    InRange(order, Customers(s)) && Distinct(order) &&
    (forall c :: 0 <= c < Customers(s) ==> (finish[c] <==> c in order)) &&
    work == Work(s, order) &&
    forall k :: 0 <= k < |order| ==> Fits(s.need[order[k]], Work(s, order[..k]))
  }

  lemma {:induction false} PassReaches(s: State, work: Vector, finish: seq<bool>, i: nat, progress: bool, order: seq<nat>)
    returns (order': seq<nat>)
    requires WellFormed(s) && |work| == Resources(s) && |finish| == Customers(s) && i <= Customers(s)
    requires Reached(s, order, work, finish)
    ensures Reached(s, order', PassFrom(s, work, finish, i, progress).work, PassFrom(s, work, finish, i, progress).finish)
    decreases Customers(s) - i
  {
    if i == Customers(s) {
      order' := order;
    } else if !finish[i] && Fits(s.need[i], work) {
      var o := order + [i];
      WorkAppend(s, order, i);
      assert i !in order;
      forall k | 0 <= k < |o| ensures Fits(s.need[o[k]], Work(s, o[..k])) {
        if k < |order| {
          assert o[..k] == order[..k];
        } else {
          assert o[..k] == order;
        }
      }
      assert Reached(s, o, Add(work, s.allocation[i]), finish[i := true]);
      order' := PassReaches(s, Add(work, s.allocation[i]), finish[i := true], i + 1, true, o);
    } else {
      order' := PassReaches(s, work, finish, i + 1, progress, order);
    }
  }

  /** Run ends in a reached state from which one more pass finishes nobody. */
  lemma {:induction false} RunReaches(s: State, work: Vector, finish: seq<bool>, order: seq<nat>)
    returns (order': seq<nat>, work': Vector)
    requires WellFormed(s) && |work| == Resources(s) && |finish| == Customers(s)
    requires Reached(s, order, work, finish)
    ensures Reached(s, order', work', Run(s, work, finish))
    ensures !PassFrom(s, work', Run(s, work, finish), 0, false).progress
    decreases Customers(s) - Count(finish)
  {
    var r := PassFrom(s, work, finish, 0, false);
    PassMonotone(s, work, finish, 0, false);
    var o := PassReaches(s, work, finish, 0, false, order);
    if r.progress {
      order', work' := RunReaches(s, r.work, r.finish, o);
    } else {
      order', work' := order, work;
    }
  }

  /** A pass that finishes nobody found no unfinished customer whose need
      fits the work vector. */
  lemma {:induction false} NoProgressStuck(s: State, work: Vector, finish: seq<bool>, i: nat)
    requires WellFormed(s) && |work| == Resources(s) && |finish| == Customers(s) && i <= Customers(s)
    requires !PassFrom(s, work, finish, i, false).progress
    ensures forall c :: i <= c < Customers(s) && !finish[c] ==> !Fits(s.need[c], work)
    decreases Customers(s) - i
  {
    if i < Customers(s) {
      PassMonotone(s, Add(work, s.allocation[i]), finish[i := true], i + 1, true);
      NoProgressStuck(s, work, finish, i + 1);
    }
  }

  lemma InitiallyReached(s: State)
    requires WellFormed(s)
    ensures Reached(s, [], s.available, NoneFinished(Customers(s)))
  {
    WorkOfNone(s);
  }

  /** Soundness: when the greedy check succeeds, the order in which it
      finished the customers is a safe sequence. */
  lemma SafetyCheckSound(s: State) returns (order: seq<nat>)
    requires WellFormed(s) && SafetyCheck(s)
    ensures IsSafeSequence(s, order)
  {
    InitiallyReached(s);
    var w;
    order, w := RunReaches(s, s.available, NoneFinished(Customers(s)), []);
  }

  lemma SafetyCheckImpliesSafe(s: State)
    requires WellFormed(s) && SafetyCheck(s)
    ensures SafeSequenceExists(s)
  {
    var order := SafetyCheckSound(s);
  }

  /** Completeness: with non-negative allocations, whenever a safe sequence
      exists the greedy check finds one, whatever order it scans in. */
  lemma SafetyCheckComplete(s: State)
    requires WellFormed(s) && NonNegativeAllocation(s) && SafeSequenceExists(s)
    ensures SafetyCheck(s)
  {
    var safe :| IsSafeSequence(s, safe);
    InitiallyReached(s);
    var f := Run(s, s.available, NoneFinished(Customers(s)));
    var o, w := RunReaches(s, s.available, NoneFinished(Customers(s)), []);
    NoProgressStuck(s, w, f, 0);
    if !AllFinished(f) {
      var k := FirstUnfinished(safe, f);
      var c := safe[k];
      forall t | 0 <= t < k ensures safe[..k][t] in o {
        assert f[safe[t]];
      }
      assert Distinct(safe[..k]);
      forall j | 0 <= j < Resources(s) ensures Work(s, safe[..k])[j] <= w[j] {
        GatheredMonotone(s, safe[..k], o, j);
      }
      assert false;
    }
  }

  /** The first position of order whose customer is unfinished. */
  lemma FirstUnfinished(order: seq<nat>, finish: seq<bool>) returns (k: nat)
    requires InRange(order, |finish|)
    requires forall c :: 0 <= c < |finish| ==> c in order
    requires !AllFinished(finish)
    ensures k < |order| && !finish[order[k]]
    ensures forall t :: 0 <= t < k ==> finish[order[t]]
  {
    var c :| 0 <= c < |finish| && !finish[c];
    assert c in order;
    k := 0;
    while finish[order[k]]
      invariant k < |order| && c in order[k..]
      invariant forall t :: 0 <= t < k ==> finish[order[t]]
      decreases |order| - k
    {
      assert order[k] != c;
      assert c in order[k + 1..] by {
        var idx :| k <= idx < |order| && order[idx] == c;
        assert order[k + 1..][idx - (k + 1)] == c;
      }
      k := k + 1;
    }
  }

  /** With non-negative allocations the greedy check decides exactly the
      existence of a safe sequence. */
  lemma SafetyCheckCorrect(s: State)
    requires WellFormed(s) && NonNegativeAllocation(s)
    ensures SafetyCheck(s) <==> SafeSequenceExists(s)
  {
    if SafetyCheck(s) {
      SafetyCheckImpliesSafe(s);
    }
    if SafeSequenceExists(s) {
      SafetyCheckComplete(s);
    }
  }

  // ---------------------------------------------------------------------
  // Releasing keeps a safe state safe

  /** A transfer to customer c changes the gathered allocation of a list of
      distinct customers by the transferred amount exactly when c is listed. */
  lemma {:induction false} GatheredTransfer(s: State, c: nat, d: Vector, order: seq<nat>, j: nat)
    requires WellFormed(s) && c < Customers(s) && |d| == Resources(s) && j < Resources(s)
    requires InRange(order, Customers(s)) && Distinct(order)
    ensures Gathered(Transfer(s, c, d), order, j) == Gathered(s, order, j) + (if c in order then d[j] else 0)
    decreases |order|
  {
    if |order| > 0 {
      var n := |order| - 1;
      var front := order[..n];
      assert order == front + [order[n]];
      assert c in order <==> c in front || c == order[n];
      assert c == order[n] ==> c !in front;
      GatheredTransfer(s, c, d, front, j);
    }
  }

  /** A safe sequence stays safe when a customer hands back a non-negative
      prefix of a release: the work vector seen by every other customer does
      not shrink, and the releasing customer sees exactly as much more work
      as its need has grown. */
  lemma ReleaseKeepsSafeSequence(s: State, c: nat, release: Vector, k: nat, order: seq<nat>)
    requires WellFormed(s) && c < Customers(s) && |release| == Resources(s) && NonNegative(release)
    requires IsSafeSequence(s, order)
    ensures IsSafeSequence(ReleasePrefix(s, c, release, k), order)
  {
    var d := Neg(Prefix(release, k));
    var t := ReleasePrefix(s, c, release, k);
    forall m | 0 <= m < |order| ensures Fits(t.need[order[m]], Work(t, order[..m])) {
      var before := order[..m];
      assert Distinct(before) && InRange(before, Customers(s));
      assert c == order[m] ==> c !in before;
      forall j | 0 <= j < Resources(s) ensures t.need[order[m]][j] <= Work(t, before)[j] {
        GatheredTransfer(s, c, d, before, j);
        assert s.need[order[m]][j] <= Work(s, before)[j];
      }
    }
  }

  /** A release from a bounded state that passes the safety check leaves a
      state that passes it too, whichever prefix has been applied; this is
      why release_resources needs no safety check. */
  lemma ReleaseKeepsSafety(s: State, total: Vector, c: nat, release: Vector, k: nat)
    requires Consistent(s, total) && Bounded(s) && SafetyCheck(s)
    requires c < Customers(s) && |release| == Resources(s) && NonNegative(release)
    requires k <= FirstExcess(s, c, release)
    ensures SafetyCheck(ReleasePrefix(s, c, release, k))
  {
    var order := SafetyCheckSound(s);
    ReleaseKeepsSafeSequence(s, c, release, k, order);
    ReleasePrefixBounded(s, total, c, release, k);
    SafetyCheckComplete(ReleasePrefix(s, c, release, k));
  }

  /** Everything release_resources keeps, whichever prefix it has applied
      before stopping: the invariants always, the bounds for a non-negative
      release, and safety for a non-negative release from a bounded safe
      state. */
  lemma ReleasePrefixKeeps(s: State, total: Vector, c: nat, release: Vector, k: nat)
    requires Consistent(s, total) && c < Customers(s) && |release| == Resources(s)
    requires k <= FirstExcess(s, c, release)
    ensures Consistent(ReleasePrefix(s, c, release, k), total)
    ensures Bounded(s) && NonNegative(release) ==> Bounded(ReleasePrefix(s, c, release, k))
    ensures Bounded(s) && SafetyCheck(s) && NonNegative(release) ==> SafetyCheck(ReleasePrefix(s, c, release, k))
  {
    ReleasePrefixConsistent(s, total, c, release, k);
    if Bounded(s) && NonNegative(release) {
      ReleasePrefixBounded(s, total, c, release, k);
      if SafetyCheck(s) {
        ReleaseKeepsSafety(s, total, c, release, k);
      }
    }
  }

  /** Completeness needs non-negative allocations. Customer 0 holds -5 units
      and needs nothing, customer 1 needs the one available unit. The order
      [1, 0] is safe, but the greedy check finishes customer 0 first, which
      drains the work vector to -4, and then cannot finish customer 1. */
  lemma CompletenessNeedsNonNegative()
    ensures var s := State([1], [[-5], [1]], [[-5], [0]], [[0], [1]]);
      WellFormed(s) && IsSafeSequence(s, [1, 0]) && !SafetyCheck(s)
  {
    var s := State([1], [[-5], [1]], [[-5], [0]], [[0], [1]]);
    NegativeExampleSafe(s);
    NegativeExampleRejected(s);
  }

  /** [1, 0] is a safe sequence of the example state. */
  lemma NegativeExampleSafe(s: State)
    requires s == State([1], [[-5], [1]], [[-5], [0]], [[0], [1]])
    ensures WellFormed(s) && IsSafeSequence(s, [1, 0])
  {
    var order: seq<nat> := [1, 0];
    assert order[..1] == [1] && order[..0] == [];
    assert Work(s, order[..0]) == [1];
    assert Work(s, order[..1]) == [1];
  }

  /** The greedy check rejects the example state: its first pass finishes
      only customer 0 and its second pass finishes nobody. */
  lemma NegativeExampleRejected(s: State)
    requires s == State([1], [[-5], [1]], [[-5], [0]], [[0], [1]])
    ensures WellFormed(s) && !SafetyCheck(s)
  {
    assert PassFrom(s, [1], [false, false], 0, false) == Scan([-4], [true, false], true) by {
      assert PassFrom(s, [1], [false, false], 0, false) == PassFrom(s, [-4], [true, false], 1, true);
      assert PassFrom(s, [-4], [true, false], 1, true) == PassFrom(s, [-4], [true, false], 2, true);
    }
    assert PassFrom(s, [-4], [true, false], 0, false) == PassFrom(s, [-4], [true, false], 2, false);
    assert Run(s, [-4], [true, false]) == [true, false];
    assert NoneFinished(2) == [false, false];
    assert Run(s, s.available, NoneFinished(Customers(s))) == [true, false];
  }

  // ---------------------------------------------------------------------
  // Particular states

  function Ascending(n: nat): (order: seq<nat>)
    ensures |order| == n && forall k :: 0 <= k < n ==> order[k] == k
  {
    seq(n, k => k)
  }

  /** When every customer's need fits the available vector, the customers
      in ascending order form a safe sequence. */
  lemma AllFitSafe(s: State)
    requires WellFormed(s) && NonNegativeAllocation(s)
    requires forall c :: 0 <= c < Customers(s) ==> Fits(s.need[c], s.available)
    ensures IsSafeSequence(s, Ascending(Customers(s)))
    ensures SafetyCheck(s)
  {
    var order := Ascending(Customers(s));
    forall c | 0 <= c < Customers(s) ensures c in order {
      assert order[c] == c;
    }
    forall k | 0 <= k < |order| ensures Fits(s.need[order[k]], Work(s, order[..k])) {
      forall j | 0 <= j < Resources(s) ensures s.available[j] <= Work(s, order[..k])[j] {
        GatheredNonNegative(s, order[..k], j);
      }
    }
    assert IsSafeSequence(s, order);
    SafetyCheckComplete(s);
  }

  /** When every customer's need fits the available vector, the first pass
      already finishes every customer. */
  lemma AllFitFirstPass(s: State)
    requires WellFormed(s) && NonNegativeAllocation(s)
    requires forall c :: 0 <= c < Customers(s) ==> Fits(s.need[c], s.available)
    ensures AllFinished(PassFrom(s, s.available, NoneFinished(Customers(s)), 0, false).finish)
  {
    forall c | 0 <= c < Customers(s)
      ensures PassFrom(s, s.available, NoneFinished(Customers(s)), 0, false).finish[c]
    {
      PassFinishesFitting(s, s.available, NoneFinished(Customers(s)), 0, false, c);
    }
  }

  /** With non-negative allocations, a customer c at or after i whose need
      fits the current work vector is finished by the rest of the pass: the
      work vector only grows before the pass reaches c. */
  lemma {:induction false} PassFinishesFitting(s: State, work: Vector, finish: seq<bool>, i: nat, progress: bool, c: nat)
    requires WellFormed(s) && NonNegativeAllocation(s)
    requires |work| == Resources(s) && |finish| == Customers(s) && i <= c < Customers(s)
    requires Fits(s.need[c], work)
    ensures PassFrom(s, work, finish, i, progress).finish[c]
    decreases c - i
  {
    if !finish[i] && Fits(s.need[i], work) {
      var w := Add(work, s.allocation[i]);
      if i == c {
        PassMonotone(s, w, finish[i := true], i + 1, true);
      } else {
        assert Fits(s.need[c], w) by {
          forall j | 0 <= j < Resources(s) ensures s.need[c][j] <= w[j] {
            assert s.allocation[i][j] >= 0;
          }
        }
        PassFinishesFitting(s, w, finish[i := true], i + 1, true, c);
      }
    } else if i == c {
      PassMonotone(s, work, finish, i + 1, progress);
    } else {
      PassFinishesFitting(s, work, finish, i + 1, progress, c);
    }
  }

  /** The state set up at start-up is safe. */
  lemma InitialSafe(available: Vector, draw: seq<Vector>)
    requires forall c :: 0 <= c < |draw| ==> |draw[c]| == |available|
    requires forall j :: 0 <= j < |available| ==> available[j] > 0
    requires forall c, j :: 0 <= c < |draw| && 0 <= j < |available| ==> draw[c][j] >= 0
    ensures WellFormed(Initial(available, DrawMaximum(draw, available)))
    ensures SafetyCheck(Initial(available, DrawMaximum(draw, available)))
  {
    var s := Initial(available, DrawMaximum(draw, available));
    InitialConsistent(available, draw);
    AllFitSafe(s);
  }
}
