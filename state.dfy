/** The allocator's shared state as a value: the available vector and the
    three per-customer matrices, the vector arithmetic the allocator performs
    on them, and the invariants that every operation keeps. */
module BankState {

  /** A resource vector: one quantity per resource type. */
  type Vector = seq<int>

  /** The available vector and the maximum-demand, allocation and need
      matrices, one row per customer. */
  datatype State = State(available: Vector, maximum: seq<Vector>, allocation: seq<Vector>, need: seq<Vector>)

  function Add(v: Vector, w: Vector): (r: Vector)
    requires |v| == |w|
    ensures |r| == |v| && forall j :: 0 <= j < |v| ==> r[j] == v[j] + w[j]
  {
    seq(|v|, j requires 0 <= j < |v| => v[j] + w[j])
  }

  function Sub(v: Vector, w: Vector): (r: Vector)
    requires |v| == |w|
    ensures |r| == |v| && forall j :: 0 <= j < |v| ==> r[j] == v[j] - w[j]
  {
    seq(|v|, j requires 0 <= j < |v| => v[j] - w[j])
  }

  function Neg(v: Vector): (r: Vector)
    ensures |r| == |v| && forall j :: 0 <= j < |v| ==> r[j] == -v[j]
  {
    seq(|v|, j requires 0 <= j < |v| => -v[j])
  }

  /** The first k components of v, and zero for the others. */
  function Prefix(v: Vector, k: nat): (r: Vector)
    ensures |r| == |v| && forall j :: 0 <= j < |v| ==> r[j] == if j < k then v[j] else 0
  {
    seq(|v|, j requires 0 <= j < |v| => if j < k then v[j] else 0)
  }

  /** v is componentwise at most w. */
  predicate Fits(v: Vector, w: Vector) {
    |v| == |w| && forall j :: 0 <= j < |v| ==> v[j] <= w[j]
  }

  predicate NonNegative(v: Vector) {
    forall j :: 0 <= j < |v| ==> v[j] >= 0
  }

  /** Every matrix has one row per customer and every row one entry per
      resource type. */
  predicate WellFormed(s: State) {
    |s.maximum| == |s.allocation| == |s.need| &&
    forall c :: 0 <= c < |s.allocation| ==>
      |s.maximum[c]| == |s.available| && |s.allocation[c]| == |s.available| && |s.need[c]| == |s.available|
  }

  function Customers(s: State): nat { |s.allocation| }
  function Resources(s: State): nat { |s.available| }

  /** Sum of column j over all rows of m. */
  function ColumnSum(m: seq<Vector>, j: nat): (sum: int)
    requires forall c :: 0 <= c < |m| ==> j < |m[c]|
  {
    if |m| == 0 then 0 else ColumnSum(m[..|m| - 1], j) + m[|m| - 1][j]
  }

  /** The invariants that hold between operations whatever the vectors
      passed in: need = maximum - allocation, and for each resource the
      units held by customers plus the available units equal the total. */
  predicate Consistent(s: State, total: Vector) {
    WellFormed(s) && |total| == |s.available| &&
    (forall c, j :: 0 <= c < |s.need| && 0 <= j < |s.available| ==>
       s.need[c][j] == s.maximum[c][j] - s.allocation[c][j]) &&
    (forall j :: 0 <= j < |s.available| ==> ColumnSum(s.allocation, j) + s.available[j] == total[j])
  }

  /** No negative availability and every allocation between zero and the
      declared maximum. */
  predicate Bounded(s: State) {
    WellFormed(s) &&
    (forall j :: 0 <= j < |s.available| ==> s.available[j] >= 0) &&
    (forall c, j :: 0 <= c < |s.allocation| && 0 <= j < |s.available| ==>
       0 <= s.allocation[c][j] <= s.maximum[c][j])
  }

  /** Moves d from the available vector to customer c: available shrinks by d,
      the customer's allocation grows by d and its need shrinks by d. This is
      the per-component arithmetic of allocating, rolling back (d negated) and
      releasing (the released prefix negated). */
  function Transfer(s: State, c: nat, d: Vector): (t: State)
    requires WellFormed(s) && c < Customers(s) && |d| == Resources(s)
    ensures WellFormed(t) && Customers(t) == Customers(s) && Resources(t) == Resources(s)
  {
    State(Sub(s.available, d), s.maximum,
          s.allocation[c := Add(s.allocation[c], d)],
          s.need[c := Sub(s.need[c], d)])
  }

  /** The state after allocate_resources. */
  function Allocate(s: State, c: nat, request: Vector): (t: State)
    requires WellFormed(s) && c < Customers(s) && |request| == Resources(s)
  {
    Transfer(s, c, request)
  }

  /** The state after rollback_allocation. */
  function Rollback(s: State, c: nat, request: Vector): (t: State)
    requires WellFormed(s) && c < Customers(s) && |request| == Resources(s)
  {
    Transfer(s, c, Neg(request))
  }

  /** The state after release_resources has applied its first k components. */
  function ReleasePrefix(s: State, c: nat, release: Vector, k: nat): (t: State)
    requires WellFormed(s) && c < Customers(s) && |release| == Resources(s)
  {
    Transfer(s, c, Neg(Prefix(release, k)))
  }

  /** The test of is_request_valid: the request exceeds neither the
      customer's need nor the available vector. */
  predicate RequestValid(s: State, c: nat, request: Vector)
    requires WellFormed(s) && c < Customers(s)
  {
    Fits(request, s.need[c]) && Fits(request, s.available)
  }

  /** The index at which release_resources stops: the first component that
      exceeds the customer's allocation, or the number of resources. */
  function FirstExcess(s: State, c: nat, release: Vector): (k: nat)
    requires WellFormed(s) && c < Customers(s) && |release| == Resources(s)
    ensures k <= Resources(s)
    ensures forall j :: 0 <= j < k ==> release[j] <= s.allocation[c][j]
    ensures k < Resources(s) ==> release[k] > s.allocation[c][k]
  {
    FirstExcessFrom(s.allocation[c], release, 0)
  }

  function FirstExcessFrom(held: Vector, release: Vector, i: nat): (k: nat)
    requires |release| == |held| && i <= |held|
    requires forall j :: 0 <= j < i ==> release[j] <= held[j]
    ensures i <= k <= |held|
    ensures forall j :: 0 <= j < k ==> release[j] <= held[j]
    ensures k < |held| ==> release[k] > held[k]
    decreases |held| - i
  {
    if i == |held| then i
    else if release[i] > held[i] then i
    else FirstExcessFrom(held, release, i + 1)
  }

  /** The state set up by define_demand_of_customers: nothing allocated and
      every need equal to the maximum demand. */
  function Initial(available: Vector, maximum: seq<Vector>): (s: State) {
    State(available, maximum, seq(|maximum|, c => seq(|available|, j => 0)), maximum)
  }

  /** The maximum demands drawn at start-up: draw[c][j] % available[j], which
      lies in [0, available[j]) for a non-negative draw. */
  function DrawMaximum(draw: seq<Vector>, available: Vector): (maximum: seq<Vector>)
    requires forall c :: 0 <= c < |draw| ==> |draw[c]| == |available|
    requires forall j :: 0 <= j < |available| ==> available[j] > 0
    ensures |maximum| == |draw|
    ensures forall c :: 0 <= c < |draw| ==> |maximum[c]| == |available|
  {
    seq(|draw|, c requires 0 <= c < |draw| =>
      seq(|available|, j requires 0 <= j < |available| => draw[c][j] % available[j]))
  }

  /** A vector generated from the rand() results draw: draw[j] % (bound[j] + 1),
      which lies in [0, bound[j]] for a non-negative draw. */
  function DrawUpTo(draw: Vector, bound: Vector): (r: Vector)
    requires |draw| == |bound| && NonNegative(bound)
    ensures |r| == |bound|
    ensures NonNegative(draw) ==> forall j :: 0 <= j < |r| ==> 0 <= r[j] <= bound[j]
  {
    seq(|bound|, j requires 0 <= j < |bound| => draw[j] % (bound[j] + 1))
  }

  // ---------------------------------------------------------------------
  // Lemmas

  lemma {:induction false} ColumnSumUpdate(m: seq<Vector>, c: nat, row: Vector, j: nat)
    requires c < |m| && j < |row|
    requires forall k :: 0 <= k < |m| ==> j < |m[k]|
    ensures ColumnSum(m[c := row], j) == ColumnSum(m, j) - m[c][j] + row[j]
    decreases |m|
  {
    var n := |m| - 1;
    if c == n {
      assert m[c := row][..n] == m[..n];
    } else {
      assert m[c := row][..n] == m[..n][c := row];
      ColumnSumUpdate(m[..n], c, row, j);
    }
  }

  /** Every transfer keeps need = maximum - allocation and conserves the
      total of each resource, whatever the sign of the moved vector. */
  lemma TransferConsistent(s: State, total: Vector, c: nat, d: Vector)
    requires Consistent(s, total) && c < Customers(s) && |d| == Resources(s)
    ensures Consistent(Transfer(s, c, d), total)
  {
    var t := Transfer(s, c, d);
    forall j | 0 <= j < Resources(s)
      ensures ColumnSum(t.allocation, j) + t.available[j] == total[j]
    {
      ColumnSumUpdate(s.allocation, c, Add(s.allocation[c], d), j);
    }
  }

  lemma AllocateConsistent(s: State, total: Vector, c: nat, request: Vector)
    requires Consistent(s, total) && c < Customers(s) && |request| == Resources(s)
    ensures Consistent(Allocate(s, c, request), total)
  {
    TransferConsistent(s, total, c, request);
  }

  lemma RollbackConsistent(s: State, total: Vector, c: nat, request: Vector)
    requires Consistent(s, total) && c < Customers(s) && |request| == Resources(s)
    ensures Consistent(Rollback(s, c, request), total)
  {
    TransferConsistent(s, total, c, Neg(request));
  }

  /** Applying any prefix of a release keeps the invariants, so even a
      rejected, partly applied release leaves a consistent state. */
  lemma ReleasePrefixConsistent(s: State, total: Vector, c: nat, release: Vector, k: nat)
    requires Consistent(s, total) && c < Customers(s) && |release| == Resources(s)
    ensures Consistent(ReleasePrefix(s, c, release, k), total)
  {
    TransferConsistent(s, total, c, Neg(Prefix(release, k)));
  }

  /** Two transfers to the same customer add up. */
  lemma TransferCompose(s: State, c: nat, a: Vector, b: Vector)
    requires WellFormed(s) && c < Customers(s) && |a| == |b| == Resources(s)
    ensures Transfer(Transfer(s, c, a), c, b) == Transfer(s, c, Add(a, b))
  {
    var t, u := Transfer(Transfer(s, c, a), c, b), Transfer(s, c, Add(a, b));
    assert t.available == u.available;
    assert t.allocation[c] == u.allocation[c];
    assert t.allocation == u.allocation;
    assert t.need[c] == u.need[c];
    assert t.need == u.need;
  }

  /** Rolling back an allocation restores the state exactly. */
  lemma RollbackUndoesAllocate(s: State, c: nat, request: Vector)
    requires WellFormed(s) && c < Customers(s) && |request| == Resources(s)
    ensures Rollback(Allocate(s, c, request), c, request) == s
  {
    TransferCompose(s, c, request, Neg(request));
    var t := Transfer(s, c, Add(request, Neg(request)));
    assert t.available == s.available;
    assert t.allocation[c] == s.allocation[c];
    assert t.allocation == s.allocation;
    assert t.need[c] == s.need[c];
    assert t.need == s.need;
  }

  /** Allocation changes only the requesting customer's rows and never the
      maximum demands. */
  lemma AllocateFrame(s: State, c: nat, request: Vector, other: nat)
    requires WellFormed(s) && c < Customers(s) && |request| == Resources(s)
    requires other < Customers(s) && other != c
    ensures Allocate(s, c, request).allocation[other] == s.allocation[other]
    ensures Allocate(s, c, request).need[other] == s.need[other]
    ensures Allocate(s, c, request).maximum == s.maximum
  {
  }

  /** A request that passed validation leaves the available vector
      non-negative and the customer within its maximum demand; a
      non-negative one also keeps every allocation non-negative. */
  lemma AllocateBounded(s: State, total: Vector, c: nat, request: Vector)
    requires Consistent(s, total) && c < Customers(s) && |request| == Resources(s)
    requires RequestValid(s, c, request)
    ensures var t := Allocate(s, c, request);
      (forall j :: 0 <= j < Resources(s) ==> t.available[j] >= 0 && t.allocation[c][j] <= t.maximum[c][j])
    ensures Bounded(s) && NonNegative(request) ==> Bounded(Allocate(s, c, request))
  {
    var t := Allocate(s, c, request);
    forall j | 0 <= j < Resources(s)
      ensures t.available[j] >= 0 && t.allocation[c][j] <= t.maximum[c][j]
    {
      assert request[j] <= s.need[c][j] && request[j] <= s.available[j];
    }
  }

  /** Releasing a non-negative vector up to its first excessive component
      keeps every allocation non-negative and the available vector
      non-negative. */
  lemma ReleasePrefixBounded(s: State, total: Vector, c: nat, release: Vector, k: nat)
    requires Consistent(s, total) && Bounded(s) && c < Customers(s) && |release| == Resources(s)
    requires NonNegative(release) && k <= FirstExcess(s, c, release)
    ensures Bounded(ReleasePrefix(s, c, release, k))
  {
    var t := ReleasePrefix(s, c, release, k);
    forall d, j | 0 <= d < Customers(s) && 0 <= j < Resources(s)
      ensures 0 <= t.allocation[d][j] <= t.maximum[d][j]
    {
      if d == c && j < k {
        assert t.allocation[d][j] == s.allocation[c][j] - release[j];
      }
    }
  }

  /** A release rejected at its first component changes nothing. */
  lemma ReleaseRejectedAtFirst(s: State, c: nat, release: Vector)
    requires WellFormed(s) && c < Customers(s) && |release| == Resources(s)
    requires FirstExcess(s, c, release) == 0
    ensures ReleasePrefix(s, c, release, 0) == s
  {
    var t := ReleasePrefix(s, c, release, 0);
    assert t.available == s.available;
    assert t.allocation[c] == s.allocation[c];
    assert t.allocation == s.allocation;
    assert t.need[c] == s.need[c];
    assert t.need == s.need;
  }

  /** A release accepted in full returns exactly the released vector: the
      state is that of rolling back an allocation of the same vector. */
  lemma ReleaseAcceptedIsRollback(s: State, c: nat, release: Vector)
    requires WellFormed(s) && c < Customers(s) && |release| == Resources(s)
    requires FirstExcess(s, c, release) == Resources(s)
    ensures ReleasePrefix(s, c, release, Resources(s)) == Rollback(s, c, release)
  {
    assert Prefix(release, Resources(s)) == release;
  }

  /** A rejected release is not state-preserving in general: with one
      customer holding (1, 0), releasing (1, 1) is rejected at component 1
      after component 0 has already been handed back. */
  lemma RejectedReleaseChangesState()
    ensures var s := State([0, 0], [[1, 0]], [[1, 0]], [[0, 0]]);
      FirstExcess(s, 0, [1, 1]) == 1 &&
      ReleasePrefix(s, 0, [1, 1], 1) == State([1, 0], [[1, 0]], [[0, 0]], [[1, 0]]) &&
      ReleasePrefix(s, 0, [1, 1], 1) != s
  {
    var s := State([0, 0], [[1, 0]], [[1, 0]], [[0, 0]]);
    var t := ReleasePrefix(s, 0, [1, 1], 1);
    assert FirstExcessFrom([1, 0], [1, 1], 1) == 1;
    assert t.available == [1, 0];
    assert t.allocation[0] == [0, 0];
    assert t.need[0] == [1, 0];
    assert t.available != s.available;
  }

  /** The start-up state is consistent, bounded, and every maximum demand is
      below the available amount of its resource. */
  lemma InitialConsistent(available: Vector, draw: seq<Vector>)
    requires forall c :: 0 <= c < |draw| ==> |draw[c]| == |available|
    requires forall j :: 0 <= j < |available| ==> available[j] > 0
    requires forall c, j :: 0 <= c < |draw| && 0 <= j < |available| ==> draw[c][j] >= 0
    ensures var s := Initial(available, DrawMaximum(draw, available));
      Consistent(s, available) && Bounded(s) &&
      forall c, j :: 0 <= c < |draw| && 0 <= j < |available| ==> 0 <= s.maximum[c][j] < available[j]
  {
    var s := Initial(available, DrawMaximum(draw, available));
    forall j | 0 <= j < |available| ensures ColumnSum(s.allocation, j) == 0 {
      ZeroColumnSum(s.allocation, j);
    }
  }

  lemma {:induction false} ZeroColumnSum(m: seq<Vector>, j: nat)
    requires forall c :: 0 <= c < |m| ==> j < |m[c]| && m[c][j] == 0
    ensures ColumnSum(m, j) == 0
    decreases |m|
  {
    if |m| > 0 {
      ZeroColumnSum(m[..|m| - 1], j);
    }
  }
}
