/** The allocator itself: the available vector and the three customer
    matrices as arrays updated in place, and one method per routine of the
    allocator. Each locked section of `bankersAlgorithm.c` (request and release)
    is one sequential method here. */
module Manager {
  import opened BankState
  import opened Safety

  class ResourceManager {
    /** Number of customers and of resource types. */
    const customers: nat
    const resources: nat

    const available: array<int>
    const maximum: array2<int>
    const allocation: array2<int>
    const need: array2<int>

    /** The available vector at start-up: each resource's total. */
    ghost const total: Vector

    /** The state held in the arrays, as a value. */
    ghost var state: State

    /** Array dimensions and distinctness; these never change. */
    ghost predicate Shaped() {
      available.Length == resources &&
      maximum.Length0 == customers && maximum.Length1 == resources &&
      allocation.Length0 == customers && allocation.Length1 == resources &&
      need.Length0 == customers && need.Length1 == resources &&
      maximum != allocation && maximum != need && allocation != need
    }

    /** The arrays hold state. */
    ghost predicate Holds(s: State)
      reads available, maximum, allocation, need
      requires Shaped()
    {
      WellFormed(s) && Customers(s) == customers && Resources(s) == resources &&
      (forall j :: 0 <= j < resources ==> available[j] == s.available[j]) &&
      (forall c, j :: 0 <= c < customers && 0 <= j < resources ==>
         maximum[c, j] == s.maximum[c][j] && allocation[c, j] == s.allocation[c][j] && need[c, j] == s.need[c][j])
    }

    /** The invariants between operations: the arrays hold state, need =
        maximum - allocation, and every resource's total is conserved. */
    ghost predicate Valid()
      reads this, available, maximum, allocation, need
    {
      Shaped() && Holds(state) && Consistent(state, total)
    }

    /** The arrays hold s0 with d moved from the available vector to
        customer c. */
    lemma HoldsTransfer(s0: State, c: nat, d: Vector)
      requires Shaped() && WellFormed(s0) && Customers(s0) == customers && Resources(s0) == resources
      requires c < customers && |d| == resources
      requires forall j :: 0 <= j < resources ==> available[j] == s0.available[j] - d[j]
      requires forall k, j :: 0 <= k < customers && 0 <= j < resources ==> maximum[k, j] == s0.maximum[k][j]
      requires forall j :: 0 <= j < resources ==>
        allocation[c, j] == s0.allocation[c][j] + d[j] && need[c, j] == s0.need[c][j] - d[j]
      requires forall k, j :: 0 <= k < customers && k != c && 0 <= j < resources ==>
        allocation[k, j] == s0.allocation[k][j] && need[k, j] == s0.need[k][j]
      ensures Holds(Transfer(s0, c, d))
    {
    }

    /** init_available_resources followed by define_demand_of_customers:
        draw supplies the rand() results in call order. */
    constructor (customers: nat, resources: nat, initial: Vector, draw: seq<Vector>)
      requires |initial| == resources && |draw| == customers
      requires forall j :: 0 <= j < resources ==> initial[j] > 0
      requires forall c :: 0 <= c < customers ==> |draw[c]| == resources
      requires forall c, j :: 0 <= c < customers && 0 <= j < resources ==> draw[c][j] >= 0
      ensures Valid() && Bounded(state)
      ensures this.customers == customers && this.resources == resources && total == initial
      ensures state == Initial(initial, DrawMaximum(draw, initial))
      ensures SafetyCheck(state)
      ensures fresh(available) && fresh(maximum) && fresh(allocation) && fresh(need)
    {
      this.customers := customers;
      this.resources := resources;
      total := initial;
      var avail := new int[resources];
      for j := 0 to resources
        invariant forall k :: 0 <= k < j ==> avail[k] == initial[k]
      {
        avail[j] := initial[j];
      }
      available := avail;
      var mx := new int[customers, resources];
      var al := new int[customers, resources];
      var nd := new int[customers, resources];
      for c := 0 to customers
        invariant forall k :: 0 <= k < resources ==> avail[k] == initial[k]
        invariant forall d, j :: 0 <= d < c && 0 <= j < resources ==>
          mx[d, j] == draw[d][j] % initial[j] && al[d, j] == 0 && nd[d, j] == mx[d, j]
      {
        for j := 0 to resources
          invariant forall k :: 0 <= k < resources ==> avail[k] == initial[k]
          invariant forall d, k :: 0 <= d < c && 0 <= k < resources ==>
            mx[d, k] == draw[d][k] % initial[k] && al[d, k] == 0 && nd[d, k] == mx[d, k]
          invariant forall k :: 0 <= k < j ==>
            mx[c, k] == draw[c][k] % initial[k] && al[c, k] == 0 && nd[c, k] == mx[c, k]
        {
          mx[c, j] := draw[c][j] % initial[j];
          al[c, j] := 0;
          nd[c, j] := mx[c, j];
        }
      }
      maximum, allocation, need := mx, al, nd;
      state := Initial(initial, DrawMaximum(draw, initial));
      InitialConsistent(initial, draw);
      InitialSafe(initial, draw);
    }

    /** can_fulfill_need: the customer's need fits the work vector. */
    method CanFulfillNeed(customer: nat, work: array<int>) returns (fits: bool)
      requires Shaped() && customer < customers && work.Length == resources
      ensures fits <==> forall j :: 0 <= j < resources ==> need[customer, j] <= work[j]
    {
      for j := 0 to resources
        invariant forall k :: 0 <= k < j ==> need[customer, k] <= work[k]
      {
        if need[customer, j] > work[j] {
          return false;
        }
      }
      return true;
    }

    /** release_allocation: the customer's allocation is added to work. */
    method ReleaseAllocation(customer: nat, work: array<int>)
      requires Shaped() && customer < customers && work.Length == resources
      modifies work
      ensures forall j :: 0 <= j < resources ==> work[j] == old(work[j]) + allocation[customer, j]
    {
      for j := 0 to resources
        invariant forall k :: 0 <= k < j ==> work[k] == old(work[k]) + allocation[customer, k]
        invariant forall k :: j <= k < resources ==> work[k] == old(work[k])
      {
        work[j] := work[j] + allocation[customer, j];
      }
    }

    /** One pass of the loop of system_in_safe_state over the customers in
        ascending order: every unfinished customer whose need fits work hands
        its allocation back to work and is marked finished. The result says
        whether anybody was finished. */
    method ScanCustomers(work: array<int>, finish: array<bool>) returns (canAllocate: bool)
      requires Valid() && work.Length == resources && finish.Length == customers && work != available
      modifies work, finish
      ensures PassFrom(state, old(work[..]), old(finish[..]), 0, false) == Scan(work[..], finish[..], canAllocate)
    {
      canAllocate := false;
      for i := 0 to customers
        invariant PassFrom(state, work[..], finish[..], i, canAllocate) == PassFrom(state, old(work[..]), old(finish[..]), 0, false)
      {
        if !finish[i] {
          var fits := CanFulfillNeed(i, work);
          assert fits == Fits(state.need[i], work[..]);
          if fits {
            ghost var w, f := work[..], finish[..];
            ReleaseAllocation(i, work);
            finish[i] := true;
            canAllocate := true;
            assert work[..] == Add(w, state.allocation[i]);
            assert finish[..] == f[i := true];
          }
        }
      }
    }

    /** system_in_safe_state. It has no modifies clause: it only reads the
        shared state and works on its own work and finish arrays. The ghost
        result passes counts the passes of the outer loop. */
    method SystemInSafeState() returns (safe: bool, ghost passes: nat)
      requires Valid()
      ensures safe == SafetyCheck(state)
      ensures passes <= customers + 1
    {
      var work := CopyAvailable();
      var finish := new bool[customers](c => false);
      assert work[..] == state.available;
      assert forall c :: 0 <= c < customers ==> !finish[c];
      assert finish[..] == NoneFinished(customers);
      passes := 0;
      while true
        invariant Run(state, work[..], finish[..]) == Run(state, state.available, NoneFinished(customers))
        invariant passes <= Count(finish[..])
        decreases customers - Count(finish[..])
      {
        ghost var w0, f0 := work[..], finish[..];
        var canAllocate := ScanCustomers(work, finish);
        RunUnfold(state, w0, f0);
        passes := passes + 1;
        if !canAllocate {
          break;
        }
      }
      ghost var f := finish[..];
      assert f == Run(state, state.available, NoneFinished(customers));
      assert SafetyCheck(state) == AllFinished(f);
      safe := EveryoneFinished(finish);
      assert forall c :: 0 <= c < customers ==> f[c] == finish[c];
    }

    /** The copy of the available vector that system_in_safe_state starts
        from. */
    method CopyAvailable() returns (work: array<int>)
      requires Shaped()
      ensures fresh(work) && work.Length == resources
      ensures forall j :: 0 <= j < resources ==> work[j] == available[j]
    {
      work := new int[resources];
      for j := 0 to resources
        invariant forall k :: 0 <= k < j ==> work[k] == available[k]
      {
        work[j] := available[j];
      }
    }

    /** The closing loop of system_in_safe_state: true exactly when every
        customer is marked finished. */
    method EveryoneFinished(finish: array<bool>) returns (all: bool)
      ensures all <==> forall c :: 0 <= c < finish.Length ==> finish[c]
    {
      for i := 0 to finish.Length
        invariant forall k :: 0 <= k < i ==> finish[k]
      {
        if !finish[i] {
          return false;
        }
      }
      return true;
    }

    /** is_request_valid. */
    method IsRequestValid(customer: nat, request: Vector) returns (valid: bool)
      requires Shaped() && customer < customers && |request| == resources
      ensures valid <==> forall j :: 0 <= j < resources ==>
        request[j] <= need[customer, j] && request[j] <= available[j]
    {
      for j := 0 to resources
        invariant forall k :: 0 <= k < j ==> request[k] <= need[customer, k] && request[k] <= available[k]
      {
        if request[j] > need[customer, j] || request[j] > available[j] {
          return false;
        }
      }
      return true;
    }

    /** allocate_resources. */
    method AllocateResources(customer: nat, request: Vector)
      requires Valid() && customer < customers && |request| == resources
      modifies this, available, allocation, need
      ensures Valid()
      ensures state == Allocate(old(state), customer, request)
    {
      ghost var s0 := state;
      for j := 0 to resources
        invariant forall k :: 0 <= k < resources ==>
          available[k] == s0.available[k] - (if k < j then request[k] else 0) &&
          allocation[customer, k] == s0.allocation[customer][k] + (if k < j then request[k] else 0) &&
          need[customer, k] == s0.need[customer][k] - (if k < j then request[k] else 0)
        invariant forall d, k :: 0 <= d < customers && d != customer && 0 <= k < resources ==>
          allocation[d, k] == s0.allocation[d][k] && need[d, k] == s0.need[d][k]
      {
        available[j] := available[j] - request[j];
        allocation[customer, j] := allocation[customer, j] + request[j];
        need[customer, j] := need[customer, j] - request[j];
      }
      HoldsTransfer(s0, customer, request);
      state := Allocate(s0, customer, request);
      AllocateConsistent(s0, total, customer, request);
    }

    /** rollback_allocation. */
    method RollbackAllocation(customer: nat, request: Vector)
      requires Valid() && customer < customers && |request| == resources
      modifies this, available, allocation, need
      ensures Valid()
      ensures state == Rollback(old(state), customer, request)
    {
      ghost var s0 := state;
      for j := 0 to resources
        invariant forall k :: 0 <= k < resources ==>
          available[k] == s0.available[k] + (if k < j then request[k] else 0) &&
          allocation[customer, k] == s0.allocation[customer][k] - (if k < j then request[k] else 0) &&
          need[customer, k] == s0.need[customer][k] + (if k < j then request[k] else 0)
        invariant forall d, k :: 0 <= d < customers && d != customer && 0 <= k < resources ==>
          allocation[d, k] == s0.allocation[d][k] && need[d, k] == s0.need[d][k]
      {
        available[j] := available[j] + request[j];
        allocation[customer, j] := allocation[customer, j] - request[j];
        need[customer, j] := need[customer, j] + request[j];
      }
      HoldsTransfer(s0, customer, Neg(request));
      state := Rollback(s0, customer, request);
      RollbackConsistent(s0, total, customer, request);
    }

    /** request_resources: 0 when the request is granted, -1 when it is
        refused, either by validation or because the tentative state is
        unsafe; a refused request leaves the state exactly as it was. */
    method RequestResources(customer: nat, request: Vector) returns (status: int)
      requires Valid() && customer < customers && |request| == resources
      modifies this, available, allocation, need
      ensures Valid()
      ensures status == 0 || status == -1
      ensures status == 0 <==>
        RequestValid(old(state), customer, request) && SafetyCheck(Allocate(old(state), customer, request))
      ensures state == if status == 0 then Allocate(old(state), customer, request) else old(state)
      ensures status == 0 ==> SafeSequenceExists(state)
      ensures status == 0 ==> forall j :: 0 <= j < resources ==>
        state.available[j] >= 0 && state.allocation[customer][j] <= state.maximum[customer][j]
      ensures old(Bounded(state)) && NonNegative(request) ==> Bounded(state)
    {
      ghost var s0 := state;
      var valid := IsRequestValid(customer, request);
      if !valid {
        return -1;
      }
      AllocateResources(customer, request);
      AllocateBounded(s0, total, customer, request);
      var safe;
      ghost var passes;
      safe, passes := SystemInSafeState();
      if !safe {
        RollbackAllocation(customer, request);
        RollbackUndoesAllocate(s0, customer, request);
        return -1;
      }
      SafetyCheckImpliesSafe(state);
      return 0;
    }

    /** release_resources: each component is checked and applied in turn, so
        a release rejected at component k has already returned components
        0..k-1. Returns 0 when every component was applied, -1 otherwise. */
    method ReleaseResources(customer: nat, release: Vector) returns (status: int)
      requires Valid() && customer < customers && |release| == resources
      modifies this, available, allocation, need
      ensures Valid()
      ensures var k := FirstExcess(old(state), customer, release);
        (status == if k == resources then 0 else -1) &&
        state == ReleasePrefix(old(state), customer, release, k)
      ensures old(Bounded(state)) && NonNegative(release) ==> Bounded(state)
      ensures old(Bounded(state) && SafetyCheck(state)) && NonNegative(release) ==> SafetyCheck(state)
    {
      ghost var s0 := state;
      var j := 0;
      status := 0;
      while j < resources
        invariant j <= resources
        invariant forall k :: 0 <= k < j ==> release[k] <= s0.allocation[customer][k]
        invariant forall k :: 0 <= k < resources ==>
          available[k] == s0.available[k] + (if k < j then release[k] else 0) &&
          allocation[customer, k] == s0.allocation[customer][k] - (if k < j then release[k] else 0) &&
          need[customer, k] == s0.need[customer][k] + (if k < j then release[k] else 0)
        invariant forall d, k :: 0 <= d < customers && d != customer && 0 <= k < resources ==>
          allocation[d, k] == s0.allocation[d][k] && need[d, k] == s0.need[d][k]
      {
        if release[j] > allocation[customer, j] {
          status := -1;
          break;
        }
        available[j] := available[j] + release[j];
        allocation[customer, j] := allocation[customer, j] - release[j];
        need[customer, j] := need[customer, j] + release[j];
        j := j + 1;
      }
      FirstExcessIs(s0, customer, release, j);
      HoldsTransfer(s0, customer, Neg(Prefix(release, j)));
      state := ReleasePrefix(s0, customer, release, j);
      ReleasePrefixKeeps(s0, total, customer, release, j);
    }

    /** generate_random_request: draw[j] % (need + 1) for each resource,
        with draw the non-negative rand() results. */
    method GenerateRandomRequest(customer: nat, draw: Vector) returns (request: Vector)
      requires Valid() && customer < customers && |draw| == resources && NonNegative(draw)
      requires NonNegative(state.need[customer])
      ensures request == DrawUpTo(draw, state.need[customer])
      ensures forall j :: 0 <= j < resources ==> 0 <= request[j] <= need[customer, j]
    {
      request := [];
      for j := 0 to resources
        invariant request == DrawUpTo(draw, state.need[customer])[..j]
      {
        request := request + [draw[j] % (need[customer, j] + 1)];
      }
    }

    /** generate_random_release: draw[j] % (allocation + 1) for each
        resource. */
    method GenerateRandomRelease(customer: nat, draw: Vector) returns (release: Vector)
      requires Valid() && customer < customers && |draw| == resources && NonNegative(draw)
      requires NonNegative(state.allocation[customer])
      ensures release == DrawUpTo(draw, state.allocation[customer])
      ensures forall j :: 0 <= j < resources ==> 0 <= release[j] <= allocation[customer, j]
    {
      release := [];
      for j := 0 to resources
        invariant release == DrawUpTo(draw, state.allocation[customer])[..j]
      {
        release := release + [draw[j] % (allocation[customer, j] + 1)];
      }
    }

    /** One iteration of a customer's loop: a generated request, then a
        release generated from what the customer holds afterwards. The
        request is granted or refused as request_resources decides; the
        release, drawn within the customer's allocation, is always accepted
        and hands back exactly the released vector. */
    method CustomerStep(customer: nat, requestDraw: Vector, releaseDraw: Vector)
      returns (request: Vector, requestStatus: int, release: Vector, releaseStatus: int)
      requires Valid() && Bounded(state) && SafetyCheck(state) && customer < customers
      requires |requestDraw| == resources && NonNegative(requestDraw)
      requires |releaseDraw| == resources && NonNegative(releaseDraw)
      modifies this, available, allocation, need
      ensures Valid() && Bounded(state) && SafetyCheck(state)
      ensures NonNegative(old(state).need[customer]) && request == DrawUpTo(requestDraw, old(state).need[customer])
      ensures requestStatus == 0 || requestStatus == -1
      ensures requestStatus == 0 <==>
        RequestValid(old(state), customer, request) && SafetyCheck(Allocate(old(state), customer, request))
      ensures var granted := if requestStatus == 0 then Allocate(old(state), customer, request) else old(state);
        WellFormed(granted) && customer < Customers(granted) &&
        NonNegative(granted.allocation[customer]) &&
        release == DrawUpTo(releaseDraw, granted.allocation[customer]) &&
        state == Rollback(granted, customer, release)
      ensures releaseStatus == 0
    {
      ghost var s0 := state;
      assert NonNegative(state.need[customer]) by {
        forall j | 0 <= j < resources ensures state.need[customer][j] >= 0 {
          assert state.allocation[customer][j] <= state.maximum[customer][j];
        }
      }
      request := GenerateRandomRequest(customer, requestDraw);
      requestStatus := RequestResources(customer, request);
      ghost var granted := state;
      assert NonNegative(state.allocation[customer]) by {
        forall j | 0 <= j < resources ensures state.allocation[customer][j] >= 0 {
          assert 0 <= state.allocation[customer][j];
        }
      }
      release := GenerateRandomRelease(customer, releaseDraw);
      assert FirstExcess(state, customer, release) == resources;
      releaseStatus := ReleaseResources(customer, release);
      ReleaseAcceptedIsRollback(granted, customer, release);
    }
  }

  lemma FirstExcessIs(s: State, c: nat, release: Vector, k: nat)
    requires WellFormed(s) && c < Customers(s) && |release| == Resources(s) && k <= Resources(s)
    requires forall j :: 0 <= j < k ==> release[j] <= s.allocation[c][j]
    requires k < Resources(s) ==> release[k] > s.allocation[c][k]
    ensures FirstExcess(s, c, release) == k
  {
  }
}
