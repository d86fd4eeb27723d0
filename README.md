# Banker's algorithm allocator in Dafny

This project models the resource allocator in `bankersAlgorithm.c`. It is an
implementation of Dijkstra's Banker's algorithm. A fixed set of customers
shares a fixed pool of typed resources. Each customer declares a maximum
demand at start-up. A request is granted only when the state it leads to is
safe, that is, when some order exists in which every customer can obtain its
remaining need and then hand back all it holds.

The model has three modules:

- `BankState` (`state.dfy`) holds the shared state as a value:
  - the available vector and the maximum, allocation and need matrices;
  - the vector arithmetic of allocating, rolling back and releasing, all
    expressed as one `Transfer` of a vector from the available pool to a
    customer;
  - the invariants the allocator keeps: need = maximum - allocation, and each
    resource's total is conserved.
- `Safety` (`safety.dfy`) defines safety declaratively, as the existence of a
  safe sequence of customers. It also mirrors the greedy check of
  `system_in_safe_state` as functions: one pass over the customers, and passes
  repeated until a pass finishes nobody. It proves the greedy check sound, and
  complete when no allocation is negative.
- `Manager` (`manager.dfy`) is the allocator itself. The class
  `ResourceManager` keeps the globals of the C file as arrays that are updated
  in place, and has one method per routine. A ghost field `state` records
  which `BankState.State` the arrays hold. Every method that changes the
  arrays states its new `state` as a function of the old one.

The number of customers and resource types are constructor parameters. The C
file fixes them at 5 and 3. Request and release vectors are sequence values;
the C code passes thread-local arrays that never alias the globals.
`system_in_safe_state` has no `modifies` clause, so the verifier checks that
it only reads the shared state. It works on its own `work` and `finish`
arrays.

In two places the code does not do what a reader of the Banker's algorithm
might expect, and the model follows the code:

- Release is not atomic. `release_resources` checks and applies each
  component in the same loop. A release rejected at component k has already
  handed back components 0..k-1. The model reproduces this
  (`ReleasePrefix` up to `FirstExcess`). `BankState.RejectedReleaseChangesState`
  gives a concrete state in which a rejected release changes the state.
- Negative components are not rejected. Neither `is_request_valid` nor
  `release_resources` rejects a negative component. The model accepts them
  too. The invariants need = maximum - allocation and conservation hold
  whatever the sign. The bounds (available >= 0 and 0 <= allocation <=
  maximum) are proved preserved only for non-negative vectors.

## Model

| member | source | states |
|---|---|---|
| Manager.ResourceManager.constructor | bankersAlgorithm.c:202-221 | available holds the initial counts. Each maximum is the drawn value modulo the resource's count. Nothing is allocated and need equals maximum. The invariants and bounds hold, and the start-up state passes the safety check. |
| Manager.ResourceManager.CanFulfillNeed | bankersAlgorithm.c:55-61 | true exactly when every component of the customer's need is at most the matching work component |
| Manager.ResourceManager.ReleaseAllocation | bankersAlgorithm.c:63-67 | each work component grows by exactly the customer's allocation of that resource |
| Manager.ResourceManager.CopyAvailable | bankersAlgorithm.c:70-74 | a fresh work array equal to the available vector |
| Manager.ResourceManager.ScanCustomers | bankersAlgorithm.c:78-85 | the work array, the finish flags and the progress flag after one pass are those of `Safety.PassFrom` from the old work and flags |
| Manager.ResourceManager.EveryoneFinished | bankersAlgorithm.c:89-92 | true exactly when every finish flag is set |
| Manager.ResourceManager.SystemInSafeState | bankersAlgorithm.c:69-93 | the result equals `Safety.SafetyCheck` of the current state. The method changes no shared array and stops within customers + 1 passes. |
| Manager.ResourceManager.IsRequestValid | bankersAlgorithm.c:97-103 | true exactly when every request component is at most both the customer's need and the available amount |
| Manager.ResourceManager.AllocateResources | bankersAlgorithm.c:105-111 | the new state is `Allocate` of the old one: available shrinks by the request, the customer's allocation grows and its need shrinks by it. The invariants are kept. |
| Manager.ResourceManager.RollbackAllocation | bankersAlgorithm.c:113-119 | the new state is `Rollback` of the old one, the exact reverse of allocation. The invariants are kept. |
| Manager.ResourceManager.RequestResources | bankersAlgorithm.c:121-140 | 0 exactly when the request is valid and the allocated state passes the safety check, otherwise -1. On 0 the state is the allocated one; on -1 it is exactly the old state. A granted state has a safe sequence, available >= 0 and the customer within its maximum. Bounds are kept for a non-negative request. |
| Manager.ResourceManager.ReleaseResources | bankersAlgorithm.c:144-158 | with k the first component exceeding the customer's allocation, the result is 0 when k is the number of resources and -1 otherwise. The new state has exactly components 0..k-1 released. The invariants are kept. For a non-negative release, the bounds are kept, and a bounded state that passes the safety check still passes it. |
| Manager.ResourceManager.GenerateRandomRequest | bankersAlgorithm.c:162-166 | the request is `DrawUpTo` of the draw and the customer's need, so every component lies between 0 and the customer's need |
| Manager.ResourceManager.GenerateRandomRelease | bankersAlgorithm.c:168-172 | the release is `DrawUpTo` of the draw and the customer's allocation, so every component lies between 0 and the customer's allocation |
| Manager.ResourceManager.CustomerStep | bankersAlgorithm.c:179-196 | The request is drawn within the customer's need. Its status is 0 or -1, exactly as request_resources decides. The release is drawn within the allocation the customer holds afterwards and is always accepted. The final state is the granted (or unchanged) state with the release rolled back. The invariants, the bounds and the passing of the safety check are kept. |
| BankState.DrawUpTo | bankersAlgorithm.c:162-172 | each component of a generated vector lies between 0 and its bound when the draw is non-negative |
| BankState.FirstExcess | bankersAlgorithm.c:146-150 | the index where the release loop stops: every earlier component fits the allocation and, if before the end, this one exceeds it |
| BankState.TransferConsistent | bankersAlgorithm.c:105-119 | moving any vector between the pool and a customer keeps need = maximum - allocation and each resource's total |
| BankState.AllocateConsistent | bankersAlgorithm.c:105-111 | allocation keeps the invariants |
| BankState.RollbackConsistent | bankersAlgorithm.c:113-119 | rollback keeps the invariants |
| BankState.ReleasePrefixConsistent | bankersAlgorithm.c:144-158 | releasing any prefix, including the partial one of a rejected release, keeps the invariants |
| BankState.TransferCompose | bankersAlgorithm.c:105-119 | two transfers to one customer add up to a single transfer of the sum |
| BankState.RollbackUndoesAllocate | bankersAlgorithm.c:129-134 | rollback after allocation of the same request restores the state exactly |
| BankState.AllocateFrame | bankersAlgorithm.c:105-111 | allocation leaves the other customers' rows and all maximum demands unchanged |
| BankState.AllocateBounded | bankersAlgorithm.c:97-111 | after a validated allocation, available >= 0 and the customer's allocation is at most its maximum. A non-negative request keeps all bounds. |
| BankState.ReleasePrefixBounded | bankersAlgorithm.c:144-158 | releasing a non-negative vector up to its first excessive component keeps all bounds |
| BankState.ReleaseRejectedAtFirst | bankersAlgorithm.c:146-149 | a release rejected at its first component leaves the state unchanged |
| BankState.ReleaseAcceptedIsRollback | bankersAlgorithm.c:144-158 | a release accepted in full hands back exactly the released vector |
| BankState.RejectedReleaseChangesState | bankersAlgorithm.c:146-153 | one customer holds (1, 0) and releases (1, 1). The release is rejected at component 1, yet available and allocation have already changed. |
| BankState.InitialConsistent | bankersAlgorithm.c:208-221 | the start-up state is consistent and bounded, and each maximum demand is below its resource's count |
| Safety.PassMonotone | bankersAlgorithm.c:78-85 | within a pass, the finished set only grows. A pass that finishes somebody raises the count of finished customers; one that finishes nobody changes nothing. With non-negative allocations, work never decreases. |
| Safety.PassProgress | bankersAlgorithm.c:77-87 | a whole pass either finishes a new customer or leaves the finish flags unchanged |
| Safety.SafetyCheckSound | bankersAlgorithm.c:69-93 | when the check succeeds, the lemma returns a safe sequence |
| Safety.SafetyCheckImpliesSafe | bankersAlgorithm.c:69-93 | a state that passes the check has a safe sequence |
| Safety.SafetyCheckComplete | bankersAlgorithm.c:69-93 | with non-negative allocations, a state with a safe sequence passes the check |
| Safety.SafetyCheckCorrect | bankersAlgorithm.c:69-93 | with non-negative allocations, the check succeeds exactly when a safe sequence exists |
| Safety.AllFitSafe | bankersAlgorithm.c:69-93 | with non-negative allocations, when every need fits the available vector, customers in ascending order form a safe sequence, and the check succeeds |
| Safety.AllFitFirstPass | bankersAlgorithm.c:78-85 | with non-negative allocations, when every need fits the available vector, the first pass finishes every customer |
| Safety.PassFinishesFitting | bankersAlgorithm.c:79-85 | with non-negative allocations, any customer at or after position i whose need fits the current work vector is finished by the rest of the pass |
| Safety.GatheredTransfer | bankersAlgorithm.c:144-158 | moving a vector to customer c changes the summed allocation of a list of distinct customers by that vector exactly when c is in the list |
| Safety.ReleaseKeepsSafeSequence | bankersAlgorithm.c:144-158 | a safe sequence stays a safe sequence after any prefix of a non-negative release |
| Safety.ReleaseKeepsSafety | bankersAlgorithm.c:144-158 | a non-negative release from a bounded state that passes the safety check leaves a state that passes it, whichever prefix was applied. This is why release needs no safety check. |
| Safety.ReleasePrefixKeeps | bankersAlgorithm.c:144-158 | whatever prefix a release applies, the invariants are kept. For a non-negative release the bounds are kept, and so is safety from a bounded safe state. |
| Safety.CompletenessNeedsNonNegative | bankersAlgorithm.c:69-93 | a state with a negative allocation that has a safe sequence, yet the greedy check rejects it |
| Safety.InitialSafe | bankersAlgorithm.c:208-221 | the state set up at start-up passes the safety check |

## Left out

- Threads and the mutex are not modelled. Each locked section (request, release, generating a vector) is one sequential method, so the model is the sequential order the lock enforces.
- Manager.ResourceManager.CustomerStep: models one iteration of a customer's endless loop. The generator reads and the request or release that follows run with nothing in between. In the source, another thread may run in that gap. Only customer c's own thread writes row c (`allocate_resources`, `rollback_allocation` and `release_resources` touch only the row of `customer_num`), so only `available` can change in the gap. The drawn vector therefore still lies within the customer's need or allocation when it is submitted, and the release is always accepted in the source too.
- The `sleep` between request and release is not modelled, nor the printing routines (`print_system_state`, `print_request_result`, `print_release_result` and the output of `define_demand_of_customers`).
- `main`, `init_threads`, argument counting, `atoi` and `exit` are not modelled. The initial counts are a constructor parameter.
- `rand()` is not modelled. Its results are parameters (`draw`, `requestDraw`, `releaseDraw`) that are assumed non-negative.
- 32-bit `int` overflow is not modelled. Integers are unbounded.
- Manager.ResourceManager.constructor: requires every initial count to be positive. `rand() % 0` is undefined in C, and negative counts from `atoi` are excluded.
- Manager.ResourceManager.GenerateRandomRequest: requires the customer's need to be non-negative, which holds in every bounded state. For a need of -1 the source divides by zero.
- Manager.ResourceManager.GenerateRandomRelease: requires the customer's allocation to be non-negative, for the same reason.
- Manager.ResourceManager.RequestResources: bounds are proved preserved only for a non-negative request. The source does not reject negative components.
- Manager.ResourceManager.ReleaseResources: bounds are proved preserved only for a non-negative release, for the same reason.
- Manager.ResourceManager.SystemInSafeState: its contract ties the result to `Safety.SafetyCheck`. That this decides the existence of a safe sequence is proved separately in `Safety.SafetyCheckCorrect`.
- Safety.SafetyCheckComplete: requires every allocation to be non-negative, and this hypothesis is necessary. With a negative allocation the greedy check can reject a state that has a safe sequence; `Safety.CompletenessNeedsNonNegative` gives one. `is_request_valid` accepts negative components, so the C code can reach such states.
- Safety.AllFitSafe, Safety.AllFitFirstPass, Safety.PassFinishesFitting: require non-negative allocations for the same reason.
