# Emergency hospital routing: a verified model of the routing-and-admission core

This project models the core of a small emergency dispatch system. A city has
areas and hospitals, and a matrix holds the lengths of the routes between them.
Each hospital has a pool of numbered beds.

When an accident is reported in an area, the patient goes into a priority
queue. The queue is ordered by severity, then by patient id. Patients are then
taken off the queue one at a time. For each one the system does three things:

- It computes shortest distances from the patient's area with the quadratic
  form of Dijkstra's algorithm.
- It picks the nearest hospital that has a free bed. Ties go to the lowest
  hospital index.
- It takes the first free bed of that hospital.

The model has four modules, one per part of the core:

- `Beds` (`beds.dfy`): the bed pool of one hospital.
  - A `Hospital` class holds its beds in an array, in list order, and allocation
    updates that array in place.
  - Two specification functions describe the pool: `FreeCount` and `FirstFree`.
  - The methods are proved against those functions. The lemmas relate
    allocation to the count.
- `CityGraph` (`city_graph.dfy`): the route matrix and Dijkstra's algorithm.
  - The loader's matrix build is proved symmetric, with finite entries only
    between an area and a hospital.
  - `ShortestDistances` is proved against `IsShortestDistances`. That predicate
    bounds every entry to the range 0..INF. It makes every entry at most the
    weight of every path from the source. It requires every finite entry to be
    the weight of some path.
  - The distances are unique, and the source sits at 0.
- `Routing` (`routing.dfy`): the city network as the loader builds it, the
  scan that selects a hospital, and their composition,
  `DijkstraShortestToHosp`.
  - The selection policy is a predicate, `IsSelection`, proved deterministic.
  - The selected hospital is proved to have a free bed, so allocating a bed
    there right after the selection cannot fail.
- `PatientQueue` (`patient_queue.dfy`): the binary min-heap of patients in a
  growable array.
  - `Push` and `Pop` are proved to keep heap order.
  - `Push` adds exactly the pushed patient and doubles the capacity when the
    array is full.
  - `Pop` removes exactly one patient, and that patient goes no later than any
    other waiting patient.
  - Draining the queue yields its contents in (severity, id) order.

Distances and bed numbers are unbounded integers. `CityGraph.Relax` proves that
every sum it forms stays below 2^31, so the C `int` additions of the algorithm
cannot overflow.

## Model

| member | source | states |
|---|---|---|
| Beds.FreeCount | smart_hospital.c:169-174 | the free count is at most the pool size; it is 0 exactly when every bed is occupied and the pool size exactly when every bed is free |
| Beds.FirstFree | smart_hospital.c:159-167 | the bed allocation takes is free and every bed before it is occupied; -1 exactly when every bed is occupied |
| Beds.OccupyLowersFreeCount | smart_hospital.c:159-174 | occupying one free bed lowers the free count by exactly one |
| Beds.MarkedPrefixFreeCount | smart_hospital.c:42-46 | after the first m beds are marked occupied, the free beds are exactly the free beds after position m |
| Beds.FreeBedExistsIffPositive | smart_hospital.c:159-174 | the free count is positive exactly when allocation finds a bed |
| Beds.Hospital.constructor | smart_hospital.c:137-148 | records the total and creates beds numbered 1..total in ascending list order, all free, so the free count is max(total, 0) |
| Beds.Hospital.MarkFirstOccupied | smart_hospital.c:42-46 | the first MarkCount(occ) beds become occupied, every other bed is unchanged, and the free count becomes that of the unmarked tail |
| Beds.Hospital.AllocateBed | smart_hospital.c:159-167 | occupies only the first free bed and returns its number, with every other bed unchanged and the free count down by one; returns -1 and changes nothing exactly when no bed is free |
| Beds.Hospital.FreeBedCount | smart_hospital.c:169-174 | returns the free count of the pool, between 0 and the pool size |
| CityGraph.BuildAdjacency | smart_hospital.c:64-81 | a fresh (A+H)x(A+H) matrix; area i and hospital node A+j both hold d[i][j], every other entry is INF, and the matrix is symmetric |
| CityGraph.WeightNonNegative | smart_hospital.c:193-197 | with non-negative routes every path has non-negative weight |
| CityGraph.ExtendPath | smart_hospital.c:193-197 | a path extended by one recorded route (entry below INF) is a path whose weight grows by that route |
| CityGraph.ShortestDistancesUnique | smart_hospital.c:177-198 | two distance tables that both meet the shortest-distance specification are equal |
| CityGraph.SourceAtZero | smart_hospital.c:182-183 | the source area is at distance 0 |
| CityGraph.DirectRouteBound | smart_hospital.c:193-197 | a node with a recorded route from the source is no farther than that route |
| CityGraph.FirstUnvisitedBound | smart_hospital.c:185-191 | every path from the source to an unvisited node passes a first unvisited node whose tentative distance is at most the path's weight |
| CityGraph.SelectedIsSettled | smart_hospital.c:186-191 | the unvisited node of least finite tentative distance already has its shortest distance |
| CityGraph.RelaxKeepsSettled | smart_hospital.c:193-197 | relaxing the routes of a settled node keeps every settled node's distance |
| CityGraph.RelaxedWitness | smart_hospital.c:193-197 | a node whose distance dropped through u is reached by u's path extended to it, any other finite node by its old path, each of weight equal to its new distance |
| CityGraph.RelaxKeepsWitnesses | smart_hospital.c:193-197 | after relaxation every finite tentative distance is still the weight of some path from the source |
| CityGraph.RelaxKeepsVisited | smart_hospital.c:191-197 | after relaxation every visited node has had its routes relaxed, including the node just visited |
| CityGraph.VisitPreserves | smart_hospital.c:185-197 | one round (select, mark visited, relax) keeps the loop invariant of the algorithm |
| CityGraph.InitialInvariant | smart_hospital.c:182-183 | the initial table (0 at the source, INF elsewhere, nothing visited) meets the loop invariant |
| CityGraph.Finish | smart_hospital.c:185-190 | when no unvisited node has a finite distance, or every node is visited, the table meets the shortest-distance specification |
| CityGraph.FinishAllVisited | smart_hospital.c:184-198 | when the outer loop has visited all N nodes, the table meets the shortest-distance specification |
| CityGraph.SelectMin | smart_hospital.c:186-188 | returns an unvisited node of least finite tentative distance, the lowest index among equals; -1 exactly when every unvisited node is at INF |
| CityGraph.Relax | smart_hospital.c:193-197 | each node's distance becomes the smaller of its old distance and the distance through u, for each route below INF (the body also proves that every sum it forms stays below 2^31) |
| CityGraph.Visit | smart_hospital.c:191-197 | marks u visited and nothing else, and the new table is the old one relaxed through u, keeping the loop invariant |
| CityGraph.InitialDistances | smart_hospital.c:181-182 | a fresh table of N entries, 0 at the source and INF at every other node |
| CityGraph.ShortestDistances | smart_hospital.c:177-198 | every distance lies in 0..INF and is at most the weight of every path from the source; every finite distance is the weight of some path, so unreachable nodes stay at INF |
| Routing.SelectionIsUnique | smart_hospital.c:200-207 | the selection policy allows exactly one outcome for given free counts and distances |
| Routing.ScanStep | smart_hospital.c:201-206 | looking at hospital h keeps the scan invariant: the best so far is the nearest eligible hospital among those seen, the first such on ties, and it changes to h exactly when h has a free bed and is strictly nearer |
| Routing.ScanDone | smart_hospital.c:200-213 | after every hospital is seen, best -1 is the NotFound outcome and any other best is the selection, at its distance |
| Routing.SelectedHospitalHasFreeBed | smart_hospital.c:200-213 | the selected hospital has a free bed, so allocation there right after the selection cannot return -1 |
| Routing.SelectHospital | smart_hospital.c:200-213 | NotFound exactly when no hospital has both a free bed and a finite distance; otherwise such a hospital at its own distance, no farther than any other, and strictly nearer than each such hospital of lower index |
| Routing.LoadHospital | smart_hospital.c:40-46 | a fresh pool of the recorded total whose first MarkCount(occ) beds are occupied and the rest free |
| Routing.LoadHospitals | smart_hospital.c:34-47 | hospital k has id k, the name and total of record k, and its own pool with the first MarkCount(occ) beds occupied |
| Routing.CityNetwork.Load | smart_hospital.c:31-81 | the loaded network has the recorded hospitals and pools, area k with id k, and the symmetric route matrix from the distance table |
| Routing.DijkstraShortestToHosp | smart_hospital.c:177-214 | the result is the selection over the true shortest distances from the area; a found hospital is in range, has a free bed and is at a finite distance |
| PatientQueue.PatientCmp | smart_hospital.c:228-231 | -1 exactly when the first patient goes strictly before the second by (severity, id), 1 otherwise, including for equal keys |
| PatientQueue.CmpAntisymmetric | smart_hospital.c:228-231 | on different keys the comparison gives opposite answers in the two directions |
| PatientQueue.CmpEqualKeys | smart_hospital.c:230 | with equal severity and id the comparison answers 1 in both directions |
| PatientQueue.Parent | smart_hospital.c:265 | the parent slot comes before the slot, which is one of its two children |
| PatientQueue.NotAfterTransitive | smart_hospital.c:228-231 | the non-strict queue order is transitive |
| PatientQueue.RootNotAfter | smart_hospital.c:274-275 | in a heap-ordered array the root goes no later than any slot |
| PatientQueue.RootIsMinimum | smart_hospital.c:274-275 | the root of a non-empty heap goes no later than any element of its contents |
| PatientQueue.PriorityQueue.constructor | smart_hospital.c:239-247 | an empty queue with capacity `cap`, or 8 when 0 is asked for |
| PatientQueue.PriorityQueue.Grow | smart_hospital.c:259-262 | a new array of twice the capacity holding the same waiting patients in the same slots |
| PatientQueue.PriorityQueue.Push | smart_hospital.c:257-272 | size grows by one, the contents gain exactly the patient, heap order holds, and the capacity doubles exactly when the array was full |
| PatientQueue.PriorityQueue.PutLast | smart_hospital.c:263-270 | the patient goes into the first unused slot and is sifted up: size up by one, contents plus exactly the patient, heap order kept, same array |
| PatientQueue.AppendLeaf | smart_hospital.c:263-264 | a patient placed after the last slot of a heap breaks heap order at most on its own parent link |
| PatientQueue.SiftUpDone | smart_hospital.c:265-267 | when the slot is the root or its parent does not go after it, the array is heap-ordered |
| PatientQueue.PriorityQueue.SiftUp | smart_hospital.c:265-270 | from "heap except at slot i" the loop reaches heap order with the same contents |
| PatientQueue.SiftUpStep | smart_hospital.c:265-270 | one swap of a slot with a parent that does not go strictly first keeps the sift-up invariant one level higher |
| PatientQueue.PriorityQueue.Pop | smart_hospital.c:274-290 | None and no change on an empty queue; otherwise the old root, which goes no later than any waiting patient, with size down by one, contents minus exactly that patient, and heap order kept |
| PatientQueue.PriorityQueue.TakeRoot | smart_hospital.c:276-289 | on a non-empty queue returns the old root, which goes no later than any waiting patient; size down by one, contents minus exactly that patient, heap order kept |
| PatientQueue.PriorityQueue.MoveLastToRoot | smart_hospital.c:277 | the last patient overwrites the root and the size drops by one, so the contents lose exactly the old root and heap order can fail only below the root |
| PatientQueue.RemoveRootContents | smart_hospital.c:276 | moving the last element to the root and dropping the last slot removes exactly the old root |
| PatientQueue.PriorityQueue.SiftDown | smart_hospital.c:277-288 | from "heap except below slot i" the loop reaches heap order with the same contents |
| PatientQueue.PriorityQueue.SmallestOfFamily | smart_hospital.c:280-284 | the slot itself, or a child of it that goes strictly before it and no later than its sibling; the slot itself only when no child goes strictly before it |
| PatientQueue.PriorityQueue.SwapWithChild | smart_hospital.c:286-287 | swapping a slot with its child that goes first moves the sift-down invariant to the child's slot and keeps the contents |
| PatientQueue.SiftDownStep | smart_hospital.c:278-287 | one swap with the child that goes strictly first keeps the sift-down invariant one level lower |
| PatientQueue.SiftDownDone | smart_hospital.c:284 | when no child goes strictly before slot i the array is heap-ordered |
| PatientQueue.SwapContents | smart_hospital.c:233-237 | swapping two slots keeps the contents |
| PatientQueue.PqCreate | smart_hospital.c:239-247 | a fresh empty queue of capacity `cap`, or 8 for 0 |
| PatientQueue.PqPush | smart_hospital.c:257-272 | -1 and no change exactly when the queue or the patient is missing; otherwise 0 and a push: size up by one, contents plus exactly the patient, heap order kept, capacity doubled exactly when the array was full |
| PatientQueue.PqPop | smart_hospital.c:274-275 | None for a missing or empty queue; otherwise a minimal waiting patient, removed |
| PatientQueue.PqIsEmpty | smart_hospital.c:292-294 | true exactly when the queue is missing or holds no patients |
| PatientQueue.DrainStep | main.c:75-80 | appending the popped minimum keeps the drained patients in queue order and every patient accounted for |
| PatientQueue.Drain | main.c:75-80 | popping until empty yields exactly the waiting patients, in (severity, id) order |

## Left out

- File reading and writing in `load_database` and `save_database` are not modelled. This covers the token checks, `fscanf` and `fprintf`, the underscore/space encoding of names, and the save-time collapse of infinite distances to 0. Only the in-memory steps are modelled: pool creation, marking occupied beds, area numbering and the matrix build.
- Routing.CityNetwork.Load: takes the area-by-hospital table as complete. A number missing from the file leaves INF at both of its places, the same as reading INF.
- Routing.CityNetwork.Load: keeps names as given. Truncation to 63 characters is not modelled.
- `display_routes_map`, `display_hospital_matrix` and the rest of the printing are output only.
- `main.c` is modelled only through the drain loop, `Drain`.
- `process_patient` calls routing, then `AllocateBed` on the chosen hospital, and prints the outcome. Only the printing is not modelled. Its guarantee that this allocation cannot fail is `SelectedHospitalHasFreeBed` together with `AllocateBed`'s contract.
- `create_patient` builds a patient record; the `Patient` datatype stands for its result. Its allocation failure (NULL) and its name handling are not modelled: the "Anon" default for a missing name and the copy cut to 63 characters.
- The menu and the `scanf`/`fgets` input of `interactive_report` are interactive I/O.
- Memory management is not modelled: `safe_malloc`'s exit on failure, the unchecked `malloc`/`calloc`/`realloc` results, `hospital_free_beds`, `free_city_network` and `pq_free`.
- PatientQueue.PqCreate: always succeeds. Allocation failure, which returns NULL in the source, is not modelled.
- PatientQueue.PriorityQueue.Push: `size_t` overflow of the doubled capacity is not modelled.
- The queue holds patient records by value. The source holds pointers, so aliasing between queued patients and the caller's records is not captured.
- CityGraph.ShortestDistances: requires every matrix entry to be non-negative. Entries at or above INF are non-edges, exactly as the source's `w < INF_DIST` test treats them. Negative routes are outside the algorithm's contract.
- Routing.DijkstraShortestToHosp: requires `0 <= areaIdx < numAreas`. Neither the routing function nor its only caller, `process_patient`, checks the index, which comes from the patient's area. The range check is in `interactive_report` (main.c:58), before the patient is created and queued.
- `MAX_HOSPITALS` and `MAX_AREAS` are declared but never enforced, so the model has no such bounds.
