/**
 * Routing: the city network (hospitals with their bed pools, areas, and the
 * route matrix), the in-memory half of loading it, and the choice of the
 * nearest hospital that still has a free bed.
 */
module Routing {
  import opened Beds
  import opened CityGraph

  /** One area of the city. */
  datatype Area = Area(id: int, name: string)

  /** One hospital line of a saved snapshot: its name, its bed total and how many beds were occupied. */
  datatype HospitalRecord = HospitalRecord(name: string, totalBeds: int, occupied: int)

  /** The outcome of hospital selection: the chosen hospital and its distance, or none. */
  datatype Selection = NotFound | Found(hospital: int, distance: int)

  /** Hospital h can take the patient: it has a free bed and a finite distance. */
  predicate Eligible(free: seq<int>, dist: seq<int>, numAreas: nat, h: int)
    requires |dist| == numAreas + |free| && 0 <= h < |free|
  {
    free[h] > 0 && dist[numAreas + h] < INF
  }

  /**
   * The selection policy.  NotFound exactly when no hospital is eligible;
   * otherwise an eligible hospital at its own distance, no farther than any
   * other eligible hospital, and strictly nearer than every eligible
   * hospital with a lower index (ties go to the lowest index).
   */
  predicate IsSelection(free: seq<int>, dist: seq<int>, numAreas: nat, sel: Selection)
    requires |dist| == numAreas + |free|
  {
    match sel
    case NotFound =>
      forall h :: 0 <= h < |free| ==> !Eligible(free, dist, numAreas, h)
    case Found(b, bd) =>
      0 <= b < |free| && Eligible(free, dist, numAreas, b) && bd == dist[numAreas + b] &&
      (forall h :: 0 <= h < |free| && Eligible(free, dist, numAreas, h) ==> bd <= dist[numAreas + h]) &&
      (forall h :: 0 <= h < b && Eligible(free, dist, numAreas, h) ==> bd < dist[numAreas + h])
  }

  /** The policy is deterministic: the same free counts and distances allow one selection only. */
  lemma SelectionIsUnique(free: seq<int>, dist: seq<int>, numAreas: nat, s1: Selection, s2: Selection)
    requires |dist| == numAreas + |free|
    requires IsSelection(free, dist, numAreas, s1) && IsSelection(free, dist, numAreas, s2)
    ensures s1 == s2
  {
    if s1.Found? && s2.Found? {
      var b1, b2 := s1.hospital, s2.hospital;
      assert Eligible(free, dist, numAreas, b1) && Eligible(free, dist, numAreas, b2);
      assert b1 == b2;
    }
  }

  /** The free count of every hospital, in hospital order. */
  ghost function FreeCounts(hospitals: seq<Hospital>): (free: seq<int>)
    reads set h | h in hospitals :: h.beds
  {
    seq(|hospitals|, h requires 0 <= h < |hospitals| reads set x | x in hospitals :: x.beds => FreeCount(hospitals[h].beds[..]))
  }

  /**
   * The selected hospital has a free bed, so allocating a bed there right
   * after the selection cannot fail.
   */
  lemma SelectedHospitalHasFreeBed(hospitals: seq<Hospital>, dist: seq<int>, numAreas: nat, sel: Selection)
    requires |dist| == numAreas + |hospitals|
    requires IsSelection(FreeCounts(hospitals), dist, numAreas, sel) && sel.Found?
    ensures 0 <= sel.hospital < |hospitals|
    ensures 0 <= FirstFree(hospitals[sel.hospital].beds[..])
  {
    assert Eligible(FreeCounts(hospitals), dist, numAreas, sel.hospital);
    FreeBedExistsIffPositive(hospitals[sel.hospital].beds[..]);
  }

  /**
   * The state of the selection scan after hospitals 0..h-1: best is -1 (with
   * bestDist at INF) when none of them is eligible; otherwise best is the
   * selection among them and bestDist its distance.
   */
  predicate ScanInvariant(free: seq<int>, dist: seq<int>, numAreas: nat, h: int, best: int, bestDist: int)
    requires |dist| == numAreas + |free| && 0 <= h <= |free|
  {
    -1 <= best < h &&
    (best == -1 ==> bestDist == INF && forall k :: 0 <= k < h ==> !Eligible(free, dist, numAreas, k)) &&
    (best >= 0 ==>
       Eligible(free, dist, numAreas, best) && bestDist == dist[numAreas + best] &&
       (forall k :: 0 <= k < h && Eligible(free, dist, numAreas, k) ==> bestDist <= dist[numAreas + k]) &&
       (forall k :: 0 <= k < best && Eligible(free, dist, numAreas, k) ==> bestDist < dist[numAreas + k]))
  }

  /** One step of the scan: hospital h replaces the best so far exactly when it has a free bed and is strictly nearer. */
  lemma ScanStep(free: seq<int>, dist: seq<int>, numAreas: nat, h: int, best: int, bestDist: int)
    requires |dist| == numAreas + |free| && 0 <= h < |free|
    requires ScanInvariant(free, dist, numAreas, h, best, bestDist)
    ensures var take := free[h] > 0 && dist[numAreas + h] < bestDist;
      ScanInvariant(free, dist, numAreas, h + 1,
                    if take then h else best, if take then dist[numAreas + h] else bestDist)
  {
  }

  /** A scan over every hospital has made the selection. */
  lemma ScanDone(free: seq<int>, dist: seq<int>, numAreas: nat, best: int, bestDist: int)
    requires |dist| == numAreas + |free|
    requires ScanInvariant(free, dist, numAreas, |free|, best, bestDist)
    ensures IsSelection(free, dist, numAreas, if best == -1 then NotFound else Found(best, bestDist))
  {
  }

  /**
   * The scan over hospitals after the distances are known: keeps the first
   * hospital with a free bed and a strictly smaller distance than the best
   * so far, starting from INF.
   */
  method SelectHospital(hospitals: seq<Hospital>, numAreas: nat, dist: seq<int>) returns (sel: Selection)
    requires |dist| == numAreas + |hospitals|
    ensures IsSelection(FreeCounts(hospitals), dist, numAreas, sel)
  {
    ghost var free := FreeCounts(hospitals);
    var best, bestDist := -1, INF;
    var h := 0;
    while h < |hospitals|
      invariant 0 <= h <= |hospitals|
      invariant ScanInvariant(free, dist, numAreas, h, best, bestDist)
    {
      var node := numAreas + h;
      var freeBeds := hospitals[h].FreeBedCount();
      ScanStep(free, dist, numAreas, h, best, bestDist);
      if freeBeds > 0 && dist[node] < bestDist {
        bestDist := dist[node];
        best := h;
      }
      h := h + 1;
    }
    ScanDone(free, dist, numAreas, best, bestDist);
    if best == -1 {
      sel := NotFound;
    } else {
      sel := Found(best, bestDist);
    }
  }

  /**
   * Hospital `h` is what the loader makes of a record: a valid pool with the
   * given index, the record's name and total, and its first `occupied` beds
   * (clamped to the pool) taken, the rest free.
   */
  ghost predicate LoadedFrom(h: Hospital, id: int, record: HospitalRecord)
    reads h, h.beds
  {
    h.Valid() && h.id == id && h.name == record.name && h.totalBeds == record.totalBeds &&
    (forall j :: 0 <= j < h.beds.Length ==>
       h.beds[j].occupied == (j < MarkCount(record.occupied, h.beds.Length))) &&
    FreeCount(h.beds[..]) == h.beds.Length - MarkCount(record.occupied, h.beds.Length)
  }

  /**
   * One hospital line of the loader: a fresh pool of the recorded total,
   * whose first `occupied` beds (clamped to the pool) are then marked taken.
   */
  method LoadHospital(id: int, record: HospitalRecord) returns (h: Hospital)
    ensures fresh(h) && fresh(h.beds)
    ensures h.Valid() && h.id == id && h.name == record.name && h.totalBeds == record.totalBeds
    ensures forall j :: 0 <= j < h.beds.Length ==>
      h.beds[j].occupied == (j < MarkCount(record.occupied, h.beds.Length))
    ensures FreeCount(h.beds[..]) == h.beds.Length - MarkCount(record.occupied, h.beds.Length)
  {
    h := new Hospital(id, record.name, record.totalBeds);
    ghost var initial := h.beds[..];
    ghost var m := MarkCount(record.occupied, h.beds.Length);
    assert forall j :: 0 <= j < |initial[m..]| ==> !initial[m..][j].occupied;
    h.MarkFirstOccupied(record.occupied);
  }

  /** The hospital half of the loader: hospital k is loaded from record k, each with its own fresh pool. */
  method LoadHospitals(records: seq<HospitalRecord>) returns (hs: seq<Hospital>)
    ensures |hs| == |records|
    ensures forall k :: 0 <= k < |hs| ==> fresh(hs[k]) && fresh(hs[k].beds)
    ensures forall k, k' :: 0 <= k < k' < |hs| ==> hs[k].beds != hs[k'].beds
    ensures forall k :: 0 <= k < |hs| ==> LoadedFrom(hs[k], k, records[k])
  {
    hs := [];
    var i := 0;
    while i < |records|
      invariant 0 <= i <= |records| && |hs| == i
      invariant forall k :: 0 <= k < i ==> fresh(hs[k]) && fresh(hs[k].beds)
      invariant forall k, k' :: 0 <= k < k' < i ==> hs[k].beds != hs[k'].beds
      invariant forall k :: 0 <= k < i ==> LoadedFrom(hs[k], k, records[k])
    {
      var h := LoadHospital(i, records[i]);
      hs := hs + [h];
      i := i + 1;
    }
  }

  /**
   * The city network as the loader leaves it: hospitals h = 0..H-1 (graph
   * node numAreas + h), areas a = 0..A-1 (graph node a), and the symmetric
   * route matrix over all A + H nodes.
   */
  class CityNetwork {
    const hospitals: seq<Hospital>
    const areas: seq<Area>
    const numHospitals: nat
    const numAreas: nat
    const adj: array2<int>

    ghost predicate Valid()
      reads this, adj, set h | h in hospitals :: h, set h | h in hospitals :: h.beds
    {
      |hospitals| == numHospitals && |areas| == numAreas &&
      adj.Length0 == adj.Length1 == numAreas + numHospitals &&
      (forall h :: 0 <= h < numHospitals ==> hospitals[h].Valid() && hospitals[h].id == h) &&
      (forall h, k :: 0 <= h < k < numHospitals ==> hospitals[h].beds != hospitals[k].beds) &&
      (forall a :: 0 <= a < numAreas ==> areas[a].id == a)
    }

    /**
     * The in-memory half of loading a snapshot: each hospital gets a fresh
     * pool of its total, with its first `occupied` beds marked taken; each
     * area gets its index; the route matrix is built from the
     * area-by-hospital distance table d.
     */
    constructor Load(records: seq<HospitalRecord>, areaNames: seq<string>, d: seq<seq<int>>)
      requires |d| == |areaNames| && forall i :: 0 <= i < |d| ==> |d[i]| == |records|
      ensures Valid() && fresh(adj)
      ensures numHospitals == |records| && numAreas == |areaNames|
      ensures forall h :: 0 <= h < numHospitals ==> fresh(hospitals[h]) && fresh(hospitals[h].beds)
      ensures forall h :: 0 <= h < numHospitals ==> LoadedFrom(hospitals[h], h, records[h])
      ensures forall a :: 0 <= a < numAreas ==> areas[a] == Area(a, areaNames[a])
      ensures forall r, c :: 0 <= r < adj.Length0 && 0 <= c < adj.Length1 ==>
        adj[r, c] == AdjacencyEntry(numAreas, numHospitals, d, r, c)
      ensures Symmetric(adj)
    {
      var hs := LoadHospitals(records);
      var areaList: seq<Area> := [];
      var a := 0;
      while a < |areaNames|
        invariant 0 <= a <= |areaNames| && |areaList| == a
        invariant forall k :: 0 <= k < a ==> areaList[k] == Area(k, areaNames[k])
      {
        areaList := areaList + [Area(a, areaNames[a])];
        a := a + 1;
      }

      var m := BuildAdjacency(|areaNames|, |records|, d);
      hospitals := hs;
      areas := areaList;
      numHospitals := |records|;
      numAreas := |areaNames|;
      adj := m;
    }
  }

  /**
   * Routing for a patient reported in area areaIdx: shortest distances from
   * that area, then the nearest hospital with a free bed.  Nothing in the
   * network changes.
   */
  method DijkstraShortestToHosp(net: CityNetwork, areaIdx: int) returns (sel: Selection)
    requires net.Valid() && NonNegative(net.adj)
    requires 0 <= areaIdx < net.numAreas
    ensures exists dist ::
              IsShortestDistances(net.adj, areaIdx, dist) &&
              |dist| == net.numAreas + net.numHospitals &&
              IsSelection(FreeCounts(net.hospitals), dist, net.numAreas, sel)
    ensures sel.Found? ==>
              0 <= sel.hospital < net.numHospitals &&
              FreeCount(net.hospitals[sel.hospital].beds[..]) > 0 &&
              0 <= sel.distance < INF
  {
    var dist := ShortestDistances(net.adj, areaIdx);
    sel := SelectHospital(net.hospitals, net.numAreas, dist);
    if sel.Found? {
      assert Eligible(FreeCounts(net.hospitals), dist, net.numAreas, sel.hospital);
    }
  }
}
