/**
 * The bed pool of one hospital.  The beds of a hospital are numbered
 * 1..total and are kept in that order; each is either free or occupied.
 * Allocation always takes the first free bed in that order, and the number
 * of free beds is recounted by a scan every time it is asked for.
 */
module Beds {

  /** One bed slot: its number within its hospital and whether it is taken. */
  datatype Bed = Bed(id: int, occupied: bool)

  /** The number of beds that the pool creates for a requested total (none for a negative total). */
  function PoolSize(total: int): nat
  {
    if total < 0 then 0 else total
  }

  /** How many beds the loader marks occupied: `occ`, clamped to the range 0..n. */
  function MarkCount(occ: int, n: nat): nat
  {
    if occ <= 0 then 0 else if occ < n then occ else n
  }

  /** The number of free beds in `s`. */
  function FreeCount(s: seq<Bed>): (c: nat)
    ensures c <= |s|
    ensures c == 0 <==> forall k :: 0 <= k < |s| ==> s[k].occupied
    ensures c == |s| <==> forall k :: 0 <= k < |s| ==> !s[k].occupied
  {
    if s == [] then 0 else (if s[0].occupied then 0 else 1) + FreeCount(s[1..])
  }

  /**
   * The position of the first free bed of `s`, or -1 when every bed is taken:
   * the bed that allocation hands out.
   */
  function FirstFree(s: seq<Bed>): (k: int)
    ensures -1 <= k < |s|
    ensures k == -1 <==> forall j :: 0 <= j < |s| ==> s[j].occupied
    ensures k >= 0 ==> !s[k].occupied && forall j :: 0 <= j < k ==> s[j].occupied
  {
    if s == [] then -1
    else if !s[0].occupied then 0
    else
      var r := FirstFree(s[1..]);
      if r == -1 then -1 else r + 1
  }

  /** Occupying one free bed lowers the free count by exactly one. */
  lemma {:induction false} OccupyLowersFreeCount(s: seq<Bed>, k: int)
    requires 0 <= k < |s| && !s[k].occupied
    ensures FreeCount(s[k := Bed(s[k].id, true)]) == FreeCount(s) - 1
  {
    var t := s[k := Bed(s[k].id, true)];
    if k == 0 {
      assert t[1..] == s[1..];
    } else {
      assert t[1..] == s[1..][k - 1 := Bed(s[k].id, true)];
      OccupyLowersFreeCount(s[1..], k - 1);
    }
  }

  /**
   * A pool `t` that agrees with `s` except that its first `m` beds are all
   * occupied has exactly as many free beds as the part of `s` after them.
   */
  lemma {:induction false} MarkedPrefixFreeCount(s: seq<Bed>, t: seq<Bed>, m: int)
    requires |t| == |s| && 0 <= m <= |s|
    requires forall k :: 0 <= k < m ==> t[k].occupied
    requires forall k :: m <= k < |s| ==> t[k] == s[k]
    ensures FreeCount(t) == FreeCount(s[m..])
  {
    if m == 0 {
      assert t == s;
    } else {
      assert s[1..][m - 1..] == s[m..];
      MarkedPrefixFreeCount(s[1..], t[1..], m - 1);
    }
  }

  /** A positive free count means allocation finds a bed, and conversely. */
  lemma FreeBedExistsIffPositive(s: seq<Bed>)
    ensures FreeCount(s) > 0 <==> FirstFree(s) >= 0
  {
  }

  /**
   * A hospital and its bed pool.  The pool array is created once, with one
   * slot per bed in list order; allocation changes the slots in place.
   */
  class Hospital {
    const id: int
    const name: string
    const totalBeds: int
    const beds: array<Bed>

    /** Bed k of the list (0-based) carries number k + 1, and there are as many as the total asks for. */
    ghost predicate Valid()
      reads this, beds
    {
      beds.Length == PoolSize(totalBeds) &&
      forall k :: 0 <= k < beds.Length ==> beds[k].id == k + 1
    }

    /** Creates the pool: `total` beds numbered 1..total, all free (none for a negative total). */
    constructor (id: int, name: string, total: int)
      ensures this.id == id && this.name == name && totalBeds == total
      ensures Valid() && fresh(beds)
      ensures forall k :: 0 <= k < beds.Length ==> !beds[k].occupied
      ensures FreeCount(beds[..]) == PoolSize(total)
    {
      var a := new Bed[PoolSize(total)];
      var i := total;
      // beds are created from the highest number down, each put in front of the list
      while i >= 1
        invariant 0 <= PoolSize(i) <= a.Length
        invariant forall k :: PoolSize(i) <= k < a.Length ==> a[k] == Bed(k + 1, false)
      {
        a[i - 1] := Bed(i, false);
        i := i - 1;
      }
      this.id := id;
      this.name := name;
      totalBeds := total;
      beds := a;
    }

    /**
     * The loader's reconstruction of saved occupancy: the first `occ` beds in
     * list order (none when `occ` is not positive, all when it exceeds the
     * pool) become occupied and nothing else changes.
     */
    method MarkFirstOccupied(occ: int)
      requires Valid()
      modifies beds
      ensures Valid()
      ensures forall k :: 0 <= k < beds.Length ==>
        beds[k] == if k < MarkCount(occ, beds.Length) then Bed(old(beds[k].id), true) else old(beds[k])
      ensures FreeCount(beds[..]) == FreeCount(old(beds[..])[MarkCount(occ, beds.Length)..])
    {
      ghost var before := beds[..];
      var remaining := occ;
      var i := 0;
      while remaining > 0 && i < beds.Length
        invariant 0 <= i <= MarkCount(occ, beds.Length)
        invariant remaining == occ - i
        invariant forall k :: 0 <= k < beds.Length ==>
          beds[k] == if k < i then Bed(before[k].id, true) else before[k]
      {
        beds[i] := Bed(beds[i].id, true);
        i := i + 1;
        remaining := remaining - 1;
      }
      MarkedPrefixFreeCount(before, beds[..], i);
    }

    /**
     * Takes the first free bed in list order: marks it occupied and returns
     * its number.  With no free bed it returns -1 and changes nothing.
     */
    method AllocateBed() returns (bedId: int)
      requires Valid()
      modifies beds
      ensures Valid()
      ensures var k := FirstFree(old(beds[..]));
        if k == -1 then bedId == -1 && beds[..] == old(beds[..])
        else bedId == k + 1 && beds[..] == old(beds[..])[k := Bed(bedId, true)]
      ensures bedId == -1 <==> old(FreeCount(beds[..])) == 0
      ensures bedId != -1 ==> FreeCount(beds[..]) == old(FreeCount(beds[..])) - 1
    {
      var i := 0;
      while i < beds.Length
        invariant 0 <= i <= beds.Length
        invariant beds[..] == old(beds[..])
        invariant forall j :: 0 <= j < i ==> beds[j].occupied
      {
        if !beds[i].occupied {
          OccupyLowersFreeCount(beds[..], i);
          beds[i] := Bed(beds[i].id, true);
          bedId := beds[i].id;
          return;
        }
        i := i + 1;
      }
      bedId := -1;
    }

    /** Counts the free beds by walking the whole pool. */
    method FreeBedCount() returns (c: int)
      ensures c == FreeCount(beds[..])
      ensures 0 <= c <= beds.Length
    {
      c := 0;
      var i := 0;
      while i < beds.Length
        invariant 0 <= i <= beds.Length
        invariant c + FreeCount(beds[i..]) == FreeCount(beds[..])
      {
        assert beds[i..][1..] == beds[i + 1..];
        if !beds[i].occupied {
          c := c + 1;
        }
        i := i + 1;
      }
    }
  }
}
