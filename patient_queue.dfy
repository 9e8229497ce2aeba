/**
 * The patient waiting queue: a binary min-heap in a growable array, ordered
 * by severity (lower value first) and then by patient id (lower id first).
 * Patients are held as value records.
 */
module PatientQueue {

  datatype Patient = Patient(id: int, name: string, areaId: int, severity: int)

  /** A value that may be missing: the model of a null patient. */
  datatype Option<T> = None | Some(value: T)

  /** The queue order on keys: `a` goes strictly before `b` by (severity, id). */
  predicate Precedes(a: Patient, b: Patient)
  {
    a.severity < b.severity || (a.severity == b.severity && a.id < b.id)
  }

  /** `a` does not go after `b`: the non-strict form of the queue order. */
  predicate NotAfter(a: Patient, b: Patient)
  {
    !Precedes(b, a)
  }

  /**
   * The comparison the heap uses: -1 when `a` goes strictly before `b`,
   * 1 otherwise.  It never answers 0: two patients with the same severity
   * and the same id compare as 1 both ways.
   */
  function PatientCmp(a: Patient, b: Patient): (r: int)
    ensures r == -1 || r == 1
    ensures r == -1 <==> Precedes(a, b)
    // the previous clause read from the other side, in the form the sift loops test
    ensures r == 1 <==> NotAfter(b, a)
  {
    if a.severity != b.severity then
      (if a.severity < b.severity then -1 else 1)
    else if a.id < b.id then -1 else 1
  }

  /** On patients with different keys the comparison is antisymmetric. */
  lemma CmpAntisymmetric(a: Patient, b: Patient)
    requires (a.severity, a.id) != (b.severity, b.id)
    ensures PatientCmp(a, b) == -PatientCmp(b, a)
  {
  }

  /** With equal keys the comparison answers 1 in both directions. */
  lemma CmpEqualKeys(a: Patient, b: Patient)
    requires a.severity == b.severity && a.id == b.id
    ensures PatientCmp(a, b) == 1 && PatientCmp(b, a) == 1
  {
  }

  /** Parent of slot k of the heap array. */
  function Parent(k: nat): (p: nat)
    requires k > 0
    ensures p < k && (2 * p + 1 == k || 2 * p + 2 == k)
  {
    (k - 1) / 2
  }

  /** Heap order: no element goes strictly before its parent. */
  predicate HeapOrdered(s: seq<Patient>)
  {
    forall k :: 0 < k < |s| ==> NotAfter(s[Parent(k)], s[k])
  }

  /** Heap order on every parent link except the one from slot i up to its parent. */
  predicate HeapExceptUp(s: seq<Patient>, i: nat)
  {
    forall k :: 0 < k < |s| && k != i ==> NotAfter(s[Parent(k)], s[k])
  }

  /** Heap order on every parent link except the ones from the children of slot i up to i. */
  predicate HeapExceptDown(s: seq<Patient>, i: nat)
  {
    forall k :: 0 < k < |s| && Parent(k) != i ==> NotAfter(s[Parent(k)], s[k])
  }

  /** The parent of slot i does not go after the children of slot i. */
  predicate GrandparentBound(s: seq<Patient>, i: nat)
  {
    0 < i < |s| ==>
      forall k :: 0 < k < |s| && Parent(k) == i ==> NotAfter(s[Parent(i)], s[k])
  }

  /** The root of a heap-ordered array goes no later than the element in slot k. */
  lemma {:induction false} RootNotAfter(s: seq<Patient>, k: nat)
    requires HeapOrdered(s) && k < |s|
    ensures NotAfter(s[0], s[k])
    decreases k
  {
    if k > 0 {
      RootNotAfter(s, Parent(k));
    }
  }

  /** `x` goes no later than any patient of `m`. */
  ghost predicate GoesFirst(x: Patient, m: multiset<Patient>)
  {
    forall y :: y in m ==> NotAfter(x, y)
  }

  /** The root of a non-empty heap-ordered array is a minimum of its contents. */
  lemma RootIsMinimum(s: seq<Patient>)
    requires HeapOrdered(s) && |s| > 0
    ensures GoesFirst(s[0], multiset(s))
  {
    forall x | x in multiset(s)
      ensures NotAfter(s[0], x)
    {
      var k :| 0 <= k < |s| && s[k] == x;
      RootNotAfter(s, k);
    }
  }

  /** The sequence goes in queue order: no element goes strictly before its predecessor. */
  predicate InQueueOrder(s: seq<Patient>)
  {
    forall j :: 0 < j < |s| ==> NotAfter(s[j - 1], s[j])
  }

  /**
   * The queue: slots 0..size-1 of `arr` hold the waiting patients in heap
   * order; `cap` is the length of the array.
   */
  class PriorityQueue {
    var arr: array<Patient>
    var size: nat
    var cap: nat

    ghost predicate Valid()
      reads this, arr
    {
      arr.Length == cap && cap >= 1 && size <= cap && HeapOrdered(arr[..size])
    }

    /** The patients waiting in the queue. */
    ghost function Contents(): multiset<Patient>
      requires size <= arr.Length
      reads this, arr
    {
      multiset(arr[..size])
    }

    /** An empty queue with room for `initialCap` patients (8 when asked for 0). */
    constructor (initialCap: nat)
      ensures Valid() && fresh(arr)
      ensures size == 0 && Contents() == multiset{}
      ensures cap == if initialCap == 0 then 8 else initialCap
    {
      var c := if initialCap == 0 then 8 else initialCap;
      arr := new Patient[c];
      size := 0;
      cap := c;
    }

    /** The growth step: a new array of twice the capacity holding the same waiting patients. */
    method Grow()
      requires Valid()
      modifies this
      ensures Valid() && fresh(arr)
      ensures size == old(size) && cap == 2 * old(cap)
      ensures arr[..size] == old(arr[..size])
    {
      var a := new Patient[2 * cap];
      forall k | 0 <= k < size {
        a[k] := arr[k];
      }
      assert a[..size] == arr[..size];
      arr := a;
      cap := 2 * cap;
    }

    /**
     * Adds `p`: when the array is full its capacity doubles first; then `p`
     * is put at the end and sifted up.
     */
    method Push(p: Patient)
      requires Valid()
      modifies this, arr
      ensures Valid()
      ensures size == old(size) + 1
      ensures Contents() == old(Contents()) + multiset{p}
      ensures cap == if old(size) >= old(cap) then 2 * old(cap) else old(cap)
      ensures arr == old(arr) || fresh(arr)
    {
      if size >= cap {
        Grow();
      }
      PutLast(p);
    }

    /** The part of a push after any growth: `p` goes into the first unused slot and is sifted up. */
    method PutLast(p: Patient)
      requires Valid() && size < cap
      modifies this, arr
      ensures Valid() && arr == old(arr) && cap == old(cap)
      ensures size == old(size) + 1
      ensures Contents() == old(Contents()) + multiset{p}
    {
      ghost var waiting := arr[..size];
      arr[size] := p;
      size := size + 1;
      assert arr[..size] == waiting + [p];
      AppendLeaf(waiting, p);
      SiftUp(size - 1);
    }

    /** The sift-up loop: swaps slot i with its parent while the parent does not go strictly before it. */
    method SiftUp(start: nat)
      requires size <= arr.Length && start < size
      requires HeapExceptUp(arr[..size], start) && GrandparentBound(arr[..size], start)
      modifies arr
      ensures HeapOrdered(arr[..size])
      ensures multiset(arr[..size]) == old(multiset(arr[..size]))
    {
      var i := start;
      while i > 0
        invariant 0 <= i < size
        invariant multiset(arr[..size]) == old(multiset(arr[..size]))
        invariant HeapExceptUp(arr[..size], i) && GrandparentBound(arr[..size], i)
        decreases i
      {
        var parent := Parent(i);
        if PatientCmp(arr[parent], arr[i]) <= 0 {
          break;
        }
        ghost var before := arr[..size];
        SiftUpStep(before, i);
        SwapContents(before, parent, i);
        arr[parent], arr[i] := arr[i], arr[parent];
        assert arr[..size] == before[parent := before[i]][i := before[parent]];
        i := parent;
      }
      SiftUpDone(arr[..size], i);
    }

    /**
     * Removes and returns the first patient in queue order: the last element
     * replaces the root and is sifted down.  An empty queue returns None and
     * is left as it was.
     */
    method Pop() returns (r: Option<Patient>)
      requires Valid()
      modifies this, arr
      ensures Valid() && arr == old(arr) && cap == old(cap)
      ensures old(size) == 0 ==> r == None && size == 0 && arr[..] == old(arr[..])
      ensures old(size) > 0 ==>
                r == Some(old(arr[0])) && size == old(size) - 1 &&
                Contents() == old(Contents()) - multiset{r.value}
      ensures r.Some? ==> GoesFirst(r.value, old(Contents()))
    {
      if size == 0 {
        return None;
      }
      var res := TakeRoot();
      r := Some(res);
    }

    /** The non-empty case of a pop: the root is taken out, the last element moves to the root and is sifted down. */
    method TakeRoot() returns (res: Patient)
      requires Valid() && size > 0
      modifies this, arr
      ensures Valid() && arr == old(arr) && cap == old(cap)
      ensures res == old(arr[0]) && size == old(size) - 1
      ensures Contents() == old(Contents()) - multiset{res}
      ensures GoesFirst(res, old(Contents()))
    {
      RootIsMinimum(arr[..size]);
      res := arr[0];
      MoveLastToRoot();
      SiftDown();
    }

    /** The last waiting patient overwrites the root and the queue shrinks by one slot. */
    method MoveLastToRoot()
      requires Valid() && size > 0
      modifies this, arr
      ensures arr == old(arr) && cap == old(cap) && size == old(size) - 1 && size <= arr.Length == cap
      ensures multiset(arr[..size]) == old(Contents()) - multiset{old(arr[0])}
      ensures HeapExceptDown(arr[..size], 0)
    {
      ghost var waiting := arr[..size];
      size := size - 1;
      arr[0] := arr[size];
      assert size > 0 ==> arr[..size] == waiting[..size][0 := waiting[size]];
      RemoveRootContents(waiting, arr[..size]);
    }

    /**
     * The choice inside the sift-down loop: slot i, replaced by its left and
     * then its right child whenever that child goes strictly before the
     * current choice.
     */
    method SmallestOfFamily(i: nat) returns (smallest: nat)
      requires size <= arr.Length && (i == 0 || i < size)
      ensures smallest == i || (0 < smallest < size && Parent(smallest) == i && Precedes(arr[smallest], arr[i]))
      ensures i < size ==> FirstOfFamily(arr[..size], i, smallest)
    {
      var left, right := 2 * i + 1, 2 * i + 2;
      smallest := i;
      if left < size && PatientCmp(arr[left], arr[smallest]) < 0 {
        smallest := left;
      }
      if right < size && PatientCmp(arr[right], arr[smallest]) < 0 {
        smallest := right;
      }
    }

    /** One sift-down swap of slot i with its child m, the child that goes first. */
    method SwapWithChild(i: nat, m: nat)
      requires size <= arr.Length && 0 < m < size && Parent(m) == i
      requires HeapExceptDown(arr[..size], i) && GrandparentBound(arr[..size], i)
      requires Precedes(arr[m], arr[i]) && FirstOfFamily(arr[..size], i, m)
      modifies arr
      ensures HeapExceptDown(arr[..size], m) && GrandparentBound(arr[..size], m)
      ensures multiset(arr[..size]) == old(multiset(arr[..size]))
    {
      ghost var before := arr[..size];
      SiftDownStep(before, i, m);
      SwapContents(before, i, m);
      arr[i], arr[m] := arr[m], arr[i];
      assert arr[..size] == before[i := before[m]][m := before[i]];
    }

    /** The sift-down loop from the root: swaps slot i with the child that goes strictly first, while there is one. */
    method SiftDown()
      requires size <= arr.Length
      requires HeapExceptDown(arr[..size], 0)
      modifies arr
      ensures HeapOrdered(arr[..size])
      ensures multiset(arr[..size]) == old(multiset(arr[..size]))
    {
      var i := 0;
      while true
        invariant i == 0 || i < size
        invariant multiset(arr[..size]) == old(multiset(arr[..size]))
        invariant HeapExceptDown(arr[..size], i) && GrandparentBound(arr[..size], i)
        decreases size - i
      {
        var smallest := SmallestOfFamily(i);
        if smallest == i {
          if i < size {
            SiftDownDone(arr[..size], i);
          }
          break;
        }
        SwapWithChild(i, smallest);
        i := smallest;
      }
    }
  }

  /** The non-strict queue order is transitive. */
  lemma NotAfterTransitive(a: Patient, b: Patient, c: Patient)
    requires NotAfter(a, b) && NotAfter(b, c)
    ensures NotAfter(a, c)
  {
  }

  /** A patient put after the last slot of a heap breaks heap order at most on its own parent link. */
  lemma AppendLeaf(s: seq<Patient>, p: Patient)
    requires HeapOrdered(s)
    ensures HeapExceptUp(s + [p], |s|) && GrandparentBound(s + [p], |s|)
  {
    var t := s + [p];
    forall k | 0 < k < |t| && k != |s|
      ensures NotAfter(t[Parent(k)], t[k])
    {
      assert t[k] == s[k] && t[Parent(k)] == s[Parent(k)];
    }
  }

  /** When slot i is the root or does not go strictly before its parent, sift-up is finished. */
  lemma SiftUpDone(s: seq<Patient>, i: nat)
    requires i < |s| && HeapExceptUp(s, i)
    requires i > 0 ==> NotAfter(s[Parent(i)], s[i])
    ensures HeapOrdered(s)
  {
  }

  /** One sift-up swap keeps the sift-up invariant, one level higher. */
  lemma SiftUpStep(s: seq<Patient>, i: nat)
    requires 0 < i < |s|
    requires HeapExceptUp(s, i) && GrandparentBound(s, i)
    requires NotAfter(s[i], s[Parent(i)])
    ensures var t := s[Parent(i) := s[i]][i := s[Parent(i)]];
      HeapExceptUp(t, Parent(i)) && GrandparentBound(t, Parent(i))
  {
    var q := Parent(i);
    var t := s[q := s[i]][i := s[q]];
    forall k | 0 < k < |t| && k != q
      ensures NotAfter(t[Parent(k)], t[k])
    {
      if k == i {
      } else if Parent(k) == i {
        assert NotAfter(s[q], s[k]);
      } else if Parent(k) == q {
        NotAfterTransitive(s[i], s[q], s[k]);
      } else {
        assert t[k] == s[k] && t[Parent(k)] == s[Parent(k)];
      }
    }
    if 0 < q {
      forall k | 0 < k < |t| && Parent(k) == q
        ensures NotAfter(t[Parent(q)], t[k])
      {
        assert t[Parent(q)] == s[Parent(q)];
        if k != i {
          NotAfterTransitive(s[Parent(q)], s[q], s[k]);
        }
      }
    }
  }

  /**
   * Slot m is i or a child of i, and goes no later than i and either child
   * of i: the slot the sift-down loop picks.
   */
  predicate FirstOfFamily(s: seq<Patient>, i: nat, m: nat)
  {
    i < |s| && m < |s| &&
    NotAfter(s[m], s[i]) &&
    (2 * i + 1 < |s| ==> NotAfter(s[m], s[2 * i + 1])) &&
    (2 * i + 2 < |s| ==> NotAfter(s[m], s[2 * i + 2]))
  }

  /** When slot i goes first in its family, sift-down is finished: the array is heap-ordered. */
  lemma SiftDownDone(s: seq<Patient>, i: nat)
    requires HeapExceptDown(s, i) && FirstOfFamily(s, i, i)
    ensures HeapOrdered(s)
  {
    forall k | 0 < k < |s|
      ensures NotAfter(s[Parent(k)], s[k])
    {
    }
  }

  /** One sift-down swap with the child that goes first keeps the sift-down invariant, one level lower. */
  lemma SiftDownStep(s: seq<Patient>, i: nat, m: nat)
    requires m < |s| && 0 < m && Parent(m) == i
    requires HeapExceptDown(s, i) && GrandparentBound(s, i)
    requires Precedes(s[m], s[i]) && FirstOfFamily(s, i, m)
    ensures var t := s[i := s[m]][m := s[i]];
      HeapExceptDown(t, m) && GrandparentBound(t, m)
  {
    var t := s[i := s[m]][m := s[i]];
    forall k | 0 < k < |t| && Parent(k) != m
      ensures NotAfter(t[Parent(k)], t[k])
    {
      if k == m {
      } else if k == i {
        assert NotAfter(s[Parent(i)], s[m]);
      } else if Parent(k) == i {
        assert t[k] == s[k];
      } else {
        assert t[k] == s[k] && t[Parent(k)] == s[Parent(k)];
      }
    }
    forall k | 0 < k < |t| && Parent(k) == m
      ensures NotAfter(t[i], t[k])
    {
      assert t[k] == s[k];
    }
  }

  /** Swapping two slots keeps the contents. */
  lemma SwapContents(s: seq<Patient>, a: nat, b: nat)
    requires a < |s| && b < |s|
    ensures multiset(s[a := s[b]][b := s[a]]) == multiset(s)
  {
  }

  /** Moving the last element to the root and dropping the last slot removes exactly the old root. */
  lemma RemoveRootContents(s: seq<Patient>, t: seq<Patient>)
    requires |s| > 0 && |t| == |s| - 1 && HeapOrdered(s)
    requires |t| > 0 ==> t == s[..|s| - 1][0 := s[|s| - 1]]
    ensures multiset(t) == multiset(s) - multiset{s[0]}
    ensures HeapExceptDown(t, 0)
  {
    forall k | 0 < k < |t| && Parent(k) != 0
      ensures NotAfter(t[Parent(k)], t[k])
    {
      assert t[k] == s[k] && t[Parent(k)] == s[Parent(k)];
    }
    if |t| > 0 {
      assert s == [s[0]] + s[1..|s| - 1] + [s[|s| - 1]];
      assert t == [t[0]] + t[1..];
    }
  }

  /**
   * The C interface's `pq_create`, a thin wrapper over the constructor: a
   * zero capacity request gets the default of 8.
   */
  method PqCreate(initialCap: nat) returns (pq: PriorityQueue)
    ensures fresh(pq) && fresh(pq.arr) && pq.Valid()
    ensures pq.size == 0 && pq.cap == if initialCap == 0 then 8 else initialCap
  {
    pq := new PriorityQueue(initialCap);
  }

  /** Pushes onto a possibly missing queue; -1 and no change when the queue or the patient is missing, 0 otherwise. */
  method PqPush(pq: PriorityQueue?, p: Option<Patient>) returns (status: int)
    requires pq != null ==> pq.Valid()
    modifies pq, if pq != null then {pq.arr} else {}
    ensures status == -1 <==> pq == null || p.None?
    ensures status == 0 || status == -1
    ensures pq != null ==> pq.Valid()
    ensures pq != null && p.None? ==>
              pq.arr == old(pq.arr) && pq.size == old(pq.size) && pq.cap == old(pq.cap) &&
              pq.arr[..] == old(pq.arr[..])
    ensures pq != null && p.Some? ==>
              pq.size == old(pq.size) + 1 && pq.Contents() == old(pq.Contents()) + multiset{p.value}
    ensures pq != null && p.Some? ==>
              pq.cap == if old(pq.size) >= old(pq.cap) then 2 * old(pq.cap) else old(pq.cap)
  {
    if pq == null || p.None? {
      return -1;
    }
    pq.Push(p.value);
    status := 0;
  }

  /** Pops from a possibly missing queue; None when the queue is missing or empty. */
  method PqPop(pq: PriorityQueue?) returns (r: Option<Patient>)
    requires pq != null ==> pq.Valid()
    modifies pq, if pq != null then {pq.arr} else {}
    ensures pq == null ==> r == None
    ensures pq != null ==> pq.Valid() && pq.arr == old(pq.arr)
    ensures pq != null && old(pq.size) == 0 ==> r == None && pq.size == 0 && pq.arr[..] == old(pq.arr[..])
    ensures pq != null && old(pq.size) > 0 ==>
              r.Some? && pq.size == old(pq.size) - 1 &&
              pq.Contents() == old(pq.Contents()) - multiset{r.value} &&
              r.value in old(pq.Contents()) &&
              GoesFirst(r.value, old(pq.Contents()))
  {
    if pq == null {
      return None;
    }
    r := pq.Pop();
  }

  /** The emptiness test: true for a missing queue and for a queue with no patients. */
  function PqIsEmpty(pq: PriorityQueue?): (empty: bool)
    requires pq != null ==> pq.Valid()
    reads pq, if pq != null then {pq.arr} else {}
    ensures empty <==> pq == null || |pq.Contents()| == 0
  {
    pq == null || pq.size == 0
  }

  /**
   * The state of a drain: the patients taken out so far are in queue order,
   * none goes after a patient still waiting, and together with those still
   * waiting they are the patients that were waiting at the start.
   */
  ghost predicate DrainedSoFar(out: seq<Patient>, rest: multiset<Patient>, all: multiset<Patient>)
  {
    InQueueOrder(out) &&
    multiset(out) + rest == all &&
    (|out| > 0 ==> GoesFirst(out[|out| - 1], rest))
  }

  /** Taking out a minimum of the waiting patients keeps the drain state. */
  lemma DrainStep(out: seq<Patient>, r: Patient, before: multiset<Patient>, after: multiset<Patient>,
                  all: multiset<Patient>)
    requires DrainedSoFar(out, before, all)
    requires r in before && after == before - multiset{r}
    requires GoesFirst(r, before)
    ensures DrainedSoFar(out + [r], after, all)
  {
    assert forall x :: x in after ==> x in before;
  }

  /**
   * The dispatch loop: pops until the queue is empty.  The patients come
   * out in queue order, and they are exactly the ones that were waiting.
   */
  method Drain(pq: PriorityQueue) returns (out: seq<Patient>)
    requires pq.Valid()
    modifies pq, pq.arr
    ensures pq.Valid() && pq.size == 0
    ensures multiset(out) == old(pq.Contents())
    ensures InQueueOrder(out)
  {
    out := [];
    while !PqIsEmpty(pq)
      invariant pq.Valid() && pq.arr == old(pq.arr)
      invariant DrainedSoFar(out, pq.Contents(), old(pq.Contents()))
      decreases pq.size
    {
      ghost var before := pq.Contents();
      var r := PqPop(pq);
      DrainStep(out, r.value, before, pq.Contents(), old(pq.Contents()));
      out := out + [r.value];
    }
  }
}
