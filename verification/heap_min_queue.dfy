/**
 * A min-priority queue of distinct keys with extrinsic integer priorities: a
 * binary heap of (key, priority) entries stored in a sequence, paired with a
 * map from each key to its position in the heap (class `HeapMinQueue` of the
 * `graph` package).
 */
module PriorityQueue {
  import opened Exceptions

  /** A key paired with its priority (the record `Entry`). */
  datatype Entry<K> = Entry(key: K, priority: int)

  /**
   * Position of the parent of heap position `i`, computed as `(i - 1) / 2`
   * with Java's truncating division, so that position 0 is its own parent.
   */
  function Parent(i: nat): (p: nat)
    ensures i == 0 ==> p == 0
    ensures i > 0 ==> p < i && (2 * p + 1 == i || 2 * p + 2 == i)
  {
    if i == 0 then 0 else (i - 1) / 2
  }

  /** Heap order: no entry has a smaller priority than its parent. */
  ghost predicate HeapOrdered<K>(h: seq<Entry<K>>)
  {
    forall i :: 1 <= i < |h| ==> h[Parent(i)].priority <= h[i].priority
  }

  /**
   * Heap order everywhere except possibly between position `j` and its
   * parent; and the parent of `j` is no greater than the children of `j`.
   * This is what holds while an entry at `j` is sifted up.
   */
  ghost predicate OrderedExceptUp<K>(h: seq<Entry<K>>, j: nat)
  {
    && (forall i :: 1 <= i < |h| && i != j ==> h[Parent(i)].priority <= h[i].priority)
    && (forall i :: 1 <= i < |h| && Parent(i) == j && j > 0 ==> h[Parent(j)].priority <= h[i].priority)
  }

  /**
   * Heap order everywhere except possibly between position `k` and its
   * children; and the parent of `k` is no greater than the children of `k`.
   * This is what holds while an entry at `k` is sifted down.
   */
  ghost predicate OrderedExceptDown<K>(h: seq<Entry<K>>, k: nat)
  {
    && (forall i :: 1 <= i < |h| && Parent(i) != k ==> h[Parent(i)].priority <= h[i].priority)
    && (forall i :: 1 <= i < |h| && Parent(i) == k && k > 0 ==> h[Parent(k)].priority <= h[i].priority)
  }

  /**
   * `index` maps every key of `h` to the position holding it, and maps no
   * other key (so the keys of `h` are distinct).
   */
  ghost predicate Indexed<K>(h: seq<Entry<K>>, index: map<K, int>)
  {
    && (forall i :: 0 <= i < |h| ==> h[i].key in index && index[h[i].key] == i)
    && (forall k :: k in index ==> 0 <= index[k] < |h| && h[index[k]].key == k)
  }

  /** The key-to-priority mapping that a heap and its index represent. */
  ghost function Priorities<K>(h: seq<Entry<K>>, index: map<K, int>): map<K, int>
    requires Indexed(h, index)
  {
    map k | k in index :: h[index[k]].priority
  }

  /** The root of a heap-ordered sequence has the least priority. */
  lemma {:induction false} RootIsMinimal<K>(h: seq<Entry<K>>, i: nat)
    requires HeapOrdered(h) && i < |h|
    ensures h[0].priority <= h[i].priority
    decreases i
  {
    if i > 0 {
      RootIsMinimal(h, Parent(i));
    }
  }

  /** The root's key is in the queue and no key has a smaller priority. */
  lemma RootHoldsMinimum<K>(h: seq<Entry<K>>, index: map<K, int>)
    requires HeapOrdered(h) && Indexed(h, index) && |h| > 0
    ensures h[0].key in Priorities(h, index)
    ensures Priorities(h, index)[h[0].key] == h[0].priority
    ensures forall k :: k in Priorities(h, index) ==> h[0].priority <= Priorities(h, index)[k]
  {
    forall k | k in Priorities(h, index)
      ensures h[0].priority <= Priorities(h, index)[k]
    {
      RootIsMinimal(h, index[k]);
    }
  }

  /** A consistent index has exactly as many keys as the heap has entries. */
  lemma {:induction false} IndexSize<K>(h: seq<Entry<K>>, index: map<K, int>)
    requires Indexed(h, index)
    ensures |index| == |h| && |Priorities(h, index)| == |h|
    decreases |h|
  {
    assert Priorities(h, index).Keys == index.Keys;
    if |h| == 0 {
      assert index.Keys == {};
    } else {
      var last := h[|h| - 1].key;
      var rest := index - {last};
      assert rest.Keys == index.Keys - {last};
      IndexSize(h[..|h| - 1], rest);
    }
  }

  /**
   * The child of `k` that a sift-down descends to: the right child only when
   * it exists and has a strictly smaller priority, so the left child wins ties.
   */
  function SmallerChild<K>(h: seq<Entry<K>>, k: nat): (c: nat)
    requires 2 * k + 1 < |h|
    ensures c < |h| && c > 0 && Parent(c) == k
    ensures forall i :: 1 <= i < |h| && Parent(i) == k ==> h[c].priority <= h[i].priority
    ensures c != 2 * k + 1 ==> h[c].priority < h[2 * k + 1].priority
  {
    var left := 2 * k + 1;
    if left + 1 < |h| && h[left].priority > h[left + 1].priority then left + 1 else left
  }

  /** Exchanging an entry with its strictly greater parent moves the fault up. */
  lemma SwapUp<K>(h: seq<Entry<K>>, j: nat)
    requires 0 < j < |h| && OrderedExceptUp(h, j)
    requires h[j].priority < h[Parent(j)].priority
    ensures OrderedExceptUp(h[j := h[Parent(j)]][Parent(j) := h[j]], Parent(j))
  {
    var p := Parent(j);
    var h' := h[j := h[p]][p := h[j]];
    forall i | 1 <= i < |h'| && i != p
      ensures h'[Parent(i)].priority <= h'[i].priority
    {
      if i == j {
      } else if Parent(i) == p {
      } else if Parent(i) == j {
      } else {
      }
    }
    if p > 0 {
      assert h[Parent(p)].priority <= h[p].priority;
    }
  }

  /** Exchanging an entry with its least, strictly smaller child moves the fault down. */
  lemma SwapDown<K>(h: seq<Entry<K>>, k: nat, c: nat)
    requires 0 < c < |h| && Parent(c) == k && OrderedExceptDown(h, k)
    requires h[c].priority < h[k].priority
    requires forall i :: 1 <= i < |h| && Parent(i) == k ==> h[c].priority <= h[i].priority
    ensures OrderedExceptDown(h[k := h[c]][c := h[k]], c)
  {
    var h' := h[k := h[c]][c := h[k]];
    forall i | 1 <= i < |h'| && Parent(i) != c
      ensures h'[Parent(i)].priority <= h'[i].priority
    {
      if i == c {
      } else if Parent(i) == k {
      } else if i == k {
        assert Parent(k) != c;
      } else {
      }
    }
  }

  /** Exchanging two entries and re-pointing their keys keeps the index and the mapping. */
  lemma SwapKeepsPriorities<K>(h: seq<Entry<K>>, index: map<K, int>, i: nat, j: nat)
    requires Indexed(h, index) && i < |h| && j < |h|
    ensures Indexed(h[i := h[j]][j := h[i]], index[h[i].key := j][h[j].key := i])
    ensures Priorities(h[i := h[j]][j := h[i]], index[h[i].key := j][h[j].key := i]) == Priorities(h, index)
  {
  }

  /**
   * Moving the last entry of a heap to the root in place of the removed root
   * entry leaves a consistent index, heap order except below the root, and
   * the mapping without the root's key.
   */
  lemma MoveLastToRoot<K>(h: seq<Entry<K>>, index: map<K, int>)
    requires HeapOrdered(h) && Indexed(h, index) && |h| > 1
    ensures var last := h[|h| - 1];
            var h' := h[..|h| - 1][0 := last];
            var index' := (index - {h[0].key})[last.key := 0];
            && Indexed(h', index') && OrderedExceptDown(h', 0)
            && Priorities(h', index') == Priorities(h, index) - {h[0].key}
  {
    var last := h[|h| - 1];
    var h' := h[..|h| - 1][0 := last];
    var index' := (index - {h[0].key})[last.key := 0];
    assert last.key != h[0].key;
    forall k | k in index'
      ensures 0 <= index'[k] < |h'| && h'[index'[k]].key == k
    {
      if k != last.key {
        assert h[index[k]].key == k;
      }
    }
    assert Indexed(h', index');
    assert Priorities(h', index') == Priorities(h, index) - {h[0].key};
  }

  /**
   * What `checkInvariant` asserts of the entry at position `i > 0`: it is no
   * smaller than its parent, and the index maps its key to `i`.
   */
  ghost predicate EntryChecked<K>(h: seq<Entry<K>>, index: map<K, int>, i: int)
    requires 0 < i < |h|
  {
    h[Parent(i)].priority <= h[i].priority && h[i].key in index && index[h[i].key] == i
  }

  /** Everything `checkInvariant` asserts: each non-root entry checked, and as many keys as entries. */
  ghost predicate InvariantChecked<K>(h: seq<Entry<K>>, index: map<K, int>)
  {
    (forall i :: 1 <= i < |h| ==> EntryChecked(h, index, i)) && |index| == |h|
  }

  /**
   * The class invariant passes the runtime check; the check itself never
   * looks at the root's index entry, so it is implied by, not equivalent to,
   * the invariant.
   */
  lemma ValidPassesCheck<K>(h: seq<Entry<K>>, index: map<K, int>)
    requires HeapOrdered(h) && Indexed(h, index)
    ensures InvariantChecked(h, index)
  {
    IndexSize(h, index);
  }

  class HeapMinQueue<K(==)> {
    /** Position in `heap` of each key in the queue. */
    var index: map<K, int>
    /** The binary min-heap of entries. */
    var heap: seq<Entry<K>>

    /** The class invariant: heap order and a consistent index. */
    ghost predicate Valid()
      reads this
    {
      HeapOrdered(heap) && Indexed(heap, index)
    }

    /**
     * `checkInvariant`: walk the heap from position 1, checking each entry
     * against its parent and its index entry, then compare the sizes; false
     * where the Java assertion would fail.
     */
    method CheckInvariant() returns (ok: bool)
      ensures ok <==> InvariantChecked(heap, index)
      ensures Valid() ==> ok
    {
      if Valid() {
        ValidPassesCheck(heap, index);
      }
      var i := 1;
      while i < |heap|
        invariant 1 <= i && (|heap| == 0 || i <= |heap|)
        invariant forall j :: 1 <= j < i && j < |heap| ==> EntryChecked(heap, index, j)
      {
        var p := Parent(i);
        if heap[i].priority < heap[p].priority {
          assert !EntryChecked(heap, index, i);
          return false;
        }
        var key := heap[i].key;
        if key !in index || index[key] != i {
          assert !EntryChecked(heap, index, i);
          return false;
        }
        i := i + 1;
      }
      return |index| == |heap|;
    }

    /** The queue as a mapping from key to priority. */
    ghost function Contents(): map<K, int>
      reads this
      requires Valid()
    {
      Priorities(heap, index)
    }

    /** Create an empty queue. */
    constructor ()
      ensures Valid() && Contents() == map[]
    {
      index := map[];
      heap := [];
    }

    function IsEmpty(): (r: bool)
      reads this
      requires Valid()
      ensures r <==> Contents() == map[]
    {
      IndexSize(heap, index);
      |heap| == 0
    }

    function Size(): (r: nat)
      reads this
      requires Valid()
      ensures r == |Contents()| && r == |index|
    {
      IndexSize(heap, index);
      |heap|
    }

    /**
     * A key of least priority, the one `Remove` would take; `NoSuchElement`
     * when the queue is empty.
     */
    function Get(): (r: Result<K>)
      reads this
      requires Valid()
      ensures r.Err? <==> Contents() == map[]
      ensures r.Err? ==> r.error == NoSuchElement
      ensures r.Ok? ==> r.value in Contents()
      ensures r.Ok? ==> forall k :: k in Contents() ==> Contents()[r.value] <= Contents()[k]
    {
      IndexSize(heap, index);
      if |heap| == 0 then
        Err(NoSuchElement)
      else
        RootHoldsMinimum(heap, index);
        Ok(heap[0].key)
    }

    /** The least priority in the queue; `NoSuchElement` when it is empty. */
    function MinPriority(): (r: Result<int>)
      reads this
      requires Valid()
      ensures r.Err? <==> Contents() == map[]
      ensures r.Err? ==> r.error == NoSuchElement
      ensures r.Ok? ==> exists k :: k in Contents() && Contents()[k] == r.value
      ensures r.Ok? ==> forall k :: k in Contents() ==> r.value <= Contents()[k]
    {
      IndexSize(heap, index);
      if |heap| == 0 then
        Err(NoSuchElement)
      else
        RootHoldsMinimum(heap, index);
        Ok(heap[0].priority)
    }

    /**
     * Give `key` the priority `priority`, adding it when absent
     * (insert, decrease-key and increase-key in one operation).
     */
    method AddOrUpdate(key: K, priority: int)
      requires Valid()
      modifies this
      ensures Valid()
      ensures Contents() == old(Contents())[key := priority]
      ensures key !in old(Contents()) ==> |Contents()| == |old(Contents())| + 1
      ensures key in old(Contents()) ==> |Contents()| == |old(Contents())|
    {
      if key !in index {
        Add(key, priority);
      } else {
        Update(key, priority);
      }
    }

    /**
     * Remove and return a key of least priority (any one among ties, the one
     * `Get` returns); `NoSuchElement`, with nothing changed, when the queue is empty.
     */
    method Remove() returns (r: Result<K>)
      requires Valid()
      modifies this
      ensures Valid()
      ensures old(Contents()) == map[] ==> r == Err(NoSuchElement) && heap == old(heap) && index == old(index)
      ensures old(Contents()) != map[] ==> r.Ok? && r.value in old(Contents())
      ensures r.Ok? ==> forall k :: k in old(Contents()) ==> old(Contents())[r.value] <= old(Contents())[k]
      ensures r.Ok? ==> Contents() == old(Contents()) - {r.value}
      ensures r == old(Get())
    {
      IndexSize(heap, index);
      if |heap| == 0 {
        return Err(NoSuchElement);
      }
      RootHoldsMinimum(heap, index);
      if |heap| > 1 {
        MoveLastToRoot(heap, index);
      }
      var min := heap[0].key;
      var lastElement := heap[|heap| - 1];
      heap := heap[..|heap| - 1];
      index := index - {min};
      if |heap| > 0 {
        heap := heap[0 := lastElement];
        index := index[lastElement.key := 0];
        BubbleDown(0);
      } else {
        assert index.Keys == {};
      }
      return Ok(min);
    }

    /** Remove every key. */
    method Clear()
      requires Valid()
      modifies this
      ensures Valid() && heap == [] && index == map[]
      ensures Contents() == map[]
    {
      index := map[];
      heap := [];
    }

    /** Exchange the entries at `i` and `j` and re-point both keys in `index`. */
    method Swap(i: nat, j: nat)
      requires Indexed(heap, index) && i < |heap| && j < |heap|
      modifies this
      ensures heap == old(heap)[i := old(heap)[j]][j := old(heap)[i]]
      ensures index == old(index)[old(heap)[i].key := j][old(heap)[j].key := i]
      ensures Indexed(heap, index)
      ensures Priorities(heap, index) == old(Priorities(heap, index))
    {
      SwapKeepsPriorities(heap, index, i, j);
      var iEntry := heap[i];
      var jEntry := heap[j];
      heap := heap[i := jEntry];
      heap := heap[j := iEntry];
      index := index[iEntry.key := j];
      index := index[jEntry.key := i];
    }

    /** Add `key`, which must be absent, with priority `priority`. */
    method Add(key: K, priority: int)
      requires Valid() && key !in index
      modifies this
      ensures Valid()
      ensures Contents() == old(Contents())[key := priority]
    {
      ghost var before := Contents();
      heap := heap + [Entry(key, priority)];
      var pos := |heap| - 1;
      index := index[key := pos];
      assert Priorities(heap, index) == before[key := priority];
      BubbleUp(pos);
    }

    /** Change the priority of `key`, which must be present, to `priority`. */
    method Update(key: K, priority: int)
      requires Valid() && key in index
      modifies this
      ensures Valid()
      ensures Contents() == old(Contents())[key := priority]
    {
      ghost var before := Contents();
      var pos := index[key];
      var oldPriority := heap[pos].priority;
      heap := heap[pos := Entry(key, priority)];
      assert Priorities(heap, index) == before[key := priority];
      if oldPriority < priority {
        BubbleDown(pos);
      } else {
        BubbleUp(pos);
      }
    }

    /** Sift the entry at `k` up until heap order holds. */
    method BubbleUp(k: nat)
      requires Indexed(heap, index) && k < |heap| && OrderedExceptUp(heap, k)
      modifies this
      ensures Valid() && |heap| == old(|heap|)
      ensures Priorities(heap, index) == old(Priorities(heap, index))
    {
      var j: nat := k;
      var parent: nat := Parent(j);
      while j > 0 && heap[j].priority < heap[parent].priority
        invariant j < |heap| == old(|heap|) && parent == Parent(j)
        invariant Indexed(heap, index) && OrderedExceptUp(heap, j)
        invariant Priorities(heap, index) == old(Priorities(heap, index))
        decreases j
      {
        SwapUp(heap, j);
        Swap(j, parent);
        j := parent;
        parent := Parent(j);
      }
    }

    /** Sift the entry at `k` down, towards its smaller child, until heap order holds. */
    method BubbleDown(k: nat)
      requires Indexed(heap, index) && k < |heap| && OrderedExceptDown(heap, k)
      modifies this
      ensures Valid() && |heap| == old(|heap|)
      ensures Priorities(heap, index) == old(Priorities(heap, index))
    {
      var j: nat := k;
      var left: nat := 2 * j + 1;
      while left < |heap|
        invariant j < |heap| == old(|heap|) && left == 2 * j + 1
        invariant Indexed(heap, index) && OrderedExceptDown(heap, j)
        invariant Priorities(heap, index) == old(Priorities(heap, index))
        decreases |heap| - j
      {
        left := SmallerChild(heap, j);
        if heap[j].priority <= heap[left].priority {
          return;
        }
        SwapDown(heap, j, left);
        Swap(j, left);
        j := left;
        left := 2 * j + 1;
      }
    }
  }
}
