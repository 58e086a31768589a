/** The ring-buffer storage engine of `boost::circular_buffer`, as a value.

    A buffer owns `capacity` physical slots. The live elements occupy the run
    of `size` slots that starts at physical index `first` and wraps around the
    end of storage. Removing elements destroys them and moves the bookkeeping
    (`first`, `size`), but never rewrites the stored bytes, which is what a
    pointer saved before the removal still reads. The live-object count (what
    an instance-counting element type observes) is the number of slots holding
    a constructed element. */
module CircularBuffer {
  import opened BoundedSeq

  /** One physical slot: raw storage never constructed into, a live element,
      or the bytes of an element that has been destroyed. */
  datatype Slot<T> = Uninit | Constructed(value: T) | Destroyed(value: T)

  datatype Buffer<T> = Buffer(slots: seq<Slot<T>>, first: nat, size: nat)

  function Capacity<T>(b: Buffer<T>): nat
  {
    |b.slots|
  }

  /** The physical slot `n` places after physical slot `p`, wrapping at the end
      of storage; written with a comparison instead of a remainder, as pointer
      arithmetic on a ring does. */
  function Add(p: nat, n: nat, cap: nat): (r: nat)
    requires p < cap && n <= cap
    ensures r < cap
    ensures r == (p + n) % cap
  {
    if n < cap - p then
      p + n
    else
      WrapOnce(p + n, cap);
      p + n - cap
  }

  /** A value between one and two capacities reduces by exactly one capacity. */
  lemma WrapOnce(x: nat, cap: nat)
    requires 0 < cap <= x < 2 * cap
    ensures x % cap == x - cap
  {
    assert x / cap == 1;
  }

  /** How many places physical slot `j` lies after physical slot `first`,
      going forward around the ring: the inverse of `Add`. */
  function Offset(first: nat, j: nat, cap: nat): (k: nat)
    requires first < cap && j < cap
    ensures k < cap
    ensures Add(first, k, cap) == j
  {
    if first <= j then j - first else j + cap - first
  }

  lemma AddTwice(p: nat, m: nat, n: nat, cap: nat)
    requires p < cap && m + n <= cap
    ensures Add(Add(p, m, cap), n, cap) == Add(p, m + n, cap)
  {
  }

  /** The buffer invariant: `0 <= size <= capacity`, `first` is a slot, and a
      slot holds a constructed element exactly when it lies in the run of
      `size` slots starting at `first`. */
  predicate Valid<T>(b: Buffer<T>)
  {
    && 0 < |b.slots|
    && b.first < |b.slots|
    && b.size <= |b.slots|
    && forall j :: 0 <= j < |b.slots| ==>
         (b.slots[j].Constructed? <==> Offset(b.first, j, |b.slots|) < b.size)
  }

  /** Physical slot of logical position `i` (`i == size` is the slot one past
      the back, where `push_back` constructs). */
  function Phys<T>(b: Buffer<T>, i: nat): (p: nat)
    requires Valid(b) && i <= b.size
    ensures p < Capacity(b)
    ensures i < b.size ==> b.slots[p].Constructed?
  {
    if i < b.size then
      OffsetOfAdd(b.first, i, |b.slots|);
      Add(b.first, i, |b.slots|)
    else
      Add(b.first, i, |b.slots|)
  }

  function Size<T>(b: Buffer<T>): nat
  {
    b.size
  }

  predicate Empty<T>(b: Buffer<T>)
  {
    b.size == 0
  }

  predicate Full<T>(b: Buffer<T>)
  {
    b.size == |b.slots|
  }

  /** `operator[]`: the element at logical position `i`. */
  function Index<T>(b: Buffer<T>, i: nat): T
    requires Valid(b) && i < b.size
  {
    b.slots[Phys(b, i)].value
  }

  /** The logical view: the live elements from front to back. */
  function Contents<T>(b: Buffer<T>): (r: seq<T>)
    requires Valid(b)
    ensures |r| == b.size
  {
    seq(b.size, i requires 0 <= i < b.size => Index(b, i))
  }

  /** Reading storage through a raw pointer, modelled as a physical index: the
      slot's current state, whether or not an element is alive there. */
  function Deref<T>(b: Buffer<T>, p: int): Slot<T>
    requires 0 <= p < Capacity(b)
  {
    b.slots[p]
  }

  /** Number of slots holding a constructed element. */
  function CountConstructed<T>(s: seq<Slot<T>>): nat
  {
    if s == [] then 0
    else (if s[0].Constructed? then 1 else 0) + CountConstructed(s[1..])
  }

  /** The live-object count of a buffer. */
  function Live<T>(b: Buffer<T>): nat
  {
    CountConstructed(b.slots)
  }

  /** Destroying an element leaves its bytes in place. */
  function Destroy<T>(s: Slot<T>): Slot<T>
  {
    if s.Constructed? then Destroyed(s.value) else s
  }

  /** Destroys the elements whose slots lie `lo` to `hi - 1` places after
      `first`; every other slot is left alone. */
  function DestroyRun<T>(slots: seq<Slot<T>>, first: nat, lo: nat, hi: nat): (r: seq<Slot<T>>)
    requires first < |slots|
    ensures |r| == |slots|
    ensures forall j :: 0 <= j < |slots| ==>
              && (r[j].Uninit? <==> slots[j].Uninit?)
              && (!r[j].Uninit? ==> r[j].value == slots[j].value)
    ensures forall j :: 0 <= j < |slots| ==>
              (r[j].Constructed? <==> slots[j].Constructed? && !(lo <= Offset(first, j, |slots|) < hi))
  {
    seq(|slots|, j requires 0 <= j < |slots| =>
      if lo <= Offset(first, j, |slots|) < hi then Destroy(slots[j]) else slots[j])
  }

  // ---------------------------------------------------------------- construction

  /** `circular_buffer(capacity)`: an empty buffer over raw storage. */
  function WithCapacity<T>(cap: nat): (r: Buffer<T>)
    requires 0 < cap
    ensures Valid(r) && Capacity(r) == cap
    ensures Empty(r) && Contents(r) == []
  {
    Buffer(seq(cap, _ => Uninit), 0, 0)
  }

  /** `circular_buffer(n, item)`: a full buffer of `n` copies of `item`. */
  function Fill<T>(n: nat, item: T): (r: Buffer<T>)
    requires 0 < n
    ensures Valid(r) && Capacity(r) == n && Full(r)
    ensures Live(r) == n
    ensures forall i :: 0 <= i < n ==> Contents(r)[i] == item
  {
    var r := Buffer(seq(n, _ => Constructed(item)), 0, n);
    LiveIsSize(r);
    r
  }

  // ---------------------------------------------------------------- mutation

  /** `push_back(item)`. On a full buffer the front element is destroyed, `item`
      is constructed in its slot and the front advances by one; otherwise
      `item` is constructed in the slot one past the back. */
  function PushBack<T>(b: Buffer<T>, item: T): (r: Buffer<T>)
    requires Valid(b)
    ensures Valid(r) && Capacity(r) == Capacity(b)
  {
    var cap := |b.slots|;
    if b.size == cap then
      Buffer(b.slots[b.first := Constructed(item)], Add(b.first, 1, cap), b.size)
    else
      var back := Add(b.first, b.size, cap);
      OffsetOfAdd(b.first, b.size, cap);
      Buffer(b.slots[back := Constructed(item)], b.first, b.size + 1)
  }

  /** `erase_begin(n)`: destroys the first `n` elements and advances the front
      past them; no stored value is rewritten. */
  function EraseBegin<T>(b: Buffer<T>, n: nat): (r: Buffer<T>)
    requires Valid(b) && n <= b.size
    ensures Valid(r) && Capacity(r) == Capacity(b)
  {
    var cap := |b.slots|;
    OffsetShiftAll(b.first, n, cap);
    Buffer(DestroyRun(b.slots, b.first, 0, n), Add(b.first, n, cap), b.size - n)
  }

  /** `erase_end(n)`: destroys the last `n` elements; no stored value is
      rewritten. */
  function EraseEnd<T>(b: Buffer<T>, n: nat): (r: Buffer<T>)
    requires Valid(b) && n <= b.size
    ensures Valid(r) && Capacity(r) == Capacity(b)
  {
    Buffer(DestroyRun(b.slots, b.first, b.size - n, b.size), b.first, b.size - n)
  }

  /** `clear()`: destroys every element and moves the front past the destroyed
      run; no stored value is rewritten. */
  function Clear<T>(b: Buffer<T>): (r: Buffer<T>)
    requires Valid(b)
    ensures Valid(r) && Capacity(r) == Capacity(b)
    ensures Empty(r) && Live(r) == 0
  {
    var r := Buffer(DestroyRun(b.slots, b.first, 0, b.size), Add(b.first, b.size, |b.slots|), 0);
    LiveIsSize(r);
    r
  }

  /** A sequence of `push_back` calls, in order. */
  function PushAll<T>(b: Buffer<T>, items: seq<T>): (r: Buffer<T>)
    requires Valid(b)
    ensures Valid(r) && Capacity(r) == Capacity(b)
    ensures Contents(r) == Newest(Contents(b) + items, Capacity(b))
    decreases |items|
  {
    if items == [] then
      assert Contents(b) + items == Contents(b);
      b
    else
      var b' := PushBack(b, items[0]);
      PushBackContents(b, items[0]);
      NewestAbsorbs(Contents(b) + [items[0]], items[1..], Capacity(b));
      assert Contents(b) + [items[0]] + items[1..] == Contents(b) + items;
      PushAll(b', items[1..])
  }

  // ---------------------------------------------------------------- proofs

  lemma OffsetOfAdd(first: nat, k: nat, cap: nat)
    requires first < cap && k < cap
    ensures Offset(first, Add(first, k, cap), cap) == k
  {
  }

  /** Moving the front forward by `n` lowers every slot's offset by `n`,
      modulo the capacity. */
  lemma OffsetShiftAll(first: nat, n: nat, cap: nat)
    requires first < cap && n <= cap
    ensures forall j :: 0 <= j < cap ==>
              Offset(Add(first, n, cap), j, cap)
              == if n <= Offset(first, j, cap) then Offset(first, j, cap) - n
                 else Offset(first, j, cap) + cap - n
  {
  }

  /** Logical position `i` lives in physical slot `(first + i) mod capacity`,
      so `operator[]` reads that slot. */
  lemma IndexWraps<T>(b: Buffer<T>, i: nat)
    requires Valid(b) && i < b.size
    ensures b.slots[(b.first + i) % Capacity(b)].Constructed?
    ensures Index(b, i) == b.slots[(b.first + i) % Capacity(b)].value
  {
    var p := Phys(b, i);
    assert p == (b.first + i) % Capacity(b);
  }

  /** Distinct logical positions occupy distinct physical slots. */
  lemma PhysInjective<T>(b: Buffer<T>, i: nat, j: nat)
    requires Valid(b) && i <= b.size && j <= b.size && i != j
    requires i < Capacity(b) && j < Capacity(b)
    ensures Phys(b, i) != Phys(b, j)
  {
  }

  lemma {:induction false} CountAppend<T>(s: seq<Slot<T>>, t: seq<Slot<T>>)
    ensures CountConstructed(s + t) == CountConstructed(s) + CountConstructed(t)
  {
    if s != [] {
      assert (s + t)[0] == s[0];
      assert (s + t)[1..] == s[1..] + t;
      CountAppend(s[1..], t);
    } else {
      assert s + t == t;
    }
  }

  /** A run of slots constructed exactly on its first `k` positions holds
      `k` elements (clamped to the run). */
  lemma {:induction false} CountPrefix<T>(s: seq<Slot<T>>, k: int)
    requires forall j :: 0 <= j < |s| ==> (s[j].Constructed? <==> j < k)
    ensures CountConstructed(s) == if k <= 0 then 0 else if k >= |s| then |s| else k
  {
    if s != [] {
      assert forall j :: 0 <= j < |s[1..]| ==> (s[1..][j].Constructed? <==> j < k - 1) by {
        forall j | 0 <= j < |s[1..]|
          ensures s[1..][j].Constructed? <==> j < k - 1
        {
          assert s[1..][j] == s[j + 1];
        }
      }
      CountPrefix(s[1..], k - 1);
    }
  }

  /** The live-object count equals the number of logical elements: the slots
      after `first` hold the front of the run, the slots before it the
      wrapped-around rest. */
  lemma {:induction false} LiveIsSize<T>(b: Buffer<T>)
    requires Valid(b)
    ensures Live(b) == Size(b)
  {
    var cap := |b.slots|;
    var lower, upper := b.slots[..b.first], b.slots[b.first..];
    assert b.slots == lower + upper;
    CountAppend(lower, upper);
    forall j | 0 <= j < |upper|
      ensures upper[j].Constructed? <==> j < b.size
    {
      assert upper[j] == b.slots[b.first + j];
      assert Offset(b.first, b.first + j, cap) == j;
    }
    CountPrefix(upper, b.size);
    forall j | 0 <= j < |lower|
      ensures lower[j].Constructed? <==> j < b.size - (cap - b.first)
    {
      assert lower[j] == b.slots[j];
      assert Offset(b.first, j, cap) == j + cap - b.first;
    }
    CountPrefix(lower, b.size - (cap - b.first));
  }

  /** `push_back` follows the bounded-FIFO reference: the new element becomes
      the back, and on a full buffer only the oldest element is evicted. */
  lemma PushBackContents<T>(b: Buffer<T>, item: T)
    requires Valid(b)
    ensures Contents(PushBack(b, item)) == Append(Contents(b), Capacity(b), item)
    ensures Full(b) ==> Contents(PushBack(b, item)) == Contents(b)[1..] + [item]
    ensures !Full(b) ==> Contents(PushBack(b, item)) == Contents(b) + [item]
    ensures Size(PushBack(b, item)) == if Full(b) then Capacity(b) else Size(b) + 1
  {
    AppendEvictsOldest(Contents(b), Capacity(b), item);
    if Full(b) {
      PushBackOverwrites(b, item);
    } else {
      PushBackAppends(b, item);
    }
  }

  lemma PushBackOverwrites<T>(b: Buffer<T>, item: T)
    requires Valid(b) && Full(b)
    ensures Contents(PushBack(b, item)) == Contents(b)[1..] + [item]
  {
    var r := PushBack(b, item);
    var cap := Capacity(b);
    var want := Contents(b)[1..] + [item];
    forall i | 0 <= i < r.size
      ensures Contents(r)[i] == want[i]
    {
      AddTwice(b.first, 1, i, cap);
      if i + 1 < cap {
        PhysInjective(b, i + 1, 0);
        assert want[i] == Index(b, i + 1);
      }
    }
  }

  lemma PushBackAppends<T>(b: Buffer<T>, item: T)
    requires Valid(b) && !Full(b)
    ensures Contents(PushBack(b, item)) == Contents(b) + [item]
  {
    var r := PushBack(b, item);
    var want := Contents(b) + [item];
    forall i | 0 <= i < r.size
      ensures Contents(r)[i] == want[i]
    {
      if i < b.size {
        PhysInjective(b, i, b.size);
      }
    }
  }

  /** `erase_begin(n)` leaves the old logical suffix from `n` onwards, in order. */
  lemma EraseBeginContents<T>(b: Buffer<T>, n: nat)
    requires Valid(b) && n <= b.size
    ensures Size(EraseBegin(b, n)) == Size(b) - n
    ensures Contents(EraseBegin(b, n)) == Contents(b)[n..]
  {
    var r := EraseBegin(b, n);
    forall i | 0 <= i < r.size
      ensures Contents(r)[i] == Contents(b)[n..][i]
    {
      AddTwice(b.first, n, i, Capacity(b));
    }
  }

  /** `erase_end(n)` leaves the old logical prefix of length `size - n`, in order. */
  lemma EraseEndContents<T>(b: Buffer<T>, n: nat)
    requires Valid(b) && n <= b.size
    ensures Size(EraseEnd(b, n)) == Size(b) - n
    ensures Contents(EraseEnd(b, n)) == Contents(b)[..b.size - n]
  {
    var r := EraseEnd(b, n);
    forall i | 0 <= i < r.size
      ensures Contents(r)[i] == Contents(b)[..b.size - n][i]
    {
    }
  }

  /** The removals destroy exactly the removed elements and rewrite no stored
      value: an element taken by pointer before the removal still reads the
      same, destroyed if it was removed and alive otherwise. */
  lemma RemovalKeepsStorage<T>(b: Buffer<T>, n: nat, i: nat)
    requires Valid(b) && n <= b.size && i < b.size
    ensures Deref(EraseBegin(b, n), Phys(b, i))
            == if i < n then Destroyed(Index(b, i)) else Constructed(Index(b, i))
    ensures Deref(EraseEnd(b, n), Phys(b, i))
            == if i < b.size - n then Constructed(Index(b, i)) else Destroyed(Index(b, i))
    ensures Deref(Clear(b), Phys(b, i)) == Destroyed(Index(b, i))
  {
    OffsetOfAdd(b.first, i, Capacity(b));
  }

  /** Slots outside the logical run are untouched by every removal. */
  lemma RemovalKeepsOtherSlots<T>(b: Buffer<T>, n: nat, j: nat)
    requires Valid(b) && n <= b.size && j < Capacity(b) && !b.slots[j].Constructed?
    ensures EraseBegin(b, n).slots[j] == b.slots[j]
    ensures EraseEnd(b, n).slots[j] == b.slots[j]
    ensures Clear(b).slots[j] == b.slots[j]
  {
  }


  /** A buffer with no elements, however it was emptied, takes up to `capacity`
      new elements in order. */
  lemma EmptyReusable<T>(b: Buffer<T>, items: seq<T>)
    requires Valid(b) && Empty(b) && |items| <= Capacity(b)
    ensures Size(PushAll(b, items)) == |items|
    ensures Contents(PushAll(b, items)) == items
  {
    assert Contents(b) + items == items;
  }
}
