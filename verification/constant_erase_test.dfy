/** The scenarios of the erase_begin / erase_end / clear test, each proved on the
    buffer model. `p` is the raw pointer the test saves before erasing; it is a
    physical slot index and is moved with plain (non-wrapping) arithmetic. */
module ConstantEraseTest {
  import opened BoundedSeq
  import opened CircularBuffer

  /** Element type that counts its live instances; only the count matters. */
  datatype InstanceCounter = InstanceCounter

  /** Integer wrapper whose copy may throw on demand; the trigger is off here. */
  datatype MyInteger = MyInteger(n: int)

  /** `cb1`: capacity 5, then push_back 1, 2, 3, 4, 5, 6. */
  function Cb1(): (b: Buffer<int>)
    ensures Valid(b) && Capacity(b) == 5
  {
    PushAll(WithCapacity(5), [1, 2, 3, 4, 5, 6])
  }

  /** After six pushes into capacity 5 the value 1 has been overwritten by 6,
      which sits in the physical slot just before the logical front. */
  lemma Cb1Layout()
    ensures Full(Cb1()) && Contents(Cb1()) == [2, 3, 4, 5, 6]
    ensures Cb1().first == 1
    ensures Cb1().slots == [Constructed(6), Constructed(2), Constructed(3), Constructed(4), Constructed(5)]
  {
    var b0: Buffer<int> := WithCapacity(5);
    var b1 := PushBack(b0, 1);
    var b2 := PushBack(b1, 2);
    var b3 := PushBack(b2, 3);
    var b4 := PushBack(b3, 4);
    var b5 := PushBack(b4, 5);
    var b6 := PushBack(b5, 6);
    assert b5.slots == [Constructed(1), Constructed(2), Constructed(3), Constructed(4), Constructed(5)];
    assert b6.slots == [Constructed(6), Constructed(2), Constructed(3), Constructed(4), Constructed(5)];
    assert [1, 2, 3, 4, 5, 6][1..][1..][1..][1..][1..][1..] == [];
    assert Cb1() == b6;
    assert Newest([] + [1, 2, 3, 4, 5, 6], 5) == [2, 3, 4, 5, 6];
  }

  /** erase_begin_test, `cb1` part. */
  lemma EraseBeginInts()
    ensures var p := Phys(Cb1(), 0);
            var e2 := EraseBegin(Cb1(), 2);
            var e5 := EraseBegin(e2, 3);
            var r := PushAll(e5, [10, 11, 12]);
            && Size(e2) == 3 && Contents(e2) == [4, 5, 6]
            && Empty(e5)
            && p + 2 < Capacity(e5)
            && Deref(e5, p) == Destroyed(2)
            && Deref(e5, p + 1) == Destroyed(3)
            && Deref(e5, p + 2) == Destroyed(4)
            && Size(r) == 3 && Contents(r) == [10, 11, 12]
  {
    Cb1Layout();
    var b := Cb1();
    var e2 := EraseBegin(b, 2);
    EraseBeginContents(b, 2);
    assert [2, 3, 4, 5, 6][2..] == [4, 5, 6];
    // The pointer reads: slots 1 and 2 die in the first erase, slot 3 in the second.
    assert Index(b, 0) == Contents(b)[0] == 2 && Index(b, 1) == Contents(b)[1] == 3;
    assert Index(e2, 0) == Contents(e2)[0] == 4;
    assert Phys(b, 0) == 1 && Phys(b, 1) == 2 && Phys(e2, 0) == 3;
    RemovalKeepsStorage(b, 2, 0);
    RemovalKeepsStorage(b, 2, 1);
    RemovalKeepsOtherSlots(e2, 3, 1);
    RemovalKeepsOtherSlots(e2, 3, 2);
    RemovalKeepsStorage(e2, 3, 0);
    EmptyReusable(EraseBegin(e2, 3), [10, 11, 12]);
  }

  /** erase_end_test, `cb1` part: `p` points at logical position 3. */
  lemma EraseEndInts()
    ensures var p := Phys(Cb1(), 3);
            var e2 := EraseEnd(Cb1(), 2);
            var e5 := EraseEnd(e2, 3);
            var r := PushAll(e5, [10, 11, 12]);
            && Size(e2) == 3 && Contents(e2) == [2, 3, 4]
            && Empty(e5)
            && 0 <= p - 2
            && Deref(e5, p) == Destroyed(5)
            && Deref(e5, p - 1) == Destroyed(4)
            && Deref(e5, p - 2) == Destroyed(3)
            && Size(r) == 3 && Contents(r) == [10, 11, 12]
  {
    Cb1Layout();
    var b := Cb1();
    var e2 := EraseEnd(b, 2);
    EraseEndContents(b, 2);
    assert [2, 3, 4, 5, 6][..3] == [2, 3, 4];
    // The pointer reads: slot 4 dies in the first erase, slots 3 and 2 in the second.
    assert Index(b, 3) == Contents(b)[3] == 5;
    assert Index(e2, 1) == Contents(e2)[1] == 3 && Index(e2, 2) == Contents(e2)[2] == 4;
    assert Phys(b, 3) == 4 && Phys(e2, 1) == 2 && Phys(e2, 2) == 3;
    RemovalKeepsStorage(b, 2, 3);
    RemovalKeepsOtherSlots(e2, 3, 4);
    RemovalKeepsStorage(e2, 3, 1);
    RemovalKeepsStorage(e2, 3, 2);
    EmptyReusable(EraseEnd(e2, 3), [10, 11, 12]);
  }

  /** clear_test, `cb1` part: the whole old storage, including the wrapped
      newest value one slot before the old front, is still readable. */
  lemma ClearInts()
    ensures var p := Phys(Cb1(), 0);
            var c := Clear(Cb1());
            && Empty(c)
            && 1 <= p && p + 3 < Capacity(c)
            && Deref(c, p) == Destroyed(2)
            && Deref(c, p + 1) == Destroyed(3)
            && Deref(c, p + 2) == Destroyed(4)
            && Deref(c, p + 3) == Destroyed(5)
            && Deref(c, p - 1) == Destroyed(6)
  {
    Cb1Layout();
    var b := Cb1();
    forall i | 0 <= i < 5
      ensures Deref(Clear(b), Phys(b, i)) == Destroyed(Contents(b)[i])
    {
      RemovalKeepsStorage(b, 0, i);
    }
    assert Phys(b, 0) == 1 && Phys(b, 1) == 2 && Phys(b, 2) == 3 && Phys(b, 3) == 4 && Phys(b, 4) == 0;
  }

  /** `cb2(5, InstanceCounter())`: five live instances; erasing two from either
      end leaves three, clearing leaves none. */
  lemma InstanceCounts()
    ensures var cb2 := Fill(5, InstanceCounter);
            && Size(cb2) == 5 && Live(cb2) == 5
            && Size(EraseBegin(cb2, 2)) == 3 && Live(EraseBegin(cb2, 2)) == 3
            && Size(EraseEnd(cb2, 2)) == 3 && Live(EraseEnd(cb2, 2)) == 3
            && Empty(Clear(cb2)) && Live(Clear(cb2)) == 0
  {
    var cb2 := Fill(5, InstanceCounter);
    LiveIsSize(EraseBegin(cb2, 2));
    LiveIsSize(EraseEnd(cb2, 2));
  }

  /** `cb3`: the same six pushes with `MyInteger` elements. */
  function Cb3(): (b: Buffer<MyInteger>)
    ensures Valid(b) && Capacity(b) == 5
  {
    PushAll(WithCapacity(5), [MyInteger(1), MyInteger(2), MyInteger(3), MyInteger(4), MyInteger(5), MyInteger(6)])
  }

  /** The `cb3` parts of all three tests. */
  lemma MyIntegerScenarios()
    ensures Size(EraseBegin(Cb3(), 2)) == 3
    ensures Contents(EraseBegin(Cb3(), 2)) == [MyInteger(4), MyInteger(5), MyInteger(6)]
    ensures Size(EraseEnd(Cb3(), 2)) == 3
    ensures Contents(EraseEnd(Cb3(), 2)) == [MyInteger(2), MyInteger(3), MyInteger(4)]
    ensures Empty(Clear(Cb3()))
  {
    var xs := [MyInteger(1), MyInteger(2), MyInteger(3), MyInteger(4), MyInteger(5), MyInteger(6)];
    var full := [MyInteger(2), MyInteger(3), MyInteger(4), MyInteger(5), MyInteger(6)];
    assert Newest([] + xs, 5) == full;
    EraseBeginContents(Cb3(), 2);
    EraseEndContents(Cb3(), 2);
    assert full[2..] == [MyInteger(4), MyInteger(5), MyInteger(6)];
    assert full[..3] == [MyInteger(2), MyInteger(3), MyInteger(4)];
  }
}
