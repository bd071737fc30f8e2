/** A single-producer single-consumer ring in shared memory: free-running 32-bit indices, masked into
    slots. `published`, `staged` and `consumed` are its history as an unbounded FIFO, and `Valid` says
    that the indices and slots are that FIFO: `consumed` is a prefix of `published`, and the slots from
    the consumer on hold what was published, then what was written and not yet published. */
module Rings {
  import opened Words

  class Ring<T(0)> {
    const size: nat
    const desc: array<T>
    ghost const ours: bool                 // the user is the producer (FILL, TX)
    var producer: u32
    var consumer: u32
    var needWakeup: bool
    var cached: u32                        // our-side producer index (FILL, TX)
    ghost var published: seq<T>
    ghost var staged: seq<T>               // slots written, producer index not stored
    ghost var consumed: seq<T>             // what the consumer read out of the slots

    ghost predicate Valid()
      reads this, desc
    {
      && RingSize(size) && desc.Length == size
      && consumed <= published
      && |published| + |staged| - |consumed| <= size
      && producer == Wrap(|published|)
      && consumer == Wrap(|consumed|)
      && (if ours then cached == Wrap(|published| + |staged|) else staged == [])
      && forall i :: |consumed| <= i < |published| + |staged| ==>
           0 <= Slot(i) < size && desc[Slot(i)] == (published + staged)[i]
    }

    /** The slot of history position `i`: its index wrapped to 32 bits, then masked. */
    function Slot(i: nat): nat
      requires size > 0
    {
      And(Wrap(i), size - 1)
    }

    constructor (size: nat, ghost ours: bool)
      requires RingSize(size)
      ensures Valid() && fresh(this) && fresh(desc) && this.size == size && this.ours == ours
      ensures published == staged == consumed == []
    {
      this.size, this.ours := size, ours;
      desc := new T[size];
      producer, consumer, needWakeup, cached := 0, 0, false, 0;
      published, staged, consumed := [], [], [];
    }

    lemma SlotBound(i: nat)
      requires RingSize(size)
      ensures Slot(i) == i % size && 0 <= Slot(i) < size
    {
      WrappedSlot(i, size);
    }

    lemma SlotsDistinct(i: nat, j: nat)
      requires RingSize(size) && i < j < i + size
      ensures Slot(i) != Slot(j)
    {
      SlotBound(i);
      SlotBound(j);
      if Slot(i) == Slot(j) {
        SlotInjective(i, j, size);
      }
    }

    /** The shared indices are the history lengths, wrapped, and the ring is never over half the index space. */
    lemma Indexed()
      requires Valid()
      ensures producer == Wrap(|published|) && consumer == Wrap(|consumed|)
      ensures |consumed| <= |published| <= |consumed| + 0x8000_0000
      ensures consumed <= published
      ensures producer == consumer <==> |published| == |consumed|
      ensures ours ==> cached == Wrap(|published| + |staged|)
      ensures |published| + |staged| <= |consumed| + size
    {
      WrapFaithful(|published|, |consumed|);
    }

    // ----- The user's side -----

    /** Write `x` into the next slot and advance the private producer index. */
    method Stage(x: T)
      requires Valid() && ours && |published| + |staged| - |consumed| < size
      modifies desc, this`cached, this`staged
      ensures Valid() && staged == old(staged) + [x]
    {
      hide And, IsPow2, Wrap, Next;
      ghost var n := |published| + |staged|;
      SlotBound(n);
      forall i | |consumed| <= i < n ensures Slot(i) != Slot(n) {
        SlotsDistinct(i, n);
      }
      NextWraps(n);
      assert And(cached, size - 1) == Slot(n);
      desc[And(cached, size - 1)] := x;
      cached := Next(cached);
      assert published + (staged + [x]) == (published + staged) + [x];
      staged := staged + [x];
    }

    /** Store the producer index: everything staged becomes visible to the consumer. */
    method Publish()
      requires Valid() && ours
      modifies this`producer, this`published, this`staged
      ensures Valid() && published == old(published) + old(staged) && staged == []
    {
      producer := cached;
      published := published + staged;
      staged := [];
    }

    /** Read the slot at wrapped index `c`. */
    method Read(c: u32, ghost i: nat) returns (x: T)
      requires Valid() && |consumed| <= i < |published| && c == Wrap(i)
      ensures x == published[i]
    {
      assert Slot(i) == And(c, size - 1);
      x := desc[And(c, size - 1)];
    }

    /** Store the consumer index, giving the slots of `read` back to the producer. */
    method Release(c: u32, ghost read: seq<T>)
      requires Valid() && consumed + read <= published && c == Wrap(|consumed| + |read|)
      modifies this`consumer, this`consumed
      ensures Valid() && consumed == old(consumed) + read
    {
      consumer := c;
      consumed := consumed + read;
    }

    // ----- The kernel's side -----

    method KernelTake() returns (x: T)
      requires Valid() && |consumed| < |published|
      modifies this`consumer, this`consumed
      ensures Valid() && x == published[|old(consumed)|] && consumed == old(consumed) + [x]
    {
      hide And, IsPow2, Wrap, Next;
      NextWraps(|consumed|);
      assert consumed <= consumed + [published[|consumed|]] <= published;
      x := Read(consumer, |consumed|);
      consumer := Next(consumer);
      consumed := consumed + [x];
    }

    method KernelOffer(x: T)
      requires Valid() && !ours && |published| - |consumed| < size
      modifies desc, this`producer, this`published
      ensures Valid() && published == old(published) + [x]
    {
      hide And, IsPow2, Wrap, Next;
      ghost var n := |published|;
      SlotBound(n);
      forall i | |consumed| <= i < n ensures Slot(i) != Slot(n) {
        SlotsDistinct(i, n);
      }
      NextWraps(n);
      assert And(producer, size - 1) == Slot(n);
      desc[And(producer, size - 1)] := x;
      assert published + staged == published && published + [x] + staged == published + [x];
      producer := Next(producer);
      published := published + [x];
    }

    method KernelToggleWakeup(flag: bool)
      requires Valid()
      modifies this`needWakeup
      ensures Valid() && needWakeup == flag
    {
      needWakeup := flag;
    }
  }
}
