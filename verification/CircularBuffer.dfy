/** lwraft/common/circularbuffer.c: a preallocated byte buffer that keeps the newest entries. */
module CircularBuffer {
  import opened Bytes

  const RANGE: nat := 0x1_0000_0000

  /** The 32-bit product that the code compares with the capacity. */
  function BufferSize(capacity: uint32, elementSize: uint32): uint32 {
    (capacity * elementSize) % RANGE
  }

  predicate Accepts(capacity: uint32, elementSize: uint32) {
    BufferSize(capacity, elementSize) > capacity
  }

  /** The true product fits 32 bits. */
  predicate Fits(capacity: uint32, elementSize: uint32) {
    capacity * elementSize < RANGE
  }

  lemma MulMonotone(a: nat, b: nat, n: nat)
    requires a <= b
    ensures a * n <= b * n
  {
  }

  /** An accepted capacity leaves room for the +1 steps of the indices, and the buffer holds all
      the entries exactly when the true product fits 32 bits. */
  lemma AcceptedCapacity(capacity: uint32, elementSize: uint32)
    requires Accepts(capacity, elementSize)
    ensures 1 <= capacity < RANGE - 1 && elementSize >= 2
    ensures BufferSize(capacity, elementSize) == capacity * elementSize <==> Fits(capacity, elementSize)
    ensures !Fits(capacity, elementSize) ==> BufferSize(capacity, elementSize) < capacity * elementSize
  {
    assert 0 * elementSize == 0 && capacity * 0 == 0 && capacity * 1 == capacity;
  }

  /** The test does let some wrapped products through. */
  lemma WrappedCapacityAccepted()
    ensures Accepts(0x8000_0001, 3) && !Fits(0x8000_0001, 3)
  {
  }

  // ---------------------------------------------------------------- arithmetic of the ring

  /** The slot of entry number `n`. */
  function Ring(n: nat, capacity: nat): (i: nat)
    requires capacity > 0
    ensures i < capacity
  {
    n % capacity
  }

  lemma RingIs(n: nat, q: nat, r: nat, c: nat)
    requires r < c && n == q * c + r
    ensures Ring(n, c) == r
  {
    QuotientUnique(n / c, n % c, q, r, c);
  }

  lemma QuotientUnique(d: nat, e: nat, q: nat, r: nat, c: nat)
    requires e < c && r < c && d * c + e == q * c + r
    ensures e == r
  {
    if q < d {
      MulMonotone(q + 1, d, c);
    } else {
      MulMonotone(d, q, c);
      if d < q { MulMonotone(d + 1, q, c); }
    }
  }

  lemma RingStep(n: nat, c: nat)
    requires c > 0
    ensures Ring(n + 1, c) == if Ring(n, c) + 1 == c then 0 else Ring(n, c) + 1
  {
    if n % c + 1 == c {
      RingIs(n + 1, n / c + 1, 0, c);
    } else {
      RingIs(n + 1, n / c, n % c + 1, c);
    }
  }

  lemma RingSmall(n: nat, c: nat)
    requires n < c
    ensures Ring(n, c) == n
  {
    RingIs(n, 0, n, c);
  }

  /** After a full round the ring is back where it was. */
  lemma RingRound(n: nat, c: nat)
    requires c > 0
    ensures Ring(n + c, c) == Ring(n, c)
  {
    RingIs(n + c, n / c + 1, n % c, c);
  }

  lemma RingDistinct(i: nat, j: nat, c: nat)
    requires i < j < i + c
    ensures Ring(i, c) != Ring(j, c)
  {
    if i % c == j % c {
      assert j - i == (j / c - i / c) * c;
      if j / c > i / c { MulMonotone(1, j / c - i / c, c); } else { MulMonotone(j / c, i / c, c); }
    }
  }

  /** The bytes of slot `i`. */
  function Slot(bytes: seq<byte>, i: nat, size: nat): seq<byte> {
    if 0 <= i * size <= (i + 1) * size <= |bytes| then bytes[i * size..(i + 1) * size] else []
  }

  lemma SlotBounds(i: nat, capacity: nat, elementSize: nat)
    requires i < capacity
    ensures 0 <= i * elementSize <= (i + 1) * elementSize <= capacity * elementSize
    ensures (i + 1) * elementSize == i * elementSize + elementSize
  {
    MulMonotone(i + 1, capacity, elementSize);
  }

  /** Writing one slot leaves the others alone. */
  lemma SlotKept(before: seq<byte>, after: seq<byte>, i: nat, written: nat, size: nat)
    requires |before| == |after| && i != written
    requires forall k :: 0 <= k < |before| && !(written * size <= k < (written + 1) * size) ==> after[k] == before[k]
    ensures Slot(after, i, size) == Slot(before, i, size)
  {
    if i < written { MulMonotone(i + 1, written, size); } else { MulMonotone(written + 1, i, size); }
  }

  function Slots(bytes: seq<byte>, capacity: nat, size: nat): (s: seq<seq<byte>>)
    ensures |s| == capacity
  {
    seq(capacity, i requires 0 <= i < capacity => Slot(bytes, i, size))
  }

  /** The slots remember the last entries pushed: entry number `j` stands in slot `j` modulo the
      number of slots. */
  ghost predicate Keeps(slots: seq<seq<byte>>, pushed: seq<seq<byte>>, size: nat) {
    && slots != [] && size == (if |pushed| < |slots| then |pushed| else |slots|)
    && forall j :: |pushed| - size <= j < |pushed| ==> slots[Ring(j, |slots|)] == pushed[j]
  }

  lemma KeepsPush(slots: seq<seq<byte>>, pushed: seq<seq<byte>>, size: nat, entry: seq<byte>)
    requires Keeps(slots, pushed, size)
    ensures Keeps(slots[Ring(|pushed|, |slots|) := entry], pushed + [entry],
                  if size < |slots| then size + 1 else |slots|)
  {
    hide Ring;
    var n := |pushed|;
    forall j | 0 <= j < n && n < j + |slots|
      ensures Ring(j, |slots|) != Ring(n, |slots|)
    {
      RingDistinct(j, n, |slots|);
    }
  }

  lemma KeepsAt(slots: seq<seq<byte>>, pushed: seq<seq<byte>>, size: nat, j: nat)
    requires Keeps(slots, pushed, size) && |pushed| - size <= j < |pushed|
    ensures slots[Ring(j, |slots|)] == pushed[j]
  {
  }

  /** The last `size` entries, oldest first. */
  function Newest(pushed: seq<seq<byte>>, size: nat): (r: seq<seq<byte>>)
    requires size <= |pushed|
    ensures |r| == size
  {
    pushed[|pushed| - size..]
  }

  lemma NewestPush(pushed: seq<seq<byte>>, size: nat, capacity: nat, entry: seq<byte>)
    requires size <= |pushed| && size <= capacity && capacity > 0
    ensures size < capacity ==> Newest(pushed + [entry], size + 1) == Newest(pushed, size) + [entry]
    ensures size == capacity ==> Newest(pushed + [entry], capacity) == Newest(pushed, size)[1..] + [entry]
  {
  }

  /** Visiting in order takes the retained entries one by one. */
  lemma NewestNext(pushed: seq<seq<byte>>, size: nat, k: nat)
    requires k < size <= |pushed|
    ensures Newest(pushed, size)[..k] + [pushed[|pushed| - size + k]] == Newest(pushed, size)[..k + 1]
  {
  }

  class CircularBuffer {
    var data: array<byte>
    var capacity: uint32
    const elementSize: uint32
    var head: uint32
    var size: uint32
    ghost var pushed: seq<seq<byte>>

    /** Index bounds that every operation asserts or relies on. */
    ghost predicate Shape()
      reads this
    {
      && Sized(data, capacity, elementSize)
      && head < capacity && size <= capacity && (size < capacity ==> head == size)
    }

    ghost predicate Valid()
      reads this, data
    {
      && Shape() && head == Ring(|pushed|, capacity) && size <= |pushed|
      && Keeps(Slots(data[..], capacity, elementSize), pushed, size)
    }

    /** An empty buffer; an unaccepted capacity gets no memory, an accepted one the 32-bit product. */
    constructor (capacity: uint32, elementSize: uint32)
      ensures pushed == [] && head == size == 0 && this.capacity == capacity && this.elementSize == elementSize
      ensures fresh(data) && data.Length == if Accepts(capacity, elementSize) then BufferSize(capacity, elementSize) else 0
      ensures Valid() <==> Accepts(capacity, elementSize) && Fits(capacity, elementSize)
    {
      hide Accepts, BufferSize, Fits, Valid, Sized;
      var length := if Accepts(capacity, elementSize) then BufferSize(capacity, elementSize) else 0;
      this.data := new byte[length];
      this.capacity, this.elementSize := capacity, elementSize;
      head, size, pushed := 0, 0, [];
      new;
      StartsValid();
      SizedIff(data, capacity, elementSize);
    }

    /** An empty buffer is usable exactly when its memory holds the true product. */
    lemma StartsValid()
      requires pushed == [] && head == size == 0
      ensures Valid() <==> Sized(data, capacity, elementSize)
    {
      if Sized(data, capacity, elementSize) {
        SizedBounds(data, capacity, elementSize);
        RingSmall(0, capacity);
      }
    }

    /** VmDirCircularBufferCreate: the caller gets the object even with an error. */
    static method Create(capacity: uint32, elementSize: uint32) returns (code: Code, buffer: CircularBuffer)
      ensures code == if Accepts(capacity, elementSize) then Success else InvalidParameter
      ensures fresh(buffer) && fresh(buffer.data) && buffer.pushed == []
      ensures buffer.capacity == capacity && buffer.elementSize == elementSize
      ensures buffer.Valid() <==> code == Success && Fits(capacity, elementSize)
    {
      hide Accepts, BufferSize, Fits;
      buffer := new CircularBuffer(capacity, elementSize);
      code := if Accepts(capacity, elementSize) then Success else InvalidParameter;
    }

    /** The entries still kept, oldest first. */
    ghost function Retained(): (r: seq<seq<byte>>)
      requires Valid()
      reads this, data
      ensures |r| == size
    {
      Newest(pushed, size)
    }

    /** VmDirCircularBufferGetNextEntry: hands out the slot after the newest entry; the C code
        returns its address. */
    method GetNextEntry() returns (index: uint32)
      requires Shape()
      modifies this`head, this`size
      ensures Shape() && index == old(head) < size
      ensures head == if old(head) + 1 == capacity then 0 else old(head) + 1
      ensures size == if old(size) < capacity then old(size) + 1 else capacity
    {
      SizedBounds(data, capacity, elementSize);
      index := head;
      RingSmall(head, capacity);
      RingStep(head, capacity);
      head := (head + 1) % capacity;
      size := if size + 1 < capacity then size + 1 else capacity;
    }

    /** The caller fills the slot it was handed. */
    method Fill(index: uint32, entry: seq<byte>)
      requires Sized(data, capacity, elementSize) && index < capacity && |entry| == elementSize
      modifies data
      ensures Slots(data[..], capacity, elementSize) == Slots(old(data[..]), capacity, elementSize)[index := entry]
    {
      SlotBounds(index, capacity, elementSize);
      var base := index * elementSize;
      forall k | base <= k < base + elementSize { data[k] := entry[k - base]; }
      assert data[..][base..base + elementSize] == entry;
      forall i: nat | i != index
        ensures Slot(data[..], i, elementSize) == Slot(old(data[..]), i, elementSize)
      {
        SlotKept(old(data[..]), data[..], i, index, elementSize);
      }
    }

    /** An entry goes into the slot that follows the newest one. */
    method Store(entry: seq<byte>)
      requires Valid() && |entry| == elementSize
      modifies this`head, this`size, this`pushed, data
      ensures Valid() && pushed == old(pushed) + [entry]
      ensures size == if old(size) < capacity then old(size) + 1 else capacity
    {
      RingStep(|pushed|, capacity);
      KeepsPush(Slots(data[..], capacity, elementSize), pushed, size, entry);
      hide Ring, Slots, Sized, Keeps;
      var index := GetNextEntry();
      Fill(index, entry);
      pushed := pushed + [entry];
    }

    /** One entry through the buffer: the oldest one leaves when the buffer was full. */
    method Push(entry: seq<byte>)
      requires Valid() && |entry| == elementSize
      modifies this`head, this`size, this`pushed, data
      ensures Valid() && pushed == old(pushed) + [entry]
      ensures old(size) < capacity ==> Retained() == old(Retained()) + [entry]
      ensures old(size) == capacity ==> Retained() == old(Retained())[1..] + [entry]
    {
      NewestPush(pushed, size, capacity, entry);
      hide Ring, Slots, Sized, Keeps, Newest;
      Store(entry);
    }

    /** VmDirCircularBufferReset. */
    method Reset()
      requires Valid()
      modifies this`head, this`size, this`pushed
      ensures Valid() && pushed == []
    {
      SizedBounds(data, capacity, elementSize);
      head, size, pushed := 0, 0, [];
      RingSmall(0, capacity);
    }

    /** VmDirCircularBufferSetCapacity, of any buffer: a refused capacity changes nothing, an
        accepted one empties the buffer and leaves it usable exactly when the product did not wrap. */
    method SetCapacity(newCapacity: uint32) returns (code: Code)
      modifies this`data, this`capacity, this`head, this`size, this`pushed
      ensures code == if Accepts(newCapacity, elementSize) then Success else InvalidParameter
      ensures code == Success ==> capacity == newCapacity && pushed == [] && fresh(data)
      ensures code == Success ==> (Valid() <==> Fits(newCapacity, elementSize))
      ensures code != Success ==> capacity == old(capacity) && head == old(head) && size == old(size)
      ensures code != Success ==> pushed == old(pushed) && data == old(data)
    {
      if BufferSize(newCapacity, elementSize) > newCapacity {
        assert Accepts(newCapacity, elementSize);
        hide Accepts, BufferSize, Fits, Valid, Sized;
        data := new byte[BufferSize(newCapacity, elementSize)];
        capacity, head, size, pushed := newCapacity, 0, 0, [];
        StartsValid();
        SizedIff(data, capacity, elementSize);
        code := Success;
      } else {
        code := InvalidParameter;
      }
    }

    /** _VmDirCircularBufferGetElementAtIndex. */
    method ElementAt(index: uint32) returns (entry: seq<byte>)
      requires Sized(data, capacity, elementSize) && index < capacity
      ensures entry == Slots(data[..], capacity, elementSize)[index]
    {
      SlotBounds(index, capacity, elementSize);
      entry := data[..][index * elementSize..(index + 1) * elementSize];
    }

    /** _VmDirCircularBufferGetStartIndex is the slot of the oldest retained entry. */
    method GetStartIndex() returns (index: uint32)
      requires Valid()
      ensures index == Ring(|pushed| - size, capacity)
    {
      RingSmall(0, capacity);
      if size < capacity {
        index := 0;
      } else {
        RingRound(|pushed| - size, capacity);
        index := head;
      }
    }

    /** VmDirCircularBufferSelectElements with a callback that may remember what it has seen:
        visits the oldest `count` retained entries (all of them for zero) in insertion order and
        stops after the first one that the callback declines. */
    method Select(count: uint32, goOn: seq<seq<byte>> -> bool) returns (visited: seq<seq<byte>>)
      requires Valid()
      ensures var n := if count == 0 || count > size then size else count;
              && |visited| <= n && visited == Retained()[..|visited|]
              && Continued(goOn, visited, |visited| - 1)
              && (|visited| < n ==> visited != [] && !goOn(visited))
    {
      hide Slots, Ring, Sized, Continued, Keeps, Newest;
      var left := if count == 0 then size else if count < size then count else size;
      var index: nat := GetStartIndex();
      ghost var n, first, kept := left, |pushed| - size, Newest(pushed, size);
      visited := [];
      ContinuedNone(goOn);
      while left > 0
        invariant 0 <= left && |visited| + left == n <= size
        invariant visited == kept[..|visited|]
        invariant index == Ring(first + |visited|, capacity)
        invariant Continued(goOn, visited, |visited|)
        decreases left
      {
        var entry := ElementAt(index);
        KeepsAt(Slots(data[..], capacity, elementSize), pushed, size, first + |visited|);
        RingStep(first + |visited|, capacity);
        NewestNext(pushed, size, |visited|);
        ContinuedMore(goOn, visited, entry);
        visited := visited + [entry];
        index := index + 1;
        if index == capacity { index := 0; }
        if !goOn(visited) { return; }
        left := left - 1;
      }
      ContinuedLess(goOn, visited);
    }
  }

  /** The callback went on after each of the first `n` visits. */
  ghost predicate Continued(goOn: seq<seq<byte>> -> bool, visited: seq<seq<byte>>, n: int) {
    forall k :: 0 < k <= n && k <= |visited| ==> goOn(visited[..k])
  }

  lemma ContinuedNone(goOn: seq<seq<byte>> -> bool)
    ensures Continued(goOn, [], 0)
  {
  }

  lemma ContinuedLess(goOn: seq<seq<byte>> -> bool, visited: seq<seq<byte>>)
    requires Continued(goOn, visited, |visited|)
    ensures Continued(goOn, visited, |visited| - 1)
  {
  }

  lemma ContinuedMore(goOn: seq<seq<byte>> -> bool, visited: seq<seq<byte>>, entry: seq<byte>)
    requires Continued(goOn, visited, |visited|)
    ensures Continued(goOn, visited + [entry], |visited|)
    ensures goOn(visited + [entry]) ==> Continued(goOn, visited + [entry], |visited| + 1)
  {
    var more := visited + [entry];
    assert more[..|more|] == more;
    assert forall k :: 0 < k <= |visited| ==> more[..k] == visited[..k];
  }

  ghost predicate Sized(data: array<byte>, capacity: uint32, elementSize: uint32) {
    Accepts(capacity, elementSize) && Fits(capacity, elementSize) && data.Length == capacity * elementSize
  }

  lemma SizedIff(data: array<byte>, capacity: uint32, elementSize: uint32)
    requires data.Length == if Accepts(capacity, elementSize) then BufferSize(capacity, elementSize) else 0
    ensures Sized(data, capacity, elementSize) <==> Accepts(capacity, elementSize) && Fits(capacity, elementSize)
  {
    if Accepts(capacity, elementSize) { AcceptedCapacity(capacity, elementSize); }
  }

  lemma SizedBounds(data: array<byte>, capacity: uint32, elementSize: uint32)
    requires Sized(data, capacity, elementSize)
    ensures 1 <= capacity < RANGE - 1
  {
    AcceptedCapacity(capacity, elementSize);
  }
}
