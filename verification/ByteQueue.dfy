/** The TCP byte ring of libs/tcp/tcp.c: its abstract value, the exact positions its copying code
    touches, and the ring itself updated in place. */
module ByteQueues {
  import opened Words

  const QUEUE_SIZE: nat := 16384

  /** What a ring holds: where it starts, the queued bytes, and the two numbers kept beside them. */
  datatype Queue = Queue(start: nat, bytes: seq<byte>, lsn: u32, lan: u32) {

    predicate Valid() {
      start <= QUEUE_SIZE && |bytes| <= QUEUE_SIZE
    }

    /** How many of `n` offered bytes an enqueue accepts. */
    function Accepted(n: nat): nat
      requires Valid()
    {
      Min(n, QUEUE_SIZE - |bytes|)
    }

    function Enqueue(more: seq<byte>): (q: Queue)
      requires Valid()
      ensures q.Valid()
    {
      this.(bytes := bytes + more[..Accepted(|more|)])
    }

    function Drop(n: nat): (q: Queue)
      requires Valid()
      ensures q.Valid()
    {
      if n == 0 then this
      else if n >= |bytes| then this.(bytes := [], start := 0)
      else this.(bytes := bytes[n..], start := (start + n) % QUEUE_SIZE)
    }

    /** Dequeue as intended. The code leaves a ring that ends exactly at its last byte there, and does not
        come round. */
    function Dequeue(n: nat): (q: Queue)
      requires Valid()
      ensures q.Valid()
    {
      var actual := Min(n, |bytes|);
      if actual == |bytes| then this.(bytes := [], start := if actual == 0 then start else 0)
      else this.(bytes := bytes[actual..],
                 start := if start + actual <= QUEUE_SIZE then start + actual else start + actual - QUEUE_SIZE)
    }
  }

  // ----- where the copying code reads and writes -----

  /** The ring offset that holds the `i`th byte from `start`. */
  function RingIndex(start: nat, i: nat): nat
    requires start <= QUEUE_SIZE && i < QUEUE_SIZE
  {
    if start + i < QUEUE_SIZE then start + i else start + i - QUEUE_SIZE
  }

  /** The offset to which ByteQueueEnqueue copies its `i`th byte. The test is in unsigned arithmetic, so it is
      false once `start + len` passes the end of the ring, and the copy then runs past the array. */
  function EnqueueIndex(start: nat, len: nat, actual: nat, i: nat): nat {
    if Wrap(QUEUE_SIZE - (start + len)) < actual && i >= QUEUE_SIZE - (start + len)
    then i - (QUEUE_SIZE - (start + len)) else start + len + i
  }

  /** The offset from which ByteQueueRead copies its `i`th byte. The two pieces are exchanged: `first` is the
      length of the piece that should come second. */
  function ReadIndex(start: nat, actual: nat, i: nat): nat {
    var first := start + actual - QUEUE_SIZE;
    if start + actual > QUEUE_SIZE && i >= first then i - first else start + i
  }

  /** ByteQueueRead leaves `start` here. */
  function ReadStart(start: nat, actual: nat): int {
    if start + actual > QUEUE_SIZE then actual - (start + actual - QUEUE_SIZE) else start
  }

  predicate FitsEnqueue(start: nat, len: nat) {
    start + len <= QUEUE_SIZE
  }

  /** A read that does not pass the end of the ring, or that takes a full ring starting half way round. */
  predicate FitsRead(start: nat, actual: nat) {
    start + actual <= QUEUE_SIZE || (2 * start == QUEUE_SIZE && actual == QUEUE_SIZE)
  }

  /** ByteQueueEnqueue writes each byte where the ring expects it exactly when the bytes already queued do not
      wrap; otherwise it writes outside the array. */
  lemma EnqueueIsRightExactly(start: nat, len: nat, actual: nat)
    requires start <= QUEUE_SIZE && 0 < actual && len + actual <= QUEUE_SIZE
    ensures (forall i: nat | i < actual :: EnqueueIndex(start, len, actual, i) == RingIndex(start, len + i))
       <==> FitsEnqueue(start, len)
    ensures (forall i: nat | i < actual :: EnqueueIndex(start, len, actual, i) < QUEUE_SIZE) <==> FitsEnqueue(start, len)
  {
    if !FitsEnqueue(start, len) {
      assert Wrap(QUEUE_SIZE - (start + len)) == QUEUE_SIZE - (start + len) + TWO_32;
      assert EnqueueIndex(start, len, actual, 0) >= QUEUE_SIZE;
      assert EnqueueIndex(start, len, actual, 0) != RingIndex(start, len + 0);
    }
  }

  /** ByteQueueRead reads inside the array. */
  predicate ReadsInside(start: nat, actual: nat) {
    start + actual <= QUEUE_SIZE || 2 * start + actual <= 2 * QUEUE_SIZE
  }

  lemma ReadsInsideExactly(start: nat, actual: nat)
    requires start <= QUEUE_SIZE && 0 < actual <= QUEUE_SIZE
    ensures (forall i: nat | i < actual :: ReadIndex(start, actual, i) < QUEUE_SIZE) <==> ReadsInside(start, actual)
    ensures FitsRead(start, actual) ==> ReadsInside(start, actual)
  {
    var first := start + actual - QUEUE_SIZE;
    if first <= 0 {
      assert forall i: nat | i < actual :: ReadIndex(start, actual, i) == start + i;
    } else {
      assert ReadIndex(start, actual, first - 1) == start + first - 1;
    }
  }

  /** ByteQueueRead copies the queued bytes in order and leaves the ring in place exactly when `FitsRead`. */
  lemma ReadIsRightExactly(start: nat, actual: nat)
    requires start <= QUEUE_SIZE && 0 < actual <= QUEUE_SIZE
    ensures (forall i: nat | i < actual :: ReadIndex(start, actual, i) == RingIndex(start, i))
            && ReadStart(start, actual) % QUEUE_SIZE == start % QUEUE_SIZE
       <==> FitsRead(start, actual)
  {
    if start + actual > QUEUE_SIZE {
      var first, rest := start + actual - QUEUE_SIZE, QUEUE_SIZE - start;
      if first < rest {
        assert ReadIndex(start, actual, first) != RingIndex(start, first);
      } else if rest < first {
        assert ReadIndex(start, actual, rest) != RingIndex(start, rest);
      }
    }
  }

  /** One byte enqueued behind two that wrap is written outside the array. */
  lemma EnqueueWrapsOutside()
    ensures RingIndex(QUEUE_SIZE - 1, 2) == 1 && EnqueueIndex(QUEUE_SIZE - 1, 2, 1, 0) == QUEUE_SIZE + 1
  {
    assert Wrap(QUEUE_SIZE - (QUEUE_SIZE - 1 + 2)) == TWO_32 - 1;
  }

  /** A small read that meets the end of the ring: the wrong bytes come out and the ring moves. */
  lemma ReadWrapsWrongly()
    ensures ReadIndex(QUEUE_SIZE - 1, 3, 1) != RingIndex(QUEUE_SIZE - 1, 1)
    ensures ReadStart(QUEUE_SIZE - 1, 3) % QUEUE_SIZE != (QUEUE_SIZE - 1) % QUEUE_SIZE
  {
    assert ReadIndex(QUEUE_SIZE - 1, 3, 1) == QUEUE_SIZE;
  }

  // ----- the ring -----

  class ByteQueue {
    const data: array<byte>
    var start: nat
    var len: nat
    var latestSequenceNumber: u32
    var latestAckNumber: u32

    ghost predicate Valid()
      reads this
    {
      data.Length == QUEUE_SIZE && start <= QUEUE_SIZE && len <= QUEUE_SIZE
    }

    ghost function Bytes(): (s: seq<byte>)
      requires Valid()
      reads this, data
      ensures |s| == len
    {
      seq(len, i requires 0 <= i < len reads this, data requires Valid() => data[RingIndex(start, i)])
    }

    ghost function Value(): (q: Queue)
      requires Valid()
      reads this, data
      ensures q.Valid()
    {
      Queue(start, Bytes(), latestSequenceNumber, latestAckNumber)
    }

    constructor ()
      ensures Valid() && fresh(data)
      ensures Value() == Queue(0, [], 0, 0)
    {
      data := new byte[QUEUE_SIZE];
      start, len := 0, 0;
      latestSequenceNumber, latestAckNumber := 0, 0;
    }

    /** The one or two copies that place new bytes after the queued ones. */
    method CopyIn(bytes: seq<byte>)
      requires Valid() && FitsEnqueue(start, len) && 0 < |bytes| <= QUEUE_SIZE - len
      modifies data
      ensures forall i: nat | i < |bytes| :: data[EnqueueIndex(start, len, |bytes|, i)] == bytes[i]
      ensures forall i: nat | i < len :: data[RingIndex(start, i)] == old(data[RingIndex(start, i)])
    {
      var tail := start + len;
      if Wrap(QUEUE_SIZE - tail) < |bytes| {
        var first := QUEUE_SIZE - tail;
        forall i | 0 <= i < first {
          data[tail + i] := bytes[i];
        }
        forall i | 0 <= i < |bytes| - first {
          data[i] := bytes[first + i];
        }
      } else {
        forall i | 0 <= i < |bytes| {
          data[tail + i] := bytes[i];
        }
      }
    }

    /** -1 on a full ring, else the number of bytes taken. */
    method Enqueue(bytes: seq<byte>) returns (r: int)
      requires Valid()
      requires bytes != [] && len < QUEUE_SIZE ==> FitsEnqueue(start, len)
      modifies this`len, data
      ensures Valid()
      ensures r == if bytes != [] && old(len) == QUEUE_SIZE then -1 else old(Value()).Accepted(|bytes|)
      ensures r >= 0 ==> r <= |bytes| && Bytes() == old(Bytes()) + bytes[..r] && (r == |bytes| || len == QUEUE_SIZE)
      ensures Value() == old(Value()).Enqueue(bytes)
    {
      if |bytes| == 0 {
        return 0;
      }
      if len == QUEUE_SIZE {
        return -1;
      }
      var actual := Min(|bytes|, QUEUE_SIZE - len);
      ghost var before := Bytes();
      EnqueueIsRightExactly(start, len, actual);
      CopyIn(bytes[..actual]);
      assert forall i: nat | i < actual :: data[RingIndex(start, len + i)] == bytes[i];
      assert Bytes() == before;
      len := len + actual;
      assert Bytes() == before + bytes[..actual];
      return actual;
    }

    /** The bytes at the offsets ByteQueueRead copies from. */
    ghost function Copied(actual: nat): (s: seq<byte>)
      requires Valid() && actual <= len && ReadsInside(start, actual)
      reads this, data
      ensures |s| == actual
    {
      seq(actual, i requires 0 <= i < actual reads this, data requires Valid() && actual <= len && ReadsInside(start, actual) =>
        (ReadsInsideExactly(start, actual); data[ReadIndex(start, actual, i)]))
    }

    /** The code's two copies, at the code's offsets; nothing is removed. */
    method Read(nbytes: nat) returns (r: int, bytes: seq<byte>)
      requires Valid() && ReadsInside(start, Min(nbytes, len))
      modifies this`start
      ensures Valid() && start == ReadStart(old(start), Min(nbytes, len))
      ensures r == if nbytes > 0 && len == 0 then -1 else Min(nbytes, len)
      ensures bytes == old(Copied(Min(nbytes, len)))
      ensures FitsRead(old(start), Min(nbytes, len)) ==>
        bytes == old(Bytes())[..Min(nbytes, len)] && Value() == old(Value())
    {
      if nbytes == 0 {
        return 0, [];
      }
      if len == 0 {
        return -1, [];
      }
      var actual := Min(nbytes, len);
      ReadIsRightExactly(start, actual);
      assert FitsRead(start, actual) ==>
        forall i: nat | i < actual :: ReadIndex(start, actual, i) == RingIndex(start, i);
      if start + actual > QUEUE_SIZE {
        var first := start + actual - QUEUE_SIZE;
        var second := actual - first;
        bytes := data[start..start + first] + data[..second];
        start := second;
      } else {
        bytes := data[start..start + actual];
      }
      r := actual;
    }

    /** Removes what Read copied; the start is not reduced, so it may come to lie behind the array. */
    method Dequeue(nbytes: nat) returns (r: int, bytes: seq<byte>)
      requires Valid() && ReadsInside(start, Min(nbytes, len))
      modifies this`start, this`len
      ensures r == if nbytes > 0 && old(len) == 0 then -1 else Min(nbytes, old(len))
      ensures bytes == old(Copied(Min(nbytes, len)))
      ensures len == old(len) - Min(nbytes, old(len))
      ensures r > 0 ==> start == if len == 0 then 0 else ReadStart(old(start), r) + r
      ensures r <= 0 ==> start == old(start)
      ensures FitsRead(old(start), Min(nbytes, old(len))) ==>
        && Valid() && bytes == old(Bytes())[..Min(nbytes, old(len))] && Bytes() == old(Bytes())[Min(nbytes, old(len))..]
        && Value() == old(Value()).Dequeue(nbytes)
    {
      ghost var before := Bytes();
      r, bytes := Read(nbytes);
      if r > 0 {
        start := start + r;
        len := len - r;
        if len == 0 {
          start := 0;
        }
        assert FitsRead(old(start), r) ==> Valid() && Bytes() == before[r..];
      }
    }

    method Drop(nbytes: nat)
      requires Valid()
      modifies this`start, this`len
      ensures Valid() && Bytes() == old(Bytes())[Min(nbytes, old(len))..]
      ensures Value() == old(Value()).Drop(nbytes)
    {
      if nbytes == 0 {
        return;
      }
      if nbytes >= len {
        len, start := 0, 0;
        return;
      }
      ghost var before := Bytes();
      start := (start + nbytes) % QUEUE_SIZE;
      len := len - nbytes;
      assert Bytes() == before[nbytes..];
    }
  }

  // ----- a ring in that state -----

  /** Fill a new ring, empty all but two bytes of it, and enqueue two more: four bytes are queued, and wrap. One byte more
      would be written outside the array. */
  method WrappedRing() returns (q: ByteQueue)
    ensures fresh(q) && fresh(q.data) && q.Valid() && q.start == QUEUE_SIZE - 2 && q.Bytes() == [7, 8, 1, 2]
    ensures EnqueueIndex(q.start, q.len, 1, 0) >= q.data.Length && !FitsEnqueue(q.start, q.len)
  {
    q := new ByteQueue();
    ghost var zeros: seq<byte> := seq(QUEUE_SIZE - 2, _ => 0);
    var r := q.Enqueue(seq(QUEUE_SIZE - 2, _ => 0) + [7, 8]);
    assert q.Bytes() == zeros + [7, 8];
    var bytes;
    r, bytes := q.Dequeue(QUEUE_SIZE - 2);
    assert q.Bytes() == [7, 8];
    r := q.Enqueue([1, 2]);
    assert q.Bytes() == [7, 8] + [1, 2];
    EnqueueIsRightExactly(q.start, q.len, 1);
  }

  /** A read of three bytes from it leaves out the second, and moves the ring to other bytes. */
  method WrongRead() returns (q: ByteQueue, bytes: seq<byte>)
    ensures fresh(q) && fresh(q.data) && q.Valid() && bytes == [7, 1, 2] && q.len == 4 && q.start == 2
  {
    q := WrappedRing();
    assert q.data[QUEUE_SIZE - 2] == q.Bytes()[0] && q.data[0] == q.Bytes()[2] && q.data[1] == q.Bytes()[3];
    var r;
    r, bytes := q.Read(3);
  }
}
