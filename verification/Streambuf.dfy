/** asio::basic_streambuf: a byte buffer with moving get and put offsets, as a bounded queue. */
module Streambuf {
  import opened Bytes
  import opened Lexer

  const BUFFER_DELTA := 128
  const SIZE_MAX: int := 0xFFFF_FFFF_FFFF_FFFF
  const INT_MAX: int := 0x7FFF_FFFF

  // std::vector<char>::max_size(), and the half of the address space buffers are allocated in.
  const VECTOR_MAX: int := 0x7FFF_FFFF_FFFF_FFFF
  const ADDRESS_END: int := 0x8000_0000_0000_0000

  newtype size_t = x: int | 0 <= x <= 0xFFFF_FFFF_FFFF_FFFF

  function Min(a: int, b: int): int { if a < b then a else b }

  function Max(a: int, b: int): int { if a < b then b else a }

  // static_cast<int>, as pbump and gbump are called.
  function AsInt(n: int): int {
    var low := n % 0x1_0000_0000;
    if low <= INT_MAX then low else low - 0x1_0000_0000
  }

  /** The cast keeps a count exactly when it is below 2^31; otherwise it differs by a multiple of 2^32. */
  lemma CastKeeps(n: int)
    requires 0 <= n < 18446744073709551616
    ensures AsInt(n) == n <==> n < 2147483648
    ensures -2147483648 <= AsInt(n) < 2147483648 && (n - AsInt(n)) % 4294967296 == 0
  {
  }

  /** A count it does not keep: 2^31 bytes, prepared and committed, move the put pointer back by as many. */
  lemma TwoGigabytesAreLost(prepared: int)
    requires prepared >= 0x8000_0000
    ensures AsInt(Min(0x8000_0000, prepared)) == -0x8000_0000
  {
  }

  // gptr() + n > pptr(), on 64-bit addresses.
  predicate Beyond(gptr: int, pptr: int, n: int) { (gptr + n) % (SIZE_MAX + 1) > pptr }

  // When consume(n) drops min(n, size()) bytes, the get and put pointers being these addresses:
  // the sum does not wrap around and the count survives the cast, or by coincidence.
  predicate Consumable(gptr: int, pptr: int, n: int) {
    if gptr + n <= SIZE_MAX then Min(n, pptr - gptr) <= INT_MAX else AsInt(n) == pptr - gptr
  }

  /** The step consume takes is the right one exactly under that condition. */
  lemma ConsumesExactly(gptr: int, pptr: int, n: int)
    requires 0 < gptr <= pptr <= ADDRESS_END && 0 <= n <= SIZE_MAX
    ensures AsInt(if Beyond(gptr, pptr, n) then pptr - gptr else n) == Min(n, pptr - gptr)
       <==> Consumable(gptr, pptr, n)
  {
    CastKeeps(Min(n, pptr - gptr));
    if gptr + n > SIZE_MAX {
      assert (gptr + n) % (SIZE_MAX + 1) == gptr + n - SIZE_MAX - 1;
    }
  }

  /** So it fails at the largest count, however few bytes there are ... */
  lemma LargestCountWraps(gptr: int)
    requires 0 < gptr <= ADDRESS_END - 5
    ensures !Beyond(gptr, gptr + 5, SIZE_MAX) && AsInt(SIZE_MAX) == -1 && !Consumable(gptr, gptr + 5, SIZE_MAX)
  {
    assert (gptr + SIZE_MAX) % (SIZE_MAX + 1) == gptr - 1;
  }

  /** ... and works for every count below 2^63 if there are fewer than 2^31 bytes. */
  lemma SmallCountsAreConsumed(gptr: int, pptr: int, n: int)
    requires 0 < gptr <= pptr <= ADDRESS_END && pptr - gptr <= INT_MAX && 0 <= n < ADDRESS_END
    ensures Consumable(gptr, pptr, n)
  {
  }

  // The queue the buffer stands for.
  function Dropped(q: bytes, n: nat): bytes { q[Min(n, |q|)..] }

  // What is done to the buffer from outside: data received (prepare, write, commit), bytes
  // consumed, looked at, appended or taken one by one.
  datatype Op = Receiving(data: bytes) | Consuming(n: nat) | Peeking | Putting(c: byte) | Taking

  // The counts the casts to int keep.
  predicate Small(op: Op) {
    match op
    case Receiving(data) => |data| <= INT_MAX
    case Consuming(n) => n <= INT_MAX
    case _ => true
  }

  // A queue of at most max bytes: None when an operation does not fit.
  function QueueStep(max: nat, q: bytes, op: Op): Option<bytes> {
    match op
    case Receiving(data) => if |q| + |data| > max then None else Some(q + data)
    case Consuming(n) => Some(Dropped(q, n))
    case Peeking => Some(q)
    case Putting(c) => if |q| == max then None else Some(q + [c])
    case Taking => Some(Dropped(q, 1))
  }

  function QueueRun(max: nat, q: bytes, ops: seq<Op>): Option<bytes>
    decreases |ops|
  {
    if ops == [] then Some(q)
    else
      match QueueStep(max, q, ops[0])
      case None => None
      case Some(r) => QueueRun(max, r, ops[1..])
  }

  function Added(op: Op): bytes {
    match op
    case Receiving(data) => data
    case Putting(c) => [c]
    case _ => []
  }

  function Removed(q: bytes, op: Op): bytes {
    match op
    case Consuming(n) => q[..Min(n, |q|)]
    case Taking => q[..Min(1, |q|)]
    case _ => []
  }

  function AllAdded(ops: seq<Op>): bytes {
    if ops == [] then [] else Added(ops[0]) + AllAdded(ops[1..])
  }

  function AllRemoved(max: nat, q: bytes, ops: seq<Op>): bytes
    decreases |ops|
  {
    if ops == [] || QueueStep(max, q, ops[0]).None? then []
    else Removed(q, ops[0]) + AllRemoved(max, QueueStep(max, q, ops[0]).value, ops[1..])
  }

  /** An operation on the queue fails exactly when the queue would grow beyond its maximum. */
  lemma StepFits(max: nat, q: bytes, op: Op)
    requires |q| <= max
    ensures QueueStep(max, q, op).None? <==> |q| + |Added(op)| > max
    ensures op.Receiving? ==> Added(op) == op.data
    ensures op.Putting? ==> Added(op) == [op.c]
  {
  }

  lemma StepConserves(max: nat, q: bytes, op: Op)
    requires QueueStep(max, q, op).Some?
    ensures Removed(q, op) + QueueStep(max, q, op).value == q + Added(op)
    ensures |q| <= max ==> |QueueStep(max, q, op).value| <= max
  {
  }

  /** First in, first out: over any run nothing is lost, reordered or made up, and the bound holds. */
  lemma {:induction false} FirstInFirstOut(max: nat, q: bytes, ops: seq<Op>)
    requires QueueRun(max, q, ops).Some? && |q| <= max
    ensures AllRemoved(max, q, ops) + QueueRun(max, q, ops).value == q + AllAdded(ops)
    ensures |QueueRun(max, q, ops).value| <= max
    decreases |ops|
  {
    hide QueueStep, Removed, Added;
    if ops == [] {
      assert q + [] == q && [] + q == q;
    } else {
      var r, rest := QueueStep(max, q, ops[0]).value, ops[1..];
      StepConserves(max, q, ops[0]);
      FirstInFirstOut(max, r, rest);
      Resume(Removed(q, ops[0]), AllRemoved(max, r, rest), QueueRun(max, r, rest).value);
      Resume(Removed(q, ops[0]), r, AllAdded(rest));
      Resume(q, Added(ops[0]), AllAdded(rest));
    }
  }

  // resize: the old bytes, then zeros, at an address the allocator chooses.
  method Resize(a: array<byte>, size: nat) returns (b: array<byte>, address: int)
    requires a.Length <= size <= VECTOR_MAX
    ensures fresh(b) && b.Length == size && b[..a.Length] == a[..]
    ensures forall k :: 0 <= k <= a.Length ==> b[..k] == a[..k]
    ensures 0 < address && address + size <= ADDRESS_END
  {
    b := new byte[size](i requires 0 <= i < size reads a => if i < a.Length then a[i] else 0);
    address :| 0 < address && address + size <= ADDRESS_END;
  }

  class BasicStreambuf {
    const maxSize: size_t
    var buffer: array<byte>
    var base: int  // the address of the buffer
    // Offsets of the get pointer, the end of the get area, the put pointer and the end of the put
    // area from the front of the buffer; eback is always there.
    var gptr: int
    var egptr: int
    var pptr: int
    var epptr: int

    ghost predicate Valid()
      reads this
    {
      && 0 <= gptr <= egptr <= pptr <= epptr <= Limit() && buffer.Length == Max(epptr, 1)
      && 0 < base && base + buffer.Length <= ADDRESS_END
    }

    // No more bytes than this, by max_size() or because the vector cannot be larger.
    function Limit(): int {
      Min(maxSize as int, VECTOR_MAX)
    }

    // The input sequence: committed and not yet consumed.
    ghost function Contents(): (q: bytes)
      requires Valid()
      reads this, buffer
      ensures |q| == pptr - gptr <= Limit()
    {
      buffer[gptr..pptr]
    }

    constructor (maximumSize: size_t)
      ensures Valid() && fresh(buffer) && maxSize == maximumSize && Contents() == []
      ensures epptr == Min(maximumSize as int, 128)
    {
      var pend := Min(maximumSize as int, BUFFER_DELTA);
      maxSize := maximumSize;
      buffer := new byte[Max(pend, 1)](_ => 0);
      var address: int :| 0 < address && address + Max(pend, 1) <= ADDRESS_END;
      base := address;
      gptr, egptr, pptr, epptr := 0, 0, 0, pend;
    }

    method Size() returns (n: nat)
      requires Valid()
      ensures n == |Contents()|
    {
      n := pptr - gptr;
    }

    /** reserve: room for n more bytes after the put pointer, or an exception: a length_error, its own
        or that of the vector, or bad_alloc. It throws exactly when the queue would outgrow the limit,
        or the buffer, if `allocates` is false and it cannot grow; the unread bytes survive shifting and
        growing. When it throws they may have been shifted already, with the offsets not updated. */
    method Reserve(n: size_t, allocates: bool := true) returns (thrown: bool)
      requires Valid()
      modifies this, buffer
      ensures Valid() && (buffer == old(buffer) || fresh(buffer))
      ensures var size := |old(Contents())| + n as int;
              thrown <==> size > Limit() || (size > old(epptr) && !allocates)
      ensures !thrown ==> Contents() == old(Contents()) && epptr - pptr >= n as int
      ensures !thrown && n as int <= old(epptr - pptr) ==>
                gptr == old(gptr) && pptr == old(pptr) && epptr == old(epptr)
      ensures !thrown && n as int > old(epptr - pptr) ==>
                gptr == 0 && epptr == Max(old(epptr), |old(Contents())| + n as int)
      ensures thrown ==> buffer == old(buffer) && buffer[..|old(Contents())|] == old(Contents())
                         && gptr == old(gptr) && egptr == old(egptr) && pptr == old(pptr) && epptr == old(epptr)
    {
      var gnext, pnext, pend := gptr, pptr, epptr;
      ghost var unread := Contents();
      if n as int <= pend - pnext {
        return false;
      }
      if gnext > 0 {
        pnext := pnext - gnext;
        forall i | 0 <= i < pnext {
          buffer[i] := buffer[gnext + i];
        }
      }
      assert buffer[..pnext] == unread;
      if n as int > pend - pnext {
        if n <= maxSize && pnext <= maxSize as int - n as int {
          if pnext + n as int > VECTOR_MAX || !allocates {
            return true;
          }
          pend := pnext + n as int;
          buffer, base := Resize(buffer, Max(pend, 1));
        } else {
          return true;
        }
      }
      gptr, egptr, pptr, epptr := 0, pnext, pnext, pend;
      thrown := false;
    }

    /** prepare: where the next n bytes may be written, unless that is too many. */
    method Prepare(n: size_t, allocates: bool := true) returns (thrown: bool, at: int)
      requires Valid()
      modifies this, buffer
      ensures Valid() && (buffer == old(buffer) || fresh(buffer))
      ensures var size := |old(Contents())| + n as int;
              thrown <==> size > Limit() || (size > old(epptr) && !allocates)
      ensures !thrown ==> Contents() == old(Contents()) && at == pptr && at + n as int <= epptr
    {
      thrown := Reserve(n, allocates);
      at := pptr;
    }

    /** commit: the first bytes of the output sequence join the queue, as many as were asked for
        and are there; from 2^31 on, the cast to int moves the put pointer elsewhere. */
    method Commit(n: size_t)
      requires Valid()
      modifies `pptr, `egptr
      ensures var m := Min(n as int, old(epptr - pptr));
              if m <= INT_MAX
              then Valid() && Contents() == old(Contents()) + old(buffer[pptr..pptr + m])
              else pptr != old(pptr) + m
    {
      var m := Min(n as int, epptr - pptr);
      CastKeeps(m);
      ghost var before := pptr;
      pptr := pptr + AsInt(m);
      egptr := pptr;
      if m <= INT_MAX {
        assert buffer[gptr..before] + buffer[before..before + m] == buffer[gptr..pptr];
      }
    }

    /** consume: the first bytes leave the queue, as many as were asked for and are there, exactly
        if the sum of addresses does not wrap around and the count survives the cast to int. */
    method Consume(n: size_t)
      requires Valid()
      modifies `gptr, `egptr
      ensures if Consumable(base + old(gptr), base + pptr, n as int)
              then Valid() && Contents() == Dropped(old(Contents()), n as int)
              else gptr != old(gptr) + Min(n as int, |old(Contents())|)
    {
      hide Beyond, AsInt, Consumable;
      if egptr < pptr {
        egptr := pptr;
      }
      var m := n as int;
      ConsumesExactly(base + gptr, base + pptr, m);
      if Beyond(base + gptr, base + pptr, m) {
        m := pptr - gptr;
      }
      gptr := gptr + AsInt(m);
    }

    // data: the bytes of the queue, as they lie in the buffer.
    method Data() returns (q: bytes)
      requires Valid()
      ensures q == Contents()
    {
      q := buffer[gptr..pptr];
    }

    /** underflow: the first byte of the queue, without removing it; none at the end. */
    method Underflow() returns (c: Option<byte>)
      requires Valid()
      modifies `egptr
      ensures Valid() && Contents() == old(Contents())
      ensures c == if Contents() == [] then None else Some(Contents()[0])
      ensures c.Some? ==> egptr == pptr
    {
      if gptr < pptr {
        egptr := pptr;
        c := Some(buffer[gptr]);
      } else {
        c := None;
      }
    }

    // *pptr() = c and pbump(1)
    method Store(c: byte)
      requires Valid() && pptr < epptr
      modifies buffer, `pptr
      ensures Valid() && Contents() == old(Contents()) + [c]
    {
      buffer[pptr] := c;
      pptr := pptr + 1;
      assert buffer[gptr..pptr] == buffer[gptr..pptr - 1] + [c];
    }

    // How much overflow asks for when there are this many bytes.
    function GrowthStep(bufferSize: int): (n: int)
      ensures n == if bufferSize < maxSize as int then Min(128, maxSize as int - bufferSize) else 128
    {
      if bufferSize < maxSize as int && maxSize as int - bufferSize < BUFFER_DELTA then maxSize as int - bufferSize
      else BUFFER_DELTA
    }

    /** overflow: appends a byte, growing the buffer if it must. With a maximum a vector can
        have, it throws exactly when the queue has that size (and the end of file is not appended). */
    method Overflow(c: Option<byte>) returns (thrown: bool)
      requires Valid()
      modifies this, buffer
      ensures Valid() && (buffer == old(buffer) || fresh(buffer))
      ensures thrown <==> c.Some? && old(pptr == epptr) && |old(Contents())| + GrowthStep(|old(Contents())|) > Limit()
      ensures maxSize as int <= VECTOR_MAX ==> (thrown <==> c.Some? && |old(Contents())| == maxSize as int)
      ensures !thrown ==> Contents() == old(Contents()) + if c.Some? then [c.value] else []
    {
      if c.None? {
        return false;
      }
      if pptr == epptr {
        thrown := Reserve(GrowthStep(pptr - gptr) as size_t);
        if thrown {
          return;
        }
      }
      Store(c.value);
      thrown := false;
    }

    // sputc and sbumpc of std::streambuf, which call overflow and underflow when an area is used up.
    method SPutC(c: byte) returns (thrown: bool)
      requires Valid()
      modifies this, buffer
      ensures Valid() && (buffer == old(buffer) || fresh(buffer))
      ensures thrown <==> old(pptr == epptr) && |old(Contents())| + GrowthStep(|old(Contents())|) > Limit()
      ensures maxSize as int <= VECTOR_MAX ==> (thrown <==> |old(Contents())| == maxSize as int)
      ensures !thrown ==> Contents() == old(Contents()) + [c]
    {
      if pptr < epptr {
        Store(c);
        thrown := false;
      } else {
        thrown := Overflow(Some(c));
      }
    }

    method SBumpC() returns (c: Option<byte>)
      requires Valid()
      modifies `gptr, `egptr
      ensures Valid() && Contents() == Dropped(old(Contents()), 1)
      ensures c == if old(Contents()) == [] then None else Some(old(Contents())[0])
    {
      c := None;
      if gptr == egptr {
        var d := Underflow();
        if d.None? {
          return;
        }
      }
      c := Some(buffer[gptr]);
      gptr := gptr + 1;
    }

    // What a completed read leaves in the space it was given.
    method Fill(at: int, data: bytes)
      requires Valid() && at == pptr && at + |data| <= epptr
      modifies buffer
      ensures Valid() && Contents() == old(Contents()) && buffer[pptr..pptr + |data|] == data
    {
      var i := 0;
      while i < |data|
        invariant i <= |data|
        invariant forall k :: gptr <= k < pptr ==> buffer[k] == old(buffer[k])
        invariant forall k :: 0 <= k < i ==> buffer[at + k] == data[k]
      {
        buffer[at + i] := data[i];
        i := i + 1;
      }
    }

    /** How the program uses it: prepare room, let the data be written there, commit. The queue
        then ends with the data; nothing happens when the data does not fit. */
    method Receive(data: bytes) returns (thrown: bool)
      requires Valid() && |data| <= SIZE_MAX
      modifies this, buffer
      ensures buffer == old(buffer) || fresh(buffer)
      ensures thrown <==> |old(Contents())| + |data| > Limit()
      ensures thrown ==> Valid()
      ensures !thrown && |data| <= INT_MAX ==> Valid() && Contents() == old(Contents()) + data
    {
      var at;
      thrown, at := Prepare(|data| as size_t);
      if !thrown {
        Fill(at, data);
        Commit(|data| as size_t);
      }
    }

    // One operation, and the bytes it takes out of the queue: those looked at with data() before
    // they are consumed, or the one sbumpc returns.
    method Do(op: Op) returns (thrown: bool, removed: bytes)
      requires Valid() && Small(op)
      modifies this, buffer
      ensures Valid() && (buffer == old(buffer) || fresh(buffer))
      ensures !thrown ==> QueueStep(Limit(), old(Contents()), op) == Some(Contents())
      ensures thrown && maxSize as int <= VECTOR_MAX ==> QueueStep(Limit(), old(Contents()), op).None?
      ensures !thrown ==> removed == Removed(old(Contents()), op)
    {
      thrown, removed := false, [];
      match op {
        case Receiving(data) => thrown := Receive(data);
        case Consuming(n) =>
          var data := Data();
          removed := data[..Min(n, |data|)];
          Consume(n as size_t);
        case Peeking => var _ := Underflow();
        case Putting(c) => thrown := SPutC(c);
        case Taking =>
          var c := SBumpC();
          removed := if c.Some? then [c.value] else [];
      }
    }

    /** Every run of the buffer is a run of the queue, up to the first operation that throws: the
        bytes handed out, followed by those left, are those that were there, followed by those
        added. */
    method Run(ops: seq<Op>) returns (thrown: bool, removed: bytes)
      requires Valid() && forall op | op in ops :: Small(op)
      modifies this, buffer
      ensures Valid() && |Contents()| <= maxSize as int
      ensures !thrown ==> QueueRun(Limit(), old(Contents()), ops) == Some(Contents())
      ensures !thrown ==> removed == AllRemoved(Limit(), old(Contents()), ops)
      ensures !thrown ==> removed + Contents() == old(Contents()) + AllAdded(ops)
      ensures thrown && maxSize as int <= VECTOR_MAX ==> QueueRun(Limit(), old(Contents()), ops).None?
    {
      ghost var q := Contents();
      hide QueueStep, Small, Removed;
      thrown, removed := false, [];
      var k := 0;
      RunStarts(Limit(), q, ops);
      while k < |ops|
        invariant k <= |ops| && Valid() && (buffer == old(buffer) || fresh(buffer))
        invariant Running(Limit(), q, ops, removed, Contents(), k)
      {
        RunGoesOn(Limit(), q, ops, removed, Contents(), k);
        var more;
        thrown, more := Do(ops[k]);
        if thrown {
          return;
        }
        removed := removed + more;
        k := k + 1;
      }
      RunEnds(Limit(), q, ops, removed, Contents());
    }
  }

  // Part way through a run: the bytes taken so far and the queue, k operations being done.
  ghost predicate Running(max: nat, q0: bytes, ops: seq<Op>, removed: bytes, q: bytes, k: nat) {
    && k <= |ops|
    && QueueRun(max, q0, ops) == QueueRun(max, q, ops[k..])
    && AllRemoved(max, q0, ops) == removed + AllRemoved(max, q, ops[k..])
  }

  lemma RunStarts(max: nat, q: bytes, ops: seq<Op>)
    ensures Running(max, q, ops, [], q, 0)
  {
    assert ops[0..] == ops && [] + AllRemoved(max, q, ops) == AllRemoved(max, q, ops);
  }

  lemma RunGoesOn(max: nat, q0: bytes, ops: seq<Op>, removed: bytes, q: bytes, k: nat)
    requires Running(max, q0, ops, removed, q, k) && k < |ops|
    ensures match QueueStep(max, q, ops[k])
            case None => QueueRun(max, q0, ops).None?
            case Some(r) => Running(max, q0, ops, removed + Removed(q, ops[k]), r, k + 1)
  {
    hide QueueStep, Removed;
    assert ops[k..][1..] == ops[k + 1..];
    if QueueStep(max, q, ops[k]).Some? {
      Resume(removed, Removed(q, ops[k]), AllRemoved(max, QueueStep(max, q, ops[k]).value, ops[k + 1..]));
    }
  }

  lemma RunEnds(max: nat, q0: bytes, ops: seq<Op>, removed: bytes, q: bytes)
    requires Running(max, q0, ops, removed, q, |ops|) && |q0| <= max
    ensures QueueRun(max, q0, ops) == Some(q) && AllRemoved(max, q0, ops) == removed
    ensures removed + q == q0 + AllAdded(ops)
  {
    assert removed + [] == removed;
    FirstInFirstOut(max, q0, ops);
  }
}
