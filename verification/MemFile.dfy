/**
 Regular files of the in-memory file system: a typed array with spare capacity, and the count of bytes
 in use, standing for a plain byte sequence. Writes copy their data (`canOwn` is false).
 */
module MemFile {
  import opened TypedArrays

  const CAPACITY_DOUBLING_MAX: nat := 1024 * 1024
  const MIN_REGROWN: nat := 256
  const WORD32: nat := 0x1_0000_0000

  // ---------------------------------------------------------------------------------------------
  // The byte sequence a file stands for
  // ---------------------------------------------------------------------------------------------

  function Max(a: nat, b: nat): nat { if a < b then b else a }
  function Min(a: nat, b: nat): nat { if a < b then a else b }

  function Zeros(n: nat): (zeros: seq<Byte>)
    ensures |zeros| == n && forall k :: 0 <= k < n ==> zeros[k] == 0
  {
    seq(n, _ => 0)
  }

  /** Lengthened with zeros to at least `size`. */
  function Padded(bytes: seq<Byte>, size: nat): seq<Byte> {
    if |bytes| < size then bytes + Zeros(size - |bytes|) else bytes
  }

  /** Overlays `data` at `position`, filling any gap before it with zeros; writing nothing changes nothing. */
  function WriteAt(bytes: seq<Byte>, position: nat, data: seq<Byte>): seq<Byte> {
    if data == [] then bytes
    else
      var long := Padded(bytes, position + |data|);
      long[..position] + data + long[position + |data|..]
  }

  function Resized(bytes: seq<Byte>, size: nat): seq<Byte> {
    if size <= |bytes| then bytes[..size] else Padded(bytes, size)
  }

  /** What a read of at most `length` bytes delivers. */
  function ReadAt(bytes: seq<Byte>, position: nat, length: nat): seq<Byte> {
    if position >= |bytes| then [] else
      var end := if position + length <= |bytes| then position + length else |bytes|;
      bytes[position..end]
  }

  lemma ReadAtIndex(bytes: seq<Byte>, position: nat, length: nat, k: nat)
    ensures k < |ReadAt(bytes, position, length)| <==> k < length && position + k < |bytes|
    ensures k < length && position + k < |bytes| ==> ReadAt(bytes, position, length)[k] == bytes[position + k]
  {
  }

  /** The byte at `k` after a write: the data inside it, zero in a new gap, the old byte elsewhere. */
  function ByteAfter(bytes: seq<Byte>, position: nat, data: seq<Byte>, k: nat): Byte {
    if position <= k < position + |data| then data[k - position] else if k < |bytes| then bytes[k] else 0
  }

  lemma WriteAtIndex(bytes: seq<Byte>, position: nat, data: seq<Byte>)
    requires data != []
    ensures |WriteAt(bytes, position, data)| == Max(|bytes|, position + |data|)
    ensures forall k: nat :: k < |WriteAt(bytes, position, data)| ==>
      WriteAt(bytes, position, data)[k] == ByteAfter(bytes, position, data, k)
  {
  }

  /** Lengthening keeps every byte and adds zeros; nothing is ever cut. */
  lemma PaddedAtIndex(bytes: seq<Byte>, size: nat)
    ensures |Padded(bytes, size)| == Max(|bytes|, size)
    ensures forall k: nat :: k < Max(|bytes|, size) ==> Padded(bytes, size)[k] == if k < |bytes| then bytes[k] else 0
  {
  }

  /** A resized file has the size asked for, its old bytes as far as they go, and zeros after them. */
  lemma ResizedAtIndex(bytes: seq<Byte>, size: nat)
    ensures |Resized(bytes, size)| == size
    ensures forall k: nat :: k < size ==> Resized(bytes, size)[k] == if k < |bytes| then bytes[k] else 0
  {
    PaddedAtIndex(bytes, size);
  }

  /** A read below the new size gives what it gave before. */
  lemma ReadBelowResize(bytes: seq<Byte>, size: nat, from: nat, length: nat)
    requires from + length <= size && from + length <= |bytes|
    ensures ReadAt(Resized(bytes, size), from, length) == ReadAt(bytes, from, length) == bytes[from..from + length]
  {
    ResizedAtIndex(bytes, size);
  }

  /** What a resize adds reads as zeros, and nothing is read beyond it. */
  lemma ReadBeyondResize(bytes: seq<Byte>, size: nat, length: nat)
    ensures |bytes| <= size ==> ReadAt(Resized(bytes, size), |bytes|, size - |bytes|) == Zeros(size - |bytes|)
    ensures ReadAt(Resized(bytes, size), size, length) == []
  {
    ResizedAtIndex(bytes, size);
    if |bytes| <= size {
      var read := ReadAt(Resized(bytes, size), |bytes|, size - |bytes|);
      forall k: nat | k < size - |bytes| ensures k < |read| && read[k] == 0 {
        ReadAtIndex(Resized(bytes, size), |bytes|, size - |bytes|, k);
      }
      ReadAtIndex(Resized(bytes, size), |bytes|, size - |bytes|, size - |bytes|);
    }
  }

  /** Reading back a write gives the data. */
  lemma ReadBackWrite(bytes: seq<Byte>, position: nat, data: seq<Byte>)
    ensures data != [] ==> ReadAt(WriteAt(bytes, position, data), position, |data|) == data
  {
    if data != [] { WriteAtIndex(bytes, position, data); }
  }

  /** Reading before or behind a write gives what was there. */
  lemma ReadBesideWrite(bytes: seq<Byte>, position: nat, data: seq<Byte>, from: nat, length: nat)
    requires from + length <= position <= |bytes| || position + |data| <= from
    ensures ReadAt(WriteAt(bytes, position, data), from, length) == ReadAt(bytes, from, length)
  {
    if data != [] {
      WriteAtIndex(bytes, position, data);
      var after := WriteAt(bytes, position, data);
      assert |ReadAt(after, from, length)| == |ReadAt(bytes, from, length)|;
      forall k: nat | k < |ReadAt(after, from, length)|
        ensures ReadAt(after, from, length)[k] == ReadAt(bytes, from, length)[k]
      {
        ReadAtIndex(after, from, length, k);
        ReadAtIndex(bytes, from, length, k);
        assert ByteAfter(bytes, position, data, from + k) == bytes[from + k];
      }
    }
  }

  /** A gap opened by a write past the end reads as zeros. */
  lemma ReadGap(bytes: seq<Byte>, position: nat, data: seq<Byte>)
    requires data != [] && |bytes| < position
    ensures ReadAt(WriteAt(bytes, position, data), |bytes|, position - |bytes|) == Zeros(position - |bytes|)
  {
    WriteAtIndex(bytes, position, data);
  }

  /** Zero beyond the bytes in use. */
  ghost predicate SpareIsZero(buffer: seq<Byte>, used: nat) {
    used <= |buffer| && forall k :: used <= k < |buffer| ==> buffer[k] == 0
  }

  /** Overlaying data on a buffer with zero spare capacity writes the bytes it stands for. */
  lemma OverlayIsWrite(buffer: seq<Byte>, used: nat, position: nat, data: seq<Byte>)
    requires SpareIsZero(buffer, used) && position + |data| <= |buffer| && data != []
    ensures var after := Overwritten(buffer, position, data);
      var used' := Max(used, position + |data|);
      SpareIsZero(after, used') && after[..used'] == WriteAt(buffer[..used], position, data)
  {
    WriteAtIndex(buffer[..used], position, data);
    var after := Overwritten(buffer, position, data);
    var used' := Max(used, position + |data|);
    forall k: nat | k < used' ensures after[k] == ByteAfter(buffer[..used], position, data, k) {
    }
  }

  /** The sequence after a write of `length` bytes of which only `data` could be taken from the caller's buffer. */
  function Written(bytes: seq<Byte>, position: nat, length: nat, data: seq<Byte>): seq<Byte> {
    if length == 0 then bytes else Padded(WriteAt(bytes, position, data), position + length)
  }

  /** Length and every byte after such a write: what there was of the data, zeros in a gap and for what lacked. */
  lemma WrittenAtIndex(bytes: seq<Byte>, position: nat, length: nat, data: seq<Byte>)
    requires 0 < length && |data| <= length
    ensures |Written(bytes, position, length, data)| == Max(|bytes|, position + length)
    ensures forall k: nat :: k < |Written(bytes, position, length, data)| ==>
      Written(bytes, position, length, data)[k] == ByteAfter(bytes, position, data, k)
  {
    if data != [] { WriteAtIndex(bytes, position, data); }
    PaddedAtIndex(WriteAt(bytes, position, data), position + length);
  }

  /** With all of its data a write is just the overlay. */
  lemma WrittenWhole(bytes: seq<Byte>, position: nat, data: seq<Byte>)
    ensures Written(bytes, position, |data|, data) == WriteAt(bytes, position, data)
  {
    if data != [] { WriteAtIndex(bytes, position, data); }
  }

  /** Overlaying what there is of the data and counting all of `length` as used. */
  lemma OverlayIsWritten(buffer: seq<Byte>, used: nat, position: nat, length: nat, data: seq<Byte>)
    requires SpareIsZero(buffer, used) && position + length <= |buffer| && |data| <= length && length > 0
    ensures var after := Overwritten(buffer, position, data);
      var used' := Max(used, position + length);
      SpareIsZero(after, used') && after[..used'] == Written(buffer[..used], position, length, data)
  {
    hide WriteAt, Padded;
    if data == [] {
      assert Overwritten(buffer, position, data) == buffer;
      WriteNothing(buffer[..used], position);
      ReserveIsPad(buffer, used, position + length);
    } else {
      OverlayIsWrite(buffer, used, position, data);
      ReserveIsPad(Overwritten(buffer, position, data), Max(used, position + |data|), position + length);
    }
  }

  lemma WriteNothing(bytes: seq<Byte>, position: nat)
    ensures WriteAt(bytes, position, []) == bytes
  {
  }

  lemma WriteToEmpty(data: seq<Byte>)
    ensures Written([], 0, |data|, data) == data && SpareIsZero(data, |data|)
  {
    if data != [] { WriteAtIndex([], 0, data); }
  }

  lemma ReserveIsPad(buffer: seq<Byte>, used: nat, size: nat)
    requires SpareIsZero(buffer, used) && size <= |buffer|
    ensures SpareIsZero(buffer, Max(used, size)) && buffer[..Max(used, size)] == Padded(buffer[..used], size)
  {
  }

  // ---------------------------------------------------------------------------------------------
  // Growth
  // ---------------------------------------------------------------------------------------------

  /** `prevCapacity * (prevCapacity < CAPACITY_DOUBLING_MAX ? 2 : 1.125) >>> 0` */
  function Geometric(prevCapacity: nat): nat {
    if prevCapacity < CAPACITY_DOUBLING_MAX then prevCapacity * 2 % WORD32 else prevCapacity * 9 / 8 % WORD32
  }

  /** The capacity after a request: unchanged when it suffices. */
  function Grown(prevCapacity: nat, request: nat): nat {
    if prevCapacity >= request then prevCapacity
    else
      var capacity := Max(request, Geometric(prevCapacity));
      if prevCapacity != 0 then Max(capacity, MIN_REGROWN) else capacity
  }

  /** One call of `expandFileStorage`: the capacity asked for, and the bytes in use at that moment. */
  datatype Request = Request(capacity: nat, used: nat)

  function CapacityAfter(start: nat, run: seq<Request>): nat {
    if run == [] then start else Grown(CapacityAfter(start, run[..|run| - 1]), run[|run| - 1].capacity)
  }

  ghost predicate WithinCapacity(start: nat, run: seq<Request>) {
    forall k :: 0 <= k < |run| ==> run[k].used <= CapacityAfter(start, run[..k])
  }

  /** Bytes moved over a run: those in use, each time the capacity changes. */
  function Copied(start: nat, run: seq<Request>): nat {
    if run == [] then 0
    else
      var before := run[..|run| - 1];
      var last := run[|run| - 1];
      Copied(start, before) + if CapacityAfter(start, run) != CapacityAfter(start, before) then last.used else 0
  }

  /**
   How far a buffer may outgrow what was asked for: to twice its size below 1 MiB, to an eighth more from there on,
   or to 256 bytes; and below 1 MiB it grows to exactly the largest of these.
   */
  lemma GrowthIsBounded(capacity: nat, request: nat)
    ensures request <= Grown(capacity, request) && capacity <= Grown(capacity, request)
    ensures request <= capacity ==> Grown(capacity, request) == capacity
    ensures request > capacity ==>
      Grown(capacity, request) <= Max(request, Max(256, if capacity < 1048576 then 2 * capacity else capacity + capacity / 8))
    ensures request > capacity && 0 < capacity < 1048576 ==> Grown(capacity, request) == Max(request, Max(256, 2 * capacity))
    ensures request > capacity == 0 ==> Grown(capacity, request) == request
  {
  }

  /** From here on the factor 1.125 overflows 32 bits and `>>> 0` drops the carry. */
  const WRAP: nat := 3817748708

  /** A buffer grows by its factor whatever is asked for, exactly when that stays within 32 bits. */
  lemma GrowsByFactorIff(capacity: nat)
    requires CAPACITY_DOUBLING_MAX <= capacity < WORD32
    ensures (forall request :: request > capacity ==> Grown(capacity, request) >= capacity * 9 / 8) <==> capacity < WRAP
  {
    if capacity < WRAP {
      assert capacity * 9 / 8 < WORD32;
    } else {
      assert Geometric(capacity) == capacity * 9 / 8 - WORD32;
      assert Grown(capacity, capacity + 1) == capacity + 1;
    }
  }

  lemma NoRun(start: nat)
    ensures CapacityAfter(start, []) == start && Copied(start, []) == 0 && WithinCapacity(start, [])
  {}

  lemma RunOneMore(start: nat, run: seq<Request>, r: Request)
    ensures CapacityAfter(start, run + [r]) == Grown(CapacityAfter(start, run), r.capacity)
    ensures Copied(start, run + [r]) ==
      Copied(start, run) + if CapacityAfter(start, run + [r]) != CapacityAfter(start, run) then r.used else 0
    ensures WithinCapacity(start, run + [r]) <==> WithinCapacity(start, run) && r.used <= CapacityAfter(start, run)
  {
    var longer := run + [r];
    assert longer[..|run|] == run;
    assert forall k :: 0 <= k < |run| ==> longer[..k] == run[..k] && longer[k] == run[k];
    if WithinCapacity(start, longer) { assert longer[|run|].used <= CapacityAfter(start, longer[..|run|]); }
  }

  /**
   What growth has paid for by the time a buffer has some capacity: below CAPACITY_DOUBLING_MAX no more than
   the capacity, from there on about eight times what has been added.
   */
  predicate PaidFor(capacity: nat, copied: nat) {
    if capacity < CAPACITY_DOUBLING_MAX then copied <= capacity
    else 1000 * copied <= 8001 * capacity - 7001 * CAPACITY_DOUBLING_MAX
  }

  /** One growth from WRAP to WRAP + 1 on top of what is paid for. */
  predicate PaidForButOnce(copied: nat) { 1000 * copied <= 9001 * WRAP - 7001 * CAPACITY_DOUBLING_MAX }

  lemma GrowthPays(capacity: nat, request: nat, copied: nat)
    requires capacity < WRAP && PaidFor(capacity, copied)
    ensures var after := Grown(capacity, request);
      after != capacity ==> PaidFor(after, copied + capacity)
  {
    if Grown(capacity, request) != capacity && capacity >= CAPACITY_DOUBLING_MAX {
      assert capacity * 9 / 8 < WORD32 && 8 * (capacity * 9 / 8) + 7 >= capacity * 9;
    }
  }

  /** Every growth of the run starts below WRAP. */
  ghost predicate GrowsBelowWrap(start: nat, run: seq<Request>) {
    forall k :: 0 <= k < |run| ==> CapacityAfter(start, run[..k]) < WRAP || run[k].capacity <= CapacityAfter(start, run[..k])
  }

  lemma GrowsBelowWrapOneMore(start: nat, run: seq<Request>, r: Request)
    ensures GrowsBelowWrap(start, run + [r]) <==>
      GrowsBelowWrap(start, run) && (CapacityAfter(start, run) < WRAP || r.capacity <= CapacityAfter(start, run))
  {
    var longer := run + [r];
    assert longer[..|run|] == run && longer[|run|] == r;
    assert forall k :: 0 <= k < |run| ==> longer[..k] == run[..k] && longer[k] == run[k];
    if GrowsBelowWrap(start, longer) {
      assert CapacityAfter(start, longer[..|run|]) < WRAP || longer[|run|].capacity <= CapacityAfter(start, longer[..|run|]);
    }
  }

  lemma {:induction false} GrowthIsPaidFor(start: nat, run: seq<Request>)
    requires WithinCapacity(start, run) && GrowsBelowWrap(start, run)
    ensures PaidFor(CapacityAfter(start, run), Copied(start, run))
  {
    hide Grown, PaidFor, WithinCapacity, GrowsBelowWrap;
    if run == [] {
      NothingToPay(start);
    } else {
      var before, last := run[..|run| - 1], run[|run| - 1];
      assert run == before + [last];
      RunOneMore(start, before, last);
      GrowsBelowWrapOneMore(start, before, last);
      GrowthIsPaidFor(start, before);
      PaysOnce(CapacityAfter(start, before), Copied(start, before), last);
    }
  }

  lemma PaysOnce(capacity: nat, copied: nat, r: Request)
    requires r.used <= capacity && PaidFor(capacity, copied) && (capacity < WRAP || r.capacity <= capacity)
    ensures var after := Grown(capacity, r.capacity);
      PaidFor(after, copied + if after != capacity then r.used else 0)
  {
    if capacity < WRAP { GrowthPays(capacity, r.capacity, copied); }
  }

  /** Over any run in which every growth starts below WRAP, what is copied stays within nine times the final capacity. */
  lemma CopyingIsAmortised(start: nat, run: seq<Request>)
    requires WithinCapacity(start, run) && GrowsBelowWrap(start, run)
    ensures Copied(start, run) <= 9 * CapacityAfter(start, run)
  {
    hide CapacityAfter, Copied;
    GrowthIsPaidFor(start, run);
  }

  ghost predicate Limited(run: seq<Request>, limit: nat) {
    forall k :: 0 <= k < |run| ==> run[k].capacity <= limit
  }

  /** Up to one byte beyond WRAP: only the last growth can be one that does not pay. */
  lemma {:induction false} LimitedIsPaidFor(start: nat, run: seq<Request>)
    requires WithinCapacity(start, run) && Limited(run, WRAP + 1)
    ensures PaidFor(CapacityAfter(start, run), Copied(start, run)) ||
      (CapacityAfter(start, run) == WRAP + 1 && PaidForButOnce(Copied(start, run)))
  {
    hide Grown, PaidFor, WithinCapacity;
    if run == [] {
      assert PaidFor(start, 0) by { NothingToPay(start); }
    } else {
      var before, last := run[..|run| - 1], run[|run| - 1];
      assert run == before + [last];
      RunOneMore(start, before, last);
      LimitedIsPaidFor(start, before);
      LastGrowth(CapacityAfter(start, before), Copied(start, before), last);
    }
  }

  lemma NothingToPay(start: nat)
    ensures PaidFor(start, 0)
  {}

  lemma LastGrowth(capacity: nat, copied: nat, r: Request)
    requires r.capacity <= WRAP + 1 && r.used <= capacity
    requires PaidFor(capacity, copied) || (capacity == WRAP + 1 && PaidForButOnce(copied))
    ensures var after := Grown(capacity, r.capacity);
      var total := copied + if after != capacity then r.used else 0;
      PaidFor(after, total) || (after == WRAP + 1 && PaidForButOnce(total))
  {
    if capacity < WRAP {
      GrowthPays(capacity, r.capacity, copied);
    } else if capacity == WRAP && Grown(capacity, r.capacity) != capacity {
      GrowsByOne(WRAP);
    }
  }

  /** From WRAP on a request for one byte more gives just that. */
  lemma GrowsByOne(capacity: nat)
    requires capacity >= WRAP
    ensures Grown(capacity, capacity + 1) == capacity + 1
  {
    if capacity < WORD32 { assert capacity * 9 / 8 % WORD32 == capacity * 9 / 8 - WORD32; }
  }

  /** A full buffer of `capacity` bytes asked for one more byte, `n` times. */
  function ByteByByte(capacity: nat, n: nat): (run: seq<Request>)
    ensures |run| == n
  {
    if n == 0 then [] else ByteByByte(capacity, n - 1) + [Request(capacity + n, capacity + n - 1)]
  }

  lemma OneTermMore(n: int, each: int)
    ensures (n + 1) * each == n * (each - 1) + n + each
  {}

  lemma Larger(factor: nat, a: int, b: int)
    requires a <= b
    ensures factor * a <= factor * b
  {}

  /** From WRAP on there is no amortisation: every single byte copies the whole file. */
  lemma {:induction false} CopyingBeyondWrap(capacity: nat, n: nat)
    requires capacity >= WRAP
    ensures CapacityAfter(capacity, ByteByByte(capacity, n)) == capacity + n
    ensures WithinCapacity(capacity, ByteByByte(capacity, n)) && Limited(ByteByByte(capacity, n), capacity + n)
    ensures 2 * Copied(capacity, ByteByByte(capacity, n)) == n * (2 * capacity + n - 1)
  {
    hide Grown, CapacityAfter, Copied, WithinCapacity;
    if n == 0 {
      assert CapacityAfter(capacity, []) == capacity && Copied(capacity, []) == 0 && WithinCapacity(capacity, []) by { NoRun(capacity); }
    } else {
      CopyingBeyondWrap(capacity, n - 1);
      RunOneMore(capacity, ByteByByte(capacity, n - 1), Request(capacity + n, capacity + n - 1));
      GrowsByOne(capacity + n - 1);
      OneTermMore(n - 1, 2 * capacity + n - 1);
    }
  }

  /** So no constant bounds what is copied in terms of the final capacity. */
  lemma NoConstantBeyondWrap(capacity: nat, factor: nat)
    requires capacity >= WRAP
    ensures var run := ByteByByte(capacity, 2 * factor + 2);
      WithinCapacity(capacity, run) && Copied(capacity, run) > factor * CapacityAfter(capacity, run)
  {
    hide Copied, CapacityAfter, WithinCapacity;
    var n := 2 * factor + 2;
    CopyingBeyondWrap(capacity, n);
    var each := 2 * capacity + n - 1;
    assert n * each == factor * (2 * each) + 2 * each;
    Larger(factor, 2 * (capacity + n), 2 * each);
    assert factor * (2 * (capacity + n)) == 2 * (factor * (capacity + n));
  }

  /** Below WRAP a buffer that was asked for single bytes has grown out of their reach before it gets there. */
  lemma {:induction false} ByteByByteBelowWrap(capacity: nat, n: nat)
    requires CAPACITY_DOUBLING_MAX <= capacity < WRAP && n <= 0x1000_0000
    ensures var run := ByteByByte(capacity, n);
      && WithinCapacity(capacity, run) && GrowsBelowWrap(capacity, run)
      && CapacityAfter(capacity, run) >= capacity + n
      && (CapacityAfter(capacity, run) >= WRAP ==> CapacityAfter(capacity, run) > capacity + 0x1000_0000)
  {
    hide Grown, CapacityAfter, Copied, WithinCapacity, GrowsBelowWrap;
    if n == 0 {
      NoRun(capacity);
      assert GrowsBelowWrap(capacity, []) by { NoGrowth(capacity); }
    } else {
      var before, r := ByteByByte(capacity, n - 1), Request(capacity + n, capacity + n - 1);
      ByteByByteBelowWrap(capacity, n - 1);
      RunOneMore(capacity, before, r);
      GrowsBelowWrapOneMore(capacity, before, r);
      GrowsFar(CapacityAfter(capacity, before), capacity + n);
    }
  }

  lemma NoGrowth(start: nat)
    ensures GrowsBelowWrap(start, [])
  {}

  lemma GrowsFar(capacity: nat, request: nat)
    requires CAPACITY_DOUBLING_MAX <= capacity && (capacity < WRAP || request <= capacity)
    ensures Grown(capacity, request) >= request && Grown(capacity, request) >= capacity
    ensures Grown(capacity, request) != capacity ==> Grown(capacity, request) >= capacity * 9 / 8
  {
    if capacity < WRAP { assert capacity * 9 / 8 < WORD32; }
  }

  /**
   Where a large buffer that is asked for single bytes starts decides it: up to 2^28 of them are amortised
   exactly from a capacity below WRAP.
   */
  lemma ByteByByteIsAmortisedIff(capacity: nat)
    requires CAPACITY_DOUBLING_MAX <= capacity < WORD32
    ensures
      (forall n: nat :: n <= 0x1000_0000 ==>
        Copied(capacity, ByteByByte(capacity, n)) <= 9 * CapacityAfter(capacity, ByteByByte(capacity, n)))
      <==> capacity < WRAP
  {
    hide CapacityAfter, Copied, WithinCapacity, GrowsBelowWrap, ByteByByte;
    if capacity < WRAP {
      forall n: nat | n <= 0x1000_0000
        ensures Copied(capacity, ByteByByte(capacity, n)) <= 9 * CapacityAfter(capacity, ByteByByte(capacity, n))
      {
        ByteByByteBelowWrap(capacity, n);
        CopyingIsAmortised(capacity, ByteByByte(capacity, n));
      }
    } else {
      NoConstantBeyondWrap(capacity, 9);
    }
  }

  /** Capacities that lead up to WRAP, each the most that the factor 1.125 takes no further than the next. */
  function Rung(k: nat): (capacity: nat)
    ensures capacity <= WRAP
  {
    if k == 0 then WRAP else Rung(k - 1) * 8 / 9
  }

  const TOP: nat := 20

  lemma TopOfLadder()
    ensures Rung(0) == WRAP
  {}

  lemma NextRung(k: nat)
    ensures Rung(k + 1) == Rung(k) * 8 / 9
  {}

  lemma {:induction false} RungsFall(k: nat, bottom: nat)
    requires k <= bottom
    ensures Rung(bottom) <= Rung(k)
    decreases bottom - k
  {
    hide Rung;
    if k < bottom {
      NextRung(k);
      RungsFall(k + 1, bottom);
    }
  }

  lemma FourRungs(k: nat)
    ensures 624 * Rung(k) <= 1000 * Rung(k + 4) + 5000 && 1000 * Rung(k + 4) <= 625 * Rung(k)
  {
    hide Rung;
    NextRung(k);
    NextRung(k + 1);
    NextRung(k + 2);
    NextRung(k + 3);
  }

  lemma FootOfLadder()
    ensures 8 * Rung(TOP) + 1000 <= WRAP && CAPACITY_DOUBLING_MAX <= Rung(TOP)
  {
    hide Rung;
    TopOfLadder();
    FourRungs(0);
    FourRungs(4);
    FourRungs(8);
    FourRungs(12);
    FourRungs(16);
  }

  /** Up the ladder from its foot, `n` rungs, each time with a full buffer. */
  function Climb(n: nat): (run: seq<Request>)
    requires n <= TOP
    ensures |run| == n
  {
    if n == 0 then [] else Climb(n - 1) + [Request(Rung(TOP - n), Rung(TOP - n + 1))]
  }

  lemma ClimbsToNext(k: nat)
    requires k < TOP
    ensures Grown(Rung(k + 1), Rung(k)) == Rung(k) && Rung(k + 1) < Rung(k)
    ensures Rung(k + 1) + 8 >= 8 * (Rung(k) - Rung(k + 1))
  {
    hide Rung;
    RungsFall(k + 1, TOP);
    NextRung(k);
    FootOfLadder();
    StepOfLadder(Rung(k));
  }

  lemma StepOfLadder(capacity: nat)
    requires capacity <= WRAP && capacity * 8 / 9 >= CAPACITY_DOUBLING_MAX
    ensures var below := capacity * 8 / 9;
      Grown(below, capacity) == capacity && below < capacity && below + 8 >= 8 * (capacity - below)
  {
    var below := capacity * 8 / 9;
    assert 9 * below <= 8 * capacity < 9 * below + 9;
    assert below * 9 / 8 <= capacity;
  }

  lemma {:induction false} ClimbCopies(n: nat)
    requires n <= TOP
    ensures CapacityAfter(Rung(TOP), Climb(n)) == Rung(TOP - n)
    ensures WithinCapacity(Rung(TOP), Climb(n)) && Limited(Climb(n), WRAP)
    ensures Copied(Rung(TOP), Climb(n)) + 8 * n >= 8 * (Rung(TOP - n) - Rung(TOP))
  {
    hide Grown, Rung, CapacityAfter, Copied, WithinCapacity;
    if n == 0 {
      NoRun(Rung(TOP));
    } else {
      ClimbCopies(n - 1);
      ClimbsToNext(TOP - n);
      RunOneMore(Rung(TOP), Climb(n - 1), Request(Rung(TOP - n), Rung(TOP - n + 1)));
    }
  }

  /** Up the ladder and two bytes beyond WRAP. */
  lemma TwoBytesTooMany() returns (run: seq<Request>)
    ensures WithinCapacity(Rung(TOP), run) && Limited(run, WRAP + 2)
    ensures Copied(Rung(TOP), run) > 9 * CapacityAfter(Rung(TOP), run)
  {
    hide Grown, Rung, CapacityAfter, Copied, WithinCapacity;
    var start, one, two := Rung(TOP), Request(WRAP + 1, WRAP), Request(WRAP + 2, WRAP + 1);
    ClimbCopies(TOP);
    assert Rung(0) == WRAP by { TopOfLadder(); }
    FootOfLadder();
    GrowsByOne(WRAP);
    GrowsByOne(WRAP + 1);
    RunOneMore(start, Climb(TOP), one);
    RunOneMore(start, Climb(TOP) + [one], two);
    run := Climb(TOP) + [one] + [two];
  }

  /**
   Growth is amortised exactly as far as this: whatever the starting capacity and whatever is asked for in
   whatever order, what is copied stays within nine times the final capacity, if and only if nothing more than
   one byte beyond WRAP is ever asked for.
   */
  lemma CopyingIsAmortisedIff(limit: nat)
    ensures
      (forall start: nat, run: seq<Request> :: WithinCapacity(start, run) && Limited(run, limit) ==>
        Copied(start, run) <= 9 * CapacityAfter(start, run))
      <==> limit <= WRAP + 1
  {
    hide CapacityAfter, Copied, WithinCapacity;
    if limit <= WRAP + 1 {
      forall start: nat, run: seq<Request> | WithinCapacity(start, run) && Limited(run, limit)
        ensures Copied(start, run) <= 9 * CapacityAfter(start, run)
      {
        LimitedIsPaidFor(start, run);
      }
    } else {
      var run := TwoBytesTooMany();
      assert Limited(run, limit);
    }
  }

  // ---------------------------------------------------------------------------------------------
  // The file
  // ---------------------------------------------------------------------------------------------

  datatype ReadResult = Delivered(size: nat) | RangeError

  class File {
    var contents: array?<Byte>
    var usedBytes: nat

    ghost function Repr(): set<object>
      reads this
    {
      if contents == null then {} else {contents}
    }

    function Capacity(): nat
      reads this
    {
      if contents == null then 0 else contents.Length
    }

    /** Spare capacity is always zero. */
    ghost predicate Valid()
      reads this, Repr()
    {
      usedBytes <= Capacity() && (contents != null ==> SpareIsZero(contents[..], usedBytes))
    }

    /** The byte sequence the file stands for. */
    ghost function Bytes(): seq<Byte>
      requires Valid()
      reads this, Repr()
    {
      if contents == null then [] else contents[..usedBytes]
    }

    constructor ()
      ensures Valid() && Bytes() == []
    {
      contents, usedBytes := null, 0;
    }

    /** Makes room; `copied` is how many bytes had to move. */
    method ExpandFileStorage(newCapacity: nat) returns (ghost copied: nat)
      requires Valid()
      modifies this`contents
      ensures Valid() && Bytes() == old(Bytes())
      ensures Capacity() == Grown(old(Capacity()), newCapacity) >= newCapacity
      ensures contents == old(contents) || (contents != null && fresh(contents))
      ensures copied == if contents == old(contents) then 0 else usedBytes
      ensures newCapacity > 0 ==> contents != null
    {
      var prevCapacity := if contents != null then contents.Length else 0;
      copied := 0;
      if prevCapacity >= newCapacity { return; }
      var capacity := Max(newCapacity, Geometric(prevCapacity));
      if prevCapacity != 0 { capacity := Max(capacity, MIN_REGROWN); }
      var oldContents := contents;
      contents := NewBuffer(capacity, oldContents, usedBytes);
      copied := usedBytes;
    }

    /** A zeroed typed array that starts with `count` bytes of another. */
    static method NewBuffer(capacity: nat, from: array?<Byte>, count: nat) returns (buffer: array<Byte>)
      requires count <= capacity && (count > 0 ==> from != null && count <= from.Length)
      ensures fresh(buffer) && buffer.Length == capacity
      ensures buffer[..count] == if from == null then [] else from[..count]
      ensures forall k :: count <= k < capacity ==> buffer[k] == 0
    {
      buffer := new Byte[capacity](_ => 0);
      for i := 0 to count
        invariant forall k :: 0 <= k < i ==> buffer[k] == from[k]
        invariant forall k :: i <= k < capacity ==> buffer[k] == 0
        invariant from != null ==> from[..] == old(from[..])
      {
        buffer[i] := from[i];
      }
    }

    /** Truncation, or extension with zeros. */
    method ResizeFileStorage(newSize: nat)
      requires Valid()
      modifies this
      ensures Valid() && Bytes() == Resized(old(Bytes()), newSize)
      ensures Capacity() == if old(usedBytes) == newSize then old(Capacity()) else newSize
      ensures contents == null || contents == old(contents) || fresh(contents)
    {
      if usedBytes == newSize { return; }
      if newSize == 0 {
        contents := null;
        usedBytes := 0;
      } else {
        var oldContents := contents;
        contents := NewBuffer(newSize, oldContents, if oldContents == null then 0 else Min(newSize, usedBytes));
        usedBytes := newSize;
      }
    }

    /**
     Overlays the buffer's bytes at any position, including past the end. A range that reaches beyond the
     buffer gives what there is of it; only as the first data of an empty file does that leave the file with
     fewer bytes than it counts.
     */
    method Write(buffer: array<Byte>, offset: nat, length: nat, position: nat) returns (written: nat)
      requires Valid() && contents != buffer
      modifies this, Repr()
      ensures written == length
      ensures Valid() <==> length == 0 || old(usedBytes) > 0 || position > 0 || offset + length <= buffer.Length
      ensures Valid() ==> Bytes() == Written(old(Bytes()), position, length, old(SubArray(buffer[..], offset, offset + length)))
      ensures contents == old(contents) || (contents != null && fresh(contents))
      ensures Capacity() == (
        if length == 0 then old(Capacity())
        else if old(usedBytes) == 0 && position == 0 then |old(SubArray(buffer[..], offset, offset + length))|
        else Grown(old(Capacity()), position + length))
      ensures buffer[..] == old(buffer[..])
    {
      hide WriteAt, Padded, Grown, Geometric, SpareIsZero;
      if length == 0 { return 0; }
      ghost var data := SubArray(buffer[..], offset, offset + length);
      if usedBytes == 0 && position == 0 {
        contents := Slice(buffer, offset, offset + length);
        usedBytes := length;
        if |data| == length {
          WriteToEmpty(data);
          assert contents[..length] == contents[..];
        }
        return length;
      }
      GrowthIsBounded(Capacity(), position + length);
      if position + length <= usedBytes {
        OverlayIsWritten(contents[..], usedBytes, position, length, data);
        SetClamped(buffer, offset, length, position);
        return length;
      }
      ghost var _ := ExpandFileStorage(position + length);
      OverlayIsWritten(contents[..], usedBytes, position, length, data);
      SetClamped(buffer, offset, length, position);
      usedBytes := Max(usedBytes, position + length);
      return length;
    }

    /** `contents.set(buffer.subarray(offset, offset + length), position)` */
    method SetClamped(buffer: array<Byte>, offset: nat, length: nat, position: nat)
      requires contents != null && contents != buffer && position + length <= contents.Length
      modifies contents
      ensures contents[..] == Overwritten(old(contents[..]), position, SubArray(buffer[..], offset, offset + length))
      ensures buffer[..] == old(buffer[..])
    {
      var from := Min(offset, buffer.Length);
      var to := Min(offset + length, buffer.Length);
      assert SubArray(buffer[..], offset, offset + length) == buffer[from..to];
      Set(contents, buffer, from, to, position);
    }

    /** `buffer.slice(from, to)` */
    static method Slice(buffer: array<Byte>, from: nat, to: nat) returns (copy: array<Byte>)
      requires from <= to
      ensures fresh(copy) && copy[..] == SubArray(buffer[..], from, to)
    {
      var part := SubArray(buffer[..], from, to);
      copy := new Byte[|part|](i requires 0 <= i < |part| => part[i]);
    }

    /**
     Copies out at most `length` bytes from `position`. More than eight are moved at once, which fails if the
     buffer has no room for them; up to eight are moved one by one, and those beyond the buffer are lost.
     */
    method Read(buffer: array<Byte>, offset: nat, length: nat, position: nat) returns (r: ReadResult)
      requires Valid() && contents != buffer
      modifies buffer
      ensures Valid() && Bytes() == old(Bytes())
      ensures var data := ReadAt(Bytes(), position, length);
        && r == (if |data| > 8 && offset + |data| > buffer.Length then RangeError else Delivered(|data|))
        && buffer[..] == if r.RangeError? then old(buffer[..]) else Overwritten(old(buffer[..]), offset, data)
    {
      hide SpareIsZero;
      if position >= usedBytes {
        assert buffer[..] == Overwritten(buffer[..], offset, []);
        return Delivered(0);
      }
      var size := Min(usedBytes - position, length);
      assert ReadAt(Bytes(), position, length) == contents[position..position + size];
      if size > 8 {
        if offset + size > buffer.Length { return RangeError; }
        Set(buffer, contents, position, position + size, offset);
      } else {
        StoreEach(buffer, contents, position, position + size, offset);
      }
      return Delivered(size);
    }

    /** Reserves space; new bytes count as used and read as zero. */
    method Allocate(offset: nat, length: nat)
      requires Valid()
      modifies this
      ensures Valid() && Bytes() == Padded(old(Bytes()), offset + length)
      ensures Capacity() == Grown(old(Capacity()), offset + length)
      ensures contents == old(contents) || (contents != null && fresh(contents))
    {
      ghost var _ := ExpandFileStorage(offset + length);
      if contents != null { ReserveIsPad(contents[..], usedBytes, offset + length); }
      usedBytes := Max(usedBytes, offset + length);
    }
  }
}
