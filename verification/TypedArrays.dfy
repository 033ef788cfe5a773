/** Typed arrays of bytes: a store beyond the end is ignored, and a range is clamped to the array. */
module TypedArrays {

  type Byte = b: nat | b < 0x100

  /** An array with `bytes` stored from `at` on, as far as they fall inside. */
  function Overwritten(heap: seq<Byte>, at: nat, bytes: seq<Byte>): (after: seq<Byte>)
    ensures |after| == |heap|
    ensures forall k :: 0 <= k < |heap| ==> after[k] == if at <= k < at + |bytes| then bytes[k - at] else heap[k]
  {
    seq(|heap|, k requires 0 <= k < |heap| => if at <= k < at + |bytes| then bytes[k - at] else heap[k])
  }

  lemma OverwrittenTwice(heap: seq<Byte>, at: nat, a: seq<Byte>, b: seq<Byte>)
    ensures Overwritten(Overwritten(heap, at, a), at + |a|, b) == Overwritten(heap, at, a + b)
  {}

  lemma OverwrittenWithin(heap: seq<Byte>, at: nat, bytes: seq<Byte>)
    requires at + |bytes| <= |heap|
    ensures Overwritten(heap, at, bytes) == heap[..at] + bytes + heap[at + |bytes|..]
  {}

  /** `subarray(from, to)` and the contents of `slice(from, to)` */
  function SubArray(buffer: seq<Byte>, from: nat, to: nat): (part: seq<Byte>)
    requires from <= to
    ensures |part| == if from >= |buffer| then 0 else if to <= |buffer| then to - from else |buffer| - from
    ensures forall k :: 0 <= k < |part| ==> part[k] == buffer[from + k]
    ensures to <= |buffer| ==> part == buffer[from..to]
  {
    if from >= |buffer| then [] else buffer[from..if to <= |buffer| then to else |buffer|]
  }

  method Store(heap: array<Byte>, i: nat, b: Byte)
    modifies heap
    ensures heap[..] == Overwritten(old(heap[..]), i, [b])
  {
    if i < heap.Length { heap[i] := b; }
  }

  /** `for (...) target[at + i] = source[from + i]` */
  method StoreEach(target: array<Byte>, source: array<Byte>, from: nat, to: nat, at: nat)
    requires target != source && from <= to <= source.Length
    modifies target
    ensures target[..] == Overwritten(old(target[..]), at, source[from..to])
  {
    for i := from to to
      invariant target[..] == Overwritten(old(target[..]), at, source[from..i])
      invariant source[..] == old(source[..])
    {
      OverwrittenTwice(old(target[..]), at, source[from..i], [source[i]]);
      Store(target, at + i - from, source[i]);
      assert source[from..i + 1] == source[from..i] + [source[i]];
    }
  }

  /** `target.set(source.subarray(from, to), at)` for a range inside both arrays. */
  method Set(target: array<Byte>, source: array<Byte>, from: nat, to: nat, at: nat)
    requires target != source && from <= to <= source.Length && at + to - from <= target.Length
    modifies target
    ensures target[..] == old(target[..at]) + source[from..to] + old(target[at + to - from..])
    ensures target[..] == Overwritten(old(target[..]), at, source[from..to])
  {
    OverwrittenWithin(target[..], at, source[from..to]);
    StoreEach(target, source, from, to, at);
  }
}
