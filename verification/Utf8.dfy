/**
 The string codec of the runtime: UTF-16 code units to UTF-8 bytes in a bounded heap region
 (`stringToUTF8Array`, `lengthBytesUTF8`) and back (the hand-written branch of `UTF8ArrayToString`).
 */
module Utf8 {
  import opened TypedArrays

  type Unit = u: nat | u < 0x1_0000
  type CodePoint = nat

  // On the non-negative numbers met here `u >> k` is division and `u & (2^k - 1)` remainder by 2^k.

  /** `hi | lo`, where `lo` lies below the lowest set bit of `hi`; the precondition is checked everywhere. */
  function Or(hi: nat, lo: nat, width: nat): nat
    requires width > 0 && hi % width == 0 && lo < width
  {
    hi + lo
  }

  datatype Limit = Unlimited | AtMost(bytes: nat)

  // ---------------------------------------------------------------------------------------------
  // Code points
  // ---------------------------------------------------------------------------------------------

  predicate IsSurrogate(u: Unit) { 0xD800 <= u <= 0xDFFF }
  predicate IsHigh(u: Unit) { 0xD800 <= u <= 0xDBFF }
  predicate IsLow(u: Unit) { 0xDC00 <= u <= 0xDFFF }

  /** What the writer makes of a surrogate and the unit after it. */
  function Paired(u: Unit, u1: Unit): CodePoint {
    Or(0x1_0000 + (u % 0x400) * 0x400, u1 % 0x400, 0x400)
  }

  /** How the writer and the length count read any string, well formed or not. */
  function CodePoints(str: seq<Unit>): seq<CodePoint> {
    if str == [] then []
    else if IsSurrogate(str[0]) then
      if |str| == 1 then [Paired(str[0], 0)] else [Paired(str[0], str[1])] + CodePoints(str[2..])
    else [str[0]] + CodePoints(str[1..])
  }

  /** High surrogates stand directly before low ones, and neither stands elsewhere. */
  predicate WellFormed(str: seq<Unit>) {
    if str == [] then true
    else if IsSurrogate(str[0]) then |str| >= 2 && IsHigh(str[0]) && IsLow(str[1]) && WellFormed(str[2..])
    else WellFormed(str[1..])
  }

  predicate IsScalar(cp: CodePoint) { cp <= 0x10_FFFF && !(0xD800 <= cp <= 0xDFFF) }

  /** UTF-16 as in section 2.1 of RFC 2781. */
  function Utf16(cp: CodePoint): seq<Unit>
    requires cp <= 0x10_FFFF
  {
    if cp < 0x1_0000 then [cp] else [0xD800 + (cp - 0x1_0000) / 0x400, 0xDC00 + (cp - 0x1_0000) % 0x400]
  }

  ghost predicate InRange(cps: seq<CodePoint>) { forall k :: 0 <= k < |cps| ==> cps[k] <= 0x10_FFFF }

  function Utf16All(cps: seq<CodePoint>): seq<Unit>
    requires InRange(cps)
  {
    if cps == [] then [] else Utf16(cps[0]) + Utf16All(cps[1..])
  }

  lemma PairedRange(u: Unit, u1: Unit)
    ensures 0x1_0000 <= Paired(u, u1) <= 0x10_FFFF
  {
  }

  lemma {:induction false} CodePointsInRange(str: seq<Unit>)
    ensures InRange(CodePoints(str))
  {
    if str != [] {
      if IsSurrogate(str[0]) {
        if |str| > 1 { PairedRange(str[0], str[1]); CodePointsInRange(str[2..]); } else { PairedRange(str[0], 0); }
      } else {
        CodePointsInRange(str[1..]);
      }
    }
  }

  lemma PairUndoesSplit(u: Unit, u1: Unit)
    requires IsHigh(u) && IsLow(u1)
    ensures Paired(u, u1) <= 0x10_FFFF && Utf16(Paired(u, u1)) == [u, u1]
  {
    var x, y := u - 0xD800, u1 - 0xDC00;
    assert u == 54 * 0x400 + x && u1 == 55 * 0x400 + y;
    assert Paired(u, u1) == 0x1_0000 + x * 0x400 + y;
  }

  lemma SplitUndoesPair(cp: CodePoint)
    requires 0x1_0000 <= cp <= 0x10_FFFF
    ensures IsHigh(Utf16(cp)[0]) && IsLow(Utf16(cp)[1]) && Paired(Utf16(cp)[0], Utf16(cp)[1]) == cp
  {
  }

  /** A well-formed string is the UTF-16 of its code points, all of them scalar values. */
  lemma {:induction false} WellFormedIsUtf16(str: seq<Unit>)
    requires WellFormed(str)
    ensures InRange(CodePoints(str)) && Utf16All(CodePoints(str)) == str
    ensures forall k :: 0 <= k < |CodePoints(str)| ==> IsScalar(CodePoints(str)[k])
  {
    if str != [] {
      if IsSurrogate(str[0]) {
        PairUndoesSplit(str[0], str[1]);
        PairedRange(str[0], str[1]);
        WellFormedIsUtf16(str[2..]);
        assert CodePoints(str)[1..] == CodePoints(str[2..]);
        assert [str[0], str[1]] + str[2..] == str;
      } else {
        WellFormedIsUtf16(str[1..]);
        assert CodePoints(str)[1..] == CodePoints(str[1..]);
        assert [str[0]] + str[1..] == str;
      }
    }
  }

  /** A string with its surrogates forced into pairs: each takes the unit after it, or none at the end, as its low half. */
  function Mended(str: seq<Unit>): seq<Unit> {
    if str == [] then []
    else if IsSurrogate(str[0]) then
      if |str| == 1 then [0xD800 + str[0] % 0x400, 0xDC00]
      else [0xD800 + str[0] % 0x400, 0xDC00 + str[1] % 0x400] + Mended(str[2..])
    else [str[0]] + Mended(str[1..])
  }

  /** An ill-formed string is written as its mended version, and a well-formed one is its own. */
  lemma {:induction false} WrittenAsMended(str: seq<Unit>)
    ensures WellFormed(Mended(str)) && CodePoints(Mended(str)) == CodePoints(str)
    ensures WellFormed(str) <==> Mended(str) == str
  {
    hide Paired;
    if str != [] {
      var mended := Mended(str);
      if IsSurrogate(str[0]) {
        var low := if |str| == 1 then 0 else str[1];
        SamePair(str[0], low);
        if |str| > 1 {
          assert mended[2..] == Mended(str[2..]);
          WrittenAsMended(str[2..]);
          if Mended(str) == str { assert str[2..] == mended[2..]; }
          if WellFormed(str) { assert str == [str[0], str[1]] + str[2..]; }
        } else {
          assert mended[2..] == [];
        }
      } else {
        assert mended[1..] == Mended(str[1..]);
        WrittenAsMended(str[1..]);
        if WellFormed(str) { assert str == [str[0]] + str[1..]; }
      }
    }
  }

  lemma SamePair(u: Unit, u1: Unit)
    requires IsSurrogate(u)
    ensures var high, low := 0xD800 + u % 0x400, 0xDC00 + u1 % 0x400;
      && high < 0x1_0000 && low < 0x1_0000 && IsHigh(high) && IsLow(low) && Paired(high, low) == Paired(u, u1)
      && (IsHigh(u) <==> high == u) && (IsLow(u1) <==> low == u1)
  {
    assert (0xD800 + u % 0x400) % 0x400 == u % 0x400 && (0xDC00 + u1 % 0x400) % 0x400 == u1 % 0x400;
  }

  /** And every sequence of scalar values is read back from its UTF-16. */
  lemma {:induction false} Utf16IsWellFormed(cps: seq<CodePoint>)
    requires InRange(cps) && forall k :: 0 <= k < |cps| ==> IsScalar(cps[k])
    ensures WellFormed(Utf16All(cps)) && CodePoints(Utf16All(cps)) == cps
  {
    if cps != [] {
      var str := Utf16All(cps);
      Utf16IsWellFormed(cps[1..]);
      if cps[0] < 0x1_0000 {
        assert str[1..] == Utf16All(cps[1..]);
      } else {
        SplitUndoesPair(cps[0]);
        assert str[2..] == Utf16All(cps[1..]);
      }
    }
  }

  // ---------------------------------------------------------------------------------------------
  // Bytes
  // ---------------------------------------------------------------------------------------------

  /** The bytes the writer emits for one code point. */
  function Encode(u: CodePoint): (bytes: seq<Byte>)
    requires u <= 0x10_FFFF
    ensures 1 <= |bytes| <= 4
  {
    if u <= 0x7F then [u]
    else if u <= 0x7FF then [Or(0xC0, u / 64, 64), Or(0x80, u % 64, 64)]
    else if u <= 0xFFFF then [Or(0xE0, u / 4096, 16), Or(0x80, u / 64 % 64, 64), Or(0x80, u % 64, 64)]
    else [Or(0xF0, u / 262144, 8), Or(0x80, u / 4096 % 64, 64), Or(0x80, u / 64 % 64, 64), Or(0x80, u % 64, 64)]
  }

  /** 10xxxxxx */
  predicate IsTail(b: Byte) { b / 64 == 2 }

  function Payload(b: nat, width: nat): nat
    requires width > 0
  {
    b % width
  }

  /** The table in section 3 of RFC 3629: range, fixed high bits, and payload bits in order. */
  predicate Rfc3629(cp: CodePoint, b: seq<Byte>) {
    if cp <= 0x7F then |b| == 1 && b[0] == cp
    else if cp <= 0x7FF then
      && |b| == 2 && b[0] / 32 == 6 && IsTail(b[1])
      && Payload(b[0], 32) * 64 + Payload(b[1], 64) == cp
    else if cp <= 0xFFFF then
      && |b| == 3 && b[0] / 16 == 14 && IsTail(b[1]) && IsTail(b[2])
      && Payload(b[0], 16) * 4096 + Payload(b[1], 64) * 64 + Payload(b[2], 64) == cp
    else
      && |b| == 4 && b[0] / 8 == 30 && IsTail(b[1]) && IsTail(b[2]) && IsTail(b[3])
      && Payload(b[0], 8) * 262144 + Payload(b[1], 64) * 4096 + Payload(b[2], 64) * 64 + Payload(b[3], 64) == cp
  }

  lemma EncodeMeetsTable(cp: CodePoint)
    requires cp <= 0x10_FFFF
    ensures Rfc3629(cp, Encode(cp))
  {
    if cp > 0x7F {
      assert cp == cp / 64 * 64 + cp % 64;
      assert cp / 64 == cp / 4096 * 64 + cp / 64 % 64;
      assert cp / 4096 == cp / 262144 * 64 + cp / 4096 % 64;
    }
  }

  lemma TableIsUnique(cp: CodePoint, a: seq<Byte>, b: seq<Byte>)
    requires cp <= 0x10_FFFF && Rfc3629(cp, a) && Rfc3629(cp, b)
    ensures a == b
  {
    assert |a| == |b| && a[0] == b[0];
    if |a| > 1 { assert a[1] == b[1]; }
    if |a| > 2 { assert a[2] == b[2]; }
    if |a| > 3 { assert a[3] == b[3]; }
  }

  /** The writer's bytes are the ones the table gives, and the only ones. */
  lemma EncodeIffRfc3629(cp: CodePoint, b: seq<Byte>)
    requires cp <= 0x10_FFFF
    ensures Rfc3629(cp, b) <==> b == Encode(cp)
  {
    EncodeMeetsTable(cp);
    if Rfc3629(cp, b) { TableIsUnique(cp, b, Encode(cp)); }
  }

  function EncodeAll(cps: seq<CodePoint>): seq<Byte>
    requires InRange(cps)
  {
    if cps == [] then [] else Encode(cps[0]) + EncodeAll(cps[1..])
  }

  lemma {:induction false} EncodeAllSnoc(cps: seq<CodePoint>, cp: CodePoint)
    requires InRange(cps) && cp <= 0x10_FFFF
    ensures EncodeAll(cps + [cp]) == EncodeAll(cps) + Encode(cp)
  {
    if cps == [] {
      assert cps + [cp] == [cp];
      assert EncodeAll([cp][1..]) == [];
    } else {
      assert (cps + [cp])[1..] == cps[1..] + [cp];
      EncodeAllSnoc(cps[1..], cp);
    }
  }

  /** How many code points fit when each is taken whole and in order. */
  function Fitting(cps: seq<CodePoint>, room: nat): (count: nat)
    requires InRange(cps)
    ensures count <= |cps|
  {
    if cps == [] || |Encode(cps[0])| > room then 0 else 1 + Fitting(cps[1..], room - |Encode(cps[0])|)
  }

  /** That is the longest prefix whose encoding fits. */
  lemma {:induction false} FittingIsLongest(cps: seq<CodePoint>, room: nat, k: nat)
    requires InRange(cps) && k <= |cps|
    ensures |EncodeAll(cps[..k])| <= room <==> k <= Fitting(cps, room)
  {
    if k > 0 {
      assert cps[..k][1..] == cps[1..][..k - 1];
      if |Encode(cps[0])| <= room { FittingIsLongest(cps[1..], room - |Encode(cps[0])|, k - 1); }
    }
  }

  // ---------------------------------------------------------------------------------------------
  // Counting and writing
  // ---------------------------------------------------------------------------------------------

  method LengthBytesUTF8(str: seq<Unit>) returns (len: nat)
    ensures InRange(CodePoints(str)) && len == |EncodeAll(CodePoints(str))|
  {
    CodePointsInRange(str);
    len := 0;
    var i := 0;
    while i < |str|
      invariant 0 <= i && InRange(CodePoints(From(str, i)))
      invariant len + |EncodeAll(CodePoints(From(str, i)))| == |EncodeAll(CodePoints(str))|
      decreases |str| - i
    {
      CodePointsInRange(str[i..]);
      NextCodePoint(str, i);
      var c := str[i];
      if c <= 0x7F {
        len := len + 1;
      } else if c <= 0x7FF {
        len := len + 2;
      } else if IsSurrogate(c) {
        len := len + 4;
        i := i + 1;
      } else {
        len := len + 3;
      }
      i := i + 1;
    }
  }

  /** The units from `i` on; a lone surrogate at the end is skipped as if it were two. */
  function From(str: seq<Unit>, i: nat): seq<Unit> { if i <= |str| then str[i..] else [] }

  function UnitAt(str: seq<Unit>, i: nat): Unit { if i < |str| then str[i] else 0 }

  lemma NextCodePoint(str: seq<Unit>, i: nat)
    requires i < |str|
    ensures From(str, i) == str[i..]
    ensures if IsSurrogate(str[i]) then
        0x1_0000 <= Paired(str[i], UnitAt(str, i + 1)) <= 0x10_FFFF &&
        CodePoints(str[i..]) == [Paired(str[i], UnitAt(str, i + 1))] + CodePoints(From(str, i + 2))
      else CodePoints(str[i..]) == [str[i]] + CodePoints(From(str, i + 1))
  {
    PairedRange(str[i], UnitAt(str, i + 1));
    if i + 1 < |str| { assert str[i..][2..] == str[i + 2..]; }
    assert str[i..][1..] == str[i + 1..];
  }

  /** Stores the bytes of one code point, unless they would reach beyond `endIdx`. */
  method PutIfRoom(u: CodePoint, heap: array<Byte>, outIdx: nat, endIdx: nat) returns (fits: bool)
    requires u <= 0x10_FFFF && outIdx <= endIdx
    modifies heap
    ensures fits <==> outIdx + |Encode(u)| <= endIdx
    ensures heap[..] == if fits then Overwritten(old(heap[..]), outIdx, Encode(u)) else old(heap[..])
  {
    if u <= 0x7F {
      if outIdx >= endIdx { return false; }
      Store(heap, outIdx, u);
    } else if u <= 0x7FF {
      if outIdx + 1 >= endIdx { return false; }
      Store(heap, outIdx, Or(0xC0, u / 64, 64));
      Store(heap, outIdx + 1, Or(0x80, u % 64, 64));
    } else if u <= 0xFFFF {
      if outIdx + 2 >= endIdx { return false; }
      Store(heap, outIdx, Or(0xE0, u / 4096, 16));
      Store(heap, outIdx + 1, Or(0x80, u / 64 % 64, 64));
      Store(heap, outIdx + 2, Or(0x80, u % 64, 64));
    } else {
      if outIdx + 3 >= endIdx { return false; }
      Store(heap, outIdx, Or(0xF0, u / 262144, 8));
      Store(heap, outIdx + 1, Or(0x80, u / 4096 % 64, 64));
      Store(heap, outIdx + 2, Or(0x80, u / 64 % 64, 64));
      Store(heap, outIdx + 3, Or(0x80, u % 64, 64));
    }
    return true;
  }

  /** The code point that starts at unit `i`, and the unit after it. */
  function PointAt(str: seq<Unit>, i: nat): CodePoint
    requires i < |str|
  {
    if IsSurrogate(str[i]) then Paired(str[i], UnitAt(str, i + 1)) else str[i]
  }

  function After(str: seq<Unit>, i: nat): nat
    requires i < |str|
  {
    if IsSurrogate(str[i]) then i + 2 else i + 1
  }

  /** The first `k` code points have been read, up to unit `i`, and encoded. */
  ghost predicate Progress(str: seq<Unit>, cps: seq<CodePoint>, i: nat, k: nat, bytes: seq<Byte>, limit: nat) {
    && InRange(cps) && k <= |cps| && cps[k..] == CodePoints(From(str, i))
    && bytes == EncodeAll(cps[..k]) && |bytes| <= limit
    && Fitting(cps, limit) == k + Fitting(cps[k..], limit - |bytes|)
  }

  lemma ProgressStart(str: seq<Unit>, limit: nat)
    ensures Progress(str, CodePoints(str), 0, 0, [], limit)
  {
    CodePointsInRange(str);
    assert CodePoints(str)[..0] == [] && CodePoints(str)[0..] == CodePoints(str) && str[0..] == str;
  }

  lemma ProgressEnd(str: seq<Unit>, cps: seq<CodePoint>, i: nat, k: nat, bytes: seq<Byte>, limit: nat)
    requires Progress(str, cps, i, k, bytes, limit) && (i >= |str| || Fitting(cps, limit) == k)
    ensures bytes == EncodeAll(cps[..Fitting(cps, limit)])
  {
    if i >= |str| { assert From(str, i) == []; }
  }

  lemma ProgressStep(str: seq<Unit>, cps: seq<CodePoint>, i: nat, k: nat, bytes: seq<Byte>, limit: nat)
    requires Progress(str, cps, i, k, bytes, limit) && i < |str|
    ensures PointAt(str, i) <= 0x10_FFFF
    ensures if |bytes| + |Encode(PointAt(str, i))| <= limit
      then Progress(str, cps, After(str, i), k + 1, bytes + Encode(PointAt(str, i)), limit)
      else Fitting(cps, limit) == k
  {
    hide Encode, Paired, CodePoints, From, UnitAt;
    NextCodePoint(str, i);
    assert cps[k] == cps[k..][0] == PointAt(str, i);
    assert cps[k..][1..] == cps[k + 1..];
    assert cps[..k + 1] == cps[..k] + [cps[k]];
    EncodeAllSnoc(cps[..k], cps[k]);
  }

  /** What a limit leaves of a string: the bytes of the longest prefix that fits. */
  function FittingBytes(str: seq<Unit>, limit: nat): (bytes: seq<Byte>)
    requires InRange(CodePoints(str))
  {
    EncodeAll(CodePoints(str)[..Fitting(CodePoints(str), limit)])
  }

  /** The loop: writes below `endIdx`. */
  method WriteUnits(str: seq<Unit>, heap: array<Byte>, outIdx: nat, endIdx: nat) returns (out: nat)
    requires InRange(CodePoints(str)) && outIdx <= endIdx
    modifies heap
    ensures out == outIdx + |FittingBytes(str, endIdx - outIdx)| <= endIdx
    ensures heap[..] == Overwritten(old(heap[..]), outIdx, FittingBytes(str, endIdx - outIdx))
  {
    hide Encode, Fitting, Paired, CodePoints, EncodeAll;
    ghost var cps, limit := CodePoints(str), endIdx - outIdx;
    ghost var k: nat := 0;
    ghost var bytes: seq<Byte> := [];
    ProgressStart(str, limit);
    out := outIdx;
    var i: nat := 0;
    while i < |str|
      invariant Progress(str, cps, i, k, bytes, limit)
      invariant out == outIdx + |bytes|
      invariant heap[..] == Overwritten(old(heap[..]), outIdx, bytes)
      decreases |str| - i
    {
      ProgressStep(str, cps, i, k, bytes, limit);
      var u: CodePoint := str[i];
      var next := i;
      if IsSurrogate(str[i]) {
        next := next + 1;
        u := Paired(str[i], UnitAt(str, next));
      }
      var fits := PutIfRoom(u, heap, out, endIdx);
      if !fits { break; }
      OverwrittenTwice(old(heap[..]), outIdx, bytes, Encode(u));
      out := out + |Encode(u)|;
      bytes := bytes + Encode(u);
      k := k + 1;
      i := next + 1;
    }
    ProgressEnd(str, cps, i, k, bytes, limit);
  }

  /**
   Writes the longest prefix of whole code points that fits beside the terminating zero, for any string and
   limit, and touches nothing outside.
   */
  method StringToUTF8Array(str: seq<Unit>, heap: array<Byte>, outIdx: nat, maxBytesToWrite: int) returns (written: nat)
    modifies heap
    ensures InRange(CodePoints(str))
    ensures maxBytesToWrite <= 0 ==> written == 0 && heap[..] == old(heap[..])
    ensures maxBytesToWrite > 0 ==>
      var bytes := FittingBytes(str, maxBytesToWrite - 1);
      && written == |bytes| < maxBytesToWrite
      && heap[..] == Overwritten(old(heap[..]), outIdx, bytes + [0])
  {
    hide Encode, Fitting, Paired, CodePoints, EncodeAll, FittingBytes;
    CodePointsInRange(str);
    if !(maxBytesToWrite > 0) { return 0; }
    var out := WriteUnits(str, heap, outIdx, outIdx + maxBytesToWrite - 1);
    Store(heap, out, 0);
    OverwrittenTwice(old(heap[..]), outIdx, FittingBytes(str, maxBytesToWrite - 1), [0]);
    return out - outIdx;
  }

  // ---------------------------------------------------------------------------------------------
  // Reading
  // ---------------------------------------------------------------------------------------------

  /** Reading past the end of a typed array gives undefined, which masks to zero. */
  function ByteAt(heap: seq<Byte>, i: nat): Byte { if i < |heap| then heap[i] else 0 }

  /** What the reader makes of four bytes. */
  function UnitsOf(u0: Byte, u1: Byte, u2: Byte, u3: Byte): seq<Unit> {
    if u0 < 128 then [u0]
    else if u0 / 32 == 6 then [Or(u0 % 32 * 64, u1 % 64, 64)]
    else FromCharCodes(if u0 / 16 == 14 then Three(u0, u1 % 64, u2 % 64) else Four(u0, u1 % 64, u2 % 64, u3 % 64))
  }

  /** Well formed or not: one, two, three or otherwise four bytes, their low bits in order, as one unit or two. */
  lemma AnyBytesRead(u0: Byte, u1: Byte, u2: Byte, u3: Byte)
    ensures u0 <= 0x7F ==> UnitsOf(u0, u1, u2, u3) == [u0]
    ensures 0xC0 <= u0 <= 0xDF ==> UnitsOf(u0, u1, u2, u3) == [Payload(u0, 32) * 64 + Payload(u1, 64)]
    ensures 0xE0 <= u0 <= 0xEF ==> UnitsOf(u0, u1, u2, u3) == [Payload(u0, 16) * 4096 + Payload(u1, 64) * 64 + Payload(u2, 64)]
    ensures 0x80 <= u0 <= 0xBF || 0xF0 <= u0 ==>
      var u := Payload(u0, 8) * 262144 + Payload(u1, 64) * 4096 + Payload(u2, 64) * 64 + Payload(u3, 64);
      UnitsOf(u0, u1, u2, u3) == if u < 0x1_0000 then [u] else [0xD800 + (u - 0x1_0000) / 0x400, 0xDC00 + (u - 0x1_0000) % 0x400]
  {
  }

  /** One character from position `idx`: the units it gives. */
  function ReadUnits(heap: seq<Byte>, idx: nat): seq<Unit> {
    UnitsOf(ByteAt(heap, idx), ByteAt(heap, idx + 1), ByteAt(heap, idx + 2), ByteAt(heap, idx + 3))
  }

  function Three(u0: nat, u1: nat, u2: nat): (u: nat)
    requires u0 / 16 == 14 && u1 < 64 && u2 < 64
    ensures u < 0x1_0000
  {
    Or(u0 % 16 * 4096 + u1 * 64, u2, 64)
  }

  function Four(u0: nat, u1: nat, u2: nat, u3: nat): (u: nat)
    requires u1 < 64 && u2 < 64 && u3 < 64
    ensures u < 0x20_0000
  {
    Or(u0 % 8 * 262144 + u1 * 4096 + u2 * 64, u3, 64)
  }

  /** One unit, or a surrogate pair from 0x10000 on. */
  function FromCharCodes(u: nat): seq<Unit>
    requires u < 0x20_0000
  {
    if u < 0x1_0000 then [u] else [Or(0xD800, (u - 0x1_0000) / 1024, 2048), Or(0xDC00, (u - 0x1_0000) % 1024, 1024)]
  }

  function ReadLength(u0: Byte): nat {
    if u0 < 128 then 1 else if u0 / 32 == 6 then 2 else if u0 / 16 == 14 then 3 else 4
  }

  /** What the loop still appends when it stands at `idx`. */
  function ReadFrom(heap: seq<Byte>, idx: nat, endPtr: nat): seq<Unit>
    decreases endPtr - idx
  {
    if idx >= endPtr then []
    else ReadUnits(heap, idx) + ReadFrom(heap, idx + ReadLength(ByteAt(heap, idx)), endPtr)
  }

  lemma ReadFromStep(heap: seq<Byte>, idx: nat, endPtr: nat, units: seq<Unit>, length: nat)
    requires idx < endPtr && idx < |heap| && ReadUnits(heap, idx) == units && ReadLength(heap[idx]) == length
    ensures ReadFrom(heap, idx, endPtr) == units + ReadFrom(heap, idx + length, endPtr)
  {
    hide ReadUnits, ReadLength;
  }

  lemma ReadFromNothing(heap: seq<Byte>, idx: nat, endPtr: nat)
    requires idx >= endPtr
    ensures ReadFrom(heap, idx, endPtr) == []
  {}

  /** Where the reader stops: at a zero, at the limit, or at the end of the heap. */
  predicate StopsAt(heap: seq<Byte>, idx: nat, limit: Limit, endPtr: nat) {
    && idx <= endPtr
    && (forall k :: idx <= k < endPtr ==> ByteAt(heap, k) != 0)
    && (limit.AtMost? ==> endPtr <= idx + limit.bytes)
    && (ByteAt(heap, endPtr) == 0 || limit == AtMost(endPtr - idx))
  }

  /** There is always exactly one such place. */
  function EndOf(heap: seq<Byte>, idx: nat, limit: Limit): (endPtr: nat)
    ensures StopsAt(heap, idx, limit, endPtr)
    decreases |heap| - idx
  {
    if idx >= |heap| || heap[idx] == 0 || limit == AtMost(0) then idx
    else EndOf(heap, idx + 1, if limit.AtMost? then AtMost(limit.bytes - 1) else Unlimited)
  }

  lemma OneEnd(heap: seq<Byte>, idx: nat, limit: Limit, a: nat, b: nat)
    requires StopsAt(heap, idx, limit, a) && StopsAt(heap, idx, limit, b)
    ensures a == b
  {}

  method FindEnd(heap: array<Byte>, start: nat, maxBytesToRead: Limit) returns (endPtr: nat)
    ensures endPtr == EndOf(heap[..], start, maxBytesToRead)
  {
    endPtr := start;
    while endPtr < heap.Length && heap[endPtr] != 0 && !(maxBytesToRead.AtMost? && endPtr >= start + maxBytesToRead.bytes)
      invariant start <= endPtr
      invariant forall k :: start <= k < endPtr ==> ByteAt(heap[..], k) != 0
      invariant maxBytesToRead.AtMost? ==> endPtr <= start + maxBytesToRead.bytes
      decreases heap.Length - endPtr
    {
      endPtr := endPtr + 1;
    }
    OneEnd(heap[..], start, maxBytesToRead, endPtr, EndOf(heap[..], start, maxBytesToRead));
  }

  lemma BeforeEnd(heap: seq<Byte>, idx: nat, limit: Limit, k: nat)
    requires idx <= k < EndOf(heap, idx, limit)
    ensures k < |heap|
  {
    assert ByteAt(heap, k) != 0;
  }

  method UTF8ArrayToString(heap: array<Byte>, start: nat, maxBytesToRead: Limit) returns (str: seq<Unit>)
    ensures str == ReadFrom(heap[..], start, EndOf(heap[..], start, maxBytesToRead))
  {
    hide EndOf, StopsAt, ReadFrom, ReadUnits;
    var stop := FindEnd(heap, start, maxBytesToRead);
    str := [];
    var idx: nat := start;
    while idx < stop
      invariant start <= idx
      invariant str + ReadFrom(heap[..], idx, stop) == ReadFrom(heap[..], start, stop)
      decreases stop as int - idx as int
    {
      BeforeEnd(heap[..], start, maxBytesToRead, idx);
      var next, units := ReadOne(heap, idx);
      ReadFromStep(heap[..], idx, stop, units, ReadLength(heap[idx]));
      str := str + units;
      idx := next;
    }
    ReadFromNothing(heap[..], idx, stop);
  }

  /** One turn of the reading loop. */
  method ReadOne(heap: array<Byte>, start: nat) returns (idx: nat, units: seq<Unit>)
    requires start < heap.Length
    ensures units == ReadUnits(heap[..], start) && idx == start + ReadLength(heap[start])
  {
    idx := start;
    var u0: nat := heap[idx];
    idx := idx + 1;
    if u0 < 128 { return idx, [u0]; }
    var u1 := (if idx < heap.Length then heap[idx] else 0) % 64;
    idx := idx + 1;
    if u0 / 32 == 6 { return idx, [Or(u0 % 32 * 64, u1, 64)]; }
    var u2 := (if idx < heap.Length then heap[idx] else 0) % 64;
    idx := idx + 1;
    if u0 / 16 == 14 {
      u0 := Three(u0, u1, u2);
    } else {
      var u3 := (if idx < heap.Length then heap[idx] else 0) % 64;
      idx := idx + 1;
      u0 := Four(u0, u1, u2, u3);
    }
    return idx, FromCharCodes(u0);
  }

  // ---------------------------------------------------------------------------------------------
  // Round trip
  // ---------------------------------------------------------------------------------------------

  /** Bytes that follow the table are read as the code point's UTF-16, whatever comes after them. */
  lemma UnitsOfTable(cp: CodePoint, b: seq<Byte>, u1: Byte, u2: Byte, u3: Byte)
    requires IsScalar(cp) && Rfc3629(cp, b)
    requires |b| > 1 ==> u1 == b[1]
    requires |b| > 2 ==> u2 == b[2]
    requires |b| > 3 ==> u3 == b[3]
    ensures UnitsOf(b[0], u1, u2, u3) == Utf16(cp) && ReadLength(b[0]) == |b|
    ensures cp != 0 ==> forall k :: 0 <= k < |b| ==> b[k] != 0
  {
  }

  lemma TableLength(cp: CodePoint, b: seq<Byte>)
    requires Rfc3629(cp, b)
    ensures 1 <= |b| <= 4
  {}

  lemma ReadUndoesEncode(cp: CodePoint, heap: seq<Byte>, idx: nat, rest: seq<Byte>)
    requires IsScalar(cp) && idx + |Encode(cp)| + |rest| <= |heap|
    requires heap[idx..idx + |Encode(cp)| + |rest|] == Encode(cp) + rest
    ensures ReadUnits(heap, idx) == Utf16(cp) && ReadLength(heap[idx]) == |Encode(cp)|
    ensures heap[idx + |Encode(cp)|..idx + |Encode(cp)| + |rest|] == rest
  {
    hide Encode, UnitsOf, Utf16, ReadLength, Rfc3629;
    var b := Encode(cp);
    var all := heap[idx..idx + |b| + |rest|];
    EncodeMeetsTable(cp);
    TableLength(cp, b);
    assert forall k :: 0 <= k < |b| ==> heap[idx + k] == all[k] == b[k];
    UnitsOfTable(cp, b, ByteAt(heap, idx + 1), ByteAt(heap, idx + 2), ByteAt(heap, idx + 3));
    assert heap[idx + |b|..idx + |b| + |rest|] == all[|b|..];
  }

  lemma {:induction false} ReadUndoesEncodeAll(cps: seq<CodePoint>, heap: seq<Byte>, idx: nat)
    requires InRange(cps) && forall k :: 0 <= k < |cps| ==> IsScalar(cps[k])
    requires idx + |EncodeAll(cps)| <= |heap| && heap[idx..idx + |EncodeAll(cps)|] == EncodeAll(cps)
    ensures ReadFrom(heap, idx, idx + |EncodeAll(cps)|) == Utf16All(cps)
  {
    hide Encode, Utf16, ReadUnits, ReadLength, IsScalar, ReadFrom;
    if cps == [] {
      assert ReadFrom(heap, idx, idx) == [] by { ReadFromNothing(heap, idx, idx); }
    } else {
      var first, rest := Encode(cps[0]), EncodeAll(cps[1..]);
      assert EncodeAll(cps) == first + rest;
      ReadUndoesEncode(cps[0], heap, idx, rest);
      ReadUndoesEncodeAll(cps[1..], heap, idx + |first|);
      ReadFromStep(heap, idx, idx + |first| + |rest|, Utf16(cps[0]), |first|);
    }
  }

  lemma {:induction false} NoZeroByte(cps: seq<CodePoint>)
    requires InRange(cps) && 0 !in cps
    ensures 0 !in EncodeAll(cps)
  {
    if cps != [] {
      NoZeroByte(cps[1..]);
      assert 0 !in Encode(cps[0]);
    }
  }

  lemma {:induction false} ScalarsOf(str: seq<Unit>)
    requires WellFormed(str) && 0 !in str
    ensures InRange(CodePoints(str))
    ensures forall k :: 0 <= k < |CodePoints(str)| ==> IsScalar(CodePoints(str)[k])
    ensures 0 !in CodePoints(str)
  {
    CodePointsInRange(str);
    if str != [] {
      if IsSurrogate(str[0]) {
        PairedRange(str[0], str[1]);
        ScalarsOf(str[2..]);
      } else {
        ScalarsOf(str[1..]);
      }
    }
  }

  lemma {:induction false} Utf16AllConcat(a: seq<CodePoint>, b: seq<CodePoint>)
    requires InRange(a) && InRange(b)
    ensures Utf16All(a + b) == Utf16All(a) + Utf16All(b)
  {
    if a == [] {
      assert a + b == b;
    } else {
      assert (a + b)[1..] == a[1..] + b;
      Utf16AllConcat(a[1..], b);
    }
  }

  /**
   Writing a well-formed string without U+0000 and reading it back gives the longest part that fits, cut
   between characters; with room for all of its bytes and the zero it gives the string.
   */
  method WriteThenRead(str: seq<Unit>, heap: array<Byte>, outIdx: nat, maxBytesToWrite: nat) returns (back: seq<Unit>)
    requires WellFormed(str) && 0 !in str
    requires maxBytesToWrite > 0 && outIdx + maxBytesToWrite <= heap.Length
    modifies heap
    ensures InRange(CodePoints(str))
    ensures back == Utf16All(CodePoints(str)[..Fitting(CodePoints(str), maxBytesToWrite - 1)])
    ensures back <= str && WellFormed(back) && CodePoints(back) <= CodePoints(str)
    ensures back == str <==> |EncodeAll(CodePoints(str))| < maxBytesToWrite
  {
    hide Encode, EncodeAll, Fitting, CodePoints, WellFormed, Utf16, Utf16All, ReadFrom;
    ScalarsOf(str);
    WellFormedIsUtf16(str);
    ghost var cps := CodePoints(str);
    ghost var k := Fitting(cps, maxBytesToWrite - 1);
    var _ := StringToUTF8Array(str, heap, outIdx, maxBytesToWrite);
    back := UTF8ArrayToString(heap, outIdx, Unlimited);
    ReadBack(cps[..k], heap[..], outIdx);
    PrefixReadsBack(str, k);
    FittingIsLongest(cps, maxBytesToWrite - 1, |cps|);
    assert cps[..|cps|] == cps;
  }

  lemma NoZeroIn(heap: seq<Byte>, idx: nat, bytes: seq<Byte>)
    requires idx + |bytes| <= |heap| && heap[idx..idx + |bytes|] == bytes && 0 !in bytes
    ensures forall k :: idx <= k < idx + |bytes| ==> ByteAt(heap, k) != 0
  {
    forall k | idx <= k < idx + |bytes| ensures ByteAt(heap, k) != 0 {
      assert heap[k] == bytes[k - idx];
    }
  }

  /** Reading stops exactly at the terminating zero. */
  lemma ReadBack(cps: seq<CodePoint>, heap: seq<Byte>, idx: nat)
    requires InRange(cps) && 0 !in cps && forall k :: 0 <= k < |cps| ==> IsScalar(cps[k])
    requires idx + |EncodeAll(cps)| < |heap|
    requires heap[idx..idx + |EncodeAll(cps)| + 1] == EncodeAll(cps) + [0]
    ensures ReadFrom(heap, idx, EndOf(heap, idx, Unlimited)) == Utf16All(cps)
  {
    hide Encode, EncodeAll, Utf16, Utf16All, ReadFrom, ReadUnits, EndOf;
    var n := |EncodeAll(cps)|;
    var all := heap[idx..idx + n + 1];
    NoZeroByte(cps);
    assert heap[idx..idx + n] == all[..n] == EncodeAll(cps);
    assert heap[idx + n] == all[n] == 0;
    assert ByteAt(heap, idx + n) == 0;
    NoZeroIn(heap, idx, EncodeAll(cps));
    OneEnd(heap, idx, Unlimited, EndOf(heap, idx, Unlimited), idx + n);
    ReadUndoesEncodeAll(cps, heap, idx);
  }

  lemma PrefixReadsBack(str: seq<Unit>, k: nat)
    requires WellFormed(str) && 0 !in str && k <= |CodePoints(str)|
    ensures InRange(CodePoints(str))
    ensures var back := Utf16All(CodePoints(str)[..k]);
      back <= str && WellFormed(back) && CodePoints(back) == CodePoints(str)[..k] && (back == str <==> k == |CodePoints(str)|)
  {
    hide Encode, CodePoints, WellFormed, Utf16, Utf16All;
    ScalarsOf(str);
    WellFormedIsUtf16(str);
    var cps := CodePoints(str);
    Utf16AllConcat(cps[..k], cps[k..]);
    assert cps == cps[..k] + cps[k..];
    Utf16IsWellFormed(cps[..k]);
    assert cps[..|cps|] == cps;
  }
}
