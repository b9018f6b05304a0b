/**
 Address ranges of trace events (src/BugReports.hpp:24-54, src/BugReports.cpp:23-83), in 64-bit
 unsigned arithmetic that wraps around as it does there.
 */
module Addresses {
  import P = Persistence

  const TWO_TO_THE_64: int := 0x1_0000_0000_0000_0000

  type u64 = x: int | 0 <= x < TWO_TO_THE_64

  function Wrap(x: int): u64 {
    x % TWO_TO_THE_64
  }

  const CACHE_LINE: u64 := 64

  /** A range of `length` bytes; both `address` and `End()` belong to it. */
  datatype AddressInfo = AddressInfo(address: u64, length: u64) {

    function End(): u64 {
      Wrap(address + length - 1)
    }

    predicate IsSingleCacheLine() {
      address / CACHE_LINE == End() / CACHE_LINE
    }

    predicate Overlaps(other: AddressInfo) {
      address <= other.End() && other.address <= End()
    }

    predicate Contains(other: AddressInfo) {
      address <= other.address && other.End() <= End()
    }

    predicate CanAdd(other: AddressInfo) {
      if length == 0 then true
      else if other.address < address then Wrap(other.End() + 1) >= address
      else Wrap(End() + 1) >= other.address
    }

    /** The ranges of a bug report: not empty, and not reaching the end of the address space. */
    predicate Valid() {
      0 < length && address + length < TWO_TO_THE_64
    }

    /** The range has bytes, and lies within the address space. */
    predicate Fits() {
      0 < length && address + length <= TWO_TO_THE_64
    }

    /** The meaning of a range: the bytes in it. */
    predicate Has(b: int) {
      address <= b < address + length
    }
  }

  const NO_BYTES := AddressInfo(0, 0)

  lemma WrapExact(x: int)
    requires 0 <= x < TWO_TO_THE_64
    ensures Wrap(x) == x
  {
  }

  lemma EndExact(r: AddressInfo)
    requires r.Valid()
    ensures r.End() == r.address + r.length - 1
    ensures Wrap(r.End() + 1) == r.address + r.length
  {
    WrapExact(r.address + r.length - 1);
    WrapExact(r.address + r.length);
  }

  // ----- What the interval tests mean, byte by byte ------------------------------------------

  lemma OverlapsIff(r: AddressInfo, s: AddressInfo)
    requires r.Fits() && s.Fits()
    ensures r.Overlaps(s) <==> exists b :: r.Has(b) && s.Has(b)
  {
    if r.Overlaps(s) {
      var b := if r.address <= s.address then s.address else r.address;
      assert r.Has(b) && s.Has(b);
    }
  }

  lemma ContainsIff(r: AddressInfo, s: AddressInfo)
    requires r.Fits() && s.Fits()
    ensures r.Contains(s) <==> forall b :: s.Has(b) ==> r.Has(b)
  {
    if forall b :: s.Has(b) ==> r.Has(b) {
      assert s.Has(s.address) && s.Has(s.End());
      assert r.Has(s.address) && r.Has(s.End());
    }
  }

  /** No byte lies between the ranges. */
  ghost predicate Touch(r: AddressInfo, s: AddressInfo) {
    exists b, c :: r.Has(b) && s.Has(c) && b - 1 <= c <= b + 1
  }

  /** Two ranges can be merged exactly when they overlap or touch and the lower one does not reach the end of the
      address space, where its `end() + 1` is 0. */
  lemma CanAddIff(r: AddressInfo, s: AddressInfo)
    requires r.Fits() && s.Fits()
    ensures var lower := if s.address < r.address then s else r;
            r.CanAdd(s) <==> Touch(r, s) && lower.address + lower.length < TWO_TO_THE_64
  {
    var rEnd, sEnd := r.address + r.length, s.address + s.length;
    assert Touch(r, s) <==> s.address <= rEnd && r.address <= sEnd by {
      var b := if s.address < r.address then r.address
               else if s.address < rEnd then s.address else rEnd - 1;
      var c := if s.address < r.address then (if r.address < sEnd then r.address else sEnd - 1)
               else s.address;
      if s.address <= rEnd && r.address <= sEnd {
        assert r.Has(b) && s.Has(c) && b - 1 <= c <= b + 1;
      }
    }
    EndWraps(r);
    EndWraps(s);
  }

  lemma EndWraps(r: AddressInfo)
    requires r.Fits()
    ensures r.End() == r.address + r.length - 1
    ensures Wrap(r.End() + 1) == if r.address + r.length == TWO_TO_THE_64 then 0 else r.address + r.length
  {
    WrapExact(r.address + r.length - 1);
  }

  /** At the top of the address space even an overlap is missed. */
  lemma CanAddFailsAtTop()
    ensures var r := AddressInfo(0xffff_ffff_ffff_fff8, 8);
            var s := AddressInfo(0xffff_ffff_ffff_fff4, 8);
            r.Overlaps(s) && s.CanAdd(r) && !r.CanAdd(AddressInfo(0xffff_ffff_ffff_fffc, 4))
  {
  }

  // ----- Cache lines --------------------------------------------------------------------------

  /** A range is within one cache line exactly if the machine writes all of its bytes back together. */
  lemma SingleCacheLineIff(r: AddressInfo)
    requires r.Fits()
    ensures r.IsSingleCacheLine() <==> forall b: nat, c: nat | r.Has(b) && r.Has(c) :: P.Line(b) == P.Line(c)
  {
    WrapExact(r.address + r.length - 1);
    var last := r.address + r.length - 1;
    assert r.Has(r.address) && r.Has(last);
    if r.IsSingleCacheLine() {
      forall b: nat, c: nat | r.Has(b) && r.Has(c) ensures P.Line(b) == P.Line(c) {
      }
    }
  }

  // ----- Accumulating a range ------------------------------------------------------------------

  /** The running range of the backward scan: an `AddressInfo` that `operator+=` updates. */
  class Accumulator {
    var address: u64
    var length: u64

    constructor ()
      ensures Value() == NO_BYTES
    {
      address, length := 0, 0;
    }

    function Value(): AddressInfo
      reads this
    {
      AddressInfo(address, length)
    }

    /** Afterwards the range holds the bytes of both and no others: merging loses nothing and
        bridges no gap. */
    method Add(other: AddressInfo)
      requires other.Valid()
      requires Value() == NO_BYTES || (Value().Valid() && Value().CanAdd(other))
      modifies this
      ensures Value().Valid()
      ensures forall b :: Value().Has(b) <==> old(Value()).Has(b) || other.Has(b)
    {
      if length == 0 {
        address, length := other.address, other.length;
        return;
      }
      EndExact(Value());
      EndExact(other);
      var newAddress := if other.address < address then other.address else address;
      var end := if other.End() < Value().End() then Value().End() else other.End();
      WrapExact(end + 1);
      WrapExact(end + 1 - newAddress);
      var newLength := Wrap(Wrap(end + 1) - newAddress);
      address, length := newAddress, newLength;
    }
  }
}
