/**
 Ids, the indexes they leave behind and the laps of the buffer they lie on: the arithmetic by
 which a slot known by its index finds its id again.
 */
module Laps {
  import opened Wrappers
  import U32

  /** The id an index stands for on the lap of `x`. */
  function OnLap(x: nat, index: nat, size: nat): nat
    requires size > 0
  {
    index + (x / size) * size
  }

  ghost predicate SameLap(a: nat, b: nat, size: nat)
    requires size > 0
  {
    a / size == b / size
  }

  /**
   The next id to try when the exchange for `slotId` failed: that of the same index on the lap of
   the reloaded counter, if that is a later one.
   */
  function Adjusted(index: nat, slotId: nat, reloaded: nat, size: nat): Option<nat>
    requires size > 0
  {
    if reloaded / size > slotId / size then Some(OnLap(reloaded, index, size)) else None
  }

  /** From the first guess, which is the index itself, it is reached by at most one adjustment. */
  lemma AdjustedOnce(index: nat, slotId: nat, reloaded: nat, size: nat)
    requires index < size
    requires slotId == index || SameLap(slotId, reloaded, size)
    ensures Adjusted(index, slotId, reloaded, size).Some? ==>
              slotId == index && Adjusted(index, slotId, reloaded, size).value != index
    ensures Adjusted(index, slotId, reloaded, size).None? && slotId == index ==> OnLap(reloaded, index, size) == index
  {
    OnTheLapOf(reloaded, index, size);
  }

  /** One lap is the largest distance between ids in use, so within it an index determines its id. */
  lemma IndexDeterminesId(id: nat, other: nat, size: nat)
    requires size > 0 && 0 - size < id - other < size
    ensures id % size == other % size <==> id == other
  {
    if id < other { U32.IndexInjective(id, other, size); }
    if other < id { U32.IndexInjective(other, id, size); }
  }

  /** `index + (x / size) * size` lies on the lap of `x`, and is `x` exactly when the index is that of `x`. */
  lemma OnTheLapOf(x: nat, index: nat, size: nat)
    requires index < size
    ensures var id := OnLap(x, index, size);
      id / size == x / size && id % size == index && (id == x <==> x % size == index)
    ensures index / size == 0 && (x / size == 0 ==> OnLap(x, index, size) == index)
  {
    var id := OnLap(x, index, size);
    U32.RemainderIs(index, size, 0, index);
    assert id == size * (x / size) + index;
    U32.RemainderIs(id, size, x / size, index);
    assert x == size * (x / size) + x % size;
  }

  /** It always fits a `u32`. */
  lemma LapFitsU32(x: nat, index: nat, size: nat)
    requires U32.PowerOfTwo(size) && x < 0x1_0000_0000 && index < size <= 0x1_0000_0000
    ensures OnLap(x, index, size) < 0x1_0000_0000
  {
    var q := U32.DividesModulus(size);
    LapBound(x, index, size, q, 0x1_0000_0000);
  }

  lemma LapBound(x: nat, index: nat, size: nat, laps: nat, end: nat)
    requires index < size && x < end && size * laps == end
    ensures OnLap(x, index, size) < end
  {
    var lap := x / size;
    assert x == size * lap + x % size;
    assert size * (laps - lap) == size * laps - size * lap;
    U32.MultipleBound(size, laps - lap);
    assert lap * size == size * lap;
  }

  /** The compare-exchange expects `slotId + behind`, so it succeeds exactly at the counter's neighbour. */
  lemma ExchangeMatches(counter: nat, behind: nat, slotId: nat)
    requires counter < 0x1_0000_0000 && slotId < 0x1_0000_0000 && behind <= 1
    ensures counter == U32.Wrap(slotId + behind) <==> slotId == U32.Wrap(counter - behind)
  {
  }

  lemma OwnIndex(index: nat, size: nat)
    requires index < size
    ensures index % size == index
  {
    U32.RemainderIs(index, size, 0, index);
  }

  /**
   The id that `index` stands for on the lap of `x` fits a `u32`, and is `x` exactly when the
   index is that of `x`.
   */
  lemma LapOf(x: nat, index: nat, size: nat) returns (lap: nat)
    requires U32.PowerOfTwo(size) && x < 0x1_0000_0000 && index < size <= 0x1_0000_0000
    ensures lap == OnLap(x, index, size) < 0x1_0000_0000 && SameLap(lap, x, size) && lap % size == index
    ensures lap == x <==> x % size == index
    ensures index == x ==> x % size == index
  {
    lap := OnLap(x, index, size);
    OnTheLapOf(x, index, size);
    LapFitsU32(x, index, size);
    OwnIndex(index, size);
  }

  /** An adjusted id fits a `u32` and has the index it was adjusted for. */
  lemma AdjustedIndex(index: nat, slotId: nat, reloaded: nat, size: nat)
    requires U32.PowerOfTwo(size) && reloaded < 0x1_0000_0000 && index < size <= 0x1_0000_0000
    ensures var id := Adjusted(index, slotId, reloaded, size);
      id.Some? ==> id.value < 0x1_0000_0000 && id.value % size == index
  {
    var lap := LapOf(reloaded, index, size);
  }
}
