/**
  The object counter `NucleicAcid::num_objects`, a std::atomic<std::uint32_t>
  that each construction reads and increments. Here it is an explicit counter
  object handed to the constructors; like the uint32 it wraps at 2^32.
*/
module Ids {

  const IdSpace: nat := 0x1_0000_0000

  class IdCounter {
    var next: nat

    ghost predicate Valid()
      reads this
    {
      next < IdSpace
    }

    constructor (start: nat)
      requires start < IdSpace
      ensures Valid() && next == start
    {
      next := start;
    }

    /** `num_objects++`: hands out the value before the increment. */
    method Take() returns (id: nat)
      requires Valid()
      modifies this
      ensures Valid()
      ensures id == old(next) && next == (old(next) + 1) % IdSpace
    {
      id := next;
      next := (next + 1) % IdSpace;
    }
  }

  /** The ids that k consecutive constructions take from a counter standing at `start`. */
  function Issued(start: nat, k: nat): (ids: seq<nat>)
    ensures |ids| == k
  {
    seq(k, t requires 0 <= t < k => (start + t) % IdSpace)
  }

  /**
    k constructions in a row, each taking one id: they take Issued(start, k),
    which are pairwise distinct while k is at most 2^32.
  */
  method TakeMany(ids: IdCounter, k: nat) returns (got: seq<nat>)
    requires ids.Valid()
    modifies ids
    ensures ids.Valid() && ids.next == (old(ids.next) + k) % IdSpace
    ensures got == Issued(old(ids.next), k)
    ensures k <= IdSpace ==> forall a, b :: 0 <= a < b < k ==> got[a] != got[b]
  {
    ghost var start := ids.next;
    got := [];
    var t := 0;
    while t < k
      invariant 0 <= t <= k && ids.Valid()
      invariant got == Issued(start, t)
      invariant ids.next == (start + t) % IdSpace
    {
      var id := ids.Take();
      IssuedSnoc(start, t);
      WrapStep(start + t);
      got := got + [id];
      t := t + 1;
    }
    if k <= IdSpace {
      IssuedDistinct(start, k);
    }
  }

  /** One more construction takes the next value. */
  lemma IssuedSnoc(start: nat, t: nat)
    ensures Issued(start, t + 1) == Issued(start, t) + [(start + t) % IdSpace]
  {
  }

  /** Incrementing the wrapped counter wraps the incremented count. */
  lemma WrapStep(x: nat)
    ensures (x % IdSpace + 1) % IdSpace == (x + 1) % IdSpace
  {
  }

  /** Fewer than 2^32 + 1 consecutive constructions never hand out the same id twice. */
  lemma IssuedDistinct(start: nat, k: nat)
    requires k <= IdSpace
    ensures forall a, b :: 0 <= a < b < k ==> Issued(start, k)[a] != Issued(start, k)[b]
  {

  }
}
