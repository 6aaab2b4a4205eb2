/**
  The 2-bit packer shared by both NucleicAcid variants: code k of a sequence
  lives in word k / 32, at bits [2 (k mod 32), 2 (k mod 32) + 2).
  Words are naturals; a 64-bit word is one below Pow4(32).
  Setting a field with `block |= c << 2r` into a field that is still zero is
  the same as adding c * 4^r, which is how the packer is written here.
*/
module Packing {

  function Min(a: int, b: int): int { if a <= b then a else b }

  /** ceil(n / d) */
  function CeilDiv(n: nat, d: nat): nat
    requires d > 0
  {
    (n + d - 1) / d
  }

  /** A sequence that agrees with `whole` from offset i on is that slice of `whole`. */
  lemma SliceAt<T>(part: seq<T>, whole: seq<T>, i: nat)
    requires i + |part| <= |whole|
    requires forall k :: 0 <= k < |part| ==> part[k] == whole[i + k]
    ensures part == whole[i .. i + |part|]
  {
  }

  /** Slicing after dropping d elements is slicing the whole d further on. */
  lemma DropSlice<T>(s: seq<T>, d: nat, lo: nat, hi: nat)
    requires d <= |s| && lo <= hi <= |s| - d
    ensures s[d..][lo .. hi] == s[d + lo .. d + hi]
  {
    var a, b := s[d..][lo .. hi], s[d + lo .. d + hi];
    forall k | 0 <= k < |a|
      ensures a[k] == b[k]
    {
      assert a[k] == s[d + lo + k];
    }
  }

  /** The prefix of length k + 1 is the prefix of length k and then element k. */
  lemma TakeSnoc<T>(s: seq<T>, k: nat)
    requires k < |s|
    ensures s[..k + 1] == s[..k] + [s[k]]
  {
  }

  function Pow4(k: nat): (r: nat)
    ensures r > 0
  {
    if k == 0 then 1 else 4 * Pow4(k - 1)
  }

  /** `c << 2r`: code c moved to field r. */
  function Place(c: nat, r: nat): nat
  {
    c * Pow4(r)
  }

  /** A sequence of 2-bit codes. */
  predicate AreCodes(cs: seq<nat>)
  {
    forall k :: 0 <= k < |cs| ==> cs[k] < 4
  }

  /** The little-endian base-4 number whose digit k is cs[k]. */
  function WordOf(cs: seq<nat>): nat
  {
    if cs == [] then 0 else cs[0] + 4 * WordOf(cs[1..])
  }

  /** `(w >> 2k) & 3`: shift right by k two-bit fields, keep the low field. */
  function Field(w: nat, k: nat): (r: nat)
    ensures r < 4
  {
    if k == 0 then w % 4 else Field(w / 4, k - 1)
  }

  /** The packed buffer: one word per run of 32 codes, the last one possibly partial. */
  function Pack(cs: seq<nat>): seq<nat>
    decreases |cs|
  {
    if |cs| <= 32 then (if cs == [] then [] else [WordOf(cs)])
    else [WordOf(cs[..32])] + Pack(cs[32..])
  }

  lemma {:induction false} WordOfSnoc(cs: seq<nat>, c: nat)
    ensures WordOf(cs + [c]) == WordOf(cs) + Place(c, |cs|)
  {
    if cs == [] {
      assert [c][1..] == [];
    } else {
      var t := cs[1..];
      assert (cs + [c])[1..] == t + [c];
      WordOfSnoc(t, c);
      PlaceNext(c, |t|);
      assert WordOf(cs + [c]) == cs[0] + 4 * WordOf(t + [c]);
    }
  }

  /** Moving a code up one field multiplies it by 4. */
  lemma PlaceNext(c: nat, r: nat)
    ensures Place(c, r + 1) == 4 * Place(c, r)
  {
  }

  /** Every code reads back from its field, and the bits above the last code are zero. */
  lemma {:induction false} WordOfFields(cs: seq<nat>)
    requires AreCodes(cs)
    ensures WordOf(cs) < Pow4(|cs|)
    ensures forall k :: 0 <= k < |cs| ==> Field(WordOf(cs), k) == cs[k]
  {
    if cs != [] {
      var rest := cs[1..];
      WordOfFields(rest);
      var w := WordOf(cs);
      assert w == cs[0] + 4 * WordOf(rest);
      assert w / 4 == WordOf(rest);
      forall k | 0 <= k < |cs|
        ensures Field(w, k) == cs[k]
      {
        if k > 0 {
          assert Field(w, k) == Field(WordOf(rest), k - 1);
          assert rest[k - 1] == cs[k];
        }
      }
    }
  }

  /** Construction yields ceil(n/32) words. */
  lemma {:induction false} PackLength(cs: seq<nat>)
    ensures |Pack(cs)| == CeilDiv(|cs|, 32)
    decreases |cs|
  {
    if |cs| > 32 {
      PackLength(cs[32..]);
    }
  }

  /**
    Code k of the input sits in field k mod 32 of word k / 32, and every word
    holds no bits above its last code (so each fits 64 bits and the unused
    high bits of the last word are zero).
  */
  lemma PackFields(cs: seq<nat>)
    requires AreCodes(cs)
    ensures |Pack(cs)| == CeilDiv(|cs|, 32)
    ensures forall k :: 0 <= k < |cs| ==> Field(Pack(cs)[k / 32], k % 32) == cs[k]
    ensures forall w :: 0 <= w < |Pack(cs)| ==>
              Pack(cs)[w] < Pow4(Min(32, |cs| - 32 * w))
  {
    PackReads(cs);
    PackBounds(cs);
  }

  /** The codes word w holds: positions 32w up to the next multiple of 32 or the end. */
  function WordSlice(cs: seq<nat>, w: nat): seq<nat>
    requires w < CeilDiv(|cs|, 32)
  {
    cs[32 * w .. Min(32 * w + 32, |cs|)]
  }

  lemma {:induction false} PackWord(cs: seq<nat>, w: nat)
    requires w < CeilDiv(|cs|, 32)
    ensures |Pack(cs)| == CeilDiv(|cs|, 32) && Pack(cs)[w] == WordOf(WordSlice(cs, w))
    decreases |cs|
  {
    PackLength(cs);
    if |cs| <= 32 {
      assert WordSlice(cs, w) == cs;
    } else if w > 0 {
      var tail := cs[32..];
      PackWord(tail, w - 1);
      var lo, hi := 32 * (w - 1), Min(32 * (w - 1) + 32, |tail|);
      assert WordSlice(tail, w - 1) == tail[lo .. hi];
      DropSlice(cs, 32, lo, hi);
      assert WordSlice(cs, w) == cs[32 + lo .. 32 + hi];
    }
  }

  lemma PackReadAt(cs: seq<nat>, k: nat)
    requires AreCodes(cs) && k < |cs|
    ensures |Pack(cs)| == CeilDiv(|cs|, 32) && Field(Pack(cs)[k / 32], k % 32) == cs[k]
  {
    var w := k / 32;
    PackWord(cs, w);
    var s := WordSlice(cs, w);
    WordOfFields(s);
    assert s[k % 32] == cs[k];
  }

  lemma PackBoundAt(cs: seq<nat>, w: nat)
    requires AreCodes(cs) && w < CeilDiv(|cs|, 32)
    ensures |Pack(cs)| == CeilDiv(|cs|, 32) && Pack(cs)[w] < Pow4(Min(32, |cs| - 32 * w))
  {
    PackWord(cs, w);
    var s := WordSlice(cs, w);
    assert |s| == Min(32, |cs| - 32 * w);
    WordOfFields(s);
  }

  lemma PackReads(cs: seq<nat>)
    requires AreCodes(cs)
    ensures |Pack(cs)| == CeilDiv(|cs|, 32)
    ensures forall k :: 0 <= k < |cs| ==> Field(Pack(cs)[k / 32], k % 32) == cs[k]
  {
    PackLength(cs);
    forall k | 0 <= k < |cs|
      ensures Field(Pack(cs)[k / 32], k % 32) == cs[k]
    {
      PackReadAt(cs, k);
    }
  }

  lemma PackBounds(cs: seq<nat>)
    requires AreCodes(cs)
    ensures |Pack(cs)| == CeilDiv(|cs|, 32)
    ensures forall w :: 0 <= w < |Pack(cs)| ==>
              Pack(cs)[w] < Pow4(Min(32, |cs| - 32 * w))
  {
    PackLength(cs);
    forall w | 0 <= w < |Pack(cs)|
      ensures Pack(cs)[w] < Pow4(Min(32, |cs| - 32 * w))
    {
      PackBoundAt(cs, w);
    }
  }

  /** Concatenating at a word boundary concatenates the packed buffers. */
  lemma {:induction false} PackAppend(a: seq<nat>, b: seq<nat>)
    requires |a| % 32 == 0
    ensures Pack(a + b) == Pack(a) + Pack(b)
    decreases |a|
  {
    if a == [] {
      assert a + b == b;
    } else if b == [] {
      assert a + b == a;
    } else {
      assert |a| >= 32;
      var ab := a + b;
      assert ab[..32] == a[..32];
      assert ab[32..] == a[32..] + b;
      assert |a[32..]| % 32 == 0 by { assert |a[32..]| == |a| - 32; }
      PackAppend(a[32..], b);
      if |a| == 32 {
        assert a[32..] == [];
        assert Pack(a) == [WordOf(a)];
        assert a[..32] == a;
      } else {
        assert Pack(a) == [WordOf(a[..32])] + Pack(a[32..]);
      }
    }
  }

  /**
    The packer's loop state: `words` packs the completed words `full`, and the
    accumulator `block` holds the codes `part` of the word being filled.
  */
  ghost predicate Packed(words: seq<nat>, block: nat, full: seq<nat>, part: seq<nat>)
  {
    |full| % 32 == 0 && |part| < 32 && words == Pack(full) && block == WordOf(part)
  }

  /** Position i = |full| + |part| is field |part| of its word: `(i << 1) & 63 == 2 |part|`. */
  lemma FieldOffset(i: nat, full: seq<nat>, part: seq<nat>)
    requires |full| % 32 == 0 && |part| < 32 && i == |full| + |part|
    ensures i % 32 == |part|
    ensures (i + 1) % 32 == 0 <==> |part| + 1 == 32
  {
    var q := |full| / 32;
    assert |full| == 32 * q;
    assert i == 32 * q + |part|;
  }

  /**
    One step of the packer, `block |= c << ((i << 1) & 63)`: the accumulator
    takes the code; once it holds 32 codes, or at the end of the input, it is
    flushed and the words then pack everything read so far.
  */
  lemma PackStep(words: seq<nat>, block: nat, full: seq<nat>, part: seq<nat>, c: nat)
    requires Packed(words, block, full, part)
    ensures var b := block + Place(c, |part|);
            WordOf(part + [c]) == b &&
            words + [b] == Pack(full + (part + [c])) &&
            (|part| + 1 < 32 ==> Packed(words, b, full, part + [c])) &&
            (|part| + 1 == 32 ==> Packed(words + [b], 0, full + (part + [c]), []))
  {
    WordOfSnoc(part, c);
    var part' := part + [c];
    PackAppend(full, part');
    assert Pack(part') == [WordOf(part')];
    if |part'| == 32 {
      assert |full + part'| == |full| + 32;
      assert WordOf([]) == 0;
    }
  }

  /**
    One iteration of a packing loop at position i = |full| + |part|: code c
    goes into field i mod 32 of the accumulator, which is flushed when its word
    is full or the input ends (`last`).
  */
  lemma PackIteration(words: seq<nat>, block: nat, full: seq<nat>, part: seq<nat>, c: nat, i: nat,
                      next: nat, flush: bool, last: bool)
    requires Packed(words, block, full, part) && i == |full| + |part|
    requires next == block + Place(c, i % 32) && flush == ((i + 1) % 32 == 0 || last)
    ensures flush ==> words + [next] == Pack(full + part + [c])
    ensures flush && !last ==> Packed(words + [next], 0, full + part + [c], [])
    ensures !flush ==> Packed(words, next, full, part + [c])
  {
    FieldOffset(i, full, part);
    PackStep(words, block, full, part, c);
    assert full + part + [c] == full + (part + [c]);
  }

}
