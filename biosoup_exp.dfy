/**
  biosoup::exp::NucleicAcid: the same packed bases, accessors and orientation
  flag as biosoup::NucleicAcid, with the quality string replaced by the block
  quantizer's 2-bit codes `deflated_quality` and level words `qlvl`.
*/
module BiosoupExp {
  import opened Wrappers
  import opened Packing
  import opened Alphabet
  import opened Nucleotides
  import opened Ids
  import opened Quantizer

  /** `v & 127`: the low seven bits, which leave a level (always below 128) unchanged. */
  function Low7(v: nat): (r: nat)
    ensures r < 128 && (v < 128 ==> r == v)
  {
    v % 128
  }

  /** The quantizer's buffers for n scores: ceil(n/32) code words and ceil(n/128) level words. */
  predicate QualitySized(codes: seq<nat>, levels: seq<nat>, n: nat)
  {
    |codes| == CeilDiv(n, 32) && |levels| == CeilDiv(n, 128)
  }

  /**
    The score stored for physical position p: byte `code` (from the low end)
    of its block's level word, masked with 127, where `code` is the 2-bit
    field of p.
  */
  function StoredScore(codes: seq<nat>, levels: seq<nat>, n: nat, p: nat): (s: nat)
    requires QualitySized(codes, levels, n) && p < n
    ensures s < 128
  {
    WordIndex(p, n);
    Low7(Byte(levels[p / 128], Field(codes[p / 32], p % 32)))
  }

  /** What `InflateQuality(i, len)` returns over stored buffers: "" past the end, else `Score(k) + '!'` over the clamped range. */
  function QualityOf(codes: seq<nat>, levels: seq<nat>, n: nat, rc: bool, i: nat, len: nat): (s: string)
    requires QualitySized(codes, levels, n)
    ensures |s| == if i >= n then 0 else Min(len, n - i)
  {
    if i >= n then ""
    else seq(Min(len, n - i), k requires 0 <= k < Min(len, n - i) =>
               (StoredScore(codes, levels, n, Physical(n, rc, i + k)) + 33) as char)
  }

  lemma QualityOfAt(codes: seq<nat>, levels: seq<nat>, n: nat, rc: bool, i: nat, len: nat, k: nat)
    requires QualitySized(codes, levels, n) && i < n && k < Min(len, n - i)
    ensures QualityOf(codes, levels, n, rc, i, len)[k] == (StoredScore(codes, levels, n, Physical(n, rc, i + k)) + 33) as char
  {
  }

  lemma QualityOfShift(codes: seq<nat>, levels: seq<nat>, n: nat, rc: bool, i: nat, len: nat, k: nat)
    requires QualitySized(codes, levels, n) && i < n && k < Min(len, n - i)
    ensures QualityOf(codes, levels, n, rc, i, len)[k] == QualityOf(codes, levels, n, rc, 0, n)[i + k]
  {
    var e := (StoredScore(codes, levels, n, Physical(n, rc, i + k)) + 33) as char;
    QualityOfAt(codes, levels, n, rc, i, len, k);
    QualityOfAt(codes, levels, n, rc, 0, n, i + k);
    assert QualityOf(codes, levels, n, rc, i, len)[k] == e;
    assert QualityOf(codes, levels, n, rc, 0, n)[0 + (i + k)] == e;
  }

  /** On the quantizer's output, the stored score of position p is its reconstructed score. */
  lemma StoredScoreReconstructs(q: string, codes: seq<nat>, levels: seq<nat>, p: nat)
    requires IsPhredAscii(q) && p < |q| && codes == Pack(QuantCodes(q)) && levels == LevelWords(q)
    ensures QualitySized(codes, levels, |q|)
    ensures StoredScore(codes, levels, |q|, p) == Reconstructed(q, p)
  {
    PackLength(QuantCodes(q));
    DecodeScore(q, p);
  }

  /** In a quality string of one repeated character every stored score reads back as that character. */
  lemma ConstantStoredScore(q: string, codes: seq<nat>, levels: seq<nat>, n: nat, p: nat)
    requires IsPhredAscii(q) && n == |q| && p < n && codes == Pack(QuantCodes(q)) && levels == LevelWords(q)
    requires forall t :: 0 <= t < |q| ==> q[t] == q[0]
    ensures QualitySized(codes, levels, n) && (StoredScore(codes, levels, n, p) + 33) as char == q[0]
  {
    StoredScoreReconstructs(q, codes, levels, p);
    ConstantReconstructed(q, p);
    assert Scores(q)[p] == q[p] as int - 33;
  }

  lemma ConstantQualityOf(q: string, codes: seq<nat>, levels: seq<nat>, n: nat, rc: bool, k: nat)
    requires IsPhredAscii(q) && n == |q| && k < n && codes == Pack(QuantCodes(q)) && levels == LevelWords(q)
    requires forall t :: 0 <= t < |q| ==> q[t] == q[0]
    ensures QualitySized(codes, levels, n) && QualityOf(codes, levels, n, rc, 0, n)[k] == q[k]
  {
    var p := Physical(n, rc, k);
    assert QualitySized(codes, levels, n) && (StoredScore(codes, levels, n, p) + 33) as char == q[k] by {
      ConstantStoredScore(q, codes, levels, n, p);
      assert q[k] == q[0];
    }
    QualityOfChar(codes, levels, n, rc, k, q[k]);
  }

  lemma QualityOfChar(codes: seq<nat>, levels: seq<nat>, n: nat, rc: bool, k: nat, c: char)
    requires QualitySized(codes, levels, n) && k < n
    requires (StoredScore(codes, levels, n, Physical(n, rc, k)) + 33) as char == c
    ensures QualityOf(codes, levels, n, rc, 0, n)[k] == c
  {
    QualityOfAt(codes, levels, n, rc, 0, n, k);
    assert Physical(n, rc, 0 + k) == Physical(n, rc, k);
  }

  class NucleicAcid {
    const id: nat
    const name: string
    const deflatedData: seq<nat>
    const deflatedQuality: seq<nat>
    const qlvl: seq<nat>
    const inflatedLen: nat
    var isReverseComplement: bool

    /** Buffer sizes: ceil(n/32) base words; no quality, or ceil(n/32) code words and ceil(n/128) level words. */
    predicate Valid()
      reads this
    {
      Holds(deflatedData, inflatedLen) &&
      (deflatedQuality == [] || QualitySized(deflatedQuality, qlvl, inflatedLen))
    }

    /** The record was built from the bases `data` (the exp table agrees with the plain one: CoderTablesAgree). */
    predicate Encodes(data: string)
      reads this
      requires IsAscii(data)
    {
      AllNucleotides(data) && inflatedLen == |data| && deflatedData == Pack(Codes(data))
    }

    /** The record's quality buffers were built from the quality string `q`. */
    predicate EncodesQuality(q: string)
      reads this
    {
      IsPhredAscii(q) && |q| == inflatedLen &&
      deflatedQuality == Pack(QuantCodes(q)) && qlvl == LevelWords(q)
    }

    /** The member initialisers: every field as given, forward orientation. */
    constructor Init(id: nat, name: string, words: seq<nat>, n: nat, codes: seq<nat>, levels: seq<nat>)
      ensures this.id == id && this.name == name && deflatedData == words && inflatedLen == n
      ensures deflatedQuality == codes && qlvl == levels && !isReverseComplement
    {
      this.id := id;
      this.name := name;
      deflatedData := words;
      inflatedLen := n;
      deflatedQuality := codes;
      qlvl := levels;
      isReverseComplement := false;
    }

    /** The defaulted copy constructor: an independent record with equal fields. */
    constructor Copy(other: NucleicAcid)
      ensures id == other.id && name == other.name && deflatedData == other.deflatedData
      ensures deflatedQuality == other.deflatedQuality && qlvl == other.qlvl
      ensures inflatedLen == other.inflatedLen && isReverseComplement == other.isReverseComplement
    {
      id := other.id;
      name := other.name;
      deflatedData := other.deflatedData;
      deflatedQuality := other.deflatedQuality;
      qlvl := other.qlvl;
      inflatedLen := other.inflatedLen;
      isReverseComplement := other.isReverseComplement;
    }

    /** NucleicAcid(name, data): takes the next id, then packs the bases, throwing on a non-nucleotide. */
    static method Create(ids: IdCounter, name: string, data: string) returns (r: Result<NucleicAcid, Error>)
      requires ids.Valid() && IsAscii(data)
      modifies ids
      ensures ids.Valid() && ids.next == (old(ids.next) + 1) % IdSpace
      ensures r.Success? <==> AllNucleotides(data)
      ensures r.Success? ==>
                fresh(r.value) && r.value.Valid() && r.value.Encodes(data) &&
                r.value.id == old(ids.next) && r.value.name == name &&
                r.value.deflatedQuality == [] && r.value.qlvl == [] && !r.value.isReverseComplement
    {
      var id := ids.Take();
      var packed := Deflate(data);
      if packed.Failure? {
        return Failure(packed.error);
      }
      PackLength(Codes(data));
      var acid := new NucleicAcid.Init(id, name, packed.value, |data|, [], []);
      return Success(acid);
    }

    /** NucleicAcid(name, data, quality): as above, then the block quantizer over the quality. */
    static method CreateWithQuality(ids: IdCounter, name: string, data: string, q: string)
      returns (r: Result<NucleicAcid, Error>)
      requires ids.Valid() && IsAscii(data) && IsPhredAscii(q) && |q| == |data|
      modifies ids
      ensures ids.Valid() && ids.next == (old(ids.next) + 1) % IdSpace
      ensures r.Success? <==> AllNucleotides(data)
      ensures r.Success? ==>
                fresh(r.value) && r.value.Valid() && r.value.Encodes(data) && r.value.EncodesQuality(q) &&
                r.value.id == old(ids.next) && r.value.name == name && !r.value.isReverseComplement
    {
      var id := ids.Take();
      var packed := Deflate(data);
      if packed.Failure? {
        return Failure(packed.error);
      }
      PackLength(Codes(data));
      var codes, levels := DeflateQuality(q);
      PackLength(QuantCodes(q));
      var acid := new NucleicAcid.Init(id, name, packed.value, |data|, codes, levels);
      return Success(acid);
    }

    /** `Code(i)`, as in the plain header. */
    function Code(i: nat): Alphabet.Code
      reads this
      requires Valid() && i < inflatedLen
    {
      CodeAt(deflatedData, inflatedLen, isReverseComplement, i)
    }

    /** `Score(i)`: the stored score of position i, counted from the end under the flag and never complemented. */
    function Score(i: nat): (s: nat)
      reads this
      requires Valid() && deflatedQuality != [] && i < inflatedLen
      ensures s < 128
    {
      StoredScore(deflatedQuality, qlvl, inflatedLen, Physical(inflatedLen, isReverseComplement, i))
    }

    /** What `InflateQuality(i, len)` returns: "" without quality, else QualityOf the stored buffers. */
    function QualityView(i: nat, len: nat): (s: string)
      reads this
      requires Valid()
      ensures |s| == if deflatedQuality == [] || i >= inflatedLen then 0 else Min(len, inflatedLen - i)
    {
      if deflatedQuality == [] then ""
      else QualityOf(deflatedQuality, qlvl, inflatedLen, isReverseComplement, i, len)
    }

    method InflateData(i: nat, len: nat) returns (dst: string)
      requires Valid()
      ensures dst == DataView(deflatedData, inflatedLen, isReverseComplement, i, len)
    {
      dst := Inflate(deflatedData, inflatedLen, isReverseComplement, i, len);
    }

    /** The `InflateQuality` loop. */
    method InflateQuality(i: nat, len: nat) returns (dst: string)
      requires Valid()
      ensures dst == QualityView(i, len)
    {
      if deflatedQuality == [] || i >= inflatedLen {
        return "";
      }
      var k, rest := i, Min(len, inflatedLen - i);
      dst := "";
      while rest > 0
        invariant 0 <= rest && i <= k && k + rest == i + Min(len, inflatedLen - i)
        invariant dst == QualityView(i, len)[..k - i]
      {
        QualityOfAt(deflatedQuality, qlvl, inflatedLen, isReverseComplement, i, len, k - i);
        dst := dst + [(Score(k) + 33) as char];
        k, rest := k + 1, rest - 1;
      }
    }

    /** `is_reverse_complement ^= 1`: only the flag changes. */
    method ReverseAndComplement()
      modifies this
      ensures isReverseComplement == !old(isReverseComplement)
    {
      isReverseComplement := !isReverseComplement;
    }

    /** The reconstructed score at one position: the level its code selects, which Reconstructed describes. */
    lemma ScoreAt(q: string, i: nat)
      requires Valid() && EncodesQuality(q) && deflatedQuality != [] && i < inflatedLen
      ensures Score(i) == Reconstructed(q, Physical(inflatedLen, isReverseComplement, i))
    {
      StoredScoreReconstructs(q, deflatedQuality, qlvl, Physical(inflatedLen, isReverseComplement, i));
    }

    /**
      Score(i) is the level nearest to the original score of position i among
      the four levels of its block (the lowest such level on a tie); under the
      flag, that of position n - 1 - i.
    */
    lemma ScoreIsNearestLevel(q: string)
      requires Valid() && EncodesQuality(q) && deflatedQuality != []
      ensures forall i :: 0 <= i < inflatedLen ==>
                Score(i) == Reconstructed(q, Physical(inflatedLen, isReverseComplement, i))
    {
      forall i | 0 <= i < inflatedLen
        ensures Score(i) == Reconstructed(q, Physical(inflatedLen, isReverseComplement, i))
      {
        ScoreAt(q, i);
      }
    }

    /**
      InflateQuality() spells out the reconstructed scores, Phred+33, in
      order, or from the last position backwards under the flag.
    */
    lemma InflatedQualityIsReconstructed(q: string)
      requires Valid() && EncodesQuality(q) && deflatedQuality != []
      ensures forall k :: 0 <= k < inflatedLen ==>
                QualityView(0, inflatedLen)[k] == (Reconstructed(q, Physical(inflatedLen, isReverseComplement, k)) + 33) as char
    {
      forall k | 0 <= k < inflatedLen
        ensures QualityView(0, inflatedLen)[k] == (Reconstructed(q, Physical(inflatedLen, isReverseComplement, k)) + 33) as char
      {
        assert QualityView(0, inflatedLen)[k] == (Reconstructed(q, Physical(inflatedLen, isReverseComplement, k)) + 33) as char by {
          QualityViewAt(q, k);
        }
      }
    }

    lemma QualityViewAt(q: string, k: nat)
      requires Valid() && EncodesQuality(q) && deflatedQuality != [] && k < inflatedLen
      ensures QualityView(0, inflatedLen)[k] == (Reconstructed(q, Physical(inflatedLen, isReverseComplement, k)) + 33) as char
    {
      var p := Physical(inflatedLen, isReverseComplement, k);
      QualityOfAt(deflatedQuality, qlvl, inflatedLen, isReverseComplement, 0, inflatedLen, k);
      assert QualityView(0, inflatedLen)[k] == (StoredScore(deflatedQuality, qlvl, inflatedLen, p) + 33) as char;
      StoredScoreReconstructs(q, deflatedQuality, qlvl, p);
    }

    /** Quality ranges clamp like data ranges: the slice of the full inflation. */
    lemma QualityViewSlice(i: nat, len: nat)
      requires Valid() && deflatedQuality != [] && i < inflatedLen
      ensures QualityView(i, len) == QualityView(0, inflatedLen)[i .. i + Min(len, inflatedLen - i)]
    {
      var part, whole := QualityView(i, len), QualityView(0, inflatedLen);
      forall k | 0 <= k < |part|
        ensures part[k] == whole[i + k]
      {
        QualityOfShift(deflatedQuality, qlvl, inflatedLen, isReverseComplement, i, len, k);
      }
      SliceAt(part, whole, i);
    }

    /** A quality string made of one repeated character survives the lossy codec unchanged, in either orientation. */
    lemma ConstantQualityRoundTrip(q: string)
      requires Valid() && EncodesQuality(q) && q != []
      requires forall k :: 0 <= k < |q| ==> q[k] == q[0]
      ensures QualityView(0, inflatedLen) == q
    {
      PackLength(QuantCodes(q));
      var v := QualityView(0, inflatedLen);
      forall k | 0 <= k < |q|
        ensures v[k] == q[k]
      {
        ConstantQualityAt(q, k);
      }
    }

    lemma ConstantQualityAt(q: string, k: nat)
      requires Valid() && EncodesQuality(q) && deflatedQuality != [] && k < inflatedLen
      requires forall t :: 0 <= t < |q| ==> q[t] == q[0]
      ensures QualityView(0, inflatedLen)[k] == q[k]
    {
      ConstantQualityOf(q, deflatedQuality, qlvl, inflatedLen, isReverseComplement, k);
    }
  }

  /**
    The shift count `Score` computes as written:
    `(deflated_quality[i >> 5] >> ((i << 1) & 63)) << 3`, which keeps every
    field above position i's one instead of masking it with `& 3`.
  */
  function ShiftCountAsWritten(w: nat, r: nat): nat
  {
    Shr(w, r) * 8
  }

  /** `w >> 2r` */
  function Shr(w: nat, r: nat): nat
  {
    if r == 0 then w else Shr(w / 4, r - 1)
  }

  /** Field r is the low field of `w >> 2r`, and shifting by one more field divides by 4. */
  lemma {:induction false} ShrFields(w: nat, r: nat)
    ensures Field(w, r) == Shr(w, r) % 4 && Shr(w, r + 1) == Shr(w, r) / 4
  {
    if r > 0 {
      ShrFields(w / 4, r - 1);
    }
  }

  /**
    The as-written count is the intended `8 * code` plus 32 for every unit of
    the fields above: it stays below the 32-bit shift limit exactly when
    those fields are all zero, and it agrees with the intended count modulo 32.
  */
  lemma ShiftCountAsWrittenSplit(w: nat, r: nat)
    ensures ShiftCountAsWritten(w, r) == 8 * Field(w, r) + 32 * Shr(w, r + 1)
    ensures ShiftCountAsWritten(w, r) < 32 <==> Shr(w, r + 1) == 0
    ensures ShiftCountAsWritten(w, r) % 32 == 8 * Field(w, r)
  {
    ShrFields(w, r);
  }

  /** The codes [3, 3] pack into the single word 15. */
  lemma PackThreeThree()
    ensures Pack([3, 3]) == [15]
  {
    var cs: seq<nat> := [3, 3];
    assert cs[1..] == [3] && cs[1..][1..] == [];
  }

  /**
    The quality "!!" is one constant block, so both scores are coded 3 and
    packed into the word 15. For position 0 the as-written shift count is
    then 120, past the width of the 32-bit level word, where the intended
    count is 24.
  */
  lemma ShiftCountCounterexample(q: string)
    requires q == "!!"
    ensures IsPhredAscii(q) && Pack(QuantCodes(q)) == [15]
    ensures ShiftCountAsWritten(Pack(QuantCodes(q))[0], 0) == 120 && 8 * Field(Pack(QuantCodes(q))[0], 0) == 24
  {
    ConstantCodes(q, 0);
    ConstantCodes(q, 1);
    var cs := QuantCodes(q);
    assert cs == [3, 3];
    PackThreeThree();
  }
}
