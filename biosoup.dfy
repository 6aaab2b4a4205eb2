/**
  biosoup::NucleicAcid: a named base sequence packed 2 bits per base, with an
  optional Phred+33 quality string stored one byte per base, and a flag that
  turns every read into a read of the reverse complement.
*/
module Biosoup {
  import opened Wrappers
  import opened Packing
  import opened Alphabet
  import opened Nucleotides
  import opened Ids

  /** A C++ std::string: every character is one byte. */
  predicate IsBytes(s: string)
  {
    forall k :: 0 <= k < |s| ==> s[k] < 256 as char
  }

  /** `quality_ptr[i] - '!'` stored in an int8_t, kept here as its byte pattern. */
  function Phred(c: char): (v: nat)
    ensures v < 256
  {
    (c as int - 33) % 256
  }

  /** `Score(i) + '!'` appended to a std::string: the low byte of the sum. */
  function PhredChar(v: nat): char
  {
    ((v + 33) % 256) as char
  }

  /** The string read backwards. */
  function Reversed(s: string): (r: string)
    ensures |r| == |s|
  {
    seq(|s|, k requires 0 <= k < |s| => s[|s| - 1 - k])
  }

  /** The quality loop of the three-string constructor. */
  method DeflateQuality(q: string) returns (stored: seq<nat>)
    ensures |stored| == |q|
    ensures forall k :: 0 <= k < |q| ==> stored[k] == Phred(q[k])
  {
    stored := [];
    var i := 0;
    while i < |q|
      invariant 0 <= i <= |q| && |stored| == i
      invariant forall k :: 0 <= k < i ==> stored[k] == Phred(q[k])
    {
      stored := stored + [Phred(q[i])];
      i := i + 1;
    }
  }

  class NucleicAcid {
    const id: nat
    const name: string
    const deflatedData: seq<nat>
    const quality: seq<nat>
    const inflatedLen: nat
    var isReverseComplement: bool

    /** Buffer sizes: ceil(n/32) words; the quality is absent or one byte per base. */
    predicate Valid()
    {
      Holds(deflatedData, inflatedLen) &&
      (quality == [] || |quality| == inflatedLen) &&
      forall k :: 0 <= k < |quality| ==> quality[k] < 256
    }

    /** The record was built from the bases `data`. */
    predicate Encodes(data: string)
      requires IsAscii(data)
    {
      AllNucleotides(data) && inflatedLen == |data| && deflatedData == Pack(Codes(data))
    }

    /** The record was built from the quality string `q`. */
    predicate EncodesQuality(q: string)
    {
      |quality| == |q| && forall k :: 0 <= k < |q| ==> quality[k] == Phred(q[k])
    }

    /** The member initialisers: every field as given, forward orientation. */
    constructor Init(id: nat, name: string, words: seq<nat>, n: nat, quality: seq<nat>)
      ensures this.id == id && this.name == name && deflatedData == words
      ensures inflatedLen == n && this.quality == quality && !isReverseComplement
    {
      this.id := id;
      this.name := name;
      deflatedData := words;
      this.quality := quality;
      inflatedLen := n;
      isReverseComplement := false;
    }

    /** The defaulted copy constructor: an independent record with equal fields. */
    constructor Copy(other: NucleicAcid)
      ensures id == other.id && name == other.name && deflatedData == other.deflatedData
      ensures quality == other.quality && inflatedLen == other.inflatedLen
      ensures isReverseComplement == other.isReverseComplement
    {
      id := other.id;
      name := other.name;
      deflatedData := other.deflatedData;
      quality := other.quality;
      inflatedLen := other.inflatedLen;
      isReverseComplement := other.isReverseComplement;
    }

    /**
      NucleicAcid(name, data): takes the next id, then packs the bases; a byte
      that is not a nucleotide throws, and the id stays consumed.
    */
    static method Create(ids: IdCounter, name: string, data: string) returns (r: Result<NucleicAcid, Error>)
      requires ids.Valid() && IsAscii(data)
      modifies ids
      ensures ids.Valid() && ids.next == (old(ids.next) + 1) % IdSpace
      ensures r.Success? <==> AllNucleotides(data)
      ensures r.Success? ==>
                fresh(r.value) && r.value.Valid() && r.value.Encodes(data) &&
                r.value.id == old(ids.next) && r.value.name == name &&
                r.value.quality == [] && !r.value.isReverseComplement
    {
      var id := ids.Take();
      var packed := Deflate(data);
      if packed.Failure? {
        return Failure(packed.error);
      }
      PackLength(Codes(data));
      var acid := new NucleicAcid.Init(id, name, packed.value, |data|, []);
      return Success(acid);
    }

    /** NucleicAcid(name, data, quality): as above, then one stored byte per quality character. */
    static method CreateWithQuality(ids: IdCounter, name: string, data: string, q: string)
      returns (r: Result<NucleicAcid, Error>)
      requires ids.Valid() && IsAscii(data) && IsBytes(q) && |q| == |data|
      modifies ids
      ensures ids.Valid() && ids.next == (old(ids.next) + 1) % IdSpace
      ensures r.Success? <==> AllNucleotides(data)
      ensures r.Success? ==>
                fresh(r.value) && r.value.Valid() && r.value.Encodes(data) && r.value.EncodesQuality(q) &&
                r.value.id == old(ids.next) && r.value.name == name && !r.value.isReverseComplement
    {
      var id := ids.Take();
      var packed := Deflate(data);
      if packed.Failure? {
        return Failure(packed.error);
      }
      PackLength(Codes(data));
      var stored := DeflateQuality(q);
      var acid := new NucleicAcid.Init(id, name, packed.value, |data|, stored);
      return Success(acid);
    }

    /** `Code(i)`: the 2-bit code of base i, complemented and counted from the end under the flag. */
    function Code(i: nat): Alphabet.Code
      reads this
      requires Valid() && i < inflatedLen
    {
      CodeAt(deflatedData, inflatedLen, isReverseComplement, i)
    }

    /** `Score(i)`: the stored byte of base i, counted from the end under the flag; never complemented. */
    function Score(i: nat): (s: nat)
      reads this
      requires Valid() && i < inflatedLen && quality != []
      ensures s < 256
    {
      quality[Physical(inflatedLen, isReverseComplement, i)]
    }

    /** What `InflateQuality(i, len)` returns: "" without quality or past the end, else the clamped range. */
    function QualityView(i: nat, len: nat): (s: string)
      reads this
      requires Valid()
      ensures |s| == if quality == [] || i >= inflatedLen then 0 else Min(len, inflatedLen - i)
    {
      if quality == [] || i >= inflatedLen then ""
      else seq(Min(len, inflatedLen - i), k requires 0 <= k < Min(len, inflatedLen - i) reads this =>
                 PhredChar(Score(i + k)))
    }

    method InflateData(i: nat, len: nat) returns (dst: string)
      requires Valid()
      ensures dst == DataView(deflatedData, inflatedLen, isReverseComplement, i, len)
    {
      dst := Inflate(deflatedData, inflatedLen, isReverseComplement, i, len);
    }

    /** The `InflateQuality` loop. */
    method InflateQuality(i: nat, len: nat) returns (dst: string)
      requires Valid()
      ensures dst == QualityView(i, len)
    {
      if quality == [] || i >= inflatedLen {
        return "";
      }
      var k, rest := i, Min(len, inflatedLen - i);
      dst := "";
      while rest > 0
        invariant 0 <= rest && i <= k && k + rest == i + Min(len, inflatedLen - i)
        invariant dst == QualityView(i, len)[..k - i]
      {
        dst := dst + [PhredChar(Score(k))];
        k, rest := k + 1, rest - 1;
      }
    }

    /** `is_reverse_complement ^= 1`: only the flag changes. */
    method ReverseAndComplement()
      modifies this
      ensures isReverseComplement == !old(isReverseComplement)
    {
      isReverseComplement := !isReverseComplement;
    }

    /**
      Code(i) reads back the table code of input byte i; under the flag it is
      the complement (XOR 3) of the code of byte n - 1 - i.
    */
    lemma CodeReadsInput(data: string, i: nat)
      requires Valid() && IsAscii(data) && Encodes(data) && i < inflatedLen
      ensures !isReverseComplement ==> Code(i) == Coder(data[i]).value
      ensures isReverseComplement ==> Code(i) == Complement(Coder(data[inflatedLen - 1 - i]).value)
    {
      var cs := Codes(data);
      PackFields(cs);
      var p := Physical(inflatedLen, isReverseComplement, i);
      assert Field(deflatedData[p / 32], p % 32) == cs[p];
    }

    /**
      InflateQuality() gives back the quality string it was built from; under
      the flag it gives it back reversed, without complementing any score.
    */
    lemma QualityRoundTrip(q: string)
      requires Valid() && IsBytes(q) && EncodesQuality(q) && (q == [] || |q| == inflatedLen)
      ensures !isReverseComplement ==> QualityView(0, inflatedLen) == q
      ensures isReverseComplement ==>
                QualityView(0, inflatedLen) == Reversed(q)
    {
      if q != [] {
        var v := QualityView(0, inflatedLen);
        if isReverseComplement {
          forall k | 0 <= k < |q|
            ensures v[k] == Reversed(q)[k]
          {
            QualityCharAt(q, k);
          }
        } else {
          forall k | 0 <= k < |q|
            ensures v[k] == q[k]
          {
            QualityCharAt(q, k);
          }
        }
      }
    }

    lemma QualityCharAt(q: string, k: nat)
      requires Valid() && IsBytes(q) && EncodesQuality(q) && k < |q| == inflatedLen
      ensures QualityView(0, inflatedLen)[k] == q[Physical(inflatedLen, isReverseComplement, k)]
    {
      var p := Physical(inflatedLen, isReverseComplement, k);
      assert QualityView(0, inflatedLen)[k] == PhredChar(Score(0 + k));
      assert Score(k) == Phred(q[p]);
    }

    /** Quality ranges clamp like data ranges: the slice of the full inflation. */
    lemma QualityViewSlice(i: nat, len: nat)
      requires Valid() && quality != [] && i < inflatedLen
      ensures QualityView(i, len) == QualityView(0, inflatedLen)[i .. i + Min(len, inflatedLen - i)]
    {
      var part, whole := QualityView(i, len), QualityView(0, inflatedLen);
      forall k | 0 <= k < |part|
        ensures part[k] == whole[i + k]
      {
        QualityViewShift(i, len, k);
      }
      SliceAt(part, whole, i);
    }

    lemma QualityViewShift(i: nat, len: nat, k: nat)
      requires Valid() && quality != [] && i < inflatedLen && k < Min(len, inflatedLen - i)
      ensures QualityView(i, len)[k] == QualityView(0, inflatedLen)[i + k]
    {
      assert QualityView(i, len)[k] == PhredChar(Score(i + k));
      assert QualityView(0, inflatedLen)[i + k] == PhredChar(Score(0 + (i + k)));
    }
  }

  /**
    The reverse-and-complement test: a copy taken before toggling is an
    independent record; the toggled copy reads the reverse complement and the
    reversed quality, and toggling it back restores both inflations.
  */
  method ToggleCopy(s: NucleicAcid, data: string, q: string)
    returns (c: NucleicAcid, rcData: string, rcQuality: string, backData: string, backQuality: string)
    requires s.Valid() && !s.isReverseComplement && IsAscii(data) && s.Encodes(data)
    requires IsBytes(q) && s.EncodesQuality(q) && |q| == |data|
    ensures fresh(c) && c.Valid() && !c.isReverseComplement && !s.isReverseComplement
    ensures rcData == ReverseComplement(Normalized(data)) && rcQuality == Reversed(q)
    ensures backData == Normalized(data) && backQuality == q
  {
    c := new NucleicAcid.Copy(s);
    c.ReverseAndComplement();
    InflateNormalizes(data);
    DataViewReverseComplement(s.deflatedData, s.inflatedLen);
    rcData := c.InflateData(0, c.inflatedLen);
    rcQuality := c.InflateQuality(0, c.inflatedLen);
    c.QualityRoundTrip(q);
    c.ReverseAndComplement();
    backData := c.InflateData(0, c.inflatedLen);
    backQuality := c.InflateQuality(0, c.inflatedLen);
    c.QualityRoundTrip(q);
  }
}
