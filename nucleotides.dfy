/**
  The nucleotide half of NucleicAcid, identical in both header variants: the
  packing loop of the constructor, the orientation-aware `Code` accessor and
  the `InflateData` loop, over the packed words `deflated_data`, the length
  `inflated_len` and the flag `is_reverse_complement`.
*/
module Nucleotides {
  import opened Wrappers
  import opened Packing
  import opened Alphabet

  /** The std::invalid_argument the constructor throws ("not a nucleotide"). */
  datatype Error = InvalidBase

  predicate AllNucleotides(data: string)
    requires IsAscii(data)
  {
    forall k :: 0 <= k < |data| ==> Coder(data[k]).Some?
  }

  /**
    The string of the not-a-nucleotide test is refused. Every letter of it is
    refused on its own except U, which the table accepts as T.
  */
  lemma RejectsNonIupacLetters(data: string)
    requires data == "EFIJLOPQUXZ"
    ensures IsAscii(data) && !AllNucleotides(data)
    ensures forall k :: 0 <= k < |data| ==> (Coder(data[k]).None? <==> data[k] != 'U')
    ensures Coder('U') == Some(3)
  {
    assert Coder(data[0]).None?;
  }

  /** The 2-bit codes of a valid base string. */
  function Codes(data: string): (cs: seq<nat>)
    requires IsAscii(data) && AllNucleotides(data)
    ensures |cs| == |data| && AreCodes(cs)
  {
    seq(|data|, k requires 0 <= k < |data| => Coder(data[k]).value as nat)
  }

  /**
    The packing loop of the constructor: fails on the first byte whose table
    entry is 255, and otherwise yields the packed buffer of the codes.
  */
  method Deflate(data: string) returns (r: Result<seq<nat>, Error>)
    requires IsAscii(data)
    ensures r.Success? <==> AllNucleotides(data)
    ensures r.Success? ==> r.value == Pack(Codes(data))
  {
    var words: seq<nat> := [];
    var block: nat := 0;
    ghost var cs: seq<nat> := [];
    ghost var full: seq<nat> := [];
    ghost var part: seq<nat> := [];
    var i := 0;
    while i < |data|
      invariant 0 <= i <= |data| && |cs| == i && full + part == cs
      invariant forall k :: 0 <= k < i ==> Coder(data[k]).Some? && cs[k] == Coder(data[k]).value
      invariant i < |data| ==> Packed(words, block, full, part)
      invariant i == |data| ==> words == Pack(full) && part == []
    {
      var c := Coder(data[i]);
      if c.None? {
        return Failure(InvalidBase);
      }
      var next := block + Place(c.value, i % 32);  // block |= c << ((i << 1) & 63)
      var flush := (i + 1) % 32 == 0 || i == |data| - 1;
      ghost var cs' := cs + [c.value];
      assert forall k :: 0 <= k < i + 1 ==> Coder(data[k]).Some? && cs'[k] == Coder(data[k]).value by {
        assert forall k :: 0 <= k < i ==> cs'[k] == cs[k];
      }
      ghost var last := i == |data| - 1;
      if flush {
        assert words + [next] == Pack(cs') && (!last ==> Packed(words + [next], 0, cs', [])) by {
          PackIteration(words, block, full, part, c.value, i, next, flush, last);
        }
        words := words + [next];
        block := 0;
        full, part := cs', [];
      } else {
        assert Packed(words, next, full, part + [c.value]) && full + (part + [c.value]) == cs' by {
          PackIteration(words, block, full, part, c.value, i, next, flush, last);
        }
        block := next;
        part := part + [c.value];
      }
      cs := cs';
      i := i + 1;
    }
    assert full == Codes(data) by {
      assert full + part == full;
    }
    return Success(words);
  }

  /** The index the accessors read: `inflated_len - i - 1` under the flag. */
  function Physical(n: nat, rc: bool, i: nat): (p: nat)
    requires i < n
    ensures p < n
  {
    if rc then n - 1 - i else i
  }

  /** `c ^ 3` on a 2-bit code: A <-> T, C <-> G. */
  function Complement(c: Code): Code
  {
    ((c as bv2) ^ 3) as nat
  }

  /** A packed buffer for n codes. */
  predicate Holds(words: seq<nat>, n: nat)
  {
    |words| == CeilDiv(n, 32)
  }

  /** `Code(i)`: field i of the buffer read through the orientation flag. */
  function CodeAt(words: seq<nat>, n: nat, rc: bool, i: nat): Code
    requires Holds(words, n) && i < n
  {
    var p := Physical(n, rc, i);
    var v := Field(words[p / 32], p % 32);
    if rc then Complement(v) else v
  }

  /** What `InflateData(i, len)` returns: "" past the end, else the clamped range. */
  function DataView(words: seq<nat>, n: nat, rc: bool, i: nat, len: nat): (s: string)
    requires Holds(words, n)
    ensures |s| == if i >= n then 0 else Min(len, n - i)
  {
    if i >= n then ""
    else seq(Min(len, n - i), k requires 0 <= k < Min(len, n - i) =>
               NucleotideDecoder[CodeAt(words, n, rc, i + k)])
  }

  /** The `InflateData` loop. */
  method Inflate(words: seq<nat>, n: nat, rc: bool, i: nat, len: nat) returns (dst: string)
    requires Holds(words, n)
    ensures dst == DataView(words, n, rc, i, len)
  {
    if i >= n {
      return "";
    }
    var k, rest := i, Min(len, n - i);
    dst := "";
    while rest > 0
      invariant 0 <= rest && i <= k && k + rest == i + Min(len, n - i)
      invariant dst == DataView(words, n, rc, i, len)[..k - i]
    {
      dst := dst + [NucleotideDecoder[CodeAt(words, n, rc, k)]];
      k, rest := k + 1, rest - 1;
    }
  }

  /** Each IUPAC letter replaced by the base it stands for; any other character kept. */
  function Normalized(data: string): (s: string)
    ensures |s| == |data|
  {
    seq(|data|, k requires 0 <= k < |data| => NormalizedChar(data[k]))
  }

  function NormalizedChar(c: char): char
  {
    match Iupac(c)
    case Some(v) => NucleotideDecoder[v]
    case None => c
  }

  /**
    Forward `InflateData()` of a freshly packed string is the string with every
    letter normalized: upper case, each ambiguity code collapsed to its base.
  */
  lemma {:induction false} InflateNormalizes(data: string)
    requires IsAscii(data) && AllNucleotides(data)
    ensures Holds(Pack(Codes(data)), |data|)
    ensures DataView(Pack(Codes(data)), |data|, false, 0, |data|) == Normalized(data)
  {
    var cs := Codes(data);
    PackFields(cs);
    var words := Pack(cs);
    var v := DataView(words, |data|, false, 0, |data|);
    forall k | 0 <= k < |data|
      ensures v[k] == Normalized(data)[k]
    {
      assert CodeAt(words, |data|, false, k) == cs[k];
      CoderMatchesIupac(data[k]);
    }
  }

  function Upper(c: char): char
  {
    if 'a' <= c <= 'z' then (c as int - 32) as char else c
  }

  predicate IsAcgt(c: char)
  {
    c == 'A' || c == 'C' || c == 'G' || c == 'T' || c == 'a' || c == 'c' || c == 'g' || c == 't'
  }

  /** On A, C, G, T in either case, inflation only folds the case (and is the identity on upper case). */
  lemma InflateFoldsCase(data: string)
    requires forall k :: 0 <= k < |data| ==> IsAcgt(data[k])
    ensures IsAscii(data) && AllNucleotides(data) && Holds(Pack(Codes(data)), |data|)
    ensures DataView(Pack(Codes(data)), |data|, false, 0, |data|) ==
            seq(|data|, k requires 0 <= k < |data| => Upper(data[k]))
  {
    InflateNormalizes(data);
    forall k | 0 <= k < |data|
      ensures NormalizedChar(data[k]) == Upper(data[k])
    {
      AcgtFolds(data[k]);
    }
  }

  lemma AcgtFolds(c: char)
    requires IsAcgt(c)
    ensures NormalizedChar(c) == Upper(c)
  {
  }

  /**
    `InflateData(i, len)` is "" from the end on, and otherwise exactly the
    min(len, n - i) characters of the full inflation starting at i.
  */
  lemma DataViewSlice(words: seq<nat>, n: nat, rc: bool, i: nat, len: nat)
    requires Holds(words, n)
    ensures i >= n ==> DataView(words, n, rc, i, len) == ""
    ensures i < n ==> DataView(words, n, rc, i, len) == DataView(words, n, rc, 0, n)[i .. i + Min(len, n - i)]
  {
    if i < n {
      var part, whole := DataView(words, n, rc, i, len), DataView(words, n, rc, 0, n);
      forall k | 0 <= k < |part|
        ensures part[k] == whole[i + k]
      {
        DataViewShift(words, n, rc, i, len, k);
      }
      SliceAt(part, whole, i);
    }
  }

  lemma DataViewShift(words: seq<nat>, n: nat, rc: bool, i: nat, len: nat, k: nat)
    requires Holds(words, n) && i < n && k < Min(len, n - i)
    ensures DataView(words, n, rc, i, len)[k] == DataView(words, n, rc, 0, n)[i + k]
  {
    DataViewAt(words, n, rc, i, len, k);
    DataViewAt(words, n, rc, 0, n, i + k);
  }

  lemma DataViewAt(words: seq<nat>, n: nat, rc: bool, i: nat, len: nat, k: nat)
    requires Holds(words, n) && i < n && k < Min(len, n - i)
    ensures DataView(words, n, rc, i, len)[k] == NucleotideDecoder[CodeAt(words, n, rc, i + k)]
  {
  }

  /** Watson-Crick partner of a decoded base. */
  function Pair(c: char): char
  {
    match c
    case 'A' => 'T'
    case 'T' => 'A'
    case 'C' => 'G'
    case 'G' => 'C'
    case _ => c
  }

  /** The sequence read backwards, each base replaced by its partner. */
  function ReverseComplement(s: string): (r: string)
    ensures |r| == |s|
  {
    seq(|s|, k requires 0 <= k < |s| => Pair(s[|s| - 1 - k]))
  }

  lemma ComplementPairs(c: Code)
    ensures NucleotideDecoder[Complement(c)] == Pair(NucleotideDecoder[c])
  {
  }

  /** With the flag set, the full inflation is the reverse complement of the forward one. */
  lemma DataViewReverseComplement(words: seq<nat>, n: nat)
    requires Holds(words, n)
    ensures DataView(words, n, true, 0, n) == ReverseComplement(DataView(words, n, false, 0, n))
  {
    var fwd := DataView(words, n, false, 0, n);
    forall k | 0 <= k < n
      ensures DataView(words, n, true, 0, n)[k] == ReverseComplement(fwd)[k]
    {
      ComplementPairs(CodeAt(words, n, false, n - 1 - k));
    }
  }

  /** Reverse-complementing twice gives the string back. */
  lemma ReverseComplementTwice(s: string)
    ensures ReverseComplement(ReverseComplement(s)) == s
  {
    forall k | 0 <= k < |s|
      ensures ReverseComplement(ReverseComplement(s))[k] == s[k]
    {
      assert Pair(Pair(s[k])) == s[k];
    }
  }
}
