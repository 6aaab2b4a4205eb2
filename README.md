# biosoup NucleicAcid in Dafny

This project models `biosoup::NucleicAcid`, a named DNA read, and proves
properties of that model. The read stores its bases packed 2 bits per base
in 64-bit words, optionally carries a Phred+33 quality string, and has a
reverse-complement flag that turns every read into a read of the opposite
strand. Two variants are modelled:

- **Plain** (`include/biosoup/nucleic_acid.hpp`). The quality is stored
  one byte per base.
- **Experimental** (`include/biosoup/nucleic_acid_exp.hpp`). The nucleotide
  side is the same. The quality goes through a lossy block quantizer:
  - scores are split into blocks of 128;
  - each block gets four levels, derived from its minimum, maximum, mean
    and "mode";
  - each score keeps only a 2-bit code `3 - m`, where `m` is the index of
    its nearest level;
  - the four levels of a block are packed into one 32-bit word.

Modules:

- `Wrappers`: `Option` and `Result`.
- `Packing`: the 2-bit packing. The functional specification is `Pack`:
  one word per 32 codes, code `k` in bits `[2(k mod 32), 2(k mod 32) + 2)`.
  This module also holds the loop-invariant predicate `Packed` that both
  packing loops keep.
- `Alphabet`: both 128-entry `kNucleotideCoder` tables as literal data,
  checked entry by entry against an IUPAC reference (`Iupac`), and the
  decoder `"ACGT"`.
- `Nucleotides`: parts the two headers share.
  - The constructor's packing loop (`Deflate`).
  - The orientation-aware `Code` (`CodeAt`).
  - The `InflateData` loop (`Inflate`) and the function it is proved
    against (`DataView`).
  - Reverse-complement facts.
- `Ids`: the `num_objects` counter, as an explicit counter object that
  wraps at 2^32 like the `uint32_t`.
- `Biosoup`: the plain `NucleicAcid` class.
- `Quantizer`: the experimental quality constructor.
  - Specification functions per block: minimum, maximum, sum, levels,
    nearest level, level word.
  - The methods that compute them with the source's loops. Among them is
    the `freqs` array loop, proved to return the last score as the mode.
  - The block-by-block `DeflateQuality`, proved equal to
    `Pack(QuantCodes(q))` and `LevelWords(q)`.
- `BiosoupExp`: the experimental `NucleicAcid` class, plus the
  as-written shift count of its `Score` (see Findings).

Two behaviours of the code that its names do not suggest:

- `'-'` is accepted as `A`. The code's table maps it to 0.
- The block "mode" is the last score of the block. `mode_freq` is never
  updated, so `++freqs[v] > mode_freq` holds at every score. The 8-bit
  counter cannot wrap within a 128-score block.

The expected quality values in `pybind/test_biosouppy.py` (31 and 78)
follow from neither header, so no property here is taken from them. For
that input the quantizer gives levels 31, 62, 93, 93.

## Model

| member | source | states |
|---|---|---|
| Alphabet.CoderMatchesIupac | include/biosoup/nucleic_acid.hpp:17-34 | reading the plain table at a byte below 128 gives exactly the IUPAC reference decision: A/C/G/T in either case, each ambiguity letter collapsed to its fixed base, `-` as A, U as T, anything else invalid |
| Alphabet.CoderIsIupac | include/biosoup/nucleic_acid.hpp:17-34 | every one of the 128 plain table entries is 255 exactly where the reference rejects the byte, and otherwise is the reference code |
| Alphabet.ExpCoderIsIupac | include/biosoup/nucleic_acid_exp.hpp:20-29 | the same for the experimental table, laid out 15 entries per row |
| Alphabet.CoderTablesAgree | include/biosoup/nucleic_acid_exp.hpp:20-29 | the two tables hold the same 128 entries |
| Packing.WordOfFields | include/biosoup/nucleic_acid.hpp:59 | in a word built by OR-ing code k at bit 2k, field k reads back code k, and no bit at or above 2n is set |
| Packing.PackLength | include/biosoup/nucleic_acid.hpp:50-63 | n codes give ceil(n/32) words |
| Packing.PackWord | include/biosoup/nucleic_acid.hpp:50-63 | word w of the packed buffer is the word built from codes 32w up to the next multiple of 32 or the end |
| Packing.PackFields | include/biosoup/nucleic_acid.hpp:59-63 | ceil(n/32) words; field k mod 32 of word k/32 is code k; each word is below 4^(codes it holds), so the unused high bits of the last word are 0 |
| Packing.PackAppend | include/biosoup/nucleic_acid_exp.hpp:123-137 | packing a prefix whose length is a multiple of 32 and then the rest yields the same words as packing the whole, which is why block-by-block quality packing equals one packing |
| Nucleotides.Deflate | include/biosoup/nucleic_acid.hpp:48-64 | the packing loop fails exactly when some byte's table entry is 255, and otherwise returns the packing of the bytes' codes |
| Nucleotides.RejectsNonIupacLetters | include/biosoup/nucleic_acid.hpp:17-34 | the string EFIJLOPQUXZ of the not-a-nucleotide test (test/nucleic_acid_test.cpp:14-22) is refused; each of its letters is refused on its own except U, which the table accepts as T (code 3) |
| Nucleotides.Inflate | include/biosoup/nucleic_acid.hpp:106-118 | the decoding loop returns exactly DataView: "" when i >= n, else the min(len, n - i) decoded bases from i on, read through the flag |
| Nucleotides.InflateNormalizes | include/biosoup/nucleic_acid.hpp:37 | forward full inflation of freshly packed bases is the input with every letter replaced by the base the table gives it |
| Nucleotides.InflateFoldsCase | include/biosoup/nucleic_acid.hpp:106-118 | on A, C, G, T in either case, forward inflation is the upper-cased input, so upper-case ACGT round-trips |
| Nucleotides.DataViewSlice | include/biosoup/nucleic_acid.hpp:106-110 | InflateData(i, len) is "" for i >= n and otherwise the slice [i, i + min(len, n - i)) of the full inflation |
| Nucleotides.ComplementPairs | include/biosoup/nucleic_acid.hpp:94-96 | XOR 3 on a code is Watson-Crick pairing of the decoded base: A with T, C with G |
| Nucleotides.DataViewReverseComplement | include/biosoup/nucleic_acid.hpp:90-97 | with the flag set, the full inflation is the reverse complement of the forward one |
| Nucleotides.ReverseComplementTwice | include/biosoup/nucleic_acid.hpp:135-137 | reverse-complementing twice gives the sequence back |
| Ids.IdCounter.Take | include/biosoup/nucleic_acid.hpp:48 | a construction takes the counter value before the increment, and the counter advances by one modulo 2^32 |
| Ids.IssuedDistinct | include/biosoup/nucleic_acid.hpp:139 | the k values start, start + 1, … taken modulo 2^32 are pairwise distinct when k is at most 2^32; TakeMany shows these are the ids k constructions take |
| Ids.TakeMany | include/biosoup/nucleic_acid.hpp:48 | k constructions in a row, each taking one id from the counter, take exactly Issued(start, k) and leave the counter at start + k modulo 2^32; while k is at most 2^32 the ids taken are pairwise distinct |
| Biosoup.DeflateQuality | include/biosoup/nucleic_acid.hpp:76-79 | one stored byte per quality character, equal to the character minus '!' as an 8-bit pattern |
| Biosoup.NucleicAcid.Create | include/biosoup/nucleic_acid.hpp:43-65 | the id is consumed whether or not construction succeeds; construction fails exactly when some byte is not a nucleotide; on success the record holds ceil(n/32) words packing the input codes, no quality, the forward flag, the given name and the pre-increment id |
| Biosoup.NucleicAcid.CreateWithQuality | include/biosoup/nucleic_acid.hpp:67-80 | the same, plus one stored score per quality character |
| Biosoup.NucleicAcid.Copy | include/biosoup/nucleic_acid.hpp:82 | a copy has equal fields and is a distinct object |
| Biosoup.NucleicAcid.QualityView | include/biosoup/nucleic_acid.hpp:120-125 | InflateQuality(i, len) has no characters without quality or when i >= n, and min(len, n - i) characters otherwise |
| Biosoup.NucleicAcid.InflateData | include/biosoup/nucleic_acid.hpp:106-118 | returns DataView of the record's words through its flag |
| Biosoup.NucleicAcid.InflateQuality | include/biosoup/nucleic_acid.hpp:120-133 | the loop returns QualityView: each score plus '!' in order, read through the flag |
| Biosoup.NucleicAcid.ReverseAndComplement | include/biosoup/nucleic_acid.hpp:135-137 | only the flag changes, and it is negated |
| Biosoup.NucleicAcid.CodeReadsInput | include/biosoup/nucleic_acid.hpp:90-97 | Code(i) is the table code of input byte i; under the flag it is the complement (XOR 3) of the code of byte n - 1 - i |
| Biosoup.NucleicAcid.QualityRoundTrip | include/biosoup/nucleic_acid.hpp:99-104 | InflateQuality() reproduces the input quality string, and under the flag reproduces it reversed without complementing any score |
| Biosoup.NucleicAcid.QualityViewSlice | include/biosoup/nucleic_acid.hpp:120-133 | quality ranges clamp like data ranges: the slice of the full inflation |
| Biosoup.ToggleCopy | include/biosoup/nucleic_acid.hpp:135-137 | the reverse-and-complement test (test/nucleic_acid_test.cpp:52-63): a toggled copy inflates to the reverse complement of the normalized bases and the reversed quality; toggling back restores both; the original is unaffected |
| Quantizer.MinMaxBounds | include/biosoup/nucleic_acid_exp.hpp:84-97 | the running minimum and maximum bound every score of the block and are attained by one |
| Quantizer.BlockStats | include/biosoup/nucleic_acid_exp.hpp:81-103 | the statistics loop over the freqs array returns the block's minimum, maximum and sum, and its last score as the mode |
| Quantizer.Levels | include/biosoup/nucleic_acid_exp.hpp:105-121 | four levels, non-decreasing, within [min, max]; the mode is levels[2] when sum < mode * len (mean < mode) and levels[1] otherwise; every other level is the exact third or half point, rounded to the nearest integer with halves rounded up |
| Quantizer.ComputeLevels | include/biosoup/nucleic_acid_exp.hpp:79-121 | for the block starting at 128b, the computed levels are BlockLevels(q, b) |
| Quantizer.NearestIndex | include/biosoup/nucleic_acid_exp.hpp:126-131 | the chosen index has the smallest distance to the score, and is the lowest such index |
| Quantizer.NearestLevel | include/biosoup/nucleic_acid_exp.hpp:125-131 | the scan from l = 1 with strict < finds that lowest nearest index |
| Quantizer.LevelWordBytes | include/biosoup/nucleic_acid_exp.hpp:139-143 | shifting the levels in byte by byte puts levels[m] in byte 3 - m, counted from the low end |
| Quantizer.PackLevels | include/biosoup/nucleic_acid_exp.hpp:139-144 | the level loop produces that word, and it fits in 32 bits |
| Quantizer.QuantizeBlock | include/biosoup/nucleic_acid_exp.hpp:123-137 | appending one block's codes to the code words gives the packing of all codes up to the block's end |
| Quantizer.LevelWords | include/biosoup/nucleic_acid_exp.hpp:77 | one level word per block: ceil(n/128) words |
| Quantizer.DeflateQuality | include/biosoup/nucleic_acid_exp.hpp:76-146 | the quality constructor's loops produce Pack(QuantCodes(q)), which is ceil(n/32) code words, and LevelWords(q) |
| Quantizer.DecodeScore | include/biosoup/nucleic_acid_exp.hpp:165-171 | the byte of a position's level word selected by its stored code is the level its code was chosen for |
| Quantizer.ReconstructedIsNearestLevel | include/biosoup/nucleic_acid_exp.hpp:124-131 | each reconstructed score is one of its block's four levels, the lowest-index one nearest to the original score |
| Quantizer.ReconstructedInRange | include/biosoup/nucleic_acid_exp.hpp:107-121 | each reconstructed score lies between its block's minimum and maximum |
| Quantizer.ExactOnLevel | include/biosoup/nucleic_acid_exp.hpp:124-131 | a score equal to one of its block's levels is reconstructed exactly |
| Quantizer.BlockLastExact | include/biosoup/nucleic_acid_exp.hpp:100-102 | the last score of every block, which is the mode, is reconstructed exactly |
| Quantizer.ConstantBlockLevels | include/biosoup/nucleic_acid_exp.hpp:107-121 | a constant block gets four equal levels |
| Quantizer.ConstantReconstructed | include/biosoup/nucleic_acid_exp.hpp:107-131 | in a constant quality string, every score is reconstructed exactly |
| Quantizer.ConstantCodes | include/biosoup/nucleic_acid_exp.hpp:132 | in a constant quality string, every stored code is 3 (m = 0) |
| BiosoupExp.Low7 | include/biosoup/nucleic_acid_exp.hpp:171 | `& 127` gives a value below 128 and leaves values below 128 unchanged |
| BiosoupExp.StoredScoreReconstructs | include/biosoup/nucleic_acid_exp.hpp:165-171 | for buffers produced by the quantizer, the 7-bit byte of position p's level word that its stored code selects is the reconstructed score of p |
| BiosoupExp.NucleicAcid.Create | include/biosoup/nucleic_acid_exp.hpp:38-62 | as in the plain header: id consumed, failure exactly on a non-nucleotide, otherwise the packed codes with no quality |
| BiosoupExp.NucleicAcid.CreateWithQuality | include/biosoup/nucleic_acid_exp.hpp:64-146 | the same, plus ceil(n/32) code words and ceil(n/128) level words equal to the quantizer's output for q |
| BiosoupExp.NucleicAcid.Copy | include/biosoup/nucleic_acid_exp.hpp:148 | a copy has equal fields |
| BiosoupExp.NucleicAcid.Score | include/biosoup/nucleic_acid_exp.hpp:165-172 | every score read back is below 128 |
| BiosoupExp.NucleicAcid.QualityView | include/biosoup/nucleic_acid_exp.hpp:188-193 | InflateQuality(i, len) is empty without quality words or when i >= n, else min(len, n - i) characters |
| BiosoupExp.NucleicAcid.InflateData | include/biosoup/nucleic_acid_exp.hpp:174-186 | returns DataView, as in the plain header |
| BiosoupExp.NucleicAcid.InflateQuality | include/biosoup/nucleic_acid_exp.hpp:188-201 | the loop returns QualityView: Score(k) + '!' for each k of the clamped range |
| BiosoupExp.NucleicAcid.ReverseAndComplement | include/biosoup/nucleic_acid_exp.hpp:203-205 | only the flag changes, and it is negated |
| BiosoupExp.NucleicAcid.ScoreAt | include/biosoup/nucleic_acid_exp.hpp:165-171 | Score(i) is the reconstructed score of position i, or of n - 1 - i under the flag, never complemented |
| BiosoupExp.NucleicAcid.ScoreIsNearestLevel | include/biosoup/nucleic_acid_exp.hpp:165-172 | the same for every position at once |
| BiosoupExp.NucleicAcid.InflatedQualityIsReconstructed | include/biosoup/nucleic_acid_exp.hpp:188-201 | InflateQuality() spells out the reconstructed scores plus 33, in order, or reversed under the flag |
| BiosoupExp.NucleicAcid.QualityViewSlice | include/biosoup/nucleic_acid_exp.hpp:188-201 | quality ranges are slices of the full inflation |
| BiosoupExp.NucleicAcid.ConstantQualityRoundTrip | include/biosoup/nucleic_acid_exp.hpp:79-146 | a quality string of one repeated character survives the lossy codec unchanged, in either orientation |
| BiosoupExp.ShiftCountAsWrittenSplit | include/biosoup/nucleic_acid_exp.hpp:169-170 | the shift count as written is 8 * code + 32 * (the fields above); it is below 32 exactly when those fields are all 0, and it equals the intended 8 * code modulo 32 |
| BiosoupExp.ShiftCountCounterexample | include/biosoup/nucleic_acid_exp.hpp:169-170 | for the quality "!!" the code word is 15, and the shift count for position 0 is 120 where 24 is intended |

## Left out

- The Python binding (`pybind/main.cc`, including `set_nucleic_acid_obj_cnt`), `setup.py` and the benchmark driver are not part of this model.
- The atomicity of `num_objects` is not modelled. The counter is an explicit object passed to the constructors, and constructions are sequential.
- The `reserve` calls and their floating-point capacity arithmetic change capacity only. Only the resulting sizes are modelled.
- `double mean`, `float step` and `std::round` are restated exactly in integers. The branch test is `sum < mode * len`. Thirds are rounded to the nearest integer; they never land on .5. Halves are rounded up. This relies on float error never moving a value across a rounding boundary for scores below 128 and blocks of at most 128.
- The `uint32_t` parameters `data_len`, `i` and `len` are unbounded naturals. The default argument `len = -1` is any `len` of at least `n - i`. Lengths of 2^32 or more are not modelled.
- `block |= c << ((i << 1) & 63)` is modelled as addition, which is the same because each field is written once into zero bits.
- Biosoup.NucleicAcid.CreateWithQuality: requires a quality string of the same length as the data. With a shorter string, `Score` reads out of range, and the source leaves that undefined.
- BiosoupExp.NucleicAcid.CreateWithQuality: requires the same lengths. It also requires every quality byte to be in '!'..127: larger scores index past the 128-entry `freqs` array, and bytes above 127 are compared as signed `char`, which is implementation-defined.
- Nucleotides.Deflate: requires bytes below 128. Larger bytes index past the 128-entry table.
- `Code` and `Score` with `i >= n`, and `Score` without quality, are undefined in the source and excluded by `requires`.
- The static `freqs` and `levels` buffers are treated as locals. They are reset or fully rewritten for every block.
- The defaulted default constructor `NucleicAcid() = default` (nucleic_acid.hpp:41, nucleic_acid_exp.hpp:36) is not modelled. It leaves `id`, `inflated_len` and the flag uninitialised, so no contract could describe the object it makes. The defaulted copy assignment, move operations and destructor are not modelled either. Only the copy constructor is, as `Copy`.
- The experimental constructor reuses the plain `Deflate`, because `CoderTablesAgree` shows the two tables are equal.
- BiosoupExp.NucleicAcid.Score: models the intended reading, the byte selected by the 2-bit code. See Findings.
- BiosoupExp.ShiftCountAsWritten does not model the 64-bit wrap of `<< 3`. The count only matters when it is below 32, and that case is exact.

## Findings

| source | as written | input that shows it | evidently intended | confidence | as-written member | corrected member |
|---|---|---|---|---|---|---|
| include/biosoup/nucleic_acid_exp.hpp:169-170 | the shift count is `(deflated_quality[i >> 5] >> 2(i mod 32)) << 3`, with no `& 3`, so it keeps the codes of every later position in the word, and a shift of a `uint32_t` by 32 or more is undefined | quality "!!": both codes are 3, the code word is 15, and the count for position 0 is 120 | `((deflated_quality[i >> 5] >> 2(i mod 32)) & 3) << 3`, that is, 8 times the position's own code | not executed | BiosoupExp.ShiftCountCounterexample | BiosoupExp.NucleicAcid.ScoreIsNearestLevel |
