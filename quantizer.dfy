/**
  The lossy quality codec of biosoup::exp::NucleicAcid. Scores are cut into
  blocks of 128; each block gets four levels derived from its minimum,
  maximum, mean and "mode"; each score stores the 2-bit code 3 - m of its
  nearest level m, packed like the bases; and the four levels of a block are
  packed into one 32-bit word, levels[0] in the most significant byte.

  The constructor's floating-point arithmetic is restated in integers: the
  test `mean < mode` is `sum < mode * len` (exact, as the mean of at most 128
  scores below 128 is never within rounding distance of an integer it is not
  equal to); a rounded third is the nearest integer (a third never ends in
  .5); a rounded half rounds .5 up (every such value is positive).
*/
module Quantizer {
  import opened Packing


  /** Quality bytes the quantizer is defined on: '!' (score 0) up to 127 (score 94). */
  predicate IsPhredAscii(q: string)
  {
    forall k :: 0 <= k < |q| ==> 33 as char <= q[k] < 128 as char
  }

  /** `quality[k] - '!'` */
  function Scores(q: string): (s: seq<int>)
    requires IsPhredAscii(q)
    ensures |s| == |q| && forall k :: 0 <= k < |s| ==> 0 <= s[k] < 128
  {
    seq(|q|, k requires 0 <= k < |q| => q[k] as int - 33)
  }

  /** Block b: the scores [128 b, min(128 b + 128, n)). */
  function Block(q: string, b: nat): (s: seq<int>)
    requires IsPhredAscii(q) && b < CeilDiv(|q|, 128)
    ensures 0 < |s| <= 128
  {
    Scores(q)[128 * b .. Min(128 * b + 128, |q|)]
  }

  /** The running minimum, started at 255 (`std::uint8_t min = -1`). */
  function MinScore(s: seq<int>): int
  {
    if s == [] then 255
    else var m := MinScore(s[..|s| - 1]); if s[|s| - 1] < m then s[|s| - 1] else m
  }

  /** The running maximum, started at 0. */
  function MaxScore(s: seq<int>): int
  {
    if s == [] then 0
    else var m := MaxScore(s[..|s| - 1]); if s[|s| - 1] > m then s[|s| - 1] else m
  }

  function Sum(s: seq<int>): int
  {
    if s == [] then 0 else Sum(s[..|s| - 1]) + s[|s| - 1]
  }

  predicate AreScores(s: seq<int>)
  {
    forall k :: 0 <= k < |s| ==> 0 <= s[k] < 128
  }

  /** On a non-empty block the running minimum and maximum are its least and greatest score. */
  lemma {:induction false} MinMaxBounds(s: seq<int>)
    requires 0 < |s| && AreScores(s)
    ensures forall k :: 0 <= k < |s| ==> MinScore(s) <= s[k] <= MaxScore(s)
    ensures (exists k :: 0 <= k < |s| && MinScore(s) == s[k]) && (exists k :: 0 <= k < |s| && MaxScore(s) == s[k])
  {
    var t := s[..|s| - 1];
    if |t| == 0 {
      assert MinScore(s) == s[0];
      assert MaxScore(s) == s[0];
    } else {
      MinMaxBounds(t);
      forall k | 0 <= k < |s| ensures MinScore(s) <= s[k] <= MaxScore(s) {
        if k < |t| { assert s[k] == t[k]; }
      }
      var a :| 0 <= a < |t| && MinScore(t) == t[a];
      var b :| 0 <= b < |t| && MaxScore(t) == t[b];
      assert MinScore(s) == s[a] || MinScore(s) == s[|s| - 1];
      assert MaxScore(s) == s[b] || MaxScore(s) == s[|s| - 1];
    }
  }

  /** `mean < mode` for the mean sum / len, compared exactly. */
  predicate MeanBelowMode(sum: int, mode: int, len: nat)
  {
    sum < mode * len
  }

  /**
    The four levels of a block from its minimum, maximum, score sum and mode.
    When the mean is below the mode the levels step down from the mode in
    thirds of (mode - min) and up by half of (max - mode); otherwise down by
    half and up in thirds. Each level is the rounded value of that expression.
  */
  function Levels(mn: int, mx: int, sum: int, mode: int, len: nat): (lv: seq<int>)
    requires 0 <= mn <= mode <= mx && len > 0
    ensures |lv| == 4
    ensures mn <= lv[0] <= lv[1] <= lv[2] <= lv[3] <= mx
    ensures MeanBelowMode(sum, mode, len) ==>
              lv[2] == mode &&
              -1 <= 3 * lv[0] - (3 * mode - 2 * (mode - mn)) <= 1 &&
              -1 <= 3 * lv[1] - (3 * mode - (mode - mn)) <= 1 &&
              0 <= 2 * lv[3] - (2 * mode + (mx - mode)) <= 1
    ensures !MeanBelowMode(sum, mode, len) ==>
              lv[1] == mode &&
              0 <= 2 * lv[0] - (2 * mode - (mode - mn)) <= 1 &&
              -1 <= 3 * lv[2] - (3 * mode + (mx - mode)) <= 1 &&
              -1 <= 3 * lv[3] - (3 * mode + 2 * (mx - mode)) <= 1
  {
    var down, up := mode - mn, mx - mode;
    if MeanBelowMode(sum, mode, len) then
      [mode - (2 * down + 1) / 3, mode - (down + 1) / 3, mode, mode + (up + 1) / 2]
    else
      [mode - down / 2, mode, mode + (up + 1) / 3, mode + (2 * up + 1) / 3]
  }

  /** The levels of a block of scores: its mode is its last score, since `mode_freq` stays 0. */
  function LevelsOf(s: seq<int>): (lv: seq<int>)
    requires 0 < |s| && AreScores(s)
    ensures |lv| == 4 && forall l :: 0 <= l < 4 ==> 0 <= lv[l] < 128
  {
    MinMaxBounds(s);
    Levels(MinScore(s), MaxScore(s), Sum(s), s[|s| - 1], |s|)
  }

  function BlockLevels(q: string, b: nat): (lv: seq<int>)
    requires IsPhredAscii(q) && b < CeilDiv(|q|, 128)
    ensures |lv| == 4 && forall l :: 0 <= l < 4 ==> 0 <= lv[l] < 128
  {
    LevelsOf(Block(q, b))
  }

  /** `std::abs(a - b)` */
  function Dist(a: int, b: int): nat
  {
    if a >= b then a - b else b - a
  }

  /** m is the lowest index whose level is nearest to v. */
  ghost predicate IsNearest(v: int, lv: seq<int>, m: nat)
    requires |lv| == 4
  {
    m < 4 &&
    (forall l :: 0 <= l < 4 ==> Dist(v, lv[m]) <= Dist(v, lv[l])) &&
    (forall l :: 0 <= l < m ==> Dist(v, lv[l]) > Dist(v, lv[m]))
  }

  /** The nearest level, defined directly: the first index attaining the least distance. */
  function NearestIndex(v: int, lv: seq<int>): (m: nat)
    requires |lv| == 4
    ensures m < 4 && IsNearest(v, lv, m)
  {
    var d0, d1, d2, d3 := Dist(v, lv[0]), Dist(v, lv[1]), Dist(v, lv[2]), Dist(v, lv[3]);
    var least := Min(Min(d0, d1), Min(d2, d3));
    if d0 == least then 0 else if d1 == least then 1 else if d2 == least then 2 else 3
  }

  /** The scan over l = 1..3 with strict `<`: it keeps the first of equally near levels. */
  method NearestLevel(v: int, lv: seq<int>) returns (m: nat)
    requires |lv| == 4
    ensures IsNearest(v, lv, m) && m == NearestIndex(v, lv)
  {
    m := 0;
    var l := 1;
    while l < 4
      invariant 1 <= l <= 4 && m < l
      invariant forall t :: 0 <= t < l ==> Dist(v, lv[m]) <= Dist(v, lv[t])
      invariant forall t :: 0 <= t < m ==> Dist(v, lv[t]) > Dist(v, lv[m])
    {
      if Dist(v, lv[l]) < Dist(v, lv[m]) {
        m := l;
      }
      l := l + 1;
    }
  }

  /** The big-endian word of byte values: the first level lands in the most significant byte. */
  function LevelWord(lv: seq<int>): nat
    requires forall l :: 0 <= l < |lv| ==> 0 <= lv[l] < 256
  {
    if lv == [] then 0 else LevelWord(lv[..|lv| - 1]) * 256 + lv[|lv| - 1]
  }

  function Pow256(k: nat): (r: nat)
    ensures r > 0
  {
    if k == 0 then 1 else 256 * Pow256(k - 1)
  }

  /** `(w >> 8k) & 255` */
  function Byte(w: nat, k: nat): (r: nat)
    ensures r < 256
  {
    if k == 0 then w % 256 else Byte(w / 256, k - 1)
  }

  /** Byte k from the low end of the level word is level |lv| - 1 - k, and the word has |lv| bytes. */
  lemma {:induction false} LevelWordBytes(lv: seq<int>)
    requires forall l :: 0 <= l < |lv| ==> 0 <= lv[l] < 256
    ensures LevelWord(lv) < Pow256(|lv|)
    ensures forall m :: 0 <= m < |lv| ==> Byte(LevelWord(lv), |lv| - 1 - m) == lv[m]
  {
    if lv != [] {
      var init := lv[..|lv| - 1];
      LevelWordBytes(init);
      var w := LevelWord(lv);
      assert w == LevelWord(init) * 256 + lv[|lv| - 1];
      assert w / 256 == LevelWord(init);
      forall m | 0 <= m < |lv|
        ensures Byte(w, |lv| - 1 - m) == lv[m]
      {
        if m < |lv| - 1 {
          assert Byte(w, |lv| - 1 - m) == Byte(LevelWord(init), |init| - 1 - m);
          assert init[m] == lv[m];
        }
      }
    }
  }

  /** `level <<= 8; level |= it` over the four levels (the low byte is zero before each OR). */
  method PackLevels(lv: seq<int>) returns (level: nat)
    requires |lv| == 4 && forall l :: 0 <= l < 4 ==> 0 <= lv[l] < 128
    ensures level == LevelWord(lv) && level < 0x1_0000_0000
  {
    level := 0;
    var t := 0;
    while t < 4
      invariant 0 <= t <= 4
      invariant level == LevelWord(lv[..t])
    {
      assert lv[..t + 1][..t] == lv[..t];
      level := level * 256 + lv[t];
      t := t + 1;
    }
    assert lv[..4] == lv;
    LevelWordBytes(lv);
  }

  /** The code stored for score k: 3 - (index of its block's nearest level). */
  function QuantCodes(q: string): (cs: seq<nat>)
    requires IsPhredAscii(q)
    ensures |cs| == |q| && AreCodes(cs)
  {
    seq(|q|, k requires 0 <= k < |q| => 3 - NearestIndex(Scores(q)[k], BlockLevels(q, k / 128)))
  }

  /** One level word per block. */
  function LevelWords(q: string): (ws: seq<nat>)
    requires IsPhredAscii(q)
    ensures |ws| == CeilDiv(|q|, 128)
  {
    seq(CeilDiv(|q|, 128), b requires 0 <= b < CeilDiv(|q|, 128) => LevelWord(BlockLevels(q, b)))
  }

  /** A position below n lies in one of the ceil(n / 32) code words and ceil(n / 128) level words. */
  lemma WordIndex(p: nat, n: nat)
    requires p < n
    ensures p / 32 < CeilDiv(n, 32) && p / 128 < CeilDiv(n, 128)
  {
  }

  /**
    What position p decodes to: one of the four levels of its block, namely
    the one nearest to its original score (the lowest such level on a tie).
  */
  function Reconstructed(q: string, p: nat): (s: int)
    requires IsPhredAscii(q) && p < |q|
    ensures 0 <= s < 128
  {
    WordIndex(p, |q|);
    var lv := BlockLevels(q, p / 128);
    lv[NearestIndex(Scores(q)[p], lv)]
  }

  /** The reconstructed score is one of the block's four levels, one nearest to the original score. */
  lemma ReconstructedIsNearestLevel(q: string, p: nat)
    requires IsPhredAscii(q) && p < |q|
    ensures p / 128 < CeilDiv(|q|, 128)
    ensures var lv := BlockLevels(q, p / 128);
            exists m :: 0 <= m < 4 && Reconstructed(q, p) == lv[m] && IsNearest(Scores(q)[p], lv, m)
  {
    WordIndex(p, |q|);
    var lv := BlockLevels(q, p / 128);
    var m := NearestIndex(Scores(q)[p], lv);
    assert Reconstructed(q, p) == lv[m];
  }

  /** Every reconstructed score lies between the least and greatest score of its block. */
  lemma ReconstructedInRange(q: string, p: nat)
    requires IsPhredAscii(q) && p < |q|
    ensures p / 128 < CeilDiv(|q|, 128)
    ensures MinScore(Block(q, p / 128)) <= Reconstructed(q, p) <= MaxScore(Block(q, p / 128))
  {
    WordIndex(p, |q|);
    MinMaxBounds(Block(q, p / 128));
  }

  /** A score that is itself one of its block's levels is reconstructed exactly. */
  lemma ExactOnLevel(q: string, p: nat, l: nat)
    requires IsPhredAscii(q) && p < |q| && l < 4
    requires p / 128 < CeilDiv(|q|, 128) && BlockLevels(q, p / 128)[l] == Scores(q)[p]
    ensures Reconstructed(q, p) == Scores(q)[p]
  {
    var lv := BlockLevels(q, p / 128);
    var v := Scores(q)[p];
    var m := NearestIndex(v, lv);
    assert Dist(v, lv[m]) <= Dist(v, lv[l]) == 0;
    assert Reconstructed(q, p) == lv[m];
  }

  /** The last score of every block is its "mode", hence a level, hence reconstructed exactly. */
  lemma BlockLastExact(q: string, b: nat)
    requires IsPhredAscii(q) && 128 * b < |q|
    ensures Reconstructed(q, Min(128 * b + 128, |q|) - 1) == Scores(q)[Min(128 * b + 128, |q|) - 1]
  {
    var p := Min(128 * b + 128, |q|) - 1;
    BlockAligned(b, p);
    var s := Block(q, b);
    assert s[|s| - 1] == Scores(q)[p];
    var lv := BlockLevels(q, b);
    if MeanBelowMode(Sum(s), s[|s| - 1], |s|) {
      ExactOnLevel(q, p, 2);
    } else {
      ExactOnLevel(q, p, 1);
    }
  }

  /** A block whose scores are all v gets four levels equal to v. */
  lemma ConstantBlockLevels(s: seq<int>, v: int)
    requires 0 < |s| && AreScores(s) && forall k :: 0 <= k < |s| ==> s[k] == v
    ensures LevelsOf(s) == [v, v, v, v]
  {
    MinMaxBounds(s);
  }

  /** In a quality string of one repeated character every score is reconstructed exactly. */
  lemma ConstantReconstructed(q: string, p: nat)
    requires IsPhredAscii(q) && p < |q| && forall k :: 0 <= k < |q| ==> q[k] == q[0]
    ensures Reconstructed(q, p) == Scores(q)[p]
  {
    WordIndex(p, |q|);
    var s := Block(q, p / 128);
    var v := q[0] as int - 33;
    assert forall t :: 0 <= t < |s| ==> s[t] == v;
    ConstantBlockLevels(s, v);
    ExactOnLevel(q, p, 0);
  }

  /** In a quality string of one repeated character every score is coded 3 (nearest to level 0). */
  lemma ConstantCodes(q: string, p: nat)
    requires IsPhredAscii(q) && p < |q| && forall k :: 0 <= k < |q| ==> q[k] == q[0]
    ensures QuantCodes(q)[p] == 3
  {
    WordIndex(p, |q|);
    var s := Block(q, p / 128);
    var v := q[0] as int - 33;
    assert forall t :: 0 <= t < |s| ==> s[t] == v;
    ConstantBlockLevels(s, v);
    assert NearestIndex(v, [v, v, v, v]) == 0;
  }

  /** Reading position p back: the level byte its code selects is its reconstructed score. */
  lemma DecodeScore(q: string, p: nat)
    requires IsPhredAscii(q) && p < |q|
    ensures p / 32 < |Pack(QuantCodes(q))| && p / 128 < |LevelWords(q)|
    ensures Byte(LevelWords(q)[p / 128], Field(Pack(QuantCodes(q))[p / 32], p % 32)) == Reconstructed(q, p)
  {
    var codes := QuantCodes(q);
    PackFields(codes);
    WordIndex(p, |q|);
    var lv := BlockLevels(q, p / 128);
    var m := NearestIndex(Scores(q)[p], lv);
    assert codes[p] == 3 - m;
    LevelWordBytes(lv);
    assert LevelWords(q)[p / 128] == LevelWord(lv);
  }

  /**
    The statistics loop over one block. `freqs` is a fresh array of uint8
    counters; `++freqs[v] > mode_freq` is always true because `mode_freq` is
    never raised from 0 and a counter cannot wrap within 128 scores, so the
    mode ends up as the last score.
  */
  method BlockStats(q: string, i: nat, j: nat) returns (mn: int, mx: int, sum: int, mode: int)
    requires IsPhredAscii(q) && i < j <= |q| && j - i <= 128
    ensures var s := Scores(q)[i..j];
              mn == MinScore(s) && mx == MaxScore(s) && sum == Sum(s) && mode == s[|s| - 1]
  {
    ghost var s := Scores(q)[i..j];
    var freqs := new nat[128](_ => 0);
    mn, mx, sum, mode := 255, 0, 0, 0;
    var modeFreq := 0;
    var k := i;
    while k < j
      invariant i <= k <= j
      invariant mn == MinScore(s[..k - i]) && mx == MaxScore(s[..k - i]) && sum == Sum(s[..k - i])
      invariant k > i ==> mode == s[k - i - 1]
      invariant modeFreq == 0
      invariant forall x :: 0 <= x < 128 ==> freqs[x] <= k - i
    {
      assert s[..k + 1 - i][..k - i] == s[..k - i];
      var v := q[k] as int - 33;
      assert v == Scores(q)[k] == s[k - i];
      if v < mn {
        mn := v;
      }
      if v > mx {
        mx := v;
      }
      sum := sum + v;
      freqs[v] := (freqs[v] + 1) % 256;
      if freqs[v] > modeFreq {
        mode := v;
      }
      k := k + 1;
    }
    assert s[..j - i] == s;
  }

  /** Block b starts on a word boundary, and every position of it lies in block b. */
  lemma BlockAligned(b: nat, k: nat)
    requires 128 * b <= k < 128 * b + 128
    ensures (128 * b) % 32 == 0 && k / 128 == b
  {
  }

  /** A block that starts before the end is one of the ceil(n / 128) blocks. */
  lemma BlockInRange(n: nat, b: nat)
    requires 128 * b < n
    ensures b < CeilDiv(n, 128)
  {
  }

  /**
    The code loop of one block [i, j): each score's code 3 - m goes into its
    2-bit field; a word is flushed every 32 scores and at the block's end.
    Positions [i, j) of `codes` are the codes against `levels`.
  */
  method QuantizeBlock(q: string, i: nat, j: nat, levels: seq<int>, ghost codes: seq<nat>, deflated: seq<nat>)
    returns (words: seq<nat>)
    requires |levels| == 4 && i % 32 == 0 && i < j <= |q| == |codes|
    requires CodedAgainst(q, codes, i, j, levels)
    requires deflated == Pack(codes[..i])
    ensures words == Pack(codes[..j])
  {
    words := deflated;
    var block: nat := 0;
    ghost var full, part := codes[..i], [];
    assert WordOf([]) == 0;
    var k := i;
    while k < j
      invariant i <= k <= j && full + part == codes[..k]
      invariant k < j ==> Packed(words, block, full, part)
      invariant k == j ==> words == Pack(full) && part == []
    {
      var m := NearestLevel(q[k] as int - 33, levels);
      var code := 3 - m;
      var next := block + Place(code, k % 32);
      var flush := (k + 1) % 32 == 0 || k == j - 1;
      assert codes[k] == code;
      TakeSnoc(codes, k);
      PackIteration(words, block, full, part, code, k, next, flush, k == j - 1);
      if flush {
        words := words + [next];
        block := 0;
        full, part := full + part + [code], [];
        assert full + part == full;
      } else {
        block := next;
        assert full + (part + [code]) == full + part + [code];
        part := part + [code];
      }
      k := k + 1;
    }
    assert full + part == full;
  }

  /** Lines 80-121 of the constructor for block b: its statistics, then its four levels. */
  method ComputeLevels(q: string, i: nat, j: nat, ghost b: nat) returns (levels: seq<int>)
    requires IsPhredAscii(q) && i == 128 * b && i < |q| && j == Min(i + 128, |q|)
    ensures b < CeilDiv(|q|, 128) && levels == BlockLevels(q, b)
  {
    BlockInRange(|q|, b);
    var mn, mx, sum, mode := BlockStats(q, i, j);
    MinMaxBounds(Block(q, b));
    levels := Levels(mn, mx, sum, mode, j - i);
  }

  /** Positions [i, j) of `codes` hold 3 - (index of the level nearest to the score). */
  predicate CodedAgainst(q: string, codes: seq<nat>, i: nat, j: nat, levels: seq<int>)
    requires |levels| == 4 && i <= j <= |q| == |codes|
  {
    forall k :: i <= k < j ==> codes[k] == 3 - NearestIndex(q[k] as int - 33, levels)
  }

  /** Every score of block b is coded against the levels of block b. */
  lemma BlockCodes(q: string, b: nat, levels: seq<int>)
    requires IsPhredAscii(q) && b < CeilDiv(|q|, 128) && levels == BlockLevels(q, b)
    ensures (128 * b) % 32 == 0
    ensures CodedAgainst(q, QuantCodes(q), 128 * b, Min(128 * b + 128, |q|), levels)
  {
    BlockAligned(b, 128 * b);
    forall k | 128 * b <= k < Min(128 * b + 128, |q|)
      ensures QuantCodes(q)[k] == 3 - NearestIndex(q[k] as int - 33, levels)
    {
      BlockAligned(b, k);
    }
  }

  /** Appending block b's level word extends the level words of the first b blocks. */
  lemma LevelWordsSnoc(q: string, b: nat, level: nat)
    requires IsPhredAscii(q) && b < CeilDiv(|q|, 128) && level == LevelWord(BlockLevels(q, b))
    ensures LevelWords(q)[..b + 1] == LevelWords(q)[..b] + [level]
  {
    var words := LevelWords(q);
    assert words[b] == level;
  }

  /** The block loop stops after ceil(n / 128) blocks. */
  lemma BlockCount(n: nat, b: nat)
    requires n <= 128 * b < n + 128
    ensures b == CeilDiv(n, 128)
  {
  }

  /**
    One pass of the block loop for the block b starting at i = 128 b: its
    levels, the codes of its scores appended to `deflated`, and its level
    word appended to `qlvl`.
  */
  method DeflateBlock(q: string, i: nat, ghost b: nat, deflated: seq<nat>, qlvl: seq<nat>)
    returns (deflatedNext: seq<nat>, qlvlNext: seq<nat>)
    requires IsPhredAscii(q) && i == 128 * b && i < |q|
    requires deflated == Pack(QuantCodes(q)[..i]) && b < |LevelWords(q)| && qlvl == LevelWords(q)[..b]
    ensures deflatedNext == Pack(QuantCodes(q)[..Min(i + 128, |q|)]) && qlvlNext == LevelWords(q)[..b + 1]
  {
    var j := Min(i + 128, |q|);
    var levels := ComputeLevels(q, i, j, b);
    BlockCodes(q, b, levels);
    deflatedNext := QuantizeBlock(q, i, j, levels, QuantCodes(q), deflated);
    var level := PackLevels(levels);
    LevelWordsSnoc(q, b, level);
    qlvlNext := qlvl + [level];
  }

  /**
    The quality half of the exp constructor: per block, its statistics and
    levels, then the codes of its scores, then its level word. The loop runs
    i = 128 b over the block starts.
  */
  method DeflateQuality(q: string) returns (deflated: seq<nat>, qlvl: seq<nat>)
    requires IsPhredAscii(q)
    ensures deflated == Pack(QuantCodes(q))
    ensures qlvl == LevelWords(q)
  {
    ghost var codes := QuantCodes(q);
    ghost var words := LevelWords(q);
    deflated, qlvl := [], [];
    var i: nat := 0;
    ghost var b, done: nat := 0, 0;
    while i < |q|
      invariant i == 128 * b && i < |q| + 128
      invariant done == Min(i, |q|) && deflated == Pack(codes[..done])
      invariant b <= |words| && qlvl == words[..b]
    {
      BlockInRange(|q|, b);
      deflated, qlvl := DeflateBlock(q, i, b, deflated, qlvl);
      i, b, done := i + 128, b + 1, Min(i + 128, |q|);
    }
    BlockCount(|q|, b);
    assert codes[..|q|] == codes;
  }
}
