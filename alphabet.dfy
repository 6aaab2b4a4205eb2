/**
  The alphabet of biosoup::NucleicAcid: the 128-entry byte table that turns a
  nucleotide letter into its 2-bit code (A = 0, C = 1, G = 2, T = 3) and the
  four-letter table that turns a code back into a letter.
*/
module Alphabet {
  import opened Wrappers

  /** A 2-bit nucleotide code. */
  type Code = c: nat | c < 4

  /** The table's mark for a byte that is not a nucleotide. */
  const NotANucleotide: nat := 255

  /** kNucleotideCoder, laid out as in the header: 16 rows of 8 entries. */
  const CoderRows: seq<seq<nat>> := [
    [255, 255, 255, 255, 255, 255, 255, 255],
    [255, 255, 255, 255, 255, 255, 255, 255],
    [255, 255, 255, 255, 255, 255, 255, 255],
    [255, 255, 255, 255, 255, 255, 255, 255],
    [255, 255, 255, 255, 255, 255, 255, 255],
    [255, 255, 255, 255, 255,   0, 255, 255],
    [255, 255, 255, 255, 255, 255, 255, 255],
    [255, 255, 255, 255, 255, 255, 255, 255],
    [255,   0,   1,   1,   0, 255, 255,   2],
    [3, 255, 255,   2, 255,   1,   0, 255],
    [255, 255,   0,   1,   3,   3,   2,   0],
    [255,   3, 255, 255, 255, 255, 255, 255],
    [255,   0,   1,   1,   0, 255, 255,   2],
    [3, 255, 255,   2, 255,   1,   0, 255],
    [255, 255,   0,   1,   3,   3,   2,   0],
    [255,   3, 255, 255, 255, 255, 255, 255]
  ]

  /** kNucleotideCoder[b]; the table has no entry for bytes >= 128. */
  function NucleotideCoder(b: nat): nat
    requires b < 128
  {
    CoderRows[b / 8][b % 8]
  }

  /** kNucleotideDecoder */
  const NucleotideDecoder: string := "ACGT"

  /** The bytes the table has an entry for. */
  predicate IsAscii(s: string)
  {
    forall k :: 0 <= k < |s| ==> s[k] < 128 as char
  }

  /**
    The reading of the table the rest of the model uses: None where the table
    holds 255.
  */
  function Coder(c: char): (r: Option<Code>)
    requires c < 128 as char
  {
    CoderIsIupac(c);
    var e := NucleotideCoder(c as int);
    if e == NotANucleotide then None else Some(e)
  }

  /**
    The same alphabet described letter by letter: A, C, G, T in either case;
    each IUPAC ambiguity letter collapsed to one fixed base (R, D, W, N to A;
    M, S, B to C; K, V to G; Y, H to T); U as T; and '-' as A.
  */
  function Iupac(c: char): Option<Code>
  {
    match c
    case 'A' | 'a' | 'R' | 'r' | 'D' | 'd' | 'W' | 'w' | 'N' | 'n' | '-' => Some(0)
    case 'C' | 'c' | 'M' | 'm' | 'S' | 's' | 'B' | 'b' => Some(1)
    case 'G' | 'g' | 'K' | 'k' | 'V' | 'v' => Some(2)
    case 'T' | 't' | 'U' | 'u' | 'Y' | 'y' | 'H' | 'h' => Some(3)
    case _ => None
  }

  /** Every one of the 128 table entries agrees with the letter-by-letter alphabet. */
  lemma CoderIsIupac(c: char)
    requires c < 128 as char
    ensures var e := NucleotideCoder(c as int);
            if e == NotANucleotide then Iupac(c) == None else e < 4 && Iupac(c) == Some(e)
  {
    if c < 64 as char {
      CoderIsIupacLow(c);
    } else if c < 96 as char {
      CoderIsIupacUpper(c);
    } else {
      CoderIsIupacLower(c);
    }
  }

  lemma CoderIsIupacLow(c: char)
    requires 0 as char <= c < 64 as char
    ensures var e := NucleotideCoder(c as int);
            if e == NotANucleotide then Iupac(c) == None else e < 4 && Iupac(c) == Some(e)
  {
  }

  lemma CoderIsIupacUpper(c: char)
    requires 64 as char <= c < 96 as char
    ensures var e := NucleotideCoder(c as int);
            if e == NotANucleotide then Iupac(c) == None else e < 4 && Iupac(c) == Some(e)
  {
  }

  lemma CoderIsIupacLower(c: char)
    requires 96 as char <= c < 128 as char
    ensures var e := NucleotideCoder(c as int);
            if e == NotANucleotide then Iupac(c) == None else e < 4 && Iupac(c) == Some(e)
  {
  }

  /** The table, read as an Option, is the letter-by-letter alphabet. */
  lemma CoderMatchesIupac(c: char)
    requires c < 128 as char
    ensures Coder(c) == Iupac(c)
  {
    CoderIsIupac(c);
  }

  /** exp::kNucleotideCoder, laid out as in the experimental header: rows of 15 entries. */
  const ExpCoderRows: seq<seq<nat>> := [
    [255, 255, 255, 255, 255, 255, 255, 255, 255, 255, 255, 255, 255, 255, 255],
    [255, 255, 255, 255, 255, 255, 255, 255, 255, 255, 255, 255, 255, 255, 255],
    [255, 255, 255, 255, 255, 255, 255, 255, 255, 255, 255, 255, 255, 255, 255],
    [  0, 255, 255, 255, 255, 255, 255, 255, 255, 255, 255, 255, 255, 255, 255],
    [255, 255, 255, 255, 255,   0,   1,   1,   0, 255, 255,   2,   3, 255, 255],
    [  2, 255,   1,   0, 255, 255, 255,   0,   1,   3,   3,   2,   0, 255,   3],
    [255, 255, 255, 255, 255, 255, 255,   0,   1,   1,   0, 255, 255,   2,   3],
    [255, 255,   2, 255,   1,   0, 255, 255, 255,   0,   1,   3,   3,   2,   0],
    [255,   3, 255, 255, 255, 255, 255, 255]
  ]

  /** exp::kNucleotideCoder[b] */
  function ExpNucleotideCoder(b: nat): nat
    requires b < 128
  {
    ExpCoderRows[b / 15][b % 15]
  }

  /** The experimental table describes the same letter-by-letter alphabet. */
  lemma ExpCoderIsIupac(c: char)
    requires c < 128 as char
    ensures var e := ExpNucleotideCoder(c as int);
            if e == NotANucleotide then Iupac(c) == None else e < 4 && Iupac(c) == Some(e)
  {
    if c < 64 as char {
      ExpCoderIsIupacLow(c);
    } else if c < 96 as char {
      ExpCoderIsIupacUpper(c);
    } else {
      ExpCoderIsIupacLower(c);
    }
  }

  lemma ExpCoderIsIupacLow(c: char)
    requires 0 as char <= c < 64 as char
    ensures var e := ExpNucleotideCoder(c as int);
            if e == NotANucleotide then Iupac(c) == None else e < 4 && Iupac(c) == Some(e)
  {
  }

  lemma ExpCoderIsIupacUpper(c: char)
    requires 64 as char <= c < 96 as char
    ensures var e := ExpNucleotideCoder(c as int);
            if e == NotANucleotide then Iupac(c) == None else e < 4 && Iupac(c) == Some(e)
  {
  }

  lemma ExpCoderIsIupacLower(c: char)
    requires 96 as char <= c < 128 as char
    ensures var e := ExpNucleotideCoder(c as int);
            if e == NotANucleotide then Iupac(c) == None else e < 4 && Iupac(c) == Some(e)
  {
  }

  /** The two headers' tables agree on every byte, so both variants pack bases alike. */
  lemma CoderTablesAgree(b: nat)
    requires b < 128
    ensures ExpNucleotideCoder(b) == NucleotideCoder(b)
  {
    CoderIsIupac(b as char);
    ExpCoderIsIupac(b as char);
  }

}
