/** The fixed glyph tables of the milesian numeral system and the case selector.
    Each table has nine rows (digit values 1..9) and two columns (lower, upper case). */
module Glyphs {

  datatype Option<T> = None | Some(value: T)

  /** The letterform requested by the caller. */
  datatype Case = Lower | Upper

  /** The table column a case selects. */
  function Column(c: Case): (col: nat)
    ensures col < 2
    ensures col == 0 <==> c == Lower
  {
    match c
    case Lower => 0
    case Upper => 1
  }

  /** Greek Zero Sign, U+1018A: the whole rendering of 0, in either case. */
  const ZeroSign: char := '\U{1018A}'
  /** The keraia, U+0374, closing a numeral whose thousands digit is 0. */
  const Keraia: char := '\U{0374}'
  /** The myriad letter (Greek capital Mu, U+039C) following a myriad prefix. */
  const MyriadSign: char := 'Μ'
  /** Put between two rendered chunks. */
  const Separator: string := ", "

  /** A table row: the lowercase and the uppercase glyph of one digit value. */
  type Row = r: seq<string> | |r| == 2 witness ["", ""]

  /** A table: the rows of digit values 1 to 9. */
  type Table = t: seq<Row> | |t| == 9 witness [["", ""], ["", ""], ["", ""], ["", ""], ["", ""], ["", ""], ["", ""], ["", ""], ["", ""]]

  /** Thousands glyphs: U+0375 (lower numeral sign) followed by the letter. */
  const Thousands: Table := [
    ["͵α", "͵Α"],
    ["͵β", "͵Β"],
    ["͵γ", "͵Γ"],
    ["͵δ", "͵Δ"],
    ["͵ε", "͵Ε"],
    ["͵ϛ", "͵Ϛ"],
    ["͵ζ", "͵Ζ"],
    ["͵η", "͵Η"],
    ["͵θ", "͵Θ"]
  ]

  const Hundreds: Table := [
    ["ρ", "Ρ"],
    ["σ", "Σ"],
    ["τ", "Τ"],
    ["υ", "Υ"],
    ["φ", "Φ"],
    ["χ", "Χ"],
    ["ψ", "Ψ"],
    ["ω", "Ω"],
    ["ϡ", "Ϡ"]
  ]

  /** Row 9 pairs small archaic koppa U+03D9 with KOPPA U+03DE (not its own capital U+03D8). */
  const Tens: Table := [
    ["ι", "Ι"],
    ["κ", "Κ"],
    ["λ", "Λ"],
    ["μ", "Μ"],
    ["ν", "Ν"],
    ["ξ", "Ξ"],
    ["ο", "Ο"],
    ["π", "Π"],
    ["ϙ", "Ϟ"]
  ]

  const Ones: Table := [
    ["α", "Α"],
    ["β", "Β"],
    ["γ", "Γ"],
    ["δ", "Δ"],
    ["ε", "Ε"],
    ["ϛ", "Ϛ"],
    ["ζ", "Ζ"],
    ["η", "Η"],
    ["θ", "Θ"]
  ]

  /** The lower numeral sign U+0375 that opens every thousands glyph. */
  const LowerNumeralSign: char := '\U{0375}'

  /** Each thousands glyph is the lower numeral sign followed by the ones glyph of the same
      digit value and case. */
  lemma ThousandsFromOnes()
    ensures forall i, col :: 0 <= i < 9 && 0 <= col < 2 ==> Thousands[i][col] == [LowerNumeralSign] + Ones[i][col]
  {
  }

  /** The keraia is U+0374 GREEK NUMERAL SIGN (not U+02B9 MODIFIER LETTER PRIME, its
      normalised form), distinct from the lower numeral sign and absent from every glyph. */
  lemma KeraiaSign()
    ensures Keraia == '\U{0374}' && Keraia != '\U{02B9}' && Keraia != LowerNumeralSign
    ensures PunctuationFreeTable(Thousands) && PunctuationFreeTable(Ones)
  {
    ThousandsLegible();
    OnesLegible();
  }

  /** The four tables of a numeral system, in the order thousands, hundreds, tens, ones. */
  datatype NumeralTables = NumeralTables(thousands: Table, hundreds: Table, tens: Table, ones: Table)

  /** The tables `to_greek` uses. */
  const Milesian: NumeralTables := NumeralTables(Thousands, Hundreds, Tens, Ones)

  /** The four place values of a chunk. */
  datatype Place = ThousandsPlace | HundredsPlace | TensPlace | OnesPlace

  function TableAt(g: NumeralTables, p: Place): Table
  {
    match p
    case ThousandsPlace => g.thousands
    case HundredsPlace => g.hundreds
    case TensPlace => g.tens
    case OnesPlace => g.ones
  }

  /** No glyph is empty. */
  predicate NonEmptyTable(t: Table)
  {
    forall i, col :: 0 <= i < 9 && 0 <= col < 2 ==> |t[i][col]| > 0
  }

  /** No glyph holds a character of the separator or the keraia. */
  predicate PunctuationFreeTable(t: Table)
  {
    forall i, col :: 0 <= i < 9 && 0 <= col < 2 ==>
      ',' !in t[i][col] && ' ' !in t[i][col] && Keraia !in t[i][col]
  }

  /** The properties of the glyph tables the rendering relies on. */
  predicate Legible(g: NumeralTables)
  {
    NonEmptyTable(g.thousands) && NonEmptyTable(g.hundreds) && NonEmptyTable(g.tens) && NonEmptyTable(g.ones)
      && PunctuationFreeTable(g.thousands) && PunctuationFreeTable(g.hundreds)
      && PunctuationFreeTable(g.tens) && PunctuationFreeTable(g.ones)
  }

  lemma MilesianLegible()
    ensures Legible(Milesian)
  {
    ThousandsLegible();
    HundredsLegible();
    TensLegible();
    OnesLegible();
  }

  lemma ThousandsLegible()
    ensures NonEmptyTable(Thousands) && PunctuationFreeTable(Thousands)
  {
  }

  lemma HundredsLegible()
    ensures NonEmptyTable(Hundreds) && PunctuationFreeTable(Hundreds)
  {
  }

  lemma TensLegible()
    ensures NonEmptyTable(Tens) && PunctuationFreeTable(Tens)
  {
  }

  lemma OnesLegible()
    ensures NonEmptyTable(Ones) && PunctuationFreeTable(Ones)
  {
  }

  /** What a digit at place `p` contributes: nothing for 0, otherwise the table entry of its row. */
  function Glyph(g: NumeralTables, p: Place, d: nat, col: nat): (r: string)
    requires d <= 9 && col < 2
    ensures d == 0 ==> r == []
  {
    if d == 0 then [] else TableAt(g, p)[d - 1][col]
  }

  /** With non-empty glyphs, a digit shows exactly when it is not 0. */
  lemma GlyphShows(g: NumeralTables, p: Place, d: nat, col: nat)
    requires Legible(g) && d <= 9 && col < 2
    ensures |Glyph(g, p, d, col)| > 0 <==> d != 0
  {
    if d != 0 {
      assert NonEmptyTable(TableAt(g, p));
    }
  }

  /** The myriad prefix for a myriad power: none for power 0, otherwise the lowercase
      ones glyph of the power. `get_M_prefix` panics for a power above 9. */
  function MyriadPrefix(g: NumeralTables, power: nat): (r: Option<string>)
    requires power <= 9
    ensures r.None? <==> power == 0
    ensures r.Some? ==> r.value == Glyph(g, OnesPlace, power, Column(Lower))
  {
    if power == 0 then None else Some(g.ones[power - 1][0])
  }

  /** The marker a chunk of the given myriad power starts with: the prefix and the myriad letter. */
  function MyriadMarker(g: NumeralTables, power: nat): (m: string)
    requires power <= 9
    ensures power == 0 <==> |m| == 0
  {
    match MyriadPrefix(g, power)
    case None => []
    case Some(prefix) => prefix + [MyriadSign]
  }

  /** In the Milesian tables distinct myriad powers get distinct markers, so a marker names its power. */
  lemma MyriadMarkerInjective(p: nat, q: nat)
    requires p <= 9 && q <= 9
    requires MyriadMarker(Milesian, p) == MyriadMarker(Milesian, q)
    ensures p == q
  {
    if p != 0 && q != 0 {
      assert MyriadMarker(Milesian, p)[0] == Ones[p - 1][0][0];
      assert MyriadMarker(Milesian, q)[0] == Ones[q - 1][0][0];
    }
  }

  /** Neither a glyph nor a myriad marker contains the separator's characters or the keraia. */
  lemma GlyphPunctuationFree(g: NumeralTables, p: Place, d: nat, col: nat)
    requires Legible(g) && d <= 9 && col < 2
    ensures ',' !in Glyph(g, p, d, col) && ' ' !in Glyph(g, p, d, col) && Keraia !in Glyph(g, p, d, col)
  {
    assert PunctuationFreeTable(TableAt(g, p));
  }

  lemma MyriadMarkerPunctuationFree(g: NumeralTables, power: nat)
    requires Legible(g) && power <= 9
    ensures ',' !in MyriadMarker(g, power) && ' ' !in MyriadMarker(g, power)
    ensures Keraia !in MyriadMarker(g, power)
  {
    if power != 0 {
      GlyphPunctuationFree(g, OnesPlace, power, 0);
    }
  }
}
