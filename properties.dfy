/** What the rendering promises, stated over the declarative model: skipped chunks,
    the myriad counter, separators, the keraia, the case-independent myriad marker,
    and the short numerals. */
module Properties {
  import opened Glyphs
  import opened Digits
  import opened Render

  /** Filtering out zero chunks distributes over concatenation. */
  lemma {:induction false} RenderedConcat(a: seq<Chunk>, b: seq<Chunk>)
    ensures Rendered(a + b) == Rendered(a) + Rendered(b)
    decreases |b|
  {
    if b == [] {
      assert a + b == a;
      assert Rendered(a) + [] == Rendered(a);
    } else {
      var init := b[..|b| - 1];
      var last := b[|b| - 1];
      assert (a + b)[..|a + b| - 1] == a + init;
      assert (a + b)[|a + b| - 1] == last;
      RenderedConcat(a, init);
    }
  }

  /** An all-zero chunk anywhere in the sequence changes nothing that gets rendered. */
  lemma ZeroChunkInvisible(a: seq<Chunk>, z: Chunk, b: seq<Chunk>)
    requires IsZeroChunk(z)
    ensures Rendered(a + [z] + b) == Rendered(a + b)
  {
    RenderedConcat(a + [z], b);
    RenderedConcat(a, [z]);
    RenderedConcat(a, b);
    assert [z][..0] == [];
    assert Rendered([z]) == [];
    assert Rendered(a) + [] == Rendered(a);
  }

  /** Without all-zero chunks every chunk is rendered. */
  lemma {:induction false} RenderedNoZero(cs: seq<Chunk>)
    requires forall i :: 0 <= i < |cs| ==> !IsZeroChunk(cs[i])
    ensures Rendered(cs) == cs
  {
    if cs != [] {
      var init := cs[..|cs| - 1];
      RenderedNoZero(init);
      assert init + [cs[|cs| - 1]] == cs;
    }
  }

  /** Without all-zero chunks the counter matches the place: the j-th of the chunks is
      rendered with myriad power (chunk count - 1 - j). */
  lemma PlacePowers(g: NumeralTables, cs: seq<Chunk>, col: nat, j: nat)
    requires 1 <= |cs| <= 10 && AllValid(cs) && col < 2 && j < |cs|
    requires forall i :: 0 <= i < |cs| ==> !IsZeroChunk(cs[i])
    ensures AllValid(Rendered(cs))
    ensures |Parts(g, Rendered(cs), |cs| - 1, col)| == |cs|
    ensures Parts(g, Rendered(cs), |cs| - 1, col)[j] == RenderChunk(g, cs[j], |cs| - 1 - j, col)
  {
    RenderedNoZero(cs);
    var ps := Parts(g, cs, |cs| - 1, col);
    PartsAt(g, cs, |cs| - 1, col, j);
    assert PowerAt(|cs| - 1, j) == |cs| - 1 - j;
    assert ps[j] == RenderChunk(g, cs[j], |cs| - 1 - j, col);
  }

  /** A rendered chunk holds neither character of the separator; it holds the keraia
      exactly when its thousands digit is 0. */
  lemma RenderChunkMarks(g: NumeralTables, c: Chunk, power: nat, col: nat)
    requires Legible(g) && ValidChunk(c) && power <= 9 && col < 2
    ensures ',' !in RenderChunk(g, c, power, col) && ' ' !in RenderChunk(g, c, power, col)
    ensures Keraia in RenderChunk(g, c, power, col) <==> c.th == 0
  {
    MyriadMarkerPunctuationFree(g, power);
    GlyphPunctuationFree(g, ThousandsPlace, c.th, col);
    GlyphPunctuationFree(g, HundredsPlace, c.h, col);
    GlyphPunctuationFree(g, TensPlace, c.t, col);
    GlyphPunctuationFree(g, OnesPlace, c.o, col);
    var body := MyriadMarker(g, power) + Glyph(g, ThousandsPlace, c.th, col) + Glyph(g, HundredsPlace, c.h, col)
      + Glyph(g, TensPlace, c.t, col) + Glyph(g, OnesPlace, c.o, col);
    assert ',' !in body && ' ' !in body && Keraia !in body;
    assert RenderChunk(g, c, power, col) == body + (if c.th == 0 then [Keraia] else []);
  }

  /** A rendered chunk that is not all zero is never empty. */
  lemma RenderChunkNonEmpty(g: NumeralTables, c: Chunk, power: nat, col: nat)
    requires Legible(g) && ValidChunk(c) && power <= 9 && col < 2
    ensures |RenderChunk(g, c, power, col)| > 0
  {
    GlyphShows(g, ThousandsPlace, c.th, col);
  }

  /** The myriad marker opens the rendered chunk and does not depend on the case. */
  lemma MarkerWhateverCase(g: NumeralTables, c: Chunk, power: nat)
    requires ValidChunk(c) && power <= 9
    ensures var m := MyriadMarker(g, power);
      && m <= RenderChunk(g, c, power, Column(Lower))
      && m <= RenderChunk(g, c, power, Column(Upper))
      && (power > 0 ==> m == Glyph(g, OnesPlace, power, Column(Lower)) + [MyriadSign])
  {
  }

  /** Parts without commas, joined, hold one comma per separator: one fewer than the parts. */
  lemma {:induction false} JoinCommas(ps: seq<string>)
    requires forall i :: 0 <= i < |ps| ==> ',' !in ps[i]
    ensures multiset(Join(ps))[','] == if ps == [] then 0 else |ps| - 1
    decreases |ps|
  {
    if |ps| == 1 {
      assert ',' !in ps[0];
    } else if |ps| > 1 {
      var init := ps[..|ps| - 1];
      var last := ps[|ps| - 1];
      JoinCommas(init);
      assert Join(ps) == Join(init) + Separator + last;
      assert multiset(Join(ps)) == multiset(Join(init)) + multiset(Separator) + multiset(last);
      assert multiset(Separator)[','] == 1;
    }
  }

  /** The text starts with the first rendering. */
  lemma {:induction false} JoinStartsWithFirst(ps: seq<string>)
    requires |ps| > 0
    ensures ps[0] <= Join(ps)
  {
    if |ps| > 1 {
      JoinStartsWithFirst(ps[..|ps| - 1]);
    }
  }

  /** The first chunk of a positive number is never all zero (the padding adds fewer than
      four zeros in front of a non-zero digit), so it is rendered first and with the highest
      myriad power. */
  lemma FirstChunkRendered(n: nat)
    requires 0 < n < Limit
    ensures var cs := Myriads(n);
      !IsZeroChunk(cs[0]) && |Rendered(cs)| > 0 && Rendered(cs)[0] == cs[0]
  {
    MsfDigitsCorrect(n);
    MyriadsOfNumber(n);
    var ds := MsfDigits(n);
    var cs := ChunksOf(ds);
    var k := PadLength(|LsfDigits(n)|);
    assert ds[k] != 0 && k < 4;
    assert cs[0] == Chunk(ds[0], ds[1], ds[2], ds[3]);
    assert !IsZeroChunk(cs[0]);
    RenderedConcat([cs[0]], cs[1..]);
    assert [cs[0]] + cs[1..] == cs;
    assert [cs[0]][..0] == [];
    assert Rendered([cs[0]]) == [cs[0]];
  }

  /** Joined renderings of at least one chunk hold one comma per separator and do not
      start with a separator. */
  lemma JoinedSeparators(g: NumeralTables, rs: seq<Chunk>, top: nat, col: nat)
    requires Legible(g) && AllValid(rs) && |rs| >= 1 && top <= 9 && col < 2
    ensures multiset(Join(Parts(g, rs, top, col)))[','] == |rs| - 1
    ensures |Join(Parts(g, rs, top, col))| > 0 && Join(Parts(g, rs, top, col))[0] != ','
  {
    var ps := Parts(g, rs, top, col);
    forall i | 0 <= i < |ps| ensures ',' !in ps[i] {
      PartsAt(g, rs, top, col, i);
      RenderChunkMarks(g, rs[i], PowerAt(top, i), col);
    }
    JoinCommas(ps);
    PartsAt(g, rs, top, col, 0);
    JoinStartsWithFirst(ps);
    RenderChunkMarks(g, rs[0], PowerAt(top, 0), col);
    RenderChunkNonEmpty(g, rs[0], PowerAt(top, 0), col);
    assert ps[0][0] == Join(ps)[0];
  }

  /** A positive numeral is the joined renderings of at least one chunk. */
  lemma NumeralText(g: NumeralTables, n: nat, c: Case)
    requires 0 < n < Limit
    ensures AllValid(Rendered(Myriads(n))) && 1 <= |Rendered(Myriads(n))| && |Myriads(n)| <= 10
    ensures Numeral(g, n, c) == Join(Parts(g, Rendered(Myriads(n)), |Myriads(n)| - 1, Column(c)))
  {
    NumeralOfMyriads(g, n, c);
    FirstChunkRendered(n);
  }

  /** JoinedSeparators, for a text known to be the joined renderings. */
  lemma TextSeparators(g: NumeralTables, text: string, rs: seq<Chunk>, top: nat, col: nat)
    requires Legible(g) && AllValid(rs) && |rs| >= 1 && top <= 9 && col < 2
    requires text == Join(Parts(g, rs, top, col))
    ensures multiset(text)[','] == |rs| - 1
    ensures |text| > 0 && text[0] != ','
  {
    JoinedSeparators(g, rs, top, col);
  }

  /** Separators: for a positive n the numeral holds one comma fewer than it has
      rendered chunks. */
  lemma SeparatorCount(g: NumeralTables, n: nat, c: Case)
    requires Legible(g) && 0 < n < Limit
    ensures |Rendered(Myriads(n))| >= 1
    ensures multiset(Numeral(g, n, c))[','] == |Rendered(Myriads(n))| - 1
  {
    NumeralText(g, n, c);
    var cs := Myriads(n);
    TextSeparators(g, Numeral(g, n, c), Rendered(cs), |cs| - 1, Column(c));
  }

  /** A positive numeral is not empty and does not start with a separator. */
  lemma NoLeadingSeparator(g: NumeralTables, n: nat, c: Case)
    requires Legible(g) && 0 < n < Limit
    ensures |Numeral(g, n, c)| > 0 && Numeral(g, n, c)[0] != ','
  {
    NumeralText(g, n, c);
    var cs := Myriads(n);
    TextSeparators(g, Numeral(g, n, c), Rendered(cs), |cs| - 1, Column(c));
  }
}

/** The short numerals: zero, a single chunk, a single digit. */
module ShortNumerals {
  import opened Glyphs
  import opened Digits
  import opened Render

  /** 0 is the zero sign alone, the same in both cases. */
  lemma ZeroWhateverCase(g: NumeralTables)
    ensures Numeral(g, 0, Lower) == Numeral(g, 0, Upper) == [ZeroSign]
  {
  }

  /** A positive number below 10^4 is its one chunk, rendered without myriad marker. */
  lemma SingleChunk(g: NumeralTables, n: nat, c: Case)
    requires 0 < n < 10000
    ensures n < Limit
    ensures Numeral(g, n, c) == RenderChunk(g, ChunkOf(n), 0, Column(c))
  {
    NumeralOfMyriads(g, n, c);
    var x := ChunkOf(n);
    ChunkOfPositive(n);
    assert Myriads(n) == [x];
    OneRendered(g, x, Column(c));
  }

  /** The chunk of a positive number below 10^4 is rendered. */
  lemma ChunkOfPositive(r: nat)
    requires 0 < r < 10000
    ensures ValidChunk(ChunkOf(r)) && !IsZeroChunk(ChunkOf(r))
  {
    if r / 1000 == 0 && r / 100 % 10 == 0 && r / 10 % 10 == 0 {
      assert r < 10;
    }
  }

  /** One rendered chunk alone is its rendering at power 0. */
  lemma OneRendered(g: NumeralTables, x: Chunk, col: nat)
    requires ValidChunk(x) && !IsZeroChunk(x) && col < 2
    ensures AllValid(Rendered([x]))
    ensures Join(Parts(g, Rendered([x]), 0, col)) == RenderChunk(g, x, 0, col)
  {
    assert [x][..0] == [];
    assert Rendered([x]) == [x];
    assert Parts(g, [x], 0, col) == [RenderChunk(g, x, 0, col)];
  }

  /** A digit 1..9 is its ones glyph in the requested case followed by the keraia. */
  lemma OneDigit(g: NumeralTables, n: nat, c: Case)
    requires 1 <= n <= 9
    ensures n < Limit
    ensures Numeral(g, n, c) == g.ones[n - 1][Column(c)] + [Keraia]
  {
    SingleChunk(g, n, c);
    OnesOnly(g, n, Column(c));
  }

  /** The chunk of a digit 1..9, at power 0, is its ones glyph and the keraia. */
  lemma OnesOnly(g: NumeralTables, d: nat, col: nat)
    requires 1 <= d <= 9 && col < 2
    ensures RenderChunk(g, ChunkOf(d), 0, col) == g.ones[d - 1][col] + [Keraia]
  {
    assert ChunkOf(d) == Chunk(0, 0, 0, d);
    assert MyriadMarker(g, 0) == [];
  }
}

/** Lowercase and uppercase numerals share their structure. */
module CaseCorrespondence {
  import opened Glyphs
  import opened Digits
  import opened Render
  import opened Properties

  /** The j-th rendered chunk opens with the same myriad marker in both cases, and it holds
      the keraia in one case exactly when it holds it in the other. */
  lemma PartsCorrespond(g: NumeralTables, rs: seq<Chunk>, top: nat, j: nat)
    requires Legible(g) && AllValid(rs) && top <= 9 && j < |rs|
    ensures var lower := Parts(g, rs, top, Column(Lower))[j];
      var upper := Parts(g, rs, top, Column(Upper))[j];
      var m := MyriadMarker(g, PowerAt(top, j));
      && m <= lower && m <= upper
      && (Keraia in lower <==> Keraia in upper)
  {
    PartsAt(g, rs, top, Column(Lower), j);
    PartsAt(g, rs, top, Column(Upper), j);
    MarkerWhateverCase(g, rs[j], PowerAt(top, j));
    RenderChunkMarks(g, rs[j], PowerAt(top, j), Column(Lower));
    RenderChunkMarks(g, rs[j], PowerAt(top, j), Column(Upper));
  }

  /** Both cases of a positive numeral hold the same number of separators. */
  lemma SameSeparators(g: NumeralTables, n: nat)
    requires Legible(g) && 0 < n < Limit
    ensures multiset(Numeral(g, n, Lower))[','] == multiset(Numeral(g, n, Upper))[',']
  {
    SeparatorCount(g, n, Lower);
    SeparatorCount(g, n, Upper);
  }
}
