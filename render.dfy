/** The rendering of a digit sequence, stated declaratively: cut into 4-digit chunks,
    drop the all-zero chunks, render the j-th remaining chunk with myriad power
    `top - j` (never below 0), and join the renderings with ", ". */
module Render {
  import opened Glyphs
  import opened Digits

  /** Four consecutive digits of one myriad group: thousand, hundred, ten, one. */
  datatype Chunk = Chunk(th: nat, h: nat, t: nat, o: nat)

  predicate ValidChunk(c: Chunk)
  {
    c.th < 10 && c.h < 10 && c.t < 10 && c.o < 10
  }

  predicate AllValid(cs: seq<Chunk>)
  {
    forall i :: 0 <= i < |cs| ==> ValidChunk(cs[i])
  }

  /** A chunk the chunk loop of `to_greek` skips: its digit sum is 0. */
  predicate IsZeroChunk(c: Chunk)
  {
    c.th + c.h + c.t + c.o == 0
  }

  /** The chunks of a digit sequence, most significant first. */
  function ChunksOf(ds: seq<nat>): (cs: seq<Chunk>)
    requires |ds| % 4 == 0
    ensures |cs| == |ds| / 4
    ensures forall j :: 0 <= j < |cs| ==>
      cs[j] == Chunk(ds[4 * j], ds[4 * j + 1], ds[4 * j + 2], ds[4 * j + 3])
  {
    if ds == [] then [] else [Chunk(ds[0], ds[1], ds[2], ds[3])] + ChunksOf(ds[4..])
  }

  /** The chunks that get rendered, in order: those that are not all zero. */
  function Rendered(cs: seq<Chunk>): (rs: seq<Chunk>)
    ensures |rs| <= |cs|
    ensures forall i :: 0 <= i < |rs| ==> !IsZeroChunk(rs[i])
    ensures AllValid(cs) ==> AllValid(rs)
  {
    if cs == [] then []
    else
      var last := cs[|cs| - 1];
      Rendered(cs[..|cs| - 1]) + (if IsZeroChunk(last) then [] else [last])
  }

  /** The myriad power of the j-th rendered chunk when the first chunk has power `top`:
      the counter drops by one per rendered chunk and stops at 0. */
  function PowerAt(top: nat, j: nat): (p: nat)
    ensures p <= top
    ensures j <= top ==> p + j == top
  {
    if j <= top then top - j else 0
  }

  /** One rendered chunk: the myriad marker (lowercase, whatever the case), the four place
      glyphs in thousand, hundred, ten, one order, and the keraia when there is no thousands digit. */
  function RenderChunk(g: NumeralTables, c: Chunk, power: nat, col: nat): string
    requires ValidChunk(c) && power <= 9 && col < 2
  {
    MyriadMarker(g, power)
      + Glyph(g, ThousandsPlace, c.th, col)
      + Glyph(g, HundredsPlace, c.h, col)
      + Glyph(g, TensPlace, c.t, col)
      + Glyph(g, OnesPlace, c.o, col)
      + (if c.th == 0 then [Keraia] else [])
  }

  /** The renderings of the chunks `rs`, the j-th with myriad power PowerAt(top, j). */
  function Parts(g: NumeralTables, rs: seq<Chunk>, top: nat, col: nat): (ps: seq<string>)
    requires AllValid(rs) && top <= 9 && col < 2
    ensures |ps| == |rs|
  {
    if rs == [] then []
    else Parts(g, rs[..|rs| - 1], top, col) + [RenderChunk(g, rs[|rs| - 1], PowerAt(top, |rs| - 1), col)]
  }

  /** The j-th part renders the j-th chunk with myriad power PowerAt(top, j). */
  lemma {:induction false} PartsAt(g: NumeralTables, rs: seq<Chunk>, top: nat, col: nat, j: nat)
    requires AllValid(rs) && top <= 9 && col < 2 && j < |rs|
    ensures Parts(g, rs, top, col)[j] == RenderChunk(g, rs[j], PowerAt(top, j), col)
  {
    if j < |rs| - 1 {
      PartsAt(g, rs[..|rs| - 1], top, col, j);
    }
  }

  /** The parts separated by ", ". */
  function Join(ps: seq<string>): string
  {
    if |ps| == 0 then []
    else if |ps| == 1 then ps[0]
    else Join(ps[..|ps| - 1]) + Separator + ps[|ps| - 1]
  }

  /** Extending the chunks by one extends the rendered chunks by it unless it is all zero. */
  lemma RenderedSnoc(cs: seq<Chunk>, k: nat)
    requires k < |cs|
    ensures IsZeroChunk(cs[k]) ==> Rendered(cs[..k + 1]) == Rendered(cs[..k])
    ensures !IsZeroChunk(cs[k]) ==> Rendered(cs[..k + 1]) == Rendered(cs[..k]) + [cs[k]]
  {
    assert cs[..k + 1][..k] == cs[..k];
    assert Rendered(cs[..k]) + [] == Rendered(cs[..k]);
  }

  /** Rendering one more chunk appends a separator (unless it is the first) and its rendering. */
  lemma JoinPartsSnoc(g: NumeralTables, rs: seq<Chunk>, c: Chunk, top: nat, col: nat)
    requires AllValid(rs) && ValidChunk(c) && top <= 9 && col < 2
    ensures Join(Parts(g, rs + [c], top, col))
      == (if rs == [] then [] else Join(Parts(g, rs, top, col)) + Separator) + RenderChunk(g, c, PowerAt(top, |rs|), col)
  {
    var ps := Parts(g, rs + [c], top, col);
    assert (rs + [c])[..|rs|] == rs;
    assert ps[..|ps| - 1] == Parts(g, rs, top, col);
    if rs == [] {
      assert [] + ps[0] == ps[0];
    }
  }

  /** The chunk of the four digits of r < 10^4. */
  function ChunkOf(r: nat): Chunk
  {
    Chunk(r / 1000, r / 100 % 10, r / 10 % 10, r % 10)
  }

  /** The base-10^4 digits of a positive n, most significant first, as chunks. */
  function Myriads(n: nat): (cs: seq<Chunk>)
    requires n > 0
    ensures |cs| > 0
    decreases n
  {
    if n < 10000 then [ChunkOf(n)] else Myriads(n / 10000) + [ChunkOf(n % 10000)]
  }

  lemma {:induction false} ChunksOfConcat(a: seq<nat>, b: seq<nat>)
    requires |a| % 4 == 0 && |b| % 4 == 0
    ensures ChunksOf(a + b) == ChunksOf(a) + ChunksOf(b)
    decreases |a|
  {
    if a == [] {
      assert a + b == b;
    } else {
      assert (a + b)[4..] == a[4..] + b;
      ChunksOfConcat(a[4..], b);
    }
  }

  /** The chunk loop walks one chunk per power of 10^4: the chunks of the padded digits
      are the base-10^4 digits of n. */
  lemma {:induction false} ChunksAreMyriads(n: nat)
    requires n > 0
    ensures |MsfDigits(n)| % 4 == 0
    ensures ChunksOf(MsfDigits(n)) == Myriads(n)
    decreases n
  {
    MsfDigitsCorrect(n);
    if n < 10000 {
      SingleChunkDigits(n);
    } else {
      MsfDigitsSplit(n);
      ChunksAreMyriads(n / 10000);
      ChunksOfConcat(MsfDigits(n / 10000), FourDigits(n % 10000));
    }
  }

  /** Chunks of decimal digits are valid. */
  lemma ChunksOfDigits(ds: seq<nat>)
    requires |ds| % 4 == 0
    requires forall i :: 0 <= i < |ds| ==> ds[i] < 10
    ensures AllValid(ChunksOf(ds))
  {
    var cs := ChunksOf(ds);
    forall j | 0 <= j < |cs| ensures ValidChunk(cs[j]) {
      assert ds[4 * j] < 10 && ds[4 * j + 1] < 10 && ds[4 * j + 2] < 10 && ds[4 * j + 3] < 10;
    }
  }

  /** The chunks of a positive n below 10^40, all valid, at most ten of them. */
  lemma ChunksOfNumber(n: nat)
    requires 0 < n < Limit
    ensures |MsfDigits(n)| % 4 == 0 && 4 <= |MsfDigits(n)| <= 40
    ensures forall i :: 0 <= i < |MsfDigits(n)| ==> MsfDigits(n)[i] < 10
    ensures 1 <= |ChunksOf(MsfDigits(n))| <= 10
    ensures AllValid(ChunksOf(MsfDigits(n)))
  {
    MsfDigitsCorrect(n);
    ChunkCountBound(n);
    ChunksOfDigits(MsfDigits(n));
  }

  /** What the chunk loop carries from one chunk to the next: the text so far, the myriad
      counter and whether a chunk was already rendered. */
  datatype Progress = Progress(fmt: string, power: nat, previousHasNumber: bool)

  /** One pass of the chunk loop: an all-zero chunk leaves everything as it is; any other
      chunk appends the separator (if a chunk came before), its rendering at the current
      power, lowers the counter unless it is 0 and sets the flag. */
  function Step(g: NumeralTables, s: Progress, c: Chunk, col: nat): (r: Progress)
    requires ValidChunk(c) && s.power <= 9 && col < 2
    ensures r.power <= s.power
  {
    if IsZeroChunk(c) then s
    else
      var sep := if s.previousHasNumber then s.fmt + Separator else s.fmt;
      Progress(sep + RenderChunk(g, c, s.power, col), if s.power > 0 then s.power - 1 else 0, true)
  }

  /** The chunk loop after its first k passes over `cs`, starting from empty text, counter
      `top` and flag unset. */
  function Walk(g: NumeralTables, cs: seq<Chunk>, k: nat, top: nat, col: nat): (r: Progress)
    requires AllValid(cs) && k <= |cs| && top <= 9 && col < 2
    ensures r.power <= top
  {
    if k == 0 then Progress([], top, false)
    else Step(g, Walk(g, cs, k - 1, top, col), cs[k - 1], col)
  }

  /** The state the declarative rendering predicts after the chunks `rs` were rendered. */
  function Expected(g: NumeralTables, rs: seq<Chunk>, top: nat, col: nat): Progress
    requires AllValid(rs) && top <= 9 && col < 2
  {
    Progress(Join(Parts(g, rs, top, col)), PowerAt(top, |rs|), rs != [])
  }

  /** A pass over a non-zero chunk moves the predicted state to that of one more rendered chunk. */
  lemma StepExpected(g: NumeralTables, rs: seq<Chunk>, c: Chunk, top: nat, col: nat)
    requires AllValid(rs) && ValidChunk(c) && !IsZeroChunk(c) && top <= 9 && col < 2
    ensures AllValid(rs + [c])
    ensures Step(g, Expected(g, rs, top, col), c, col) == Expected(g, rs + [c], top, col)
  {
    assert AllValid(rs + [c]);
    JoinPartsSnoc(g, rs, c, top, col);
    if rs == [] {
      assert Join(Parts(g, rs, top, col)) == [];
    }
  }

  /** The loop computes the declarative rendering: after the first k chunks, the text is the
      joined renderings of their non-zero chunks, the counter has dropped once per rendered
      chunk (stopping at 0), and the flag says whether anything was rendered. */
  lemma {:induction false} WalkRenders(g: NumeralTables, cs: seq<Chunk>, k: nat, top: nat, col: nat)
    requires AllValid(cs) && k <= |cs| && top <= 9 && col < 2
    ensures AllValid(Rendered(cs[..k]))
    ensures Walk(g, cs, k, top, col) == Expected(g, Rendered(cs[..k]), top, col)
  {
    assert AllValid(cs[..k]);
    if k > 0 {
      WalkRenders(g, cs, k - 1, top, col);
      RenderedSnoc(cs, k - 1);
      if !IsZeroChunk(cs[k - 1]) {
        StepExpected(g, Rendered(cs[..k - 1]), cs[k - 1], top, col);
      }
    }
  }

  /** The base-10^4 digits of a positive n below 10^40 are the chunks the loop walks:
      at most ten of them, all valid. */
  lemma MyriadsOfNumber(n: nat)
    requires 0 < n < Limit
    ensures |MsfDigits(n)| % 4 == 0
    ensures ChunksOf(MsfDigits(n)) == Myriads(n)
    ensures AllValid(Myriads(n)) && 1 <= |Myriads(n)| <= 10
  {
    ChunksOfNumber(n);
    ChunksAreMyriads(n);
  }

  /** The numeral of n written with the tables `g`: the zero sign for 0, otherwise the joined
      renderings of the non-zero base-10^4 digits of n, the first having myriad power
      (digit count - 1) and each rendered one lowering it by one. */
  function Numeral(g: NumeralTables, n: nat, c: Case): string
    requires n < Limit
  {
    if n == 0 then [ZeroSign]
    else
      MyriadsOfNumber(n);
      var chunks := Myriads(n);
      Join(Parts(g, Rendered(chunks), |chunks| - 1, Column(c)))
  }

  /** A positive numeral is the joined renderings of the non-zero base-10^4 digits. */
  lemma NumeralOfMyriads(g: NumeralTables, n: nat, c: Case)
    requires 0 < n < Limit
    ensures AllValid(Myriads(n)) && 1 <= |Myriads(n)| <= 10
    ensures Numeral(g, n, c) == Join(Parts(g, Rendered(Myriads(n)), |Myriads(n)| - 1, Column(c)))
  {
    MyriadsOfNumber(n);
  }

  /** The Greek numeral of n. */
  function Greek(n: nat, c: Case): string
    requires n < Limit
  {
    Numeral(Milesian, n, c)
  }

  /** The chunk loop over all chunks of a positive n ends with the text of its numeral. */
  lemma WalkIsNumeral(g: NumeralTables, n: nat, c: Case, digits: seq<nat>)
    requires 0 < n < Limit && digits == MsfDigits(n)
    ensures |digits| % 4 == 0 && 4 <= |digits| <= 40
    ensures forall i :: 0 <= i < |digits| ==> digits[i] < 10
    ensures AllValid(ChunksOf(digits))
    ensures Walk(g, ChunksOf(digits), |digits| / 4, |digits| / 4 - 1, Column(c)).fmt == Numeral(g, n, c)
  {
    ChunksOfNumber(n);
    MyriadsOfNumber(n);
    var chunks := ChunksOf(digits);
    WalkRenders(g, chunks, |chunks|, |chunks| - 1, Column(c));
    assert chunks[..|chunks|] == chunks;
  }
}
