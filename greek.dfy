/** The encoder itself: `to_greek` and its two public wrappers. */
module GreekNumber {
  import opened Glyphs
  import opened Digits
  import opened Render

  /** The crate's `to_greek`: 0 gives the zero sign; otherwise the digits are extracted
      and walked chunk by chunk. `to_greek` panics on a myriad power above 9, that is
      for n >= 10^40. */
  method ToGreek(n: nat, c: Case) returns (fmt: string)
    requires n < Limit
    ensures fmt == Greek(n, c)
    ensures n == 0 ==> fmt == [ZeroSign]
  {
    if n == 0 {
      return [ZeroSign];
    }
    var col := Column(c);
    var digits := DecimalDigits(n);
    WalkIsNumeral(Milesian, n, c, digits);
    fmt := RenderDigits(Milesian, digits, col);
  }

  /** The chunk loop of `to_greek`: walks the digits four at a time, pushing onto `fmt`
      while it keeps the myriad counter `mPower` (starting at chunk count - 1) and the
      flag telling whether a chunk was already rendered. */
  method RenderDigits(g: NumeralTables, digits: seq<nat>, col: nat) returns (fmt: string)
    requires |digits| % 4 == 0 && 4 <= |digits| <= 40 && col < 2
    requires forall i :: 0 <= i < |digits| ==> digits[i] < 10
    ensures AllValid(ChunksOf(digits))
    ensures fmt == Walk(g, ChunksOf(digits), |digits| / 4, |digits| / 4 - 1, col).fmt
  {
    fmt := [];
    var mPower: nat := |digits| / 4 - 1;
    ghost var top := mPower;
    var chunks := ChunksOf(digits);
    var previousHasNumber := false;
    ChunksOfDigits(digits);
    for k := 0 to |chunks|
      invariant Progress(fmt, mPower, previousHasNumber) == Walk(g, chunks, k, top, col)
    {
      fmt, mPower, previousHasNumber := ChunkPass(g, fmt, mPower, previousHasNumber, chunks[k], col);
    }
  }

  /** The body of the chunk loop for one chunk. */
  method ChunkPass(g: NumeralTables, fmt: string, mPower: nat, previousHasNumber: bool, chunk: Chunk, col: nat)
    returns (out: string, nextPower: nat, nextHasNumber: bool)
    requires ValidChunk(chunk) && mPower <= 9 && col < 2
    ensures Progress(out, nextPower, nextHasNumber) == Step(g, Progress(fmt, mPower, previousHasNumber), chunk, col)
  {
    var th, h, t, o := chunk.th, chunk.h, chunk.t, chunk.o;
    if th + h + t + o == 0 {
      return fmt, mPower, previousHasNumber;
    }
    out := fmt;
    if previousHasNumber {
      out := out + Separator;
    }
    out := PushChunk(g, out, th, h, t, o, mPower, col);
    nextPower := mPower;
    if nextPower > 0 {
      nextPower := nextPower - 1;
    }
    nextHasNumber := true;
  }

  /** The part of the chunk loop that renders a chunk that is not all zero: the myriad
      prefix and letter when the counter is positive, the non-zero place glyphs, and the
      keraia when the thousands digit is 0. */
  method PushChunk(g: NumeralTables, fmt: string, th: nat, h: nat, t: nat, o: nat, mPower: nat, col: nat)
    returns (out: string)
    requires ValidChunk(Chunk(th, h, t, o)) && mPower <= 9 && col < 2
    ensures out == fmt + RenderChunk(g, Chunk(th, h, t, o), mPower, col)
  {
    out := fmt;
    var prefix := MyriadPrefix(g, mPower);
    if prefix.Some? {
      out := out + prefix.value;
      out := out + [MyriadSign];
    }
    // `pushed` is what this chunk has added to `fmt` so far.
    ghost var pushed := MyriadMarker(g, mPower);
    assert out == fmt + pushed;
    out := PushDigit(g, out, ThousandsPlace, th, col);
    pushed := pushed + Glyph(g, ThousandsPlace, th, col);
    out := PushDigit(g, out, HundredsPlace, h, col);
    pushed := pushed + Glyph(g, HundredsPlace, h, col);
    out := PushDigit(g, out, TensPlace, t, col);
    pushed := pushed + Glyph(g, TensPlace, t, col);
    out := PushDigit(g, out, OnesPlace, o, col);
    pushed := pushed + Glyph(g, OnesPlace, o, col);
    if th == 0 {
      out := out + [Keraia];
    } else {
      assert pushed + [] == pushed;
    }
  }

  /** One place of a chunk: a non-zero digit pushes its glyph from the place's table,
      a zero digit pushes nothing. */
  method PushDigit(g: NumeralTables, fmt: string, p: Place, d: nat, col: nat) returns (out: string)
    requires d <= 9 && col < 2
    ensures out == fmt + Glyph(g, p, d, col)
  {
    out := fmt;
    if d != 0 {
      out := out + TableAt(g, p)[d - 1][col];
    }
  }

  /** The crate's `to_greek_lowercase`. */
  method ToGreekLowercase(n: nat) returns (s: string)
    requires n < Limit
    ensures s == Greek(n, Lower)
  {
    s := ToGreek(n, Lower);
  }

  /** The crate's `to_greek_uppercase`. */
  method ToGreekUppercase(n: nat) returns (s: string)
    requires n < Limit
    ensures s == Greek(n, Upper)
  {
    s := ToGreek(n, Upper);
  }
}
