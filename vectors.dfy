/** The exact strings the repository's tests and documentation expect, and the numeral
    that shows the myriad counter skipping a zero chunk. */
module Vectors {
  import opened Glyphs
  import opened Digits
  import opened Render
  import opened ShortNumerals

  /** Two chunks that are not all zero are both rendered. */
  lemma RenderedTwo(a: Chunk, b: Chunk)
    requires !IsZeroChunk(a) && !IsZeroChunk(b)
    ensures Rendered([a, b]) == [a, b]
  {
    assert [a, b][..1] == [a];
    assert [a][..0] == [];
  }

  /** Two parts: the first at power `top`, the second one lower. */
  lemma PartsTwo(g: NumeralTables, a: Chunk, b: Chunk, top: nat, col: nat)
    requires ValidChunk(a) && ValidChunk(b) && 1 <= top <= 9 && col < 2
    ensures Parts(g, [a, b], top, col) == [RenderChunk(g, a, top, col), RenderChunk(g, b, top - 1, col)]
  {
    assert [a, b][..1] == [a];
    assert Parts(g, [a], top, col) == [RenderChunk(g, a, top, col)];
  }

  /** Two parts joined: the separator between them. */
  lemma JoinTwo(p: string, q: string)
    ensures Join([p, q]) == p + Separator + q
  {
    assert [p, q][..1] == [p];
  }

  /** Two rendered chunks: the first at power `top`, the second one lower, joined by ", ". */
  lemma TwoRendered(g: NumeralTables, a: Chunk, b: Chunk, top: nat, col: nat)
    requires ValidChunk(a) && ValidChunk(b) && !IsZeroChunk(a) && !IsZeroChunk(b)
    requires 1 <= top <= 9 && col < 2
    ensures AllValid(Rendered([a, b]))
    ensures Join(Parts(g, Rendered([a, b]), top, col))
      == RenderChunk(g, a, top, col) + Separator + RenderChunk(g, b, top - 1, col)
  {
    RenderedTwo(a, b);
    PartsTwo(g, a, b, top, col);
    JoinTwo(RenderChunk(g, a, top, col), RenderChunk(g, b, top - 1, col));
  }

  /** Three chunks that are not all zero are all rendered. */
  lemma RenderedThree(a: Chunk, b: Chunk, d: Chunk)
    requires !IsZeroChunk(a) && !IsZeroChunk(b) && !IsZeroChunk(d)
    ensures Rendered([a, b, d]) == [a, b, d]
  {
    assert [a, b, d][..2] == [a, b];
    RenderedTwo(a, b);
  }

  /** Three parts, at powers `top`, `top - 1` and `top - 2`. */
  lemma PartsThree(g: NumeralTables, a: Chunk, b: Chunk, d: Chunk, top: nat, col: nat)
    requires ValidChunk(a) && ValidChunk(b) && ValidChunk(d) && 2 <= top <= 9 && col < 2
    ensures Parts(g, [a, b, d], top, col)
      == [RenderChunk(g, a, top, col), RenderChunk(g, b, top - 1, col), RenderChunk(g, d, top - 2, col)]
  {
    assert [a, b, d][..2] == [a, b];
    PartsTwo(g, a, b, top, col);
  }

  /** Three parts joined: a separator between each two. */
  lemma JoinThree(p: string, q: string, r: string)
    ensures Join([p, q, r]) == p + Separator + q + Separator + r
  {
    assert [p, q, r][..2] == [p, q];
    JoinTwo(p, q);
  }

  /** Three rendered chunks at powers `top`, `top - 1` and `top - 2`. */
  lemma ThreeRendered(g: NumeralTables, a: Chunk, b: Chunk, d: Chunk, top: nat, col: nat)
    requires ValidChunk(a) && ValidChunk(b) && ValidChunk(d)
    requires !IsZeroChunk(a) && !IsZeroChunk(b) && !IsZeroChunk(d)
    requires 2 <= top <= 9 && col < 2
    ensures AllValid(Rendered([a, b, d]))
    ensures Join(Parts(g, Rendered([a, b, d]), top, col))
      == RenderChunk(g, a, top, col) + Separator + RenderChunk(g, b, top - 1, col)
         + Separator + RenderChunk(g, d, top - 2, col)
  {
    RenderedThree(a, b, d);
    PartsThree(g, a, b, d, top, col);
    JoinThree(RenderChunk(g, a, top, col), RenderChunk(g, b, top - 1, col), RenderChunk(g, d, top - 2, col));
  }

  /** A rendered chunk followed by two all-zero chunks renders alone, at power `top`. */
  lemma OneThenZeros(g: NumeralTables, a: Chunk, top: nat, col: nat)
    requires ValidChunk(a) && !IsZeroChunk(a) && top <= 9 && col < 2
    ensures AllValid(Rendered([a, Chunk(0, 0, 0, 0), Chunk(0, 0, 0, 0)]))
    ensures Join(Parts(g, Rendered([a, Chunk(0, 0, 0, 0), Chunk(0, 0, 0, 0)]), top, col))
      == RenderChunk(g, a, top, col)
  {
    var z := Chunk(0, 0, 0, 0);
    assert [a, z, z][..2] == [a, z];
    assert [a, z][..1] == [a];
    assert [a][..0] == [];
    assert Rendered([a, z]) == [a];
    assert Rendered([a, z, z]) == [a];
    assert Parts(g, [a], top, col) == [RenderChunk(g, a, top, col)];
  }

  /** A zero chunk between two rendered ones: the lower one gets power `top - 1`,
      the power the zero chunk's place would have had. */
  lemma ZeroBetween(g: NumeralTables, a: Chunk, b: Chunk, top: nat, col: nat)
    requires ValidChunk(a) && ValidChunk(b) && !IsZeroChunk(a) && !IsZeroChunk(b)
    requires 1 <= top <= 9 && col < 2
    ensures AllValid(Rendered([a, Chunk(0, 0, 0, 0), b]))
    ensures Join(Parts(g, Rendered([a, Chunk(0, 0, 0, 0), b]), top, col))
      == RenderChunk(g, a, top, col) + Separator + RenderChunk(g, b, top - 1, col)
  {
    var z := Chunk(0, 0, 0, 0);
    assert [a, z, b][..2] == [a, z];
    assert [a, z][..1] == [a];
    assert [a][..0] == [];
    assert Rendered([a, z]) == [a];
    assert Rendered([a, z, b]) == [a, b];
    TwoRendered(g, a, b, top, col);
  }

  /** A numeral whose base-10^4 digits are `cs` is the joined renderings of those of them
      that are not all zero. */
  lemma ChunksText(g: NumeralTables, n: nat, c: Case, cs: seq<Chunk>, text: string)
    requires 0 < n < Limit && Myriads(n) == cs
    requires AllValid(Rendered(cs)) && 1 <= |cs| <= 10
    requires Join(Parts(g, Rendered(cs), |cs| - 1, Column(c))) == text
    ensures Numeral(g, n, c) == text
  {
    NumeralOfMyriads(g, n, c);
  }

  /** A numeral with two chunks, neither all zero. */
  lemma TwoChunksText(g: NumeralTables, n: nat, c: Case, a: Chunk, b: Chunk, p: string, q: string)
    requires 0 < n < Limit && Myriads(n) == [a, b]
    requires ValidChunk(a) && ValidChunk(b) && !IsZeroChunk(a) && !IsZeroChunk(b)
    requires RenderChunk(g, a, 1, Column(c)) == p && RenderChunk(g, b, 0, Column(c)) == q
    ensures Numeral(g, n, c) == p + Separator + q
  {
    TwoRendered(g, a, b, 1, Column(c));
    ChunksText(g, n, c, [a, b], p + Separator + q);
  }

  /** A numeral with three chunks, none all zero. */
  lemma ThreeChunksText(g: NumeralTables, n: nat, c: Case, a: Chunk, b: Chunk, d: Chunk, p: string, q: string, r: string)
    requires 0 < n < Limit && Myriads(n) == [a, b, d]
    requires ValidChunk(a) && ValidChunk(b) && ValidChunk(d)
    requires !IsZeroChunk(a) && !IsZeroChunk(b) && !IsZeroChunk(d)
    requires RenderChunk(g, a, 2, Column(c)) == p && RenderChunk(g, b, 1, Column(c)) == q
    requires RenderChunk(g, d, 0, Column(c)) == r
    ensures Numeral(g, n, c) == p + Separator + q + Separator + r
  {
    ThreeRendered(g, a, b, d, 2, Column(c));
    ChunksText(g, n, c, [a, b, d], p + Separator + q + Separator + r);
  }

  /** A numeral with three chunks, the lower two all zero. */
  lemma TrailingZerosText(g: NumeralTables, n: nat, c: Case, a: Chunk, p: string)
    requires 0 < n < Limit && Myriads(n) == [a, Chunk(0, 0, 0, 0), Chunk(0, 0, 0, 0)]
    requires ValidChunk(a) && !IsZeroChunk(a)
    requires RenderChunk(g, a, 2, Column(c)) == p
    ensures Numeral(g, n, c) == p
  {
    OneThenZeros(g, a, 2, Column(c));
    ChunksText(g, n, c, [a, Chunk(0, 0, 0, 0), Chunk(0, 0, 0, 0)], p);
  }

  /** A numeral with three chunks, the middle one all zero. */
  lemma MiddleZeroText(g: NumeralTables, n: nat, c: Case, a: Chunk, b: Chunk, p: string, q: string)
    requires 0 < n < Limit && Myriads(n) == [a, Chunk(0, 0, 0, 0), b]
    requires ValidChunk(a) && ValidChunk(b) && !IsZeroChunk(a) && !IsZeroChunk(b)
    requires RenderChunk(g, a, 2, Column(c)) == p && RenderChunk(g, b, 1, Column(c)) == q
    ensures Numeral(g, n, c) == p + Separator + q
  {
    ZeroBetween(g, a, b, 2, Column(c));
    ChunksText(g, n, c, [a, Chunk(0, 0, 0, 0), b], p + Separator + q);
  }

  /** A positive number below 10^4 whose chunk is `x` is the rendering of `x` at power 0. */
  lemma ChunkText(g: NumeralTables, n: nat, c: Case, x: Chunk, text: string)
    requires 0 < n < 10000 && ChunkOf(n) == x && ValidChunk(x)
    requires RenderChunk(g, x, 0, Column(c)) == text
    ensures Numeral(g, n, c) == text
  {
    SingleChunk(g, n, c);
  }

  lemma Vector1()
    ensures Greek(1, Lower) == "α\U{0374}" && Greek(1, Upper) == "Α\U{0374}"
  {
    OneDigit(Milesian, 1, Lower);
    OneDigit(Milesian, 1, Upper);
  }

  lemma Render241()
    ensures ChunkOf(241) == Chunk(0, 2, 4, 1)
    ensures RenderChunk(Milesian, Chunk(0, 2, 4, 1), 0, 0) == "σμα\U{0374}"
    ensures RenderChunk(Milesian, Chunk(0, 2, 4, 1), 0, 1) == "ΣΜΑ\U{0374}"
  {
  }

  lemma Vector241()
    ensures Greek(241, Lower) == "σμα\U{0374}" && Greek(241, Upper) == "ΣΜΑ\U{0374}"
  {
    Render241();
    ChunkText(Milesian, 241, Lower, Chunk(0, 2, 4, 1), "σμα\U{0374}");
    ChunkText(Milesian, 241, Upper, Chunk(0, 2, 4, 1), "ΣΜΑ\U{0374}");
  }

  lemma Render5683()
    ensures ChunkOf(5683) == Chunk(5, 6, 8, 3)
    ensures RenderChunk(Milesian, Chunk(5, 6, 8, 3), 0, 0) == "͵εχπγ"
  {
  }

  lemma Vector5683()
    ensures Greek(5683, Lower) == "͵εχπγ"
  {
    Render5683();
    ChunkText(Milesian, 5683, Lower, Chunk(5, 6, 8, 3), "͵εχπγ");
  }

  lemma Render9184()
    ensures ChunkOf(9184) == Chunk(9, 1, 8, 4)
    ensures RenderChunk(Milesian, Chunk(9, 1, 8, 4), 0, 0) == "͵θρπδ"
  {
  }

  lemma Vector9184()
    ensures Greek(9184, Lower) == "͵θρπδ"
  {
    Render9184();
    ChunkText(Milesian, 9184, Lower, Chunk(9, 1, 8, 4), "͵θρπδ");
  }

  lemma Render3398()
    ensures ChunkOf(3398) == Chunk(3, 3, 9, 8)
    ensures RenderChunk(Milesian, Chunk(3, 3, 9, 8), 0, 0) == "͵γτϙη"
  {
  }

  lemma Vector3398()
    ensures Greek(3398, Lower) == "͵γτϙη"
  {
    Render3398();
    ChunkText(Milesian, 3398, Lower, Chunk(3, 3, 9, 8), "͵γτϙη");
  }

  lemma Render1005()
    ensures ChunkOf(1005) == Chunk(1, 0, 0, 5)
    ensures RenderChunk(Milesian, Chunk(1, 0, 0, 5), 0, 0) == "͵αε"
  {
  }

  lemma Vector1005()
    ensures Greek(1005, Lower) == "͵αε"
  {
    Render1005();
    ChunkText(Milesian, 1005, Lower, Chunk(1, 0, 0, 5), "͵αε");
  }

  lemma Myriads97554()
    ensures Myriads(97554) == [Chunk(0, 0, 0, 9), Chunk(7, 5, 5, 4)]
    ensures RenderChunk(Milesian, Chunk(0, 0, 0, 9), 1, 0) == "αΜθ\U{0374}"
    ensures RenderChunk(Milesian, Chunk(7, 5, 5, 4), 0, 0) == "͵ζφνδ"
  {
    assert Myriads(9) == [Chunk(0, 0, 0, 9)];
  }

  lemma Joined97554()
    ensures "αΜθ\U{0374}" + Separator + "͵ζφνδ" == "αΜθ\U{0374}, ͵ζφνδ"
  {
  }

  lemma Vector97554()
    ensures Greek(97554, Lower) == "αΜθ\U{0374}, ͵ζφνδ"
  {
    var a, b := Chunk(0, 0, 0, 9), Chunk(7, 5, 5, 4);
    Myriads97554();
    Joined97554();
    TwoChunksText(Milesian, 97554, Lower, a, b, "αΜθ\U{0374}", "͵ζφνδ");
  }

  lemma Myriads2056839184()
    ensures Myriads(2056839184) == [Chunk(0, 0, 2, 0), Chunk(5, 6, 8, 3), Chunk(9, 1, 8, 4)]
  {
    assert Myriads(20) == [Chunk(0, 0, 2, 0)];
    assert Myriads(205683) == [Chunk(0, 0, 2, 0), Chunk(5, 6, 8, 3)];
  }

  lemma Render2056839184()
    ensures RenderChunk(Milesian, Chunk(0, 0, 2, 0), 2, 0) == "βΜκ\U{0374}"
    ensures RenderChunk(Milesian, Chunk(5, 6, 8, 3), 1, 0) == "αΜ͵εχπγ"
    ensures RenderChunk(Milesian, Chunk(9, 1, 8, 4), 0, 0) == "͵θρπδ"
  {
  }

  lemma Joined2056839184()
    ensures "βΜκ\U{0374}" + Separator + "αΜ͵εχπγ" + Separator + "͵θρπδ" == "βΜκ\U{0374}, αΜ͵εχπγ, ͵θρπδ"
  {
  }

  lemma Vector2056839184()
    ensures Greek(2056839184, Lower) == "βΜκ\U{0374}, αΜ͵εχπγ, ͵θρπδ"
  {
    var a, b, d := Chunk(0, 0, 2, 0), Chunk(5, 6, 8, 3), Chunk(9, 1, 8, 4);
    Myriads2056839184();
    Joined2056839184();
    Render2056839184();
    ThreeChunksText(Milesian, 2056839184, Lower, a, b, d, "βΜκ\U{0374}", "αΜ͵εχπγ", "͵θρπδ");
  }

  lemma Myriads12312398676()
    ensures Myriads(12312398676) == [Chunk(0, 1, 2, 3), Chunk(1, 2, 3, 9), Chunk(8, 6, 7, 6)]
  {
    assert Myriads(123) == [Chunk(0, 1, 2, 3)];
    assert Myriads(1231239) == [Chunk(0, 1, 2, 3), Chunk(1, 2, 3, 9)];
  }

  lemma Render12312398676()
    ensures RenderChunk(Milesian, Chunk(0, 1, 2, 3), 2, 0) == "βΜρκγ\U{0374}"
    ensures RenderChunk(Milesian, Chunk(1, 2, 3, 9), 1, 0) == "αΜ͵ασλθ"
    ensures RenderChunk(Milesian, Chunk(8, 6, 7, 6), 0, 0) == "͵ηχοϛ"
  {
  }

  lemma Joined12312398676()
    ensures "βΜρκγ\U{0374}" + Separator + "αΜ͵ασλθ" + Separator + "͵ηχοϛ" == "βΜρκγ\U{0374}, αΜ͵ασλθ, ͵ηχοϛ"
  {
  }

  lemma Vector12312398676()
    ensures Greek(12312398676, Lower) == "βΜρκγ\U{0374}, αΜ͵ασλθ, ͵ηχοϛ"
  {
    var a, b, d := Chunk(0, 1, 2, 3), Chunk(1, 2, 3, 9), Chunk(8, 6, 7, 6);
    Myriads12312398676();
    Joined12312398676();
    Render12312398676();
    ThreeChunksText(Milesian, 12312398676, Lower, a, b, d, "βΜρκγ\U{0374}", "αΜ͵ασλθ", "͵ηχοϛ");
  }

  lemma Myriads2000000000()
    ensures Myriads(2000000000) == [Chunk(0, 0, 2, 0), Chunk(0, 0, 0, 0), Chunk(0, 0, 0, 0)]
    ensures RenderChunk(Milesian, Chunk(0, 0, 2, 0), 2, 0) == "βΜκ\U{0374}"
  {
    assert Myriads(20) == [Chunk(0, 0, 2, 0)];
    assert Myriads(200000) == [Chunk(0, 0, 2, 0), Chunk(0, 0, 0, 0)];
  }

  lemma Vector2000000000()
    ensures Greek(2000000000, Lower) == "βΜκ\U{0374}"
  {
    Myriads2000000000();
    TrailingZerosText(Milesian, 2000000000, Lower, Chunk(0, 0, 2, 0), "βΜκ\U{0374}");
  }

  lemma Myriads90000001()
    ensures Myriads(90000001) == [Chunk(9, 0, 0, 0), Chunk(0, 0, 0, 1)]
    ensures RenderChunk(Milesian, Chunk(9, 0, 0, 0), 1, 0) == "αΜ͵θ"
    ensures RenderChunk(Milesian, Chunk(0, 0, 0, 1), 0, 0) == "α\U{0374}"
  {
    assert Myriads(9000) == [Chunk(9, 0, 0, 0)];
  }

  lemma Joined90000001()
    ensures "αΜ͵θ" + Separator + "α\U{0374}" == "αΜ͵θ, α\U{0374}"
  {
  }

  lemma Vector90000001()
    ensures Greek(90000001, Lower) == "αΜ͵θ, α\U{0374}"
  {
    var a, b := Chunk(9, 0, 0, 0), Chunk(0, 0, 0, 1);
    Myriads90000001();
    Joined90000001();
    TwoChunksText(Milesian, 90000001, Lower, a, b, "αΜ͵θ", "α\U{0374}");
  }

  lemma Myriads100000001()
    ensures Myriads(100000001) == [Chunk(0, 0, 0, 1), Chunk(0, 0, 0, 0), Chunk(0, 0, 0, 1)]
    ensures RenderChunk(Milesian, Chunk(0, 0, 0, 1), 2, 0) == "βΜα\U{0374}"
    ensures RenderChunk(Milesian, Chunk(0, 0, 0, 1), 1, 0) == "αΜα\U{0374}"
  {
    assert Myriads(1) == [Chunk(0, 0, 0, 1)];
    assert Myriads(10000) == [Chunk(0, 0, 0, 1), Chunk(0, 0, 0, 0)];
  }

  lemma Joined100000001()
    ensures "βΜα\U{0374}" + Separator + "αΜα\U{0374}" == "βΜα\U{0374}, αΜα\U{0374}"
  {
  }

  /** 1 0000 0001: the middle chunk is skipped without lowering the counter, so the units
      chunk carries the myriad marker "αΜ" (power 1) although it stands at power 0. */
  lemma MyriadCounterSkipsZeroChunk()
    ensures Greek(100000001, Lower) == "βΜα\U{0374}, αΜα\U{0374}"
  {
    var a := Chunk(0, 0, 0, 1);
    Myriads100000001();
    Joined100000001();
    MiddleZeroText(Milesian, 100000001, Lower, a, a, "βΜα\U{0374}", "αΜα\U{0374}");
  }
}
