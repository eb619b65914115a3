# Greek numerals (milesian system) in Dafny

This project models `to_greek` of the `greek_number` crate. It turns a non-negative integer
into a Greek alphabetic (milesian) numeral, in lowercase or uppercase. It also models the two
public wrappers, `to_greek_lowercase` and `to_greek_uppercase`.

The encoder works in five steps:

- 0 short-circuits to the Greek Zero Sign U+1018A.
- Digit extraction: `% 10` and `/ 10` yield the digits least significant first. Zeros are
  pushed until the count is a multiple of 4, and the vector is reversed.
- Chunking: the digits are walked four at a time, one chunk per power of 10,000 (a myriad).
  The chunks go most significant first.
- Rendering: an all-zero chunk is skipped. Any other chunk gets:
  - `", "` before it, unless it is the first rendered chunk;
  - a myriad marker while the counter is positive: the lowercase ones glyph of the counter,
    then `Μ`;
  - the glyphs of its non-zero thousand, hundred, ten and one digits, from four fixed 9×2
    tables;
  - the keraia `ʹ` (U+0374 GREEK NUMERAL SIGN) when its thousands digit is 0.
- The myriad counter starts at (number of chunks − 1). It drops by one after each *rendered*
  chunk and stops at 0.

Layout, one module per component:

- `glyphs.dfy` (`Glyphs`): `Case` and its column; the four glyph tables, held as constants
  of type `seq<seq<string>>`; the myriad prefix closure `get_M_prefix`; facts about the
  tables.
- `digits.dfy` (`Digits`): the digit extraction and padding loops. The method
  `DecimalDigits` is proved equal to the specification function `MsfDigits`. The lemmas
  state what that function means: the value is `n`, the digits are decimal, and the
  padding adds only leading zeros.
- `render.dfy` (`Render`): a declarative rendering, `Numeral` / `Greek`. It cuts the
  base-10^4 digits of `n` into chunks, drops the all-zero chunks, renders the j-th remaining
  chunk at myriad power `max(top − j, 0)` and joins the results with `", "`. `Walk`/`Step`
  describe the chunk loop pass by pass. `WalkRenders` proves that the loop state after k
  chunks is the declarative state of the chunks rendered so far.
- `greek.dfy` (`GreekNumber`): `to_greek` as an imperative method. It calls the digit loops
  (`Digits.DecimalDigits`) and holds the chunk `for` loop with the mutable `fmt`, `M_power`
  and `previous_has_number`, and the pushes of one chunk. The method is proved equal to
  `Greek`. The two wrappers are here too.
- `properties.dfy` (`Properties`, `ShortNumerals`, `CaseCorrespondence`): what the rendering
  promises. This covers skipped chunks, myriad powers, separators, the keraia, the myriad
  marker that ignores case, and the numerals of 0, of one chunk and of one digit.
- `vectors.dfy` (`Vectors`): the exact strings of the crate's tests and doc examples. It
  also holds one numeral that shows the myriad-counter behaviour.

Two behaviours are reproduced as written, not fixed:

- The myriad counter is not lowered for a skipped chunk. A zero chunk between two non-zero
  chunks therefore gives the lower chunk a power one higher than its place:
  100000001 → `βΜαʹ, αΜαʹ`.
- The tables are not fully case-symmetric. Tens-9 pairs `ϙ` (U+03D9) with `Ϟ` (U+03DE).
  Every thousands glyph starts with `͵` (U+0375).

## Model

| member | source | states |
|---|---|---|
| `Glyphs.Column` | src/lib.rs:54-57 | the case selects column 0 exactly for `Lower`, and the column is always 0 or 1 |
| `Glyphs.MilesianLegible` | src/lib.rs:58-101 | no glyph of the four tables is empty, and none contains `,`, space or the keraia |
| `Glyphs.ThousandsFromOnes` | src/lib.rs:58-101 | every thousands glyph is the lower numeral sign U+0375 followed by the ones glyph of the same digit and case |
| `Glyphs.KeraiaSign` | src/lib.rs:168 | the keraia pushed after a chunk without thousands is U+0374 GREEK NUMERAL SIGN, not its normalised form U+02B9, and no glyph of the thousands or ones table contains it |
| `Glyphs.Glyph` | src/lib.rs:150-165 | a place contributes nothing for digit 0, otherwise the entry of its table at row digit − 1 in the case's column |
| `Glyphs.GlyphShows` | src/lib.rs:150-165 | a place digit contributes a glyph exactly when it is non-zero; a zero digit contributes nothing |
| `Glyphs.MyriadPrefix` | src/lib.rs:121-129 | there is no prefix exactly at power 0; otherwise the prefix is the lowercase ones glyph of the power, whatever the requested case |
| `Glyphs.MyriadMarker` | src/lib.rs:146-149 | the marker is empty exactly at power 0 |
| `Glyphs.MyriadMarkerInjective` | src/lib.rs:118-129 | with the crate's tables, distinct powers 0..9 get distinct markers |
| `Digits.LsfDigits` | src/lib.rs:103-108 | the extraction yields decimal digits only, and yields none exactly for 0 |
| `Digits.LsfRoundTrip` | src/lib.rs:103-108 | the extracted digits, read least significant first, evaluate to n |
| `Digits.PadLength` | src/lib.rs:110-113 | the padding loop pushes fewer than four zeros, and after them the length is a multiple of 4 |
| `Digits.Padded` | src/lib.rs:103-113 | specification function: the extracted digits followed by `PadLength` zeros; `MsfDigitsCorrect` states what it means |
| `Digits.MsfDigits` | src/lib.rs:103-114 | specification function: the padded digits reversed, the sequence the chunk loop walks; `MsfDigitsCorrect` states what it means |
| `Digits.MsfDigitsCorrect` | src/lib.rs:103-114 | the padded, reversed digits have positive length divisible by 4, are decimal and evaluate to n; they are the significant digits behind fewer than four leading zeros, and the first significant digit is not 0 |
| `Digits.DecimalDigits` | src/lib.rs:102-114 | the extraction loop, the padding loop and the reversal produce the specified digit sequence |
| `Digits.ChunkCountBound` | src/lib.rs:116-125 | below 10^40 there are at most 40 padded digits, so the first myriad power is at most 9 |
| `Digits.MsfDigitsSplit` | src/lib.rs:132 | at or above 10^4 the digit sequence is that of n / 10^4 followed by the four digits of n % 10^4: one chunk per power of 10,000 |
| `Render.ChunksAreMyriads` | src/lib.rs:103-137 | the chunks the loop walks are exactly the base-10^4 digits of n, most significant first |
| `Render.ChunksOf` | src/lib.rs:132-137 | `chunks_exact(4)`: there are |digits| / 4 chunks, and chunk j holds digits 4j, 4j+1, 4j+2, 4j+3 as thousand, hundred, ten, one |
| `Render.Rendered` | src/lib.rs:138-140 | the rendered chunks are never all zero, there are no more of them than chunks, and they stay valid |
| `Render.PartsAt` | src/lib.rs:146-172 | the j-th rendered chunk is rendered at myriad power `top − j`, never below 0 |
| `Render.PowerAt` | src/lib.rs:170-172 | the counter after j rendered chunks: never above its start `top`, and exactly `top − j` while j ≤ top (the saturating decrement stops it at 0) |
| `Render.RenderChunk` | src/lib.rs:146-169 | specification function: marker, thousand, hundred, ten and one glyphs, then the keraia when the thousands digit is 0; `RenderChunkMarks` and `MarkerWhateverCase` state what it means |
| `Render.Join` | src/lib.rs:142-144 | specification function: the parts with `", "` between each two; `JoinCommas` and `NoLeadingSeparator` state what it means |
| `Render.Step` | src/lib.rs:133-173 | one pass of the chunk loop; the counter never rises |
| `Render.Walk` | src/lib.rs:131-174 | the first k passes of the chunk loop; the counter never rises above its start |
| `Render.WalkRenders` | src/lib.rs:131-174 | after k passes, the text is the joined renderings of the non-zero chunks among the first k. The counter has dropped once per rendered chunk, stopping at 0, and the flag says whether a chunk was rendered. An all-zero chunk changes none of the three |
| `Render.WalkIsNumeral` | src/lib.rs:116-175 | the chunk loop, started with the counter at chunk count − 1 and the flag unset, ends with the declarative numeral |
| `Render.Numeral` | src/lib.rs:48-176 | specification function: the zero sign for 0, otherwise the joined renderings of the non-zero base-10^4 digits; `ToGreek`, `SeparatorCount`, `SingleChunk` and the vectors state what it means |
| `Render.Greek` | src/lib.rs:48-176 | specification function: `Numeral` with the crate's tables |
| `GreekNumber.ToGreek` | src/lib.rs:48-176 | `to_greek` returns the declarative numeral of n, and the zero sign alone for 0 |
| `GreekNumber.RenderDigits` | src/lib.rs:116-175 | the chunk `for` loop computes the text the pass-by-pass model gives |
| `GreekNumber.ChunkPass` | src/lib.rs:133-173 | one pass either skips an all-zero chunk and leaves text, counter and flag alone, or appends the separator (if a chunk came before) and the chunk, lowers the counter unless it is 0, and sets the flag |
| `GreekNumber.PushChunk` | src/lib.rs:146-169 | the pushes of one chunk append the myriad marker, the four place glyphs in thousand, hundred, ten, one order, and the keraia when the thousands digit is 0 |
| `GreekNumber.PushDigit` | src/lib.rs:150-165 | one place pushes its table entry for a non-zero digit and nothing for 0 |
| `GreekNumber.ToGreekLowercase` | src/lib.rs:26-28 | the lowercase wrapper returns the lowercase numeral |
| `GreekNumber.ToGreekUppercase` | src/lib.rs:43-45 | the uppercase wrapper returns the uppercase numeral |
| `Properties.ZeroChunkInvisible` | src/lib.rs:138-140 | inserting an all-zero chunk anywhere changes nothing that gets rendered |
| `Properties.PlacePowers` | src/lib.rs:116 | without all-zero chunks, each chunk is rendered at the power of its place (chunk count − 1 − j) |
| `Properties.RenderChunkMarks` | src/lib.rs:142-169 | a rendered chunk holds neither character of the separator, and holds the keraia exactly when its thousands digit is 0 |
| `Properties.MarkerWhateverCase` | src/lib.rs:126-127 | the myriad marker opens the chunk in both cases and is the lowercase ones glyph of the power followed by `Μ` |
| `Properties.FirstChunkRendered` | src/lib.rs:110-114 | the first chunk of a positive number is never all zero, so it is rendered first and at the highest power |
| `Properties.JoinCommas` | src/lib.rs:142-144 | joining comma-free parts gives one comma per separator, one fewer than the parts |
| `Properties.SeparatorCount` | src/lib.rs:131-144 | a positive numeral holds exactly (rendered chunks − 1) commas |
| `Properties.NoLeadingSeparator` | src/lib.rs:131-144 | a positive numeral is non-empty and does not start with the separator |
| `ShortNumerals.ZeroWhateverCase` | src/lib.rs:49-51 | 0 gives the Greek Zero Sign alone, the same in both cases |
| `ShortNumerals.SingleChunk` | src/lib.rs:132-169 | a positive n below 10^4 is its one chunk, rendered without a myriad marker |
| `ShortNumerals.OneDigit` | src/lib.rs:162-169 | for 1 ≤ n ≤ 9 the numeral is the ones glyph of n in the requested case followed by `ʹ` |
| `CaseCorrespondence.PartsCorrespond` | src/lib.rs:146-169 | in both cases the j-th rendered chunk opens with the same myriad marker and carries the keraia in the same chunks |
| `CaseCorrespondence.SameSeparators` | src/lib.rs:142-144 | the lowercase and uppercase numerals hold the same number of separators |
| `Vectors.Vector1` | src/lib.rs:199-200 | 1 gives `αʹ` and `Αʹ` |
| `Vectors.Vector241` | src/lib.rs:202-203 | 241 gives `σμαʹ` and `ΣΜΑʹ` |
| `Vectors.Vector5683` | src/lib.rs:205 | 5683 gives `͵εχπγ` |
| `Vectors.Vector9184` | src/lib.rs:206 | 9184 gives `͵θρπδ` |
| `Vectors.Vector3398` | src/lib.rs:207 | 3398 gives `͵γτϙη` |
| `Vectors.Vector1005` | src/lib.rs:208 | 1005 gives `͵αε` |
| `Vectors.Vector97554` | src/lib.rs:210 | 97554 gives `αΜθʹ, ͵ζφνδ` |
| `Vectors.Vector2056839184` | src/lib.rs:211 | 2056839184 gives `βΜκʹ, αΜ͵εχπγ, ͵θρπδ` |
| `Vectors.Vector12312398676` | src/lib.rs:212 | 12312398676 gives `βΜρκγʹ, αΜ͵ασλθ, ͵ηχοϛ` |
| `Vectors.Vector2000000000` | src/lib.rs:214 | 2000000000 gives `βΜκʹ`: the two trailing zero chunks emit nothing |
| `Vectors.Vector90000001` | src/lib.rs:215 | 90000001 gives `αΜ͵θ, αʹ` |
| `Vectors.MyriadCounterSkipsZeroChunk` | src/lib.rs:138-140 | 100000001 gives `βΜαʹ, αΜαʹ`: the skipped middle chunk leaves the counter at 1 for the units chunk |

## Left out

- Integer width: `n` is a `nat` with the precondition `n < 10^40`. This precondition stands
  for the `assert!(M_power <= 9)` in `get_M_prefix`, which panics on every larger input
  because the first chunk is always rendered. The 64-bit `usize` bound and its overflow are
  not modelled.
- The `greek_number_tests!` macro (src/lib.rs:178-217) is test plumbing. Its vectors appear
  as lemmas in `Vectors`.
- The `assert_eq!(chunk.len(), 4)` at src/lib.rs:134 holds by construction: `ChunksOf`
  requires a length divisible by 4, and `DecimalDigits` guarantees one.
- `Vec::reverse` is a library call. The model states its result as the function `Reverse`
  instead of an in-place loop.
- Glyphs are opaque Dafny strings compared character by character. No Unicode
  normalisation, grapheme or rendering concern is modelled.
- Decoding a numeral back to a number is not part of the crate, so there is no round trip
  against a decoder. `Glyphs.MyriadMarkerInjective` is the only injectivity fact stated.
- CaseCorrespondence.PartsCorrespond: it states that the two cases share markers,
  separators and keraia positions. It does not state that the glyphs of the two columns
  differ only in case, because the tables are not case-symmetric (tens-9).
