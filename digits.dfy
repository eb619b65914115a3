/** Decomposition of a positive integer into decimal digits, most significant first,
    left-padded with zeros to a whole number of 4-digit chunks. */
module Digits {

  function Pow10(k: nat): (r: nat)
    ensures r > 0
  {
    if k == 0 then 1 else 10 * Pow10(k - 1)
  }

  /** The decimal digits of n, least significant first, as repeated `% 10` and `/ 10` yield them. */
  function LsfDigits(n: nat): (ds: seq<nat>)
    ensures forall i :: 0 <= i < |ds| ==> ds[i] < 10
    ensures n == 0 <==> ds == []
    decreases n
  {
    if n == 0 then [] else [n % 10] + LsfDigits(n / 10)
  }

  /** The last digit extracted, the most significant one, is never 0. */
  lemma {:induction false} LsfDigitsLastNonZero(n: nat)
    requires n > 0
    ensures LsfDigits(n)[|LsfDigits(n)| - 1] != 0
    decreases n
  {
    if n >= 10 {
      LsfDigitsLastNonZero(n / 10);
    }
  }

  /** The value of a least-significant-first digit sequence. */
  function LsfValue(ds: seq<nat>): nat
  {
    if ds == [] then 0 else ds[0] + 10 * LsfValue(ds[1..])
  }

  /** The value of a most-significant-first digit sequence. */
  function MsfValue(ds: seq<nat>): nat
  {
    if ds == [] then 0 else 10 * MsfValue(ds[..|ds| - 1]) + ds[|ds| - 1]
  }

  function Reverse<T>(s: seq<T>): (r: seq<T>)
    ensures |r| == |s|
  {
    if s == [] then [] else Reverse(s[1..]) + [s[0]]
  }

  function Zeros(k: nat): (z: seq<nat>)
    ensures |z| == k
    ensures forall i :: 0 <= i < k ==> z[i] == 0
  {
    if k == 0 then [] else Zeros(k - 1) + [0]
  }

  /** How many zeros bring a length up to the next multiple of 4. */
  function PadLength(len: nat): (p: nat)
    ensures p < 4 && (len + p) % 4 == 0
  {
    (4 - len % 4) % 4
  }

  /** The digits after the padding loop, still least significant first. */
  function Padded(n: nat): seq<nat>
  {
    LsfDigits(n) + Zeros(PadLength(|LsfDigits(n)|))
  }

  /** The digit sequence the chunk loop walks: the padded digits reversed. */
  function MsfDigits(n: nat): seq<nat>
  {
    Reverse(Padded(n))
  }

  lemma {:induction false} LsfRoundTrip(n: nat)
    ensures LsfValue(LsfDigits(n)) == n
    decreases n
  {
    if n > 0 {
      LsfRoundTrip(n / 10);
      assert LsfDigits(n)[1..] == LsfDigits(n / 10);
    }
  }

  lemma {:induction false} ReverseAt<T>(s: seq<T>, i: nat)
    requires i < |s|
    ensures Reverse(s)[i] == s[|s| - 1 - i]
  {
    if i < |s| - 1 {
      ReverseAt(s[1..], i);
    }
  }

  lemma {:induction false} ReverseConcat<T>(a: seq<T>, b: seq<T>)
    ensures Reverse(a + b) == Reverse(b) + Reverse(a)
  {
    forall i | 0 <= i < |a| + |b|
      ensures Reverse(a + b)[i] == (Reverse(b) + Reverse(a))[i]
    {
      ReverseAt(a + b, i);
      if i < |b| {
        ReverseAt(b, i);
      } else {
        ReverseAt(a, i - |b|);
      }
    }
  }

  lemma {:induction false} MsfValueOfReverse(s: seq<nat>)
    ensures MsfValue(Reverse(s)) == LsfValue(s)
  {
    if s != [] {
      MsfValueOfReverse(s[1..]);
      var r := Reverse(s);
      assert r[..|r| - 1] == Reverse(s[1..]);
    }
  }

  /** Leading zeros do not change the value. */
  lemma {:induction false} MsfValueLeadingZeros(k: nat, s: seq<nat>)
    ensures MsfValue(Zeros(k) + s) == MsfValue(s)
    decreases |s|, k
  {
    if s == [] {
      assert Zeros(k) + s == Zeros(k);
      if k > 0 {
        MsfValueLeadingZeros(k - 1, []);
        assert Zeros(k)[..k - 1] == Zeros(k - 1) + [];
      }
    } else {
      var t := Zeros(k) + s;
      assert t[..|t| - 1] == Zeros(k) + s[..|s| - 1];
      MsfValueLeadingZeros(k, s[..|s| - 1]);
    }
  }

  /** Reversing the zero padding gives leading zeros. */
  lemma ReverseZeros(k: nat)
    ensures Reverse(Zeros(k)) == Zeros(k)
  {
    forall i | 0 <= i < k ensures Reverse(Zeros(k))[i] == Zeros(k)[i] {
      ReverseAt(Zeros(k), i);
    }
  }

  /** The chunk loop's input: a positive multiple of 4 long, decimal digits only,
      its value is n, and it is the significant digits behind fewer than 4 leading zeros,
      the first of which is not 0. */
  lemma MsfDigitsCorrect(n: nat)
    requires n > 0
    ensures var ds := MsfDigits(n);
      && |ds| > 0 && |ds| % 4 == 0
      && (forall i :: 0 <= i < |ds| ==> ds[i] < 10)
      && MsfValue(ds) == n
      && ds == Zeros(PadLength(|LsfDigits(n)|)) + Reverse(LsfDigits(n))
      && ds[PadLength(|LsfDigits(n)|)] != 0
  {
    var lsf := LsfDigits(n);
    var k := PadLength(|lsf|);
    ReverseConcat(lsf, Zeros(k));
    ReverseZeros(k);
    var ds := MsfDigits(n);
    assert ds == Zeros(k) + Reverse(lsf);
    forall i | 0 <= i < |ds| ensures ds[i] < 10 {
      if i >= k {
        ReverseAt(lsf, i - k);
      }
    }
    ReverseAt(lsf, 0);
    LsfDigitsLastNonZero(n);
    MsfValueLeadingZeros(k, Reverse(lsf));
    MsfValueOfReverse(lsf);
    LsfRoundTrip(n);
  }

  /** 10^40: the numbers below it have at most ten chunks, so their myriad powers stay
      within the single-digit prefixes 1..9. */
  const Limit: nat := 10000000000000000000000000000000000000000

  lemma {:induction false} Pow10Forty()
    ensures Pow10(40) == Limit
  {
    assert Pow10(10) == 10000000000;
    assert Pow10(20) == 10000000000 * Pow10(10) by { Pow10Add(10, 10); }
    assert Pow10(40) == Pow10(20) * Pow10(20) by { Pow10Add(20, 20); }
  }

  lemma {:induction false} Pow10Add(j: nat, k: nat)
    ensures Pow10(j + k) == Pow10(j) * Pow10(k)
    decreases k
  {
    if k > 0 {
      Pow10Add(j, k - 1);
    }
  }

  /** A number below 10^k has at most k digits. */
  lemma {:induction false} LsfDigitsLength(n: nat, k: nat)
    requires n < Pow10(k)
    ensures |LsfDigits(n)| <= k
  {
    if n > 0 {
      LsfDigitsLength(n / 10, k - 1);
    }
  }

  /** Padding a length of at most 40 stays within 40. */
  lemma PadBound(len: nat)
    requires len <= 40
    ensures len + PadLength(len) <= 40
  {
  }

  /** Below 10^40 there are at most 10 chunks, so the first myriad power is at most 9. */
  lemma ChunkCountBound(n: nat)
    requires n < Limit
    ensures |MsfDigits(n)| <= 40
  {
    Pow10Forty();
    LsfDigitsLength(n, 40);
    PadBound(|LsfDigits(n)|);
  }

  /** Pushing zeros reaches a multiple of 4 exactly after PadLength of them. */
  lemma PadStep(len: nat, j: nat)
    requires j <= PadLength(len)
    ensures (len + j) % 4 == 0 <==> j == PadLength(len)
  {
  }

  lemma DivTwice(n: nat)
    ensures n / 10 / 10 == n / 100 && n / 100 / 10 == n / 1000
  {
    var a, b := n / 10, n / 10 / 10;
    assert n == 100 * b + 10 * (a % 10) + n % 10;
    var c := b / 10;
    assert n == 1000 * c + 100 * (b % 10) + 10 * (a % 10) + n % 10;
  }

  /** Below 10^4 the padded digits are the four place digits, least significant first. */
  lemma PaddedOneChunk(n: nat)
    requires 0 < n < 10000
    ensures Padded(n) == [n % 10, n / 10 % 10, n / 100 % 10, n / 1000]
  {
    if n < 10 {
      PaddedDigits1(n);
    } else if n < 100 {
      PaddedDigits2(n);
    } else if n < 1000 {
      PaddedDigits3(n);
    } else {
      PaddedDigits4(n);
    }
  }

  lemma SingleDigit(m: nat)
    requires 0 < m < 10
    ensures LsfDigits(m) == [m]
  {
    assert LsfDigits(m) == [m % 10] + LsfDigits(0);
  }

  lemma PaddedDigits1(n: nat)
    requires 0 < n < 10
    ensures Padded(n) == [n % 10, n / 10 % 10, n / 100 % 10, n / 1000]
  {
    SingleDigit(n);
    assert Zeros(3) == [0, 0, 0];
  }

  lemma PaddedDigits2(n: nat)
    requires 10 <= n < 100
    ensures Padded(n) == [n % 10, n / 10 % 10, n / 100 % 10, n / 1000]
  {
    SingleDigit(n / 10);
    assert LsfDigits(n) == [n % 10] + [n / 10];
    assert Zeros(2) == [0, 0];
  }

  lemma PaddedDigits3(n: nat)
    requires 100 <= n < 1000
    ensures Padded(n) == [n % 10, n / 10 % 10, n / 100 % 10, n / 1000]
  {
    DivTwice(n);
    assert n / 1000 == 0 && n / 100 % 10 == n / 100;
    SingleDigit(n / 100);
    assert LsfDigits(n / 10) == [n / 10 % 10] + [n / 100];
    assert LsfDigits(n) == [n % 10] + ([n / 10 % 10] + [n / 100]);
    assert Zeros(1) == [0];
  }

  lemma PaddedDigits4(n: nat)
    requires 1000 <= n < 10000
    ensures Padded(n) == [n % 10, n / 10 % 10, n / 100 % 10, n / 1000]
  {
    DivTwice(n);
    SingleDigit(n / 1000);
    assert LsfDigits(n / 100) == [n / 100 % 10] + [n / 1000];
    assert LsfDigits(n / 10) == [n / 10 % 10] + ([n / 100 % 10] + [n / 1000]);
    assert LsfDigits(n) == [n % 10] + ([n / 10 % 10] + ([n / 100 % 10] + [n / 1000]));
    assert LsfDigits(n) + [] == LsfDigits(n);
  }

  lemma Reverse4<T>(a: T, b: T, c: T, d: T)
    ensures Reverse([a, b, c, d]) == [d, c, b, a]
  {
    assert [a, b, c, d][1..] == [b, c, d];
    assert [b, c, d][1..] == [c, d];
    assert [c, d][1..] == [d];
    assert Reverse([d]) == [d];
    assert Reverse([c, d]) == [d, c];
    assert Reverse([b, c, d]) == [d, c, b];
  }

  /** Below 10^4 the digits form one chunk: thousand, hundred, ten, one. */
  lemma SingleChunkDigits(n: nat)
    requires 0 < n < 10000
    ensures MsfDigits(n) == FourDigits(n)
  {
    PaddedOneChunk(n);
    Reverse4<nat>(n % 10, n / 10 % 10, n / 100 % 10, n / 1000);
  }

  /** The four digits of r < 10^4, most significant first. */
  function FourDigits(r: nat): (ds: seq<nat>)
    ensures |ds| == 4
  {
    [r / 1000, r / 100 % 10, r / 10 % 10, r % 10]
  }

  /** The lower four digits of n are those of n % 10^4, and what is left is n / 10^4. */
  lemma SplitArithmetic(n: nat)
    ensures n / 10 / 10 / 10 / 10 == n / 10000
    ensures n % 10 == n % 10000 % 10
    ensures n / 10 % 10 == n % 10000 / 10 % 10
    ensures n / 100 % 10 == n % 10000 / 100 % 10
    ensures n / 1000 % 10 == n % 10000 / 1000
  {
    DivTwice(n);
    var q, r := n / 10000, n % 10000;
    assert n == 10000 * q + r;
    assert n / 10 == 1000 * q + r / 10;
    assert n / 100 == 100 * q + r / 100;
    assert n / 1000 == 10 * q + r / 1000;
    assert n / 1000 / 10 == q;
  }

  /** Four passes of the extraction loop over a number with more than four digits. */
  lemma LsfDigitsFour(n: nat)
    requires n >= 10000
    ensures LsfDigits(n) == [n % 10, n / 10 % 10, n / 10 / 10 % 10, n / 10 / 10 / 10 % 10] + LsfDigits(n / 10 / 10 / 10 / 10)
  {
    var a := n / 10;
    var b := a / 10;
    var c := b / 10;
    var rest := LsfDigits(c / 10);
    assert LsfDigits(c) == [c % 10] + rest;
    assert LsfDigits(b) == [b % 10] + LsfDigits(c);
    assert LsfDigits(a) == [a % 10] + LsfDigits(b);
    assert LsfDigits(n) == [n % 10] + LsfDigits(a);
    Cons4(n % 10, a % 10, b % 10, c % 10, rest);
  }

  lemma Cons4<T>(x: T, y: T, z: T, w: T, rest: seq<T>)
    ensures [x] + ([y] + ([z] + ([w] + rest))) == [x, y, z, w] + rest
  {
  }

  /** At least 10^4 the extraction loop takes the four digits of n % 10^4 before those of n / 10^4. */
  lemma LsfDigitsSplit(n: nat)
    requires n >= 10000
    ensures LsfDigits(n) == Reverse(FourDigits(n % 10000)) + LsfDigits(n / 10000)
  {
    var r := n % 10000;
    LsfDigitsFour(n);
    SplitArithmetic(n);
    DivTwice(n);
    Reverse4<nat>(r / 1000, r / 100 % 10, r / 10 % 10, r % 10);
  }

  /** At least 10^4 the digits are those of n / 10^4 followed by the four digits of n % 10^4:
      a chunk per power of 10^4. */
  lemma MsfDigitsSplit(n: nat)
    requires n >= 10000
    ensures MsfDigits(n) == MsfDigits(n / 10000) + FourDigits(n % 10000)
  {
    PaddedSplit(n);
    ReverseConcat(Reverse(FourDigits(n % 10000)), Padded(n / 10000));
    ReverseTwice(FourDigits(n % 10000));
  }

  lemma PadLengthShift(len: nat)
    ensures PadLength(len + 4) == PadLength(len)
  {
  }

  lemma PaddedSplit(n: nat)
    requires n >= 10000
    ensures Padded(n) == Reverse(FourDigits(n % 10000)) + Padded(n / 10000)
  {
    var p := Reverse(FourDigits(n % 10000));
    var lq := LsfDigits(n / 10000);
    LsfDigitsSplit(n);
    assert |p + lq| == |lq| + 4;
    PadLengthShift(|lq|);
    var z := Zeros(PadLength(|lq|));
    assert (p + lq) + z == p + (lq + z);
  }

  lemma {:induction false} ReverseTwice<T>(s: seq<T>)
    ensures Reverse(Reverse(s)) == s
  {
    forall i | 0 <= i < |s| ensures Reverse(Reverse(s))[i] == s[i] {
      ReverseAt(Reverse(s), i);
      ReverseAt(s, |s| - 1 - i);
    }
  }

  /** Taking one more digit off m moves it from LsfDigits(m) to the end of the collected digits. */
  lemma TakeDigit(collected: seq<nat>, m: nat)
    requires m > 0
    ensures (collected + [m % 10]) + LsfDigits(m / 10) == collected + LsfDigits(m)
  {
    assert LsfDigits(m) == [m % 10] + LsfDigits(m / 10);
  }

  /** One more padding zero, while the length is not yet a multiple of 4. */
  lemma PadOne(lead: seq<nat>, j: nat)
    requires j <= PadLength(|lead|) && (|lead| + j) % 4 != 0
    ensures j + 1 <= PadLength(|lead|)
    ensures (lead + Zeros(j)) + [0] == lead + Zeros(j + 1)
  {
    PadStep(|lead|, j);
    assert Zeros(j + 1) == Zeros(j) + [0];
  }

  /** The padding loop stops exactly after PadLength zeros. */
  lemma PadDone(lead: seq<nat>, j: nat)
    requires j <= PadLength(|lead|) && (|lead| + j) % 4 == 0
    ensures j == PadLength(|lead|)
  {
    PadStep(|lead|, j);
  }

  /** The digit-extraction loops of `to_greek`: collect `n % 10` while dividing by 10,
      push zeros until the length is a multiple of 4, then reverse. */
  method DecimalDigits(n: nat) returns (digits: seq<nat>)
    ensures digits == MsfDigits(n)
  {
    ghost var all := LsfDigits(n);
    var lsf: seq<nat> := [];
    var m := n;
    while m > 0
      invariant lsf + LsfDigits(m) == all
      decreases m
    {
      TakeDigit(lsf, m);
      lsf := lsf + [m % 10];
      m := m / 10;
    }
    assert lsf == all by {
      assert lsf + [] == lsf;
    }
    ghost var zeros := 0;
    while |lsf| % 4 != 0
      invariant zeros <= PadLength(|all|)
      invariant lsf == all + Zeros(zeros)
      decreases PadLength(|all|) - zeros
    {
      PadOne(all, zeros);
      lsf := lsf + [0];
      zeros := zeros + 1;
    }
    PadDone(all, zeros);
    digits := Reverse(lsf);
  }
}
