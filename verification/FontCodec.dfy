/**
 * The font generator's pixel codec (scripts/mkfont.py): glyph pixels as the
 * shortest sequence of 16-bit codes in four formats. The packed fields of a
 * code never overlap, so shifts and ors are written as sums and divisions.
 */
module FontCodec {
  import opened Arithmetic

  type Pixel = p: nat | p < 16
  type U2 = n: nat | n < 4
  type U3 = n: nat | n < 8
  type U5 = n: nat | n < 0x20
  type U9 = n: nat | n < 0x200
  type Word = w: nat | w < 0x1_0000

  const WHITE: Pixel := 15
  const BLACK: Pixel := 0

  // ---- codes --------------------------------------------------------------------

  /** A code's fields: 00 is pixel, black run, pixel, white run; the others end in one run. */
  datatype Code =
    | Code00(g: Pixel, black: U3, h: Pixel, white: U3)
    | Code01(g: Pixel, next: bool, n9: U9)
    | Code10(g: Pixel, h: Pixel, next: bool, n5: U5)
    | Code11(g: Pixel, h: Pixel, k: Pixel, n2: U2)

  function Bit(b: bool): nat {
    if b then 1 else 0
  }

  function Pack(c: Code): (w: Word) {
    match c
    case Code00(g, b, h, n) => g * 0x400 + b * 0x80 + h * 8 + n
    case Code01(g, next, n) => 0x4000 + g * 0x400 + Bit(next) * 0x200 + n
    case Code10(g, h, next, n) => 0x8000 + g * 0x400 + h * 0x40 + Bit(next) * 0x20 + n
    case Code11(g, h, k, n) => 0xC000 + g * 0x400 + h * 0x40 + k * 4 + n
  }

  function Unpack(w: Word): Code {
    match w / 0x4000
    case 0 => Code00(w / 0x400 % 16, w / 0x80 % 8, w / 8 % 16, w % 8)
    case 1 => Code01(w / 0x400 % 16, w / 0x200 % 2 == 1, w % 0x200)
    case 2 => Code10(w / 0x400 % 16, w / 0x40 % 16, w / 0x20 % 2 == 1, w % 0x20)
    case _ => Code11(w / 0x400 % 16, w / 0x40 % 16, w / 4 % 16, w % 4)
  }

  /** The m values of a field d up from the bottom: what a shift and a mask take out. */
  lemma {:induction false} Field(c: nat, hi: nat, m: nat, v: nat, d: nat, lo: nat)
    requires v < m && lo < d && c == (hi * m + v) * d + lo
    ensures c / d == hi * m + v && c / d % m == v && c % d == lo
  {
    Quotient(c, d, hi * m + v, lo);
    Quotient(hi * m + v, m, hi, v);
  }

  /** No field of a code is lost in its 16 bits. */
  lemma {:induction false} PackRoundTrip(c: Code)
    ensures Unpack(Pack(c)) == c
  {
    var w := Pack(c);
    match c
    case Code00(g, b, h, n) =>
      Field(w, 0, 16, g, 0x400, b * 0x80 + h * 8 + n);
      Field(w, g, 8, b, 0x80, h * 8 + n);
      Field(w, g * 8 + b, 16, h, 8, n);
    case Code01(g, next, n) =>
      Field(w, 1, 16, g, 0x400, Bit(next) * 0x200 + n);
      Field(w, 16 + g, 2, Bit(next), 0x200, n);
    case Code10(g, h, next, n) =>
      Field(w, 2, 16, g, 0x400, h * 0x40 + Bit(next) * 0x20 + n);
      Field(w, 32 + g, 16, h, 0x40, Bit(next) * 0x20 + n);
      Field(w, (32 + g) * 16 + h, 2, Bit(next), 0x20, n);
    case Code11(g, h, k, n) =>
      Field(w, 3, 16, g, 0x400, h * 0x40 + k * 4 + n);
      Field(w, 48 + g, 16, h, 0x40, k * 4 + n);
      Field(w, (48 + g) * 16 + h, 16, k, 4, n);
  }

  // ---- decoding -------------------------------------------------------------

  function Repeat(p: Pixel, n: nat): (s: seq<Pixel>)
    ensures |s| == n
  {
    seq(n, _ => p)
  }

  function Shade(next: bool): Pixel {
    if next then WHITE else BLACK
  }

  /** The pixels of one code. */
  function Pixels(c: Code): (s: seq<Pixel>)
    ensures |s| >= 1
  {
    match c
    case Code00(g, b, h, w) => [g] + Repeat(BLACK, b) + [h] + Repeat(WHITE, w)
    case Code01(g, next, n) => [g] + Repeat(Shade(next), n)
    case Code10(g, h, next, n) => [g, h] + Repeat(Shade(next), n)
    case Code11(g, h, k, n) => [g, h, k] + Repeat(BLACK, n)
  }

  function AllPixels(codes: seq<Code>): (s: seq<Pixel>)
    ensures |s| >= |codes|
  {
    if codes == [] then [] else Pixels(codes[0]) + AllPixels(codes[1..])
  }

  function UnpackAll(words: seq<Word>): (codes: seq<Code>)
    ensures |codes| == |words|
  {
    seq(|words|, i requires 0 <= i < |words| => Unpack(words[i]))
  }

  /** The first `count` pixels the words describe. */
  function Decoded(words: seq<Word>, count: nat): seq<Pixel> {
    var all := AllPixels(UnpackAll(words));
    if count <= |all| then all[..count] else all
  }

  // ---- what words mean, by their bits -----------------------------------------

  /** How many pixels a word is for. */
  function PixelsIn(w: Word): nat {
    match w / 0x4000
    case 0 => 2 + w / 0x80 % 8 + w % 8
    case 1 => 1 + w % 0x200
    case 2 => 2 + w % 0x20
    case _ => 3 + w % 4
  }

  /** Pixels from..to-1 are black, or white. */
  predicate Plain(px: seq<Pixel>, from: nat, to: nat, white: bool) {
    forall k :: from <= k < to && k < |px| ==> px[k] == if white then 15 else 0
  }

  /** A word's top two bits are its format, the next four its first pixel. */
  predicate Means(w: Word, px: seq<Pixel>) {
    && |px| == PixelsIn(w) && px[0] == w / 0x400 % 16
    && match w / 0x4000
       case 0 =>
         var b := w / 0x80 % 8;
         Plain(px, 1, 1 + b, false) && px[1 + b] == w / 8 % 16 && Plain(px, 2 + b, |px|, true)
       case 1 => Plain(px, 1, |px|, w / 0x200 % 2 == 1)
       case 2 => px[1] == w / 0x40 % 16 && Plain(px, 2, |px|, w / 0x20 % 2 == 1)
       case _ => px[1] == w / 0x40 % 16 && px[2] == w / 4 % 16 && Plain(px, 3, |px|, false)
  }

  /** The words' pixels one after another. */
  predicate AllMean(words: seq<Word>, px: seq<Pixel>) {
    if words == [] then px == []
    else PixelsIn(words[0]) <= |px| && Means(words[0], px[..PixelsIn(words[0])]) && AllMean(words[1..], px[PixelsIn(words[0])..])
  }

  lemma {:induction false} WordMeans(w: Word)
    ensures Means(w, Pixels(Unpack(w)))
  {}

  lemma {:induction false} WordsMean(words: seq<Word>)
    ensures AllMean(words, AllPixels(UnpackAll(words)))
  {
    if words == [] {
    } else {
      WordsMean(words[1..]);
      WordMeans(words[0]);
      var codes := UnpackAll(words);
      hide Means;
      assert codes[1..] == UnpackAll(words[1..]);
      assert AllPixels(codes) == Pixels(Unpack(words[0])) + AllPixels(UnpackAll(words[1..]));
      assert |Pixels(Unpack(words[0]))| == PixelsIn(words[0]);
    }
  }

  /** The decoder's pixels are those the words mean, bit by bit, cut to the count. */
  lemma {:induction false} DecodedMean(words: seq<Word>, count: nat)
    ensures exists all :: AllMean(words, all) && Decoded(words, count) == if count <= |all| then all[..count] else all
  {
    hide AllMean, AllPixels;
    WordsMean(words);
  }

  method Decode(words: seq<Word>, count: nat) returns (px: seq<Pixel>)
    ensures px == Decoded(words, count)
  {
    px := [];
    ghost var codes := UnpackAll(words);
    for i := 0 to |words|
      invariant px + AllPixels(codes[i..]) == AllPixels(codes)
    {
      assert codes[i..][0] == codes[i] && codes[i..][1..] == codes[i + 1..];
      px := px + Pixels(Unpack(words[i]));
    }
    px := if count <= |px| then px[..count] else px;
  }

  // ---- runs ----------------------------------------------------------------------

  /** Pixels i..i+n-1 are all p. */
  predicate IsRun(px: seq<Pixel>, i: nat, p: Pixel, n: nat)
    requires i + n <= |px|
  {
    forall k :: i <= k < i + n ==> px[k] == p
  }

  /** n is the longest run of p at i, up to cap. */
  predicate LongestRun(px: seq<Pixel>, i: nat, p: Pixel, cap: nat, n: nat)
    requires i <= |px|
  {
    && n <= cap && i + n <= |px| && IsRun(px, i, p, n)
    && (n == cap || i + n == |px| || px[i + n] != p)
  }

  function Run(px: seq<Pixel>, i: nat, p: Pixel, cap: nat): (n: nat)
    requires i <= |px|
    ensures LongestRun(px, i, p, cap, n)
    decreases cap
  {
    if cap > 0 && i < |px| && px[i] == p then 1 + Run(px, i + 1, p, cap - 1) else 0
  }

  method MeasureRun(px: seq<Pixel>, i: nat, p: Pixel, cap: nat) returns (n: nat)
    requires i <= |px|
    ensures n == Run(px, i, p, cap)
  {
    n := 0;
    while i + n < |px| && px[i + n] == p && n < cap
      invariant n <= cap && i + n <= |px| && IsRun(px, i, p, n)
    {
      n := n + 1;
    }
  }

  // ---- what the encoder tries at each position -----------------------------------------

  /** A code and the position after the pixels it describes. */
  datatype Option = Option(code: Code, next: nat)

  /** Whether c describes the pixels from i on, as far as there are any. */
  predicate Fits(px: seq<Pixel>, i: nat, c: Code) {
    forall k :: 0 <= k < |Pixels(c)| && i + k < |px| ==> Pixels(c)[k] == px[i + k]
  }

  function End(px: seq<Pixel>, i: nat, c: Code): nat {
    if i + |Pixels(c)| <= |px| then i + |Pixels(c)| else |px|
  }

  predicate IsOption(px: seq<Pixel>, i: nat, o: Option) {
    i < o.next <= |px| && Pixels(o.code) == px[i..o.next]
  }

  function Shaded(px: seq<Pixel>, j: nat): bool {
    j < |px| && (px[j] == WHITE || px[j] == BLACK)
  }

  predicate Next(px: seq<Pixel>, j: nat) {
    j < |px| && px[j] == WHITE
  }

  function ShadedRun(px: seq<Pixel>, j: nat, cap: nat): nat
    requires j <= |px|
  {
    if Shaded(px, j) then Run(px, j, px[j], cap) else 0
  }

  lemma {:induction false} FourParts(px: seq<Pixel>, i: nat, k: nat, end: nat)
    requires i < k < end <= |px|
    ensures px[i..end] == [px[i]] + px[i + 1..k] + [px[k]] + px[k + 1..end]
  {}

  lemma {:induction false} Runs00(px: seq<Pixel>, i: nat, b: U3, w: U3)
    requires i + 1 + b + 1 + w <= |px| && IsRun(px, i + 1, BLACK, b) && IsRun(px, i + 2 + b, WHITE, w)
    ensures Pixels(Code00(px[i], b, px[i + 1 + b], w)) == px[i..i + 2 + b + w]
  {
    var k := i + 1 + b;
    assert Repeat(BLACK, b) == px[i + 1..k];
    assert Repeat(WHITE, w) == px[k + 1..k + 1 + w];
    hide Repeat, IsRun;
    FourParts(px, i, k, k + 1 + w);
  }

  function Option00(px: seq<Pixel>, i: nat): (os: seq<Option>)
    requires i < |px|
    ensures forall o :: o in os ==> IsOption(px, i, o)
  {
    hide Repeat, Run;
    var b := Run(px, i + 1, BLACK, 7);
    var k := i + 1 + b;
    if k < |px| then
      var w := Run(px, k + 1, WHITE, 7);
      Runs00(px, i, b, w);
      [Option(Code00(px[i], b, px[k], w), k + 1 + w)]
    else []
  }

  function Option01(px: seq<Pixel>, i: nat): (o: Option)
    requires i < |px|
    ensures IsOption(px, i, o)
  {
    var n := ShadedRun(px, i + 1, 511);
    Option(Code01(px[i], Next(px, i + 1), n), i + 1 + n)
  }

  function Option10(px: seq<Pixel>, i: nat): (os: seq<Option>)
    requires i < |px|
    ensures forall o :: o in os ==> IsOption(px, i, o)
  {
    if i + 1 < |px| then
      var n := ShadedRun(px, i + 2, 31);
      [Option(Code10(px[i], px[i + 1], Next(px, i + 2), n), i + 2 + n)]
    else []
  }

  function Option11(px: seq<Pixel>, i: nat): (os: seq<Option>)
    requires i < |px|
    ensures forall o :: o in os ==> IsOption(px, i, o)
  {
    if i + 2 < |px| then
      var n := Run(px, i + 3, BLACK, 3);
      [Option(Code11(px[i], px[i + 1], px[i + 2], n), i + 3 + n)]
    else []
  }

  function Options(px: seq<Pixel>, i: nat): (os: seq<Option>)
    requires i < |px|
    ensures |os| > 0
    ensures forall t :: 0 <= t < |os| ==> IsOption(px, i, os[t])
  {
    Option00(px, i) + [Option01(px, i)] + Option10(px, i) + Option11(px, i)
  }

  // ---- the fewest codes -----------------------------------------------------------------

  function Least(s: seq<nat>): (m: nat)
    requires |s| > 0
    ensures m in s
    ensures forall t :: 0 <= t < |s| ==> m <= s[t]
  {
    if |s| == 1 then s[0]
    else
      var m := Least(s[1..]);
      if s[0] <= m then s[0] else m
  }

  /** How many codes the encoder uses from position i on. */
  function Cost(px: seq<Pixel>, i: nat): nat
    decreases |px| - i
  {
    if i >= |px| then 0
    else
      var os := Options(px, i);
      1 + Least(seq(|os|, t requires 0 <= t < |os| => assert IsOption(px, i, os[t]); Cost(px, os[t].next)))
  }

  lemma {:induction false} CostIsLeast(px: seq<Pixel>, i: nat, o: Option)
    requires i < |px| && o in Options(px, i)
    ensures Cost(px, i) <= 1 + Cost(px, o.next)
  {
    var os := Options(px, i);
    var s := seq(|os|, t requires 0 <= t < |os| => assert IsOption(px, i, os[t]); Cost(px, os[t].next));
    var t :| 0 <= t < |os| && os[t] == o;
    assert s[t] == Cost(px, o.next);
  }

  // ---- trying only maximal runs loses nothing -----------------------------------------------

  /** No run of p at i within the cap is longer than the measured one. */
  lemma {:induction false} RunIsLongest(px: seq<Pixel>, i: nat, p: Pixel, cap: nat, n: nat)
    requires n <= cap && i + n <= |px| && IsRun(px, i, p, n)
    ensures n <= Run(px, i, p, cap)
  {}

  /** A fitting code whose pixels end in n of shade p at j describes a run there, cut at the glyph's end. */
  lemma {:induction false} TailRun(px: seq<Pixel>, i: nat, c: Code, j: nat, p: Pixel, n: nat)
    requires i < j <= |px| && Fits(px, i, c) && |Pixels(c)| == j - i + n
    requires forall k :: j - i <= k < |Pixels(c)| ==> Pixels(c)[k] == p
    ensures var m := if j + n <= |px| then n else |px| - j;
            IsRun(px, j, p, m) && End(px, i, c) == j + m
  {
    var m := if j + n <= |px| then n else |px| - j;
    forall k | j <= k < j + m ensures px[k] == p {
      assert Pixels(c)[k - i] == p;
    }
  }

  /** Some option goes at least as far as `end`. */
  ghost predicate Reaches(px: seq<Pixel>, i: nat, end: nat)
    requires i < |px|
  {
    exists o :: o in Options(px, i) && o.next >= end
  }

  lemma {:induction false} Option01Reaches(px: seq<Pixel>, i: nat, p: Pixel, n: nat)
    requires i < |px| && i + 1 + n <= |px| && n <= 511 && IsRun(px, i + 1, p, n)
    requires n > 0 ==> p == WHITE || p == BLACK
    ensures Reaches(px, i, i + 1 + n)
  {
    if n > 0 {
      assert px[i + 1] == p;
      RunIsLongest(px, i + 1, p, 511, n);
    }
    assert Option01(px, i) in Options(px, i);
  }

  lemma {:induction false} Option10Reaches(px: seq<Pixel>, i: nat, p: Pixel, n: nat)
    requires i + 2 + n <= |px| && n <= 31 && IsRun(px, i + 2, p, n)
    requires n > 0 ==> p == WHITE || p == BLACK
    ensures Reaches(px, i, i + 2 + n)
  {
    if n > 0 {
      assert px[i + 2] == p;
      RunIsLongest(px, i + 2, p, 31, n);
    }
    assert Option10(px, i)[0] in Options(px, i);
  }

  lemma {:induction false} Option11Reaches(px: seq<Pixel>, i: nat, n: nat)
    requires i + 3 + n <= |px| && n <= 3 && IsRun(px, i + 3, BLACK, n)
    ensures Reaches(px, i, i + 3 + n)
  {
    RunIsLongest(px, i + 3, BLACK, 3, n);
    assert Option11(px, i)[0] in Options(px, i);
  }

  /** Format 00 with b black, a pixel at k, w white: a longer black run only moves its end on. */
  lemma {:induction false} Option00Reaches(px: seq<Pixel>, i: nat, b: nat, w: nat)
    requires i + 1 + b + 1 + w <= |px| && b <= 7 && w <= 7
    requires IsRun(px, i + 1, BLACK, b) && IsRun(px, i + 2 + b, WHITE, w)
    ensures Reaches(px, i, i + 2 + b + w)
  {
    RunIsLongest(px, i + 1, BLACK, 7, b);
    var b' := Run(px, i + 1, BLACK, 7);
    var k' := i + 1 + b';
    if k' == |px| {
      Option01Reaches(px, i, BLACK, b');
    } else {
      if b' == b {
        RunIsLongest(px, k' + 1, WHITE, 7, w);
      } else if b' == b + 1 && w > 0 {
        RunIsLongest(px, k' + 1, WHITE, 7, w - 1);
      } else if b' > b + 1 {
        assert px[i + 2 + b] == BLACK;    // so w is 0
      }
      assert Option00(px, i)[0] in Options(px, i);
    }
  }

  /** Whatever code fits at i, one of the options gets at least as far. */
  lemma {:induction false} Dominated(px: seq<Pixel>, i: nat, c: Code)
    requires i < |px| && Fits(px, i, c)
    ensures Reaches(px, i, End(px, i, c))
  {
    var n := |px|;
    match c
    case Code00(_, b, _, w) => Dominated00(px, i, c);
    case Code01(_, next, len) =>
      TailRun(px, i, c, i + 1, Shade(next), len);
      Option01Reaches(px, i, Shade(next), End(px, i, c) - i - 1);
    case Code10(_, _, next, len) =>
      if i + 2 <= n {
        TailRun(px, i, c, i + 2, Shade(next), len);
        Option10Reaches(px, i, Shade(next), End(px, i, c) - i - 2);
      } else {
        Option01Reaches(px, i, BLACK, 0);
      }
    case Code11(_, _, _, len) =>
      if i + 3 <= n {
        TailRun(px, i, c, i + 3, BLACK, len);
        Option11Reaches(px, i, End(px, i, c) - i - 3);
      } else if i + 2 == n {
        Option10Reaches(px, i, BLACK, 0);
      } else {
        Option01Reaches(px, i, BLACK, 0);
      }
  }

  lemma {:induction false} Dominated00(px: seq<Pixel>, i: nat, c: Code)
    requires i < |px| && Fits(px, i, c) && c.Code00?
    ensures Reaches(px, i, End(px, i, c))
  {
    var b, w := c.black, c.white;
    var m := if i + 1 + b <= |px| then b else |px| - i - 1;
    forall k | i + 1 <= k < i + 1 + m ensures px[k] == BLACK {
      assert Pixels(c)[k - i] == BLACK;
    }
    if i + 1 + b >= |px| {
      Option01Reaches(px, i, BLACK, m);
    } else {
      TailRun(px, i, c, i + 2 + b, WHITE, w);
      Option00Reaches(px, i, b, End(px, i, c) - i - 2 - b);
    }
  }

  // ---- fewer pixels never cost more ------------------------------------------------------------

  /** A code for the same pixels but the first. */
  function Shorter(c: Code): (d: Code)
    requires |Pixels(c)| > 1
    ensures Pixels(d) == Pixels(c)[1..]
  {
    match c
    case Code00(_, b, h, w) =>
      if b > 0 then
        assert Repeat(BLACK, b) == [BLACK] + Repeat(BLACK, b - 1);
        Code00(BLACK, b - 1, h, w)
      else Code01(h, true, w)
    case Code01(_, next, n) =>
      assert Repeat(Shade(next), n) == [Shade(next)] + Repeat(Shade(next), n - 1);
      Code01(Shade(next), next, n - 1)
    case Code10(_, h, next, n) => Code01(h, next, n)
    case Code11(_, h, k, n) => Code10(h, k, false, n)
  }

  lemma {:induction false} CostShrinks(px: seq<Pixel>, i: nat, j: nat)
    requires i <= j
    ensures Cost(px, j) <= Cost(px, i)
    decreases |px| - i, j
  {
    if i >= j || i >= |px| {
    } else {
      OneLater(px, i);
      CostShrinks(px, i + 1, j);
    }
  }

  lemma {:induction false} ShorterFits(px: seq<Pixel>, i: nat, o: Option)
    requires IsOption(px, i, o) && o.next > i + 1
    ensures Fits(px, i + 1, Shorter(o.code)) && End(px, i + 1, Shorter(o.code)) == o.next
  {
    assert Pixels(Shorter(o.code)) == px[i..o.next][1..];
  }

  /** The option Cost takes. */
  lemma {:induction false} BestOption(px: seq<Pixel>, i: nat) returns (o: Option)
    requires i < |px|
    ensures IsOption(px, i, o) && Cost(px, i) == 1 + Cost(px, o.next)
  {
    var os := Options(px, i);
    var s := seq(|os|, t requires 0 <= t < |os| => assert IsOption(px, i, os[t]); Cost(px, os[t].next));
    var t :| 0 <= t < |s| && s[t] == Least(s);
    o := os[t];
  }

  /** A fitting code leaves no less to do than the encoder's choice. */
  lemma {:induction false} OneLater(px: seq<Pixel>, i: nat)
    requires i < |px|
    ensures Cost(px, i + 1) <= Cost(px, i)
    decreases |px| - i, 0
  {
    hide Cost, Options, Pixels;
    var o := BestOption(px, i);
    if o.next > i + 1 {
      ShorterFits(px, i, o);
      CoverCosts(px, i + 1, Shorter(o.code));
    }
  }

  lemma {:induction false} CoverCosts(px: seq<Pixel>, i: nat, c: Code)
    requires i < |px| && Fits(px, i, c)
    ensures Cost(px, i) <= 1 + Cost(px, End(px, i, c))
    decreases |px| - i, 0
  {
    Dominated(px, i, c);
    var o :| o in Options(px, i) && o.next >= End(px, i, c);
    CostIsLeast(px, i, o);
    CostShrinks(px, End(px, i, c), o.next);
  }

  // ---- the encoder -------------------------------------------------------------------------------

  /** The codes describe the pixels from i on (and perhaps more). */
  ghost predicate Describes(codes: seq<Code>, px: seq<Pixel>, i: nat)
    requires i <= |px|
  {
    |px| - i <= |AllPixels(codes)| && AllPixels(codes)[..|px| - i] == px[i..]
  }

  /** If p and then rest describe the pixels from i on, p fits there and rest describes what follows. */
  lemma {:induction false} SplitDescription(p: seq<Pixel>, rest: seq<Pixel>, px: seq<Pixel>, i: nat, j: nat)
    requires i < |px| && j == (if i + |p| <= |px| then i + |p| else |px|)
    requires |px| - i <= |p| + |rest| && (p + rest)[..|px| - i] == px[i..]
    ensures forall k :: 0 <= k < |p| && i + k < |px| ==> p[k] == px[i + k]
    ensures |px| - j <= |rest| && rest[..|px| - j] == px[j..]
  {
    var n := |px| - i;
    forall k | 0 <= k < n ensures (p + rest)[k] == px[i + k] {
      assert (p + rest)[..n][k] == px[i..][k];
    }
    forall k | 0 <= k < |px| - j ensures rest[k] == px[j + k] {
      assert (p + rest)[j - i + k] == px[j + k];
    }
  }

  /** No sequence of codes that decodes to the pixels is shorter than Cost says. */
  lemma {:induction false} NoneShorter(px: seq<Pixel>, i: nat, codes: seq<Code>)
    requires i <= |px| && Describes(codes, px, i)
    ensures Cost(px, i) <= |codes|
    decreases |codes|
  {
    if i >= |px| {
    } else {
      var j := End(px, i, codes[0]);
      SplitDescription(Pixels(codes[0]), AllPixels(codes[1..]), px, i, j);
      CoverCosts(px, i, codes[0]);
      NoneShorter(px, j, codes[1..]);
    }
  }

  /** encode: the words decode to the pixels, and no words that do are fewer. */
  method Encode(px: seq<Pixel>) returns (words: seq<Word>)
    ensures Decoded(words, |px|) == px && |AllPixels(UnpackAll(words))| == |px|
    ensures forall other: seq<Word> :: Decoded(other, |px|) == px ==> |words| <= |other|
  {
    assert AllPixels(UnpackAll([])) == [];
    hide Pixels, Unpack, Cost, AllPixels, UnpackAll, Pack, Decoded, IsOption;
    var best, choice := Choose(px);
    words := [];
    var i := 0;
    while i < |px|
      invariant 0 <= i <= |px| && AllPixels(UnpackAll(words)) == px[..i] && |words| + best[i] == best[0]
    {
      var o := choice[i];
      AppendChosen(px, i, o, words);
      words, i := words + [Pack(o.code)], o.next;
    }
    assert px[..|px|] == px;
    DecodesTo(words, px);
    NoWordsFewer(px);
  }

  lemma {:induction false} DecodesTo(words: seq<Word>, px: seq<Pixel>)
    requires AllPixels(UnpackAll(words)) == px
    ensures Decoded(words, |px|) == px && |AllPixels(UnpackAll(words))| == |px|
  {}

  /** The encoder's count of words is the least possible. */
  lemma {:induction false} NoWordsFewer(px: seq<Pixel>)
    ensures forall other: seq<Word> :: Decoded(other, |px|) == px ==> Cost(px, 0) <= |other|
  {
    forall other: seq<Word> | Decoded(other, |px|) == px ensures Cost(px, 0) <= |other| {
      assert px[0..] == px;
      NoneShorter(px, 0, UnpackAll(other));
    }
  }

  lemma {:induction false} AppendChosen(px: seq<Pixel>, i: nat, o: Option, words: seq<Word>)
    requires i < |px| && IsOption(px, i, o) && AllPixels(UnpackAll(words)) == px[..i]
    ensures AllPixels(UnpackAll(words + [Pack(o.code)])) == px[..o.next]
  {
    AppendCode(words, o.code);
    assert px[..o.next] == px[..i] + px[i..o.next];
  }

  lemma {:induction false} AppendCode(words: seq<Word>, c: Code)
    ensures AllPixels(UnpackAll(words + [Pack(c)])) == AllPixels(UnpackAll(words)) + Pixels(c)
  {
    PackRoundTrip(c);
    AppendPixels(UnpackAll(words), c);
    assert UnpackAll(words + [Pack(c)]) == UnpackAll(words) + [c];
  }

  /** encode's first loop: from the end back, the option that leaves the fewest codes. */
  method Choose(px: seq<Pixel>) returns (best: seq<nat>, choice: seq<Option>)
    ensures |best| == |px| + 1 && best[|px|] == 0 && best[0] == Cost(px, 0)
    ensures |choice| == |px|
    ensures forall k :: 0 <= k < |px| ==> IsOption(px, k, choice[k]) && best[k] == 1 + best[choice[k].next]
  {
    hide Options, Pixels;
    var n := |px|;
    assert Cost(px, n) == 0;
    hide Cost;
    best := seq(n + 1, _ => 0);
    choice := seq(n, _ => Option(Code01(BLACK, false, 0), 0));
    for i := n downto 0
      invariant |best| == n + 1 && |choice| == n
      invariant forall k :: i <= k <= n ==> best[k] == Cost(px, k)
      invariant forall k :: i <= k < n ==> IsOption(px, k, choice[k]) && best[k] == 1 + best[choice[k].next]
    {
      var options := TryAll(px, i);
      assert forall t :: 0 <= t < |options| ==> IsOption(px, i, options[t]);
      var o := PickFirst(options, best);
      LeastIsCost(px, i, o);
      choice := choice[i := o];
      best := best[i := best[o.next] + 1];
    }
  }

  /** min(options, key=...): the first of the options with the fewest codes after it. */
  method PickFirst(options: seq<Option>, best: seq<nat>) returns (o: Option)
    requires |options| > 0 && forall t :: 0 <= t < |options| ==> options[t].next < |best|
    ensures o in options && forall t :: 0 <= t < |options| ==> best[o.next] <= best[options[t].next]
    ensures exists t :: 0 <= t < |options| && options[t] == o && forall u :: 0 <= u < t ==> best[o.next] < best[options[u].next]
  {
    ghost var at := 0;
    o := options[0];
    for t := 1 to |options|
      invariant 0 <= at < t && options[at] == o
      invariant forall u :: 0 <= u < t ==> best[o.next] <= best[options[u].next] && (u < at ==> best[o.next] < best[options[u].next])
    {
      if best[options[t].next] < best[o.next] {
        o, at := options[t], t;
      }
    }
  }

  /** The loop body's list of options, format by format. */
  method TryAll(px: seq<Pixel>, i: nat) returns (options: seq<Option>)
    requires i < |px|
    ensures options == Options(px, i)
  {
    var os00 := Try00(px, i);
    var o01 := Try01(px, i);
    var os10 := Try10(px, i);
    var os11 := Try11(px, i);
    options := os00 + [o01] + os10 + os11;
  }

  method Try00(px: seq<Pixel>, i: nat) returns (os: seq<Option>)
    requires i < |px|
    ensures os == Option00(px, i)
  {
    hide Pixels, Run, IsOption;
    os := [];
    var b := MeasureRun(px, i + 1, BLACK, 7);
    var k := i + 1 + b;
    if k < |px| {
      var w := MeasureRun(px, k + 1, WHITE, 7);
      os := [Option(Code00(px[i], b, px[k], w), k + 1 + w)];
    }
  }

  method MeasureShade(px: seq<Pixel>, j: nat, cap: nat) returns (next: bool, n: nat)
    requires j <= |px|
    ensures next == Next(px, j) && n == ShadedRun(px, j, cap)
  {
    next, n := false, 0;
    if j < |px| && (px[j] == WHITE || px[j] == BLACK) {
      next := px[j] == WHITE;
      n := MeasureRun(px, j, px[j], cap);
    }
  }

  method Try01(px: seq<Pixel>, i: nat) returns (o: Option)
    requires i < |px|
    ensures o == Option01(px, i)
  {
    var next, n := MeasureShade(px, i + 1, 511);
    o := Option(Code01(px[i], next, n), i + 1 + n);
  }

  method Try10(px: seq<Pixel>, i: nat) returns (os: seq<Option>)
    requires i < |px|
    ensures os == Option10(px, i)
  {
    os := [];
    if i + 1 < |px| {
      var next, n := MeasureShade(px, i + 2, 31);
      os := [Option(Code10(px[i], px[i + 1], next, n), i + 2 + n)];
    }
  }

  method Try11(px: seq<Pixel>, i: nat) returns (os: seq<Option>)
    requires i < |px|
    ensures os == Option11(px, i)
  {
    os := [];
    if i + 2 < |px| {
      var n := MeasureRun(px, i + 3, BLACK, 3);
      os := [Option(Code11(px[i], px[i + 1], px[i + 2], n), i + 3 + n)];
    }
  }

  lemma {:induction false} LeastIsCost(px: seq<Pixel>, i: nat, o: Option)
    requires i < |px| && o in Options(px, i)
    requires forall u :: 0 <= u < |Options(px, i)| ==> Cost(px, o.next) <= Cost(px, Options(px, i)[u].next)
    ensures Cost(px, i) == 1 + Cost(px, o.next)
  {
    hide Options, Pixels;
    CostIsLeast(px, i, o);
    var best := BestOption(px, i);
  }

  lemma {:induction false} Associative(a: seq<Pixel>, b: seq<Pixel>, c: seq<Pixel>)
    ensures a + (b + c) == (a + b) + c
  {}

  lemma {:induction false} AppendPixels(codes: seq<Code>, c: Code)
    ensures AllPixels(codes + [c]) == AllPixels(codes) + Pixels(c)
  {
    if codes == [] {
      assert codes + [c] == [c];
      assert AllPixels([c]) == Pixels(c) + AllPixels([]);
    } else {
      var d, rest := Pixels(codes[0]), AllPixels(codes[1..]);
      AppendPixels(codes[1..], c);
      assert (codes + [c])[0] == codes[0] && (codes + [c])[1..] == codes[1..] + [c];
      Associative(d, rest, Pixels(c));
    }
  }
}