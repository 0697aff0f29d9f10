/**
 * The byte-level helpers of the host's rich-text canvas: turning a cairo
 * ARGB32 surface into RGBA texture bytes, laying out the spans of a `Text`
 * as byte ranges of one string with their font, colour and emoji attributes,
 * merging adjacent emoji ranges, and mapping span weights and styles onto
 * the text engine's enums.
 *
 * The text engine (pango), the cairo surface, grapheme segmentation and emoji
 * detection are not part of this model: the surface bytes and the per-span
 * list of emoji graphemes are inputs.
 */
module Canvas {
  import opened Wrappers
  import I = Interface
  import opened Bytes

  // ---- ARGB32 to RGBA ----

  /** The byte order of the target, fixed at compile time in the source. */
  datatype Endian = Little | Big

  /** Which input byte lands in each output position. */
  function ChunkOrder(endian: Endian): (perm: seq<nat>)
    ensures |perm| == 4 && forall i :: 0 <= i < 4 ==> perm[i] < 4
  {
    match endian
    case Big => [1, 2, 3, 0]
    case Little => [2, 1, 0, 3]
  }

  /** Each input byte lands in exactly one output position. */
  lemma ChunkOrderIsPermutation(endian: Endian)
    ensures multiset(ChunkOrder(endian)) == multiset{0, 1, 2, 3}
  {
  }

  /** `cairo_texture_chunk_to_wgpu` for one 4-byte pixel: a reordering of its
      four bytes. */
  function ChunkToRgba(chunk: seq<Byte>, endian: Endian): (r: seq<Byte>)
    requires |chunk| >= 4
    ensures |r| == 4
    ensures forall i :: 0 <= i < 4 ==> r[i] == chunk[ChunkOrder(endian)[i]]
  {
    match endian
    case Big => [chunk[1], chunk[2], chunk[3], chunk[0]]
    case Little => [chunk[2], chunk[1], chunk[0], chunk[3]]
  }

  /** Reference definition: one pixel with its four channels. */
  datatype Pixel = Pixel(a: Byte, r: Byte, g: Byte, b: Byte)

  /** How cairo stores an ARGB32 pixel: one native-endian 32-bit word with
      alpha in the top byte and blue in the bottom one. */
  function CairoBytes(p: Pixel, endian: Endian): seq<Byte>
  {
    match endian
    case Big => [p.a, p.r, p.g, p.b]
    case Little => [p.b, p.g, p.r, p.a]
  }

  /** What the texture expects: red, green, blue, alpha, in that order. */
  function RgbaBytes(p: Pixel): seq<Byte>
  {
    [p.r, p.g, p.b, p.a]
  }

  /** On either byte order, the chunk conversion takes cairo's pixel to the texture's. */
  lemma ChunkToRgbaCorrect(p: Pixel, endian: Endian)
    ensures ChunkToRgba(CairoBytes(p, endian), endian) == RgbaBytes(p)
  {
  }

  /** The `chunks_exact(4).flat_map(..).collect()` over the surface data. */
  function PixelsToRgba(data: seq<Byte>, endian: Endian): (r: seq<Byte>)
    ensures |r| % 4 == 0 && |r| <= |data| < |r| + 4
    decreases |data|
  {
    if |data| < 4 then [] else ChunkToRgba(data[..4], endian) + PixelsToRgba(data[4..], endian)
  }

  /** Byte `i` of output pixel `k` is the byte of input pixel `k` that the
      chunk conversion puts there. */
  lemma {:induction false} PixelsToRgbaAt(data: seq<Byte>, endian: Endian, k: nat, i: nat)
    requires i < 4 && 4 * k + 4 <= |PixelsToRgba(data, endian)|
    ensures PixelsToRgba(data, endian)[4 * k + i] == data[4 * k + ChunkOrder(endian)[i]]
    decreases k
  {
    var rest := PixelsToRgba(data[4..], endian);
    var first := ChunkToRgba(data[..4], endian);
    var r := PixelsToRgba(data, endian);
    var o := ChunkOrder(endian)[i];
    assert r == first + rest;
    if k == 0 {
      assert r[i] == first[i] == data[..4][o];
    } else {
      var j := 4 * (k - 1);
      PixelsToRgbaAt(data[4..], endian, k - 1, i);
      assert r[j + 4 + i] == rest[j + i];
      assert data[4..][j + o] == data[j + 4 + o];
    }
  }

  /** The cairo bytes of a row of pixels. */
  function CairoSurface(ps: seq<Pixel>, endian: Endian): (r: seq<Byte>)
    ensures |r| == 4 * |ps|
  {
    if ps == [] then [] else CairoBytes(ps[0], endian) + CairoSurface(ps[1..], endian)
  }

  /** The texture bytes of a row of pixels. */
  function RgbaImage(ps: seq<Pixel>): (r: seq<Byte>)
    ensures |r| == 4 * |ps|
  {
    if ps == [] then [] else RgbaBytes(ps[0]) + RgbaImage(ps[1..])
  }

  /** A whole surface converts pixel by pixel into the texture image, and a
      trailing partial pixel is dropped. */
  lemma {:induction false} SurfaceToImage(ps: seq<Pixel>, tail: seq<Byte>, endian: Endian)
    requires |tail| < 4
    ensures PixelsToRgba(CairoSurface(ps, endian) + tail, endian) == RgbaImage(ps)
    decreases |ps|
  {
    var data := CairoSurface(ps, endian) + tail;
    if ps == [] {
      assert |data| < 4;
    } else {
      ChunkToRgbaCorrect(ps[0], endian);
      assert data[..4] == CairoBytes(ps[0], endian);
      assert data[4..] == CairoSurface(ps[1..], endian) + tail;
      SurfaceToImage(ps[1..], tail, endian);
    }
  }

  /** The little-endian conversion undoes itself; the big-endian one is a
      rotation that takes four applications to come back. */
  lemma ChunkOrders(c: seq<Byte>)
    requires |c| == 4
    ensures ChunkToRgba(ChunkToRgba(c, Little), Little) == c
    ensures ChunkToRgba(ChunkToRgba(ChunkToRgba(ChunkToRgba(c, Big), Big), Big), Big) == c
  {
  }

  // ---- weights and styles ----

  /** The text engine's weight enum; `Unknown` carries any other value. */
  datatype PangoWeight =
    | Thin | Ultralight | Light | Semilight | Book | Normal
    | Medium | Semibold | Bold | Ultrabold | Heavy | Ultraheavy
    | Unknown(value: int)

  /** The numeric weight each variant stands for in the text engine. */
  function WeightValue(w: PangoWeight): int
  {
    match w
    case Thin => 100
    case Ultralight => 200
    case Light => 300
    case Semilight => 350
    case Book => 380
    case Normal => 400
    case Medium => 500
    case Semibold => 600
    case Bold => 700
    case Ultrabold => 800
    case Heavy => 900
    case Ultraheavy => 1000
    case Unknown(v) => v
  }

  /** The twelve weights the canvas names. */
  predicate NamedWeight(w: nat)
  {
    w == 100 || w == 200 || w == 300 || w == 350 || w == 380 || w == 400
    || w == 500 || w == 600 || w == 700 || w == 800 || w == 900 || w == 1000
  }

  /** The weight `match` of the span loop. */
  function ToPangoWeight(w: nat): (r: PangoWeight)
    ensures WeightValue(r) == w
    ensures r.Unknown? <==> !NamedWeight(w)
  {
    match w
    case 100 => Thin
    case 200 => Ultralight
    case 300 => Light
    case 350 => Semilight
    case 380 => Book
    case 400 => Normal
    case 500 => Medium
    case 600 => Semibold
    case 700 => Bold
    case 800 => Ultrabold
    case 900 => Heavy
    case 1000 => Ultraheavy
    case _ => Unknown(w)
  }

  /** No two span weights give the same text-engine weight. */
  lemma WeightInjective(w1: nat, w2: nat)
    requires ToPangoWeight(w1) == ToPangoWeight(w2)
    ensures w1 == w2
  {
    assert WeightValue(ToPangoWeight(w1)) == WeightValue(ToPangoWeight(w2));
  }

  datatype PangoStyle = StyleNormal | StyleOblique | StyleItalic

  /** The style `match` of the span loop. */
  function ToPangoStyle(s: I.Style): (r: PangoStyle)
    ensures FromPangoStyle(r) == s
  {
    match s
    case Normal => StyleNormal
    case Italic => StyleItalic
    case Oblique => StyleOblique
  }

  /** Reference inverse of the style mapping. */
  function FromPangoStyle(p: PangoStyle): I.Style
  {
    match p
    case StyleNormal => I.Normal
    case StyleItalic => I.Italic
    case StyleOblique => I.Oblique
  }

  /** The style mapping is one-to-one and onto. */
  lemma StyleBijective(s1: I.Style, s2: I.Style, p: PangoStyle)
    ensures ToPangoStyle(s1) == ToPangoStyle(s2) ==> s1 == s2
    ensures ToPangoStyle(FromPangoStyle(p)) == p
  {
    if ToPangoStyle(s1) == ToPangoStyle(s2) {
      assert FromPangoStyle(ToPangoStyle(s1)) == FromPangoStyle(ToPangoStyle(s2));
    }
  }

  // ---- byte ranges ----

  /** A byte range `[start, end)` of the laid-out string. */
  datatype Range = Range(start: nat, end: nat)

  predicate WellFormed(rs: seq<Range>)
  {
    forall i :: 0 <= i < |rs| ==> rs[i].start <= rs[i].end
  }

  /** Byte `p` lies in one of the ranges. */
  predicate Covers(rs: seq<Range>, p: nat)
  {
    exists i :: 0 <= i < |rs| && rs[i].start <= p < rs[i].end
  }

  /** Each range starts strictly after the previous one ends. */
  predicate Separated(rs: seq<Range>)
  {
    forall i :: 0 < i < |rs| ==> rs[i - 1].end < rs[i].start
  }

  /** Each range starts no earlier than the previous one ends. */
  predicate Sorted(rs: seq<Range>)
  {
    forall i :: 0 < i < |rs| ==> rs[i - 1].end <= rs[i].start
  }

  predicate Within(rs: seq<Range>, lo: nat, hi: nat)
  {
    forall i :: 0 <= i < |rs| ==> lo <= rs[i].start && rs[i].end <= hi
  }

  // ---- the emoji fold ----

  /** An emoji grapheme of a span: its byte offset in the span's text and its byte length. */
  datatype Grapheme = Grapheme(offset: nat, len: nat)

  /** One step of the fold: a range that starts where the last one ends
      extends it; any other range is appended. */
  function MergeStep(acc: seq<Range>, r: Range): (out: seq<Range>)
  {
    if |acc| > 0 && acc[|acc| - 1].end == r.start then
      acc[..|acc| - 1] + [Range(acc[|acc| - 1].start, r.end)]
    else
      acc + [r]
  }

  /** The fold over all the ranges, from the left. */
  function Merge(rs: seq<Range>): seq<Range>
  {
    if rs == [] then [] else MergeStep(Merge(rs[..|rs| - 1]), rs[|rs| - 1])
  }

  /** The graphemes' ranges within the whole string, for a span starting at byte `start`. */
  function Shift(gs: seq<Grapheme>, start: nat): (rs: seq<Range>)
    ensures |rs| == |gs|
    ensures forall i :: 0 <= i < |gs| ==> rs[i] == Range(start + gs[i].offset, start + gs[i].offset + gs[i].len)
  {
    if gs == [] then [] else Shift(gs[..|gs| - 1], start) + [Range(start + gs[|gs| - 1].offset, start + gs[|gs| - 1].offset + gs[|gs| - 1].len)]
  }

  /** Folding one more range of a prefix is one more step. */
  lemma MergePrefixStep(rs: seq<Range>, i: nat)
    requires i < |rs|
    ensures Merge(rs[..i + 1]) == MergeStep(Merge(rs[..i]), rs[i])
  {
    assert rs[..i + 1][..i] == rs[..i];
  }

  /** The emoji fold, as the loop it is. */
  method MergeEmoji(gs: seq<Grapheme>, start: nat) returns (acc: seq<Range>)
    ensures acc == Merge(Shift(gs, start))
  {
    ghost var shifted := Shift(gs, start);
    acc := [];
    var i := 0;
    while i < |gs|
      invariant 0 <= i <= |gs|
      invariant acc == Merge(shifted[..i])
    {
      var s := start + gs[i].offset;
      var e := s + gs[i].len;
      MergePrefixStep(shifted, i);
      ghost var before := acc;
      if |acc| > 0 && acc[|acc| - 1].end == s {
        acc := acc[..|acc| - 1] + [Range(acc[|acc| - 1].start, e)];
      } else {
        acc := acc + [Range(s, e)];
      }
      assert acc == MergeStep(before, shifted[i]);
      i := i + 1;
    }
    assert shifted[..i] == shifted;
  }

  lemma MergeStepShape(acc: seq<Range>, r: Range)
    ensures var out := MergeStep(acc, r);
      |out| > 0 && out[|out| - 1].end == r.end
      && (forall i :: 0 <= i < |out| - 1 ==> out[i] == acc[i])
      && (out[|out| - 1] == r || (|acc| > 0 && out[|out| - 1] == Range(acc[|acc| - 1].start, r.end)))
  {
  }

  /** The merged ranges end where the last input range ends. */
  lemma MergeLast(rs: seq<Range>)
    requires rs != []
    ensures Merge(rs) != [] && Merge(rs)[|Merge(rs)| - 1].end == rs[|rs| - 1].end
  {
    MergeStepShape(Merge(rs[..|rs| - 1]), rs[|rs| - 1]);
  }

  lemma {:induction false} MergeWellFormed(rs: seq<Range>)
    requires WellFormed(rs)
    ensures WellFormed(Merge(rs))
    decreases |rs|
  {
    if rs != [] {
      MergeWellFormed(rs[..|rs| - 1]);
      MergeStepShape(Merge(rs[..|rs| - 1]), rs[|rs| - 1]);
    }
  }

  lemma CoversSnoc(rs: seq<Range>, r: Range, p: nat)
    ensures Covers(rs + [r], p) <==> Covers(rs, p) || r.start <= p < r.end
  {
    var c := rs + [r];
    if Covers(rs, p) {
      var i :| 0 <= i < |rs| && rs[i].start <= p < rs[i].end;
      assert c[i] == rs[i];
    }
    if Covers(c, p) {
      var i :| 0 <= i < |c| && c[i].start <= p < c[i].end;
      if i < |rs| {
        assert c[i] == rs[i];
      }
    }
    assert c[|rs|] == r;
  }

  /** One fold step covers what the ranges so far cover plus the new range. */
  lemma StepCovers(acc: seq<Range>, r: Range, p: nat)
    requires WellFormed(acc) && r.start <= r.end
    ensures Covers(MergeStep(acc, r), p) <==> Covers(acc, p) || r.start <= p < r.end
  {
    if |acc| > 0 && acc[|acc| - 1].end == r.start {
      var init := acc[..|acc| - 1];
      var last := acc[|acc| - 1];
      assert acc == init + [last];
      CoversSnoc(init, last, p);
      CoversSnoc(init, Range(last.start, r.end), p);
    } else {
      CoversSnoc(acc, r, p);
    }
  }

  /** Merging covers exactly the bytes the emoji graphemes cover. */
  lemma {:induction false} MergeCovers(rs: seq<Range>, p: nat)
    requires WellFormed(rs)
    ensures Covers(Merge(rs), p) <==> Covers(rs, p)
    decreases |rs|
  {
    if rs != [] {
      var init := rs[..|rs| - 1];
      var r := rs[|rs| - 1];
      MergeCovers(init, p);
      MergeWellFormed(init);
      StepCovers(Merge(init), r, p);
      assert rs == init + [r];
      CoversSnoc(init, r, p);
    }
  }

  /** For sorted, non-overlapping graphemes the merged ranges are strictly
      increasing and no two of them touch. */
  lemma {:induction false} MergeSeparates(rs: seq<Range>)
    requires WellFormed(rs) && Sorted(rs)
    ensures Separated(Merge(rs))
    decreases |rs|
  {
    if rs != [] {
      var init := rs[..|rs| - 1];
      var r := rs[|rs| - 1];
      MergeSeparates(init);
      var acc := Merge(init);
      MergeStepShape(acc, r);
      if init != [] {
        MergeLast(init);
        assert acc[|acc| - 1].end == init[|init| - 1].end <= r.start;
      }
    }
  }

  /** Ranges that lie inside `[lo, hi]` still do after merging. */
  lemma {:induction false} MergeWithin(rs: seq<Range>, lo: nat, hi: nat)
    requires Within(rs, lo, hi)
    ensures Within(Merge(rs), lo, hi)
    decreases |rs|
  {
    if rs != [] {
      MergeWithin(rs[..|rs| - 1], lo, hi);
      MergeStepShape(Merge(rs[..|rs| - 1]), rs[|rs| - 1]);
    }
  }

  // ---- UTF-8 lengths ----

  /** Bytes in the UTF-8 encoding of one character. */
  function Utf8Width(c: char): (n: nat)
    ensures 1 <= n <= 4
  {
    if c as int < 0x80 then 1
    else if c as int < 0x800 then 2
    else if c as int < 0x1_0000 then 3
    else 4
  }

  /** `String::len`: bytes in the UTF-8 encoding of a string. */
  function Utf8Len(s: string): (n: nat)
    ensures |s| <= n <= 4 * |s|
  {
    if s == [] then 0 else Utf8Len(s[..|s| - 1]) + Utf8Width(s[|s| - 1])
  }

  lemma {:induction false} Utf8LenAppend(a: string, b: string)
    ensures Utf8Len(a + b) == Utf8Len(a) + Utf8Len(b)
    decreases |b|
  {
    if b == [] {
      assert a + b == a;
    } else {
      assert (a + b)[..|a + b| - 1] == a + b[..|b| - 1];
      Utf8LenAppend(a, b[..|b| - 1]);
    }
  }

  // ---- the span loop ----

  /** The attributes the canvas hands the text engine. A `None` range is the
      whole text. */
  datatype Attr =
    | Foreground(color: I.TextColor, range: Option<Range>)
    | FontDesc(weight: PangoWeight, style: PangoStyle, range: Option<Range>)
    | EmojiFont(range: Option<Range>)
    | NoFallback(range: Option<Range>)

  /** The text of the first `n` spans, run together. */
  function Texts(spans: seq<I.TextSpan>, n: nat): string
    requires n <= |spans|
  {
    if n == 0 then "" else Texts(spans, n - 1) + spans[n - 1].text
  }

  /** Where span `k` starts: the byte length of the spans before it. */
  function SpanStart(spans: seq<I.TextSpan>, k: nat): nat
    requires k <= |spans|
  {
    if k == 0 then 0 else SpanStart(spans, k - 1) + Utf8Len(spans[k - 1].text)
  }

  /** Where a span starts is the byte length of the text before it. */
  lemma {:induction false} SpanStartIsPrefixLength(spans: seq<I.TextSpan>, k: nat)
    requires k <= |spans|
    ensures SpanStart(spans, k) == Utf8Len(Texts(spans, k))
    decreases k
  {
    if k > 0 {
      SpanStartIsPrefixLength(spans, k - 1);
      Utf8LenAppend(Texts(spans, k - 1), spans[k - 1].text);
    }
  }

  function SpanRange(spans: seq<I.TextSpan>, k: nat): Range
    requires k < |spans|
  {
    Range(SpanStart(spans, k), SpanStart(spans, k) + Utf8Len(spans[k].text))
  }

  /** The emoji attribute pair of every merged range. */
  function EmojiAttrs(rs: seq<Range>): seq<Attr>
  {
    if rs == [] then [] else EmojiAttrs(rs[..|rs| - 1]) + [EmojiFont(Some(rs[|rs| - 1])), NoFallback(Some(rs[|rs| - 1]))]
  }

  /** The attributes of one span laid out at `range`: its colour override if
      it has one, its font, and the emoji attributes of its merged graphemes. */
  function SpanAttrs(span: I.TextSpan, range: Range, emoji: seq<Range>): seq<Attr>
  {
    (if span.color.Some? then [Foreground(span.color.value, Some(range))] else [])
    + [FontDesc(ToPangoWeight(span.weight), ToPangoStyle(span.style), Some(range))]
    + EmojiAttrs(emoji)
  }

  /** The attributes of span `k` at its place in the text. */
  function SpanPiece(spans: seq<I.TextSpan>, graphemes: seq<seq<Grapheme>>, k: nat): seq<Attr>
    requires k < |spans| == |graphemes|
  {
    SpanAttrs(spans[k], SpanRange(spans, k), Merge(Shift(graphemes[k], SpanStart(spans, k))))
  }

  /** The attribute list after the first `n` spans: the default colour over
      the whole text, then each span's attributes in turn. */
  function Attributes(spans: seq<I.TextSpan>, color: I.TextColor, graphemes: seq<seq<Grapheme>>, n: nat): seq<Attr>
    requires n <= |spans| == |graphemes|
  {
    if n == 0 then [Foreground(color, None)]
    else Attributes(spans, color, graphemes, n - 1) + SpanPiece(spans, graphemes, n - 1)
  }

  /** One turn of the span loop keeps its three running values in step with
      the first `i + 1` spans. */
  lemma LayoutStep(spans: seq<I.TextSpan>, color: I.TextColor, graphemes: seq<seq<Grapheme>>, i: nat,
                   text: string, start: nat, attrs: seq<Attr>, emoji: seq<Range>)
    requires i < |spans| == |graphemes|
    requires text == Texts(spans, i) && start == Utf8Len(text) == SpanStart(spans, i)
    requires attrs == Attributes(spans, color, graphemes, i)
    requires emoji == Merge(Shift(graphemes[i], start))
    ensures text + spans[i].text == Texts(spans, i + 1)
    ensures start + Utf8Len(spans[i].text) == Utf8Len(text + spans[i].text) == SpanStart(spans, i + 1)
    ensures attrs + SpanAttrs(spans[i], Range(start, start + Utf8Len(spans[i].text)), emoji)
         == Attributes(spans, color, graphemes, i + 1)
  {
    Utf8LenAppend(text, spans[i].text);
    assert SpanRange(spans, i) == Range(start, start + Utf8Len(spans[i].text));
    assert SpanPiece(spans, graphemes, i) == SpanAttrs(spans[i], Range(start, start + Utf8Len(spans[i].text)), emoji);
  }

  /** The body of the span loop for span `i`: append its text, lay out its
      attributes at the current byte index and move the index past it. */
  method LayoutSpan(spans: seq<I.TextSpan>, color: I.TextColor, graphemes: seq<seq<Grapheme>>, i: nat,
                    text: string, startIndex: nat, attrs: seq<Attr>)
    returns (text': string, endIndex: nat, attrs': seq<Attr>)
    requires i < |spans| == |graphemes|
    requires text == Texts(spans, i) && startIndex == Utf8Len(text) == SpanStart(spans, i)
    requires attrs == Attributes(spans, color, graphemes, i)
    ensures text' == Texts(spans, i + 1) && endIndex == Utf8Len(text') == SpanStart(spans, i + 1)
    ensures attrs' == Attributes(spans, color, graphemes, i + 1)
  {
    var span := spans[i];
    endIndex := startIndex + Utf8Len(span.text);
    var emoji := MergeEmoji(graphemes[i], startIndex);
    LayoutStep(spans, color, graphemes, i, text, startIndex, attrs, emoji);
    attrs' := attrs + SpanAttrs(span, Range(startIndex, endIndex), emoji);
    text' := text + span.text;
  }

  /** The span loop of `on_rich_text_change`: it builds the string to lay out
      and the attribute list, tracking the byte index where the next span
      starts. `graphemes[k]` are the emoji graphemes of span `k`. */
  method LayoutSpans(spans: seq<I.TextSpan>, color: I.TextColor, graphemes: seq<seq<Grapheme>>)
    returns (text: string, attrs: seq<Attr>, end: nat)
    requires |graphemes| == |spans|
    ensures text == Texts(spans, |spans|)
    ensures end == Utf8Len(text)
    ensures attrs == Attributes(spans, color, graphemes, |spans|)
  {
    text := "";
    attrs := [Foreground(color, None)];
    var startIndex := 0;
    var i := 0;
    while i < |spans|
      invariant 0 <= i <= |spans|
      invariant text == Texts(spans, i)
      invariant startIndex == Utf8Len(text) == SpanStart(spans, i)
      invariant attrs == Attributes(spans, color, graphemes, i)
    {
      text, startIndex, attrs := LayoutSpan(spans, color, graphemes, i, text, startIndex, attrs);
      i := i + 1;
    }
    end := startIndex;
  }

  /** The emoji graphemes of a span lie inside its text of `n` bytes. */
  predicate GraphemesWithin(gs: seq<Grapheme>, n: nat)
  {
    forall i :: 0 <= i < |gs| ==> gs[i].offset + gs[i].len <= n
  }

  /** An attribute with a range ends no later than byte `hi`. */
  predicate AttrWithin(a: Attr, hi: nat)
  {
    a.range.Some? ==> a.range.value.start <= a.range.value.end <= hi
  }

  lemma {:induction false} EmojiAttrsWithin(rs: seq<Range>, hi: nat)
    requires WellFormed(rs) && Within(rs, 0, hi)
    ensures forall a :: a in EmojiAttrs(rs) ==> AttrWithin(a, hi)
    decreases |rs|
  {
    if rs != [] {
      EmojiAttrsWithin(rs[..|rs| - 1], hi);
    }
  }

  lemma SpanAttrsWithin(span: I.TextSpan, range: Range, gs: seq<Grapheme>)
    requires range.end == range.start + Utf8Len(span.text)
    requires GraphemesWithin(gs, Utf8Len(span.text))
    ensures forall a :: a in SpanAttrs(span, range, Merge(Shift(gs, range.start))) ==> AttrWithin(a, range.end)
  {
    var shifted := Shift(gs, range.start);
    assert Within(shifted, range.start, range.end);
    MergeWithin(shifted, range.start, range.end);
    MergeWellFormed(shifted);
    var merged := Merge(shifted);
    assert Within(merged, 0, range.end);
    EmojiAttrsWithin(merged, range.end);
    var head := (if span.color.Some? then [Foreground(span.color.value, Some(range))] else [])
      + [FontDesc(ToPangoWeight(span.weight), ToPangoStyle(span.style), Some(range))];
    assert forall a :: a in head ==> AttrWithin(a, range.end);
    assert SpanAttrs(span, range, merged) == head + EmojiAttrs(merged);
  }

  /** Every attribute the span loop sets lies inside the text it lays out,
      provided the emoji graphemes of each span lie inside that span. */
  lemma {:induction false} AttributesWithin(spans: seq<I.TextSpan>, color: I.TextColor, graphemes: seq<seq<Grapheme>>, n: nat)
    requires n <= |spans| == |graphemes|
    requires forall k :: 0 <= k < |spans| ==> GraphemesWithin(graphemes[k], Utf8Len(spans[k].text))
    ensures forall a :: a in Attributes(spans, color, graphemes, n) ==> AttrWithin(a, SpanStart(spans, n))
    decreases n
  {
    if n > 0 {
      var k := n - 1;
      AttributesWithin(spans, color, graphemes, k);
      SpanAttrsWithin(spans[k], SpanRange(spans, k), graphemes[k]);
    }
  }

  /** In particular every range of the finished list ends inside the whole text. */
  lemma AttributesInsideText(spans: seq<I.TextSpan>, color: I.TextColor, graphemes: seq<seq<Grapheme>>)
    requires |spans| == |graphemes|
    requires forall k :: 0 <= k < |spans| ==> GraphemesWithin(graphemes[k], Utf8Len(spans[k].text))
    ensures forall a :: a in Attributes(spans, color, graphemes, |spans|) ==> AttrWithin(a, Utf8Len(Texts(spans, |spans|)))
  {
    AttributesWithin(spans, color, graphemes, |spans|);
    SpanStartIsPrefixLength(spans, |spans|);
  }
}
