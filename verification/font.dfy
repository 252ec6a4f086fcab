/**
 `olc::Font`: lays a string out over a sprite map of glyph cells, one cell per
 character code, and measures strings against a per-character width table.
 Drawing is recorded as the sequence of `SpriteMap::Draw` calls it makes.
 */
module Fonts {
  import opened Cpp
  import opened Geometry
  import opened SpriteMaps

  /** The newline character `'\n'`. */
  const NL: CChar := 10

  /** A font as the drawing code sees it. `widths[c]` is the advance of
      character `c`, a C++ `char`; `heights` is filled only by the TrueType
      builder and read by nothing. */
  datatype Font = Font(spritemap: SpriteMap, fontHeight: int, fontWidth: int,
                       widths: seq<CChar>, heights: seq<CChar>)

  /** The writing direction: `DrawString` lays out rows, `DrawVerticalString` columns. */
  datatype Axis = Horizontal | Vertical

  // ----- counting over a message -----

  /** The number of newlines in `msg`. */
  function Newlines(msg: seq<CChar>): nat
    decreases |msg|
  {
    if msg == [] then 0 else (if msg[0] == NL then 1 else 0) + Newlines(msg[1..])
  }

  /** The characters of `msg` that are not newlines, in order. */
  function Visible(msg: seq<CChar>): seq<CChar>
    decreases |msg|
  {
    if msg == [] then [] else (if msg[0] == NL then [] else [msg[0]]) + Visible(msg[1..])
  }

  /** Where the last line of `msg` begins: just after its last newline, or 0. */
  function LineStart(msg: seq<CChar>): (k: nat)
    ensures k <= |msg|
    decreases |msg|
  {
    if msg == [] then 0
    else if msg[|msg| - 1] == NL then |msg|
    else LineStart(msg[..|msg| - 1])
  }

  /** The last line starts right after a newline, or at the start, and holds
      no newline itself. */
  lemma {:induction false} LineStartAfterLastNewline(msg: seq<CChar>)
    ensures LineStart(msg) == 0 || msg[LineStart(msg) - 1] == NL
    ensures forall i | LineStart(msg) <= i < |msg| :: msg[i] != NL
    decreases |msg|
  {
    if msg != [] && msg[|msg| - 1] != NL {
      var init := msg[..|msg| - 1];
      LineStartAfterLastNewline(init);
      assert forall i | 0 <= i < |init| :: init[i] == msg[i];
    }
  }

  /** The last line of `msg`: everything after its last newline. */
  function LastLine(msg: seq<CChar>): seq<CChar>
  {
    msg[LineStart(msg)..]
  }

  /** Every character of `msg` indexes the width table. */
  predicate Indexable(font: Font, msg: seq<CChar>)
  {
    forall i | 0 <= i < |msg| :: 0 <= msg[i] < |font.widths|
  }

  /** Every character `DrawString` looks up indexes the width table; newlines are not looked up. */
  predicate Drawable(font: Font, msg: seq<CChar>)
  {
    forall i | 0 <= i < |msg| :: msg[i] == NL || 0 <= msg[i] < |font.widths|
  }

  /** The sum of the widths of the characters of `s`. */
  function WidthSum(font: Font, s: seq<CChar>): int
    requires Indexable(font, s)
    decreases |s|
  {
    if s == [] then 0 else font.widths[s[0]] + WidthSum(font, s[1..])
  }

  // ----- layout -----

  /** Requirement of a layout along `axis`: only the horizontal one reads widths. */
  predicate CanLayOut(axis: Axis, font: Font, msg: seq<CChar>)
  {
    axis.Horizontal? ==> Drawable(font, msg)
  }

  /** The pen offset after `msg`, in closed form. Horizontally: across, the
      scaled widths of the last line; down, one font height per newline.
      Vertically: across, one font width per newline; down, one font height
      per character of the last column. */
  function Pen(axis: Axis, font: Font, scale: Vec2, msg: seq<CChar>): Vec2
    requires CanLayOut(axis, font, msg)
  {
    match axis
    case Horizontal =>
      LastLineIndexable(font, msg);
      Vec2(Times(WidthSum(font, LastLine(msg)), scale.x), Times(Newlines(msg), Times(font.fontHeight, scale.y)))
    case Vertical =>
      Vec2(Times(Newlines(msg), Times(font.fontWidth, scale.x)), Times(|LastLine(msg)|, Times(font.fontHeight, scale.y)))
  }

  /** The last line holds no newline, so a drawable message's last line indexes the width table. */
  lemma LastLineIndexable(font: Font, msg: seq<CChar>)
    requires Drawable(font, msg)
    ensures Indexable(font, LastLine(msg))
  {
    var k := LineStart(msg);
    LineStartAfterLastNewline(msg);
    assert forall i | 0 <= i < |msg| - k :: msg[k..][i] == msg[k + i];
  }

  /** A newline empties the last line; any other character extends it. */
  lemma LastLineSnoc(a: seq<CChar>, c: CChar)
    ensures LastLine(a + [c]) == if c == NL then [] else LastLine(a) + [c]
  {
    var m := a + [c];
    assert m[..|m| - 1] == a;
    if c != NL {
      var k := LineStart(a);
      assert LineStart(m) == k;
      assert m[k..] == a[k..] + [c];
    }
  }

  /** `n` steps of `step`: the engine's `int * float`, built up one step at a
      time so that the pen arithmetic stays linear. */
  function Times(n: int, step: real): real
    decreases if n < 0 then -n else n
  {
    if n == 0 then 0.0
    else if n > 0 then Times(n - 1, step) + step
    else Times(n + 1, step) - step
  }

  /** The draws a layout of `msg` makes: one per character that is not a
      newline, at the origin plus the pen offset reached before it. */
  function Layout(axis: Axis, font: Font, pos: IVec2, msg: seq<CChar>, scale: Vec2, tint: Pixel): seq<SpriteDraw>
    requires CanLayOut(axis, font, msg)
    decreases |msg|
  {
    if msg == [] then []
    else
      var init, c := msg[..|msg| - 1], msg[|msg| - 1];
      Layout(axis, font, pos, init, scale, tint)
      + (if c == NL then [] else [SpriteDraw(c, Add(ToReal(pos), Pen(axis, font, scale, init)), scale, tint)])
  }

  // ----- the drawing and measuring operations -----

  /** `Font::DrawString`: walks the message with a pen starting at (0, 0).
      A newline returns the pen to the left edge one font height lower; any
      other character is drawn at `pos` plus the pen, and moves the pen right
      by its scaled width. */
  method DrawString(font: Font, pos: IVec2, msg: seq<CChar>, scale: Vec2, tint: Pixel)
    returns (draws: seq<SpriteDraw>)
    requires Drawable(font, msg)
    ensures draws == Layout(Horizontal, font, pos, msg, scale, tint)
    ensures |draws| == |Visible(msg)| == |msg| - Newlines(msg)
    ensures Indices(draws) == Visible(msg)
  {
    var spos := Vec2(0.0, 0.0);
    draws := [];
    var i := 0;
    while i < |msg|
      invariant 0 <= i <= |msg|
      invariant spos == Pen(Horizontal, font, scale, msg[..i])
      invariant draws == Layout(Horizontal, font, pos, msg[..i], scale, tint)
    {
      var c := msg[i];
      assert msg[..i + 1] == msg[..i] + [c];
      assert msg[..i + 1][..i] == msg[..i];
      assert Drawable(font, msg[..i]) && Drawable(font, msg[..i + 1]) by {
        assert forall j | 0 <= j <= i :: msg[..i + 1][j] == msg[j];
      }
      if c == NL {
        PenNewline(font, scale, msg[..i]);
        spos := Vec2(0.0, spos.y + Times(font.fontHeight, scale.y));
      } else {
        PenGlyph(font, scale, msg[..i], c);
        draws := draws + [SpriteDraw(c, Add(ToReal(pos), spos), scale, tint)];
        spos := Vec2(spos.x + Times(font.widths[c], scale.x), spos.y);
      }
      i := i + 1;
    }
    assert msg[..|msg|] == msg;
    LayoutIndices(Horizontal, font, pos, msg, scale, tint);
  }

  /** `Font::DrawVerticalString`: the same walk with the axes exchanged and a
      fixed step: a newline returns the pen to the top one font width to the
      right; any other character is drawn and moves the pen down by the
      scaled font height, whatever its width. */
  method DrawVerticalString(font: Font, pos: IVec2, msg: seq<CChar>, scale: Vec2, tint: Pixel)
    returns (draws: seq<SpriteDraw>)
    ensures draws == Layout(Vertical, font, pos, msg, scale, tint)
    ensures |draws| == |Visible(msg)| == |msg| - Newlines(msg)
    ensures Indices(draws) == Visible(msg)
  {
    var spos := Vec2(0.0, 0.0);
    draws := [];
    var i := 0;
    while i < |msg|
      invariant 0 <= i <= |msg|
      invariant spos == Pen(Vertical, font, scale, msg[..i])
      invariant draws == Layout(Vertical, font, pos, msg[..i], scale, tint)
    {
      var c := msg[i];
      assert msg[..i + 1][..i] == msg[..i];
      PenStepVertical(font, scale, msg[..i], c);
      if c == NL {
        spos := Vec2(spos.x + Times(font.fontWidth, scale.x), 0.0);
      } else {
        draws := draws + [SpriteDraw(c, Add(ToReal(pos), spos), scale, tint)];
        spos := Vec2(spos.x, spos.y + Times(font.fontHeight, scale.y));
      }
      assert msg[..i + 1] == msg[..i] + [c];
      i := i + 1;
    }
    assert msg[..|msg|] == msg;
    LayoutIndices(Vertical, font, pos, msg, scale, tint);
  }

  /** `Font::MeasureString`: the width is the sum of the widths of all
      characters, newlines included (not the widest line); the height is one
      cell height per line. */
  method MeasureString(font: Font, msg: seq<CChar>) returns (size: IVec2)
    requires Indexable(font, msg)
    ensures size.x == WidthSum(font, msg)
    ensures size.y == font.spritemap.spriteSize.y * (1 + Newlines(msg))
  {
    var lines: int := 1;
    var width: int := 0;
    var i := 0;
    while i < |msg|
      invariant 0 <= i <= |msg|
      invariant lines == 1 + Newlines(msg[..i])
      invariant width == WidthSum(font, msg[..i])
    {
      var x := msg[i];
      NewlinesSnoc(msg[..i], x);
      WidthSumSnoc(font, msg[..i], x);
      if x == NL {
        lines := lines + 1;
      }
      width := width + font.widths[x];
      assert msg[..i + 1] == msg[..i] + [x];
      i := i + 1;
    }
    assert msg[..|msg|] == msg;
    size := IVec2(width, font.spritemap.spriteSize.y * lines);
  }

  // ----- facts about counting -----

  lemma {:induction false} NewlinesSnoc(a: seq<CChar>, c: CChar)
    ensures Newlines(a + [c]) == Newlines(a) + (if c == NL then 1 else 0)
    decreases |a|
  {
    if a != [] {
      assert (a + [c])[1..] == a[1..] + [c];
      NewlinesSnoc(a[1..], c);
    }
  }

  lemma {:induction false} VisibleSnoc(a: seq<CChar>, c: CChar)
    ensures Visible(a + [c]) == Visible(a) + (if c == NL then [] else [c])
    decreases |a|
  {
    if a != [] {
      assert (a + [c])[1..] == a[1..] + [c];
      VisibleSnoc(a[1..], c);
    }
  }

  /** Each character of a message is a newline or visible, never both. */
  lemma {:induction false} VisibleCount(msg: seq<CChar>)
    ensures |Visible(msg)| + Newlines(msg) == |msg|
    ensures NL !in Visible(msg)
    decreases |msg|
  {
    if msg != [] {
      VisibleCount(msg[1..]);
    }
  }

  lemma {:induction false} WidthSumSnoc(font: Font, a: seq<CChar>, c: CChar)
    requires Indexable(font, a) && 0 <= c < |font.widths|
    ensures Indexable(font, a + [c])
    ensures WidthSum(font, a + [c]) == WidthSum(font, a) + font.widths[c]
    decreases |a|
  {
    assert forall i | 0 <= i < |a| :: (a + [c])[i] == a[i];
    if a != [] {
      assert (a + [c])[1..] == a[1..] + [c];
      WidthSumSnoc(font, a[1..], c);
    }
  }

  /** Measuring is additive: the width of `a + b` is the width of `a` plus
      the width of `b`, so a newline contributes its own table width. */
  lemma {:induction false} WidthSumConcat(font: Font, a: seq<CChar>, b: seq<CChar>)
    requires Indexable(font, a) && Indexable(font, b)
    ensures Indexable(font, a + b)
    ensures WidthSum(font, a + b) == WidthSum(font, a) + WidthSum(font, b)
    decreases |a|
  {
    assert forall i | 0 <= i < |a + b| :: (a + b)[i] == if i < |a| then a[i] else b[i - |a|];
    if a == [] {
      assert a + b == b;
    } else {
      assert (a + b)[0] == a[0];
      assert (a + b)[1..] == a[1..] + b;
      WidthSumConcat(font, a[1..], b);
    }
  }

  lemma {:induction false} NewlinesConcat(a: seq<CChar>, b: seq<CChar>)
    ensures Newlines(a + b) == Newlines(a) + Newlines(b)
    decreases |a|
  {
    if a == [] {
      assert a + b == b;
    } else {
      assert (a + b)[0] == a[0];
      assert (a + b)[1..] == a[1..] + b;
      NewlinesConcat(a[1..], b);
    }
  }

  lemma {:induction false} NoNewlines(msg: seq<CChar>)
    ensures Newlines(msg) == 0 <==> NL !in msg
    decreases |msg|
  {
    if msg != [] {
      NoNewlines(msg[1..]);
      assert msg == [msg[0]] + msg[1..];
    }
  }

  // ----- facts about layout -----

  /** A newline moves the horizontal pen to the left edge, one scaled font
      height lower. */
  lemma PenNewline(font: Font, scale: Vec2, a: seq<CChar>)
    requires Drawable(font, a)
    ensures Pen(Horizontal, font, scale, a + [NL])
            == Vec2(0.0, Pen(Horizontal, font, scale, a).y + Times(font.fontHeight, scale.y))
  {
    NewlinesSnoc(a, NL);
    LastLineSnoc(a, NL);
    Distrib(Newlines(a), 1, Times(font.fontHeight, scale.y));
  }

  /** Any other character moves the horizontal pen right by its scaled width. */
  lemma PenGlyph(font: Font, scale: Vec2, a: seq<CChar>, c: CChar)
    requires Drawable(font, a)
    requires c != NL && 0 <= c < |font.widths|
    ensures var p, q := Pen(Horizontal, font, scale, a), Pen(Horizontal, font, scale, a + [c]);
            q == Vec2(p.x + Times(font.widths[c], scale.x), p.y)
  {
    var m := a + [c];
    assert Drawable(font, m) by {
      assert forall i | 0 <= i < |a| :: m[i] == a[i];
      assert m[|a|] == c;
    }
    var line := LastLine(a);
    LastLineIndexable(font, a);
    LastLineSnoc(a, c);
    assert LastLine(m) == line + [c];
    WidthSumSnoc(font, line, c);
    NewlinesSnoc(a, c);
    Distrib(WidthSum(font, line), font.widths[c], scale.x);
    var p, q := Pen(Horizontal, font, scale, a), Pen(Horizontal, font, scale, m);
    assert q.x == Times(WidthSum(font, line) + font.widths[c], scale.x);
    assert q.y == p.y;
  }

  /** The vertical pen: a newline moves it to the top, one scaled font width
      to the right; any other character moves it down one scaled font height. */
  lemma PenStepVertical(font: Font, scale: Vec2, a: seq<CChar>, c: CChar)
    ensures var p, q := Pen(Vertical, font, scale, a), Pen(Vertical, font, scale, a + [c]);
            if c == NL then q == Vec2(p.x + Times(font.fontWidth, scale.x), 0.0)
            else q == Vec2(p.x, p.y + Times(font.fontHeight, scale.y))
  {
    NewlinesSnoc(a, c);
    LastLineSnoc(a, c);
    if c == NL {
      Distrib(Newlines(a), 1, Times(font.fontWidth, scale.x));
    } else {
      Distrib(|LastLine(a)|, 1, Times(font.fontHeight, scale.y));
    }
  }

  /** One more step adds `step`, whatever the sign of the count. */
  lemma TimesSucc(n: int, step: real)
    ensures Times(n + 1, step) == Times(n, step) + step
  {
  }

  /** Counting steps is additive. */
  lemma {:induction false} Distrib(a: int, b: int, step: real)
    ensures Times(a + b, step) == Times(a, step) + Times(b, step)
    decreases if b < 0 then -b else b
  {
    if b > 0 {
      Distrib(a, b - 1, step);
      TimesSucc(a + b - 1, step);
      TimesSucc(b - 1, step);
    } else if b < 0 {
      Distrib(a, b + 1, step);
      TimesSucc(a + b, step);
      TimesSucc(b, step);
    }
  }

  /** Counting steps is multiplying by the count. */
  lemma {:induction false} TimesIsProduct(n: int, step: real)
    ensures Times(n, step) == (n as real) * step
    decreases if n < 0 then -n else n
  {
    if n > 0 {
      TimesIsProduct(n - 1, step);
    } else if n < 0 {
      TimesIsProduct(n + 1, step);
    }
  }

  /** The pen starts at the origin. */
  lemma PenStart(axis: Axis, font: Font, scale: Vec2)
    ensures Pen(axis, font, scale, []) == Vec2(0.0, 0.0)
  {
  }

  /** Laying out a longer message extends the draws of any prefix of it. */
  lemma {:induction false} LayoutPrefix(axis: Axis, font: Font, pos: IVec2, msg: seq<CChar>, i: nat,
                                        scale: Vec2, tint: Pixel)
    requires CanLayOut(axis, font, msg) && i <= |msg|
    ensures CanLayOut(axis, font, msg[..i])
    ensures var pre, all := Layout(axis, font, pos, msg[..i], scale, tint), Layout(axis, font, pos, msg, scale, tint);
            |pre| <= |all| && all[..|pre|] == pre
    decreases |msg|
  {
    assert forall j | 0 <= j < i :: msg[..i][j] == msg[j];
    if i == |msg| {
      assert msg[..i] == msg;
    } else {
      var init := msg[..|msg| - 1];
      assert forall j | 0 <= j < |init| :: init[j] == msg[j];
      assert init[..i] == msg[..i];
      LayoutPrefix(axis, font, pos, init, i, scale, tint);
      var pre := Layout(axis, font, pos, msg[..i], scale, tint);
      var mid := Layout(axis, font, pos, init, scale, tint);
      var all := Layout(axis, font, pos, msg, scale, tint);
      assert all[..|mid|] == mid;
      assert mid[..|pre|] == pre;
    }
  }

  /** The cells a run of draws names, in order. */
  function Indices(draws: seq<SpriteDraw>): seq<int>
    decreases |draws|
  {
    if draws == [] then [] else [draws[0].index] + Indices(draws[1..])
  }

  lemma {:induction false} IndicesConcat(a: seq<SpriteDraw>, b: seq<SpriteDraw>)
    ensures Indices(a + b) == Indices(a) + Indices(b)
    decreases |a|
  {
    if a == [] {
      assert a + b == b;
    } else {
      assert (a + b)[1..] == a[1..] + b;
      IndicesConcat(a[1..], b);
    }
  }

  /** Laying out one more character appends its draw, unless it is a newline. */
  lemma LayoutSnoc(axis: Axis, font: Font, pos: IVec2, a: seq<CChar>, c: CChar, scale: Vec2, tint: Pixel)
    requires CanLayOut(axis, font, a + [c])
    ensures CanLayOut(axis, font, a)
    ensures Layout(axis, font, pos, a + [c], scale, tint)
            == Layout(axis, font, pos, a, scale, tint)
               + (if c == NL then [] else [SpriteDraw(c, Add(ToReal(pos), Pen(axis, font, scale, a)), scale, tint)])
  {
    var m := a + [c];
    assert m[..|m| - 1] == a;
    assert forall j | 0 <= j < |a| :: a[j] == m[j];
  }

  /** Exactly one draw per character that is not a newline, in order, each
      naming that character's cell. */
  lemma {:induction false} LayoutIndices(axis: Axis, font: Font, pos: IVec2, msg: seq<CChar>,
                                         scale: Vec2, tint: Pixel)
    requires CanLayOut(axis, font, msg)
    ensures var draws := Layout(axis, font, pos, msg, scale, tint);
            && |draws| == |Visible(msg)| == |msg| - Newlines(msg)
            && Indices(draws) == Visible(msg)
    decreases |msg|
  {
    VisibleCount(msg);
    if msg != [] {
      var init, c := msg[..|msg| - 1], msg[|msg| - 1];
      assert msg == init + [c];
      LayoutSnoc(axis, font, pos, init, c, scale, tint);
      LayoutIndices(axis, font, pos, init, scale, tint);
      VisibleSnoc(init, c);
      var tail := if c == NL then [] else [SpriteDraw(c, Add(ToReal(pos), Pen(axis, font, scale, init)), scale, tint)];
      IndicesConcat(Layout(axis, font, pos, init, scale, tint), tail);
    }
  }

  /** Where each character lands: the character at position `i`, if not a
      newline, is the draw numbered by the visible characters before it, and
      it is drawn at the origin plus the pen offset after `msg[..i]`. */
  lemma LayoutPlacement(axis: Axis, font: Font, pos: IVec2, msg: seq<CChar>, i: nat,
                        scale: Vec2, tint: Pixel)
    requires CanLayOut(axis, font, msg)
    requires i < |msg| && msg[i] != NL
    ensures CanLayOut(axis, font, msg[..i])
    ensures var draws, k := Layout(axis, font, pos, msg, scale, tint), |Visible(msg[..i])|;
            k < |draws| && draws[k] == SpriteDraw(msg[i], Add(ToReal(pos), Pen(axis, font, scale, msg[..i])), scale, tint)
  {
    var pre, init := msg[..i + 1], msg[..i];
    assert pre == init + [msg[i]];
    LayoutPrefix(axis, font, pos, msg, i + 1, scale, tint);
    LayoutSnoc(axis, font, pos, init, msg[i], scale, tint);
    LayoutIndices(axis, font, pos, init, scale, tint);
    var all, upto, before := Layout(axis, font, pos, msg, scale, tint), Layout(axis, font, pos, pre, scale, tint),
                             Layout(axis, font, pos, init, scale, tint);
    var d := SpriteDraw(msg[i], Add(ToReal(pos), Pen(axis, font, scale, init)), scale, tint);
    assert upto == before + [d];
    assert all[..|upto|] == upto;
    assert all[|before|] == upto[|before|];
  }

  /** A message that does not start with a newline draws its first character exactly at `pos`. */
  lemma FirstGlyphAtOrigin(axis: Axis, font: Font, pos: IVec2, msg: seq<CChar>, scale: Vec2, tint: Pixel)
    requires CanLayOut(axis, font, msg)
    requires msg != [] && msg[0] != NL
    ensures var draws := Layout(axis, font, pos, msg, scale, tint);
            draws != [] && draws[0] == SpriteDraw(msg[0], ToReal(pos), scale, tint)
  {
    LayoutPlacement(axis, font, pos, msg, 0, scale, tint);
    assert msg[..0] == [];
  }

  /** Vertical layout never reads the width table: fonts that differ only
      in their widths lay every message out identically. */
  lemma {:induction false} VerticalIgnoresWidths(font: Font, other: Font, pos: IVec2, msg: seq<CChar>,
                                                 scale: Vec2, tint: Pixel)
    requires other == font.(widths := other.widths)
    ensures Layout(Vertical, font, pos, msg, scale, tint) == Layout(Vertical, other, pos, msg, scale, tint)
    decreases |msg|
  {
    if msg != [] {
      var init := msg[..|msg| - 1];
      VerticalIgnoresWidths(font, other, pos, init, scale, tint);
      assert Pen(Vertical, font, scale, init) == Pen(Vertical, other, scale, init);
    }
  }

  /** On a single line, the measured width, scaled, is exactly how far
      `DrawString` moves the pen. */
  lemma MeasureMatchesPen(font: Font, msg: seq<CChar>, scale: Vec2)
    requires Indexable(font, msg)
    requires Newlines(msg) == 0
    ensures CanLayOut(Horizontal, font, msg)
    ensures Pen(Horizontal, font, scale, msg) == Vec2((WidthSum(font, msg) as real) * scale.x, 0.0)
  {
    NoNewlines(msg);
    LineStartAfterLastNewline(msg);
    assert LineStart(msg) == 0 by {
      if LineStart(msg) > 0 {
        assert false;
      }
    }
    assert LastLine(msg) == msg;
    var p := Pen(Horizontal, font, scale, msg);
    assert p.x == Times(WidthSum(font, msg), scale.x);
    assert p.y == Times(0, Times(font.fontHeight, scale.y));
    TimesIsProduct(WidthSum(font, msg), scale.x);
  }

  // ----- constructors -----

  /** `Font(sprite_map_path, font_data_path)` as written: the glyph cells are
      declared `{font_height, font_width}`, so a cell is `font_height` wide
      and `font_width` tall. The sheet size comes from the image and the
      metrics from the font data file, both read by code outside this model. */
  function SheetFont(sheet: IVec2, fontWidth: int, fontHeight: int, widths: seq<CChar>): (f: Font)
    requires sheet.x >= 0 && sheet.y >= 0 && fontWidth != 0 && fontHeight != 0
    ensures f.spritemap == NewSpriteMap(sheet, IVec2(fontHeight, fontWidth))
    ensures f.fontWidth == fontWidth && f.fontHeight == fontHeight && f.widths == widths
  {
    Font(NewSpriteMap(sheet, IVec2(fontHeight, fontWidth)), fontHeight, fontWidth, widths, [])
  }

  /** With glyphs 8 wide and 16 tall, the sheet font as written cuts its
      sheet into cells 16 wide and 8 tall, and measures a line as 8 tall
      while `DrawString` puts lines 16 apart: the measured box of "\n" ends
      exactly where its second line begins. */
  lemma SheetFontLineHeightMismatch()
    ensures var f := SheetFont(IVec2(128, 128), 8, 16, seq(128, _ => 8));
            && f.spritemap.spriteSize == IVec2(16, 8)
            && f.spritemap.spriteSize.y * (1 + Newlines([NL])) == 16
            && Pen(Horizontal, f, Vec2(1.0, 1.0), [NL]).y == 16.0
  {
    var f := SheetFont(IVec2(128, 128), 8, 16, seq(128, _ => 8));
    assert Newlines([NL]) == 1;
    assert LineStart([NL]) == 1;
    assert [NL][1..] == [];
  }

  /** For every sheet font whose glyphs are not square, the as-written
      constructor measures each line as one font width tall, while
      `DrawString` steps down one font height per newline: once the message
      has a newline, the measured height and the drawn line pitch disagree. */
  lemma SheetFontLinePitchMismatch(sheet: IVec2, fontWidth: int, fontHeight: int, widths: seq<CChar>,
                                   msg: seq<CChar>, scale: Vec2)
    requires sheet.x >= 0 && sheet.y >= 0 && fontWidth != 0 && fontHeight != 0
    requires fontWidth != fontHeight
    requires Drawable(SheetFont(sheet, fontWidth, fontHeight, widths), msg) && NL in msg
    ensures var f := SheetFont(sheet, fontWidth, fontHeight, widths);
            && f.spritemap.spriteSize.y * (1 + Newlines(msg)) == fontWidth * (1 + Newlines(msg))
            && f.spritemap.spriteSize.y * (1 + Newlines(msg)) != fontHeight * (1 + Newlines(msg))
            && Pen(Horizontal, f, scale, msg).y == Times(Newlines(msg), Times(fontHeight, scale.y))
  {
    ScaledDiffer(fontWidth, fontHeight, 1 + Newlines(msg));
  }

  lemma ScaledDiffer(a: int, b: int, n: int)
    requires a != b && n > 0
    ensures a * n != b * n
  {
    if a < b {
      MulMono(a + 1, b, n);
    } else {
      MulMono(b + 1, a, n);
    }
  }

  /** The sheet-font constructor with the cell declared `{font_width, font_height}`. */
  function SheetFontFixed(sheet: IVec2, fontWidth: int, fontHeight: int, widths: seq<CChar>): (f: Font)
    requires sheet.x >= 0 && sheet.y >= 0 && fontWidth != 0 && fontHeight != 0
    ensures f.fontWidth == fontWidth && f.fontHeight == fontHeight && f.widths == widths
    ensures f.spritemap.spriteSize == IVec2(f.fontWidth, f.fontHeight)
    ensures f.spritemap == NewSpriteMap(sheet, IVec2(fontWidth, fontHeight))
  {
    Font(NewSpriteMap(sheet, IVec2(fontWidth, fontHeight)), fontHeight, fontWidth, widths, [])
  }

  /** For the fixed sheet font, the measured height of every message is one
      font height per line, the same pitch `DrawString` steps by. */
  lemma SheetFontFixedLinePitch(sheet: IVec2, fontWidth: int, fontHeight: int, widths: seq<CChar>,
                                msg: seq<CChar>, scale: Vec2)
    requires sheet.x >= 0 && sheet.y >= 0 && fontWidth != 0 && fontHeight != 0
    requires Drawable(SheetFontFixed(sheet, fontWidth, fontHeight, widths), msg)
    ensures var f := SheetFontFixed(sheet, fontWidth, fontHeight, widths);
            && f.spritemap.spriteSize.y * (1 + Newlines(msg)) == fontHeight * (1 + Newlines(msg))
            && Pen(Horizontal, f, scale, msg).y == Times(Newlines(msg), Times(f.spritemap.spriteSize.y, scale.y))
  {
  }

  /** `MonospaceFont(path, sprite_size)`: every character is one cell wide;
      the width table has one entry per cell across the sheet. */
  function MonospaceFont(sheet: IVec2, size: IVec2): (f: Font)
    requires sheet.x >= 0 && sheet.y >= 0
    requires 0 < size.x < 128 && size.y != 0
    ensures f.spritemap == NewSpriteMap(sheet, size)
    ensures f.fontWidth == size.x && f.fontHeight == size.y
    ensures |f.widths| * size.x <= sheet.x < (|f.widths| + 1) * size.x
    ensures forall c | 0 <= c < |f.widths| :: f.widths[c] == size.x
  {
    Font(NewSpriteMap(sheet, size), size.y, size.x, seq(sheet.x / size.x, _ => size.x), [])
  }

  /** A monospaced message measures one cell width per character. */
  lemma {:induction false} MonospaceMeasure(sheet: IVec2, size: IVec2, msg: seq<CChar>)
    requires sheet.x >= 0 && sheet.y >= 0 && 0 < size.x < 128 && size.y != 0
    requires Indexable(MonospaceFont(sheet, size), msg)
    ensures WidthSum(MonospaceFont(sheet, size), msg) == size.x * |msg|
    decreases |msg|
  {
    if msg != [] {
      var f := MonospaceFont(sheet, size);
      assert Indexable(f, msg[1..]) by {
        assert forall i | 0 <= i < |msg[1..]| :: msg[1..][i] == msg[i + 1];
      }
      MonospaceMeasure(sheet, size, msg[1..]);
    }
  }
}
