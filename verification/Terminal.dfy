// The VGA text terminal: a fixed 80 by 25 buffer that scrolls in place, and the unbounded log it shows.

module Terminal {
  import opened Bits
  import opened Memory

  const WIDTH: nat := 80
  const HEIGHT: nat := 25
  const NEWLINE: byte := 10
  const SPACE: byte := 32

  type cell = x: int | 0 <= x < 0x1_0000

  /** (uint16_t) uc | (uint16_t) color << 8 */
  function VgaEntry(uc: byte, color: byte): (r: cell)
    ensures r % 0x100 == uc && r / 0x100 == color
  {
    EntryIsSum(uc, color);
    Or(uc, color * 0x100)
  }

  lemma EntryIsSum(uc: byte, color: byte)
    ensures
      var r := Or(uc, color * 0x100);
      0 <= r < 0x1_0000 && r % 0x100 == uc && r / 0x100 == color
  {
    hide *;
    Pow2At8();
    OrDisjoint(uc, color, 8, 0x100);
    SumParts(uc, color);
  }

  lemma Pow2At8()
    ensures Pow2(8) == 0x100
  {
    assert Pow2(4) == 16;
  }

  lemma SumParts(uc: byte, color: byte)
    ensures
      var r := uc + color * 0x100;
      0 <= r < 0x1_0000 && r % 0x100 == uc && r / 0x100 == color
  {
  }

  lemma EntryValue(uc: byte, color: byte)
    ensures VgaEntry(uc, color) == uc + 0x100 * color
  {
    hide VgaEntry;
  }

  // ---- the log ----

  /** A character with the colour that was set when it was written. */
  datatype Glyph = Glyph(ch: byte, color: byte)

  /** One line of the log; pad is the colour of the blanks behind it. */
  datatype Line = Line(glyphs: seq<Glyph>, pad: byte)

  /** Everything written since the screen was cleared with colour base. */
  datatype Log = Log(lines: seq<Line>, base: byte) {
    ghost predicate Valid() {
      && lines != [] && |lines[|lines| - 1].glyphs| < WIDTH
      && forall i | 0 <= i < |lines| :: |lines[i].glyphs| <= WIDTH
    }

    /** The line at the top of the screen. */
    function Top(): nat {
      if |lines| > HEIGHT then |lines| - HEIGHT else 0
    }

    /** What the screen shows at row y, column x. */
    function CellAt(y: nat, x: nat): cell {
      if Top() + y < |lines| then
        var line := lines[Top() + y];
        if x < |line.glyphs| then VgaEntry(line.glyphs[x].ch, line.glyphs[x].color) else VgaEntry(SPACE, line.pad)
      else
        VgaEntry(SPACE, base)
    }
  }

  function Empty(color: byte): Log {
    Log([Line([], color)], color)
  }

  /** A line that opens while the screen is full is blank in the current colour, one further up as cleared. */
  function NewLine(log: Log, color: byte): Log {
    log.(lines := log.lines + [Line([], if |log.lines| >= HEIGHT then color else log.base)])
  }

  function AddGlyph(log: Log, g: Glyph): Log
    requires log.lines != []
  {
    var n := |log.lines| - 1;
    log.(lines := log.lines[n := log.lines[n].(glyphs := log.lines[n].glyphs + [g])])
  }

  /** The log after one character; a line that reaches the last column is closed at once. */
  function Put(log: Log, c: byte, color: byte): (r: Log)
    requires log.lines != []
    ensures r.lines != []
  {
    if c == NEWLINE then NewLine(log, color)
    else
      var added := AddGlyph(log, Glyph(c, color));
      if |added.lines[|added.lines| - 1].glyphs| >= WIDTH then NewLine(added, color) else added
  }

  /** The log after a sequence of characters, each with the colour set at the time. */
  function PutAll(log: Log, gs: seq<Glyph>): (r: Log)
    requires log.lines != []
    ensures r.lines != []
  {
    if gs == [] then log
    else
      var g := gs[|gs| - 1];
      Put(PutAll(log, gs[..|gs| - 1]), g.ch, g.color)
  }

  function Coloured(data: seq<byte>, color: byte): (r: seq<Glyph>)
    ensures |r| == |data|
  {
    seq(|data|, i requires 0 <= i < |data| => Glyph(data[i], color))
  }

  /** Two writes are one write of the joined text, whatever the colours. */
  lemma {:induction false} PutAllConcat(log: Log, a: seq<Glyph>, b: seq<Glyph>)
    requires log.lines != []
    ensures PutAll(log, a + b) == PutAll(PutAll(log, a), b)
  {
    if b == [] {
      assert a + b == a;
    } else {
      var n := |b| - 1;
      assert (a + b)[..|a + b| - 1] == a + b[..n];
      PutAllConcat(log, a, b[..n]);
    }
  }

  lemma PutValid(log: Log, c: byte, color: byte)
    requires log.Valid()
    ensures Put(log, c, color).Valid()
  {
  }

  // ---- the log and the text ----

  /** A text without newlines cut after every eightieth character; the last piece may be empty. */
  function Chunk(p: seq<byte>): (r: seq<seq<byte>>)
    ensures r != []
    decreases |p|
  {
    if |p| < WIDTH then [p] else [p[..WIDTH]] + Chunk(p[WIDTH..])
  }

  /** Index of the first newline, |t| if there is none. */
  function FirstNewline(t: seq<byte>): (i: nat)
    ensures i <= |t| && (i < |t| ==> t[i] == NEWLINE)
    ensures forall j | 0 <= j < i :: t[j] != NEWLINE
  {
    if t == [] || t[0] == NEWLINE then 0 else 1 + FirstNewline(t[1..])
  }

  /** The text as lines: split at the newlines, each paragraph cut into chunks. */
  function Wrap(t: seq<byte>): (r: seq<seq<byte>>)
    ensures r != []
    decreases |t|
  {
    var i := FirstNewline(t);
    if i == |t| then Chunk(t) else Chunk(t[..i]) + Wrap(t[i + 1..])
  }

  function Chars(gs: seq<Glyph>): (r: seq<byte>)
    ensures |r| == |gs|
  {
    seq(|gs|, i requires 0 <= i < |gs| => gs[i].ch)
  }

  function Texts(lines: seq<Line>): (r: seq<seq<byte>>)
    ensures |r| == |lines|
  {
    seq(|lines|, i requires 0 <= i < |lines| => Chars(lines[i].glyphs))
  }

  /** Put, on the characters alone. */
  function PutText(ls: seq<seq<byte>>, c: byte): (r: seq<seq<byte>>)
    requires ls != []
    ensures r != []
  {
    var n := |ls| - 1;
    if c == NEWLINE then ls + [[]]
    else if |ls[n]| + 1 >= WIDTH then ls[n := ls[n] + [c]] + [[]]
    else ls[n := ls[n] + [c]]
  }

  lemma PutTextConcat(a: seq<seq<byte>>, b: seq<seq<byte>>, c: byte)
    requires b != []
    ensures PutText(a + b, c) == a + PutText(b, c)
  {
    var n := |b| - 1;
    assert (a + b)[|a + b| - 1] == b[n];
    assert (a + b)[|a + b| - 1 := b[n] + [c]] == a + b[n := b[n] + [c]];
    assert a + b + [[]] == a + (b + [[]]);
    assert a + b[n := b[n] + [c]] + [[]] == a + (b[n := b[n] + [c]] + [[]]);
  }

  lemma {:induction false} ChunkPut(p: seq<byte>, c: byte)
    requires c != NEWLINE
    ensures Chunk(p + [c]) == PutText(Chunk(p), c)
    decreases |p|
  {
    if |p| >= WIDTH {
      assert (p + [c])[..WIDTH] == p[..WIDTH] && (p + [c])[WIDTH..] == p[WIDTH..] + [c];
      ChunkPut(p[WIDTH..], c);
      PutTextConcat([p[..WIDTH]], Chunk(p[WIDTH..]), c);
    } else if |p| + 1 == WIDTH {
      assert (p + [c])[..WIDTH] == p + [c] && (p + [c])[WIDTH..] == [];
      assert Chunk(p + [c]) == [p + [c]] + Chunk([]);
      assert [p][0 := p + [c]] + [[]] == [p + [c]] + [[]];
    } else {
      assert [p][0 := p + [c]] == [p + [c]];
    }
  }

  lemma FirstNewlineIs(t: seq<byte>, i: nat)
    requires i <= |t| && (i < |t| ==> t[i] == NEWLINE)
    requires forall j | 0 <= j < i :: t[j] != NEWLINE
    ensures FirstNewline(t) == i
  {
  }

  lemma PutNewline(ls: seq<seq<byte>>)
    requires ls != []
    ensures PutText(ls, NEWLINE) == ls + [[]]
  {
  }

  /** Writing one more character is what wrapping the longer text does to the lines. */
  lemma {:induction false} WrapPut(t: seq<byte>, c: byte)
    ensures Wrap(t + [c]) == PutText(Wrap(t), c)
    decreases |t|
  {
    var i := FirstNewline(t);
    if i < |t| {
      WrapPut(t[i + 1..], c);
      WrapPutInner(t, i, c);
    } else if c == NEWLINE {
      WrapPutNewline(t);
    } else {
      FirstNewlineIs(t + [c], |t| + 1);
      ChunkPut(t, c);
    }
  }

  lemma WrapAt(t: seq<byte>, i: nat)
    requires i == FirstNewline(t) < |t|
    ensures Wrap(t) == Chunk(t[..i]) + Wrap(t[i + 1..])
  {
  }

  /** The character goes to the text behind the first newline. */
  lemma WrapPutInner(t: seq<byte>, i: nat, c: byte)
    requires i == FirstNewline(t) < |t|
    requires Wrap(t[i + 1..] + [c]) == PutText(Wrap(t[i + 1..]), c)
    ensures Wrap(t + [c]) == PutText(Wrap(t), c)
  {
    hide Wrap, Chunk, PutText, FirstNewline;
    WithCharacter(t, i, c);
    WrapAt(t, i);
    WrapAt(t + [c], i);
    PutTextConcat(Chunk(t[..i]), Wrap(t[i + 1..]), c);
  }

  lemma WithCharacter(t: seq<byte>, i: nat, c: byte)
    requires i == FirstNewline(t) < |t|
    ensures FirstNewline(t + [c]) == i
    ensures (t + [c])[..i] == t[..i] && (t + [c])[i + 1..] == t[i + 1..] + [c]
  {
    hide FirstNewline;
    assert forall j | 0 <= j <= i :: (t + [c])[j] == t[j];
    FirstNewlineIs(t + [c], i);
  }

  lemma WrapPutNewline(t: seq<byte>)
    requires FirstNewline(t) == |t|
    ensures Wrap(t + [NEWLINE]) == PutText(Wrap(t), NEWLINE)
  {
    var u := t + [NEWLINE];
    assert Wrap([]) == [[]] && Wrap(t) == Chunk(t);
    hide Wrap, Chunk, PutText;
    FirstNewlineIs(u, |t|);
    WrapAt(u, |t|);
    assert u[..|t|] == t && u[|t| + 1..] == [];
    PutNewline(Wrap(t));
  }

  lemma TextsPut(log: Log, c: byte, color: byte)
    requires log.Valid()
    ensures Texts(Put(log, c, color).lines) == PutText(Texts(log.lines), c)
  {
    var n := |log.lines| - 1;
    var g := Glyph(c, color);
    assert Chars(log.lines[n].glyphs + [g]) == Chars(log.lines[n].glyphs) + [c];
    assert Chars([]) == [];
  }

  /** After any text has been written to a cleared screen the log's lines are the text wrapped at 80 columns. */
  lemma {:induction false} LogIsWrappedText(gs: seq<Glyph>, base: byte)
    ensures
      var log := PutAll(Empty(base), gs);
      log.Valid() && Texts(log.lines) == Wrap(Chars(gs))
  {
    if gs == [] {
      assert Texts([Line([], base)]) == [[]];
    } else {
      var n := |gs| - 1;
      var before := PutAll(Empty(base), gs[..n]);
      LogIsWrappedText(gs[..n], base);
      assert PutAll(Empty(base), gs) == Put(before, gs[n].ch, gs[n].color);
      assert Chars(gs[..n]) + [gs[n].ch] == Chars(gs);
      hide *;
      PutValid(before, gs[n].ch, gs[n].color);
      TextsPut(before, gs[n].ch, gs[n].color);
      WrapPut(Chars(gs[..n]), gs[n].ch);
    }
  }

  /** What the screen is to show of a text of lines w: the last 25, padded with blanks. */
  function Shown(w: seq<seq<byte>>, y: nat, x: nat): byte {
    var top := if |w| > HEIGHT then |w| - HEIGHT else 0;
    if top + y < |w| && x < |w[top + y]| then w[top + y][x] else SPACE
  }

  lemma CellIsText(log: Log, y: nat, x: nat)
    ensures log.CellAt(y, x) % 0x100 == Shown(Texts(log.lines), y, x)
  {
    hide VgaEntry;
    var k := log.Top() + y;
    if k < |log.lines| {
      assert Texts(log.lines)[k] == Chars(log.lines[k].glyphs);
    }
  }

  /** The characters of a screen that shows the log are the last 25 lines of the wrapped text. */
  lemma ScreenIsLastLines(gs: seq<Glyph>, base: byte, y: nat, x: nat)
    requires y < HEIGHT && x < WIDTH
    ensures PutAll(Empty(base), gs).CellAt(y, x) % 0x100 == Shown(Wrap(Chars(gs)), y, x)
  {
    LogIsWrappedText(gs, base);
    var log := PutAll(Empty(base), gs);
    hide *;
    CellIsText(log, y, x);
  }

  // ---- the colours ----

  /**
   * Where line k of a wrapped text begins in the text: a line of 80 characters is followed by the next one at
   * once, a shorter one by a newline.
   */
  function Offset(w: seq<seq<byte>>, k: nat): nat
    requires k <= |w|
  {
    if k == 0 then 0 else Offset(w, k - 1) + |w[k - 1]| + (if |w[k - 1]| < 80 then 1 else 0)
  }

  /**
   * Line k of the log shows the glyphs from its offset on.  The blanks behind them have the colour base in the
   * first 25 lines; in a later one they have the colour of the glyph that ended the line before.
   */
  ghost predicate LineIs(log: Log, gs: seq<Glyph>, base: byte, k: nat)
    requires k < |log.lines|
  {
    var w := Texts(log.lines);
    var a, line := Offset(w, k), log.lines[k];
    && a + |line.glyphs| <= |gs| && line.glyphs == gs[a..a + |line.glyphs|]
    && (if k < 25 then line.pad == base else 0 < a && line.pad == gs[a - 1].color)
  }

  ghost predicate LinesAre(log: Log, gs: seq<Glyph>, base: byte) {
    && log.Valid() && log.base == base
    && Offset(Texts(log.lines), |log.lines| - 1) + |log.lines[|log.lines| - 1].glyphs| == |gs|
    && forall k: nat | k < |log.lines| :: LineIs(log, gs, base, k)
  }

  /** Lines that agree up to k, and in length before it, have the same offset. */
  lemma {:induction false} OffsetSame(w: seq<seq<byte>>, w': seq<seq<byte>>, k: nat)
    requires k <= |w| && k <= |w'| && forall j: nat | j < k :: |w[j]| == |w'[j]|
    ensures Offset(w, k) == Offset(w', k)
  {
    if k > 0 {
      OffsetSame(w, w', k - 1);
    }
  }

  /** A glyph added to the unfinished last line. */
  lemma LinesAdd(log: Log, gs: seq<Glyph>, base: byte, g: Glyph)
    requires LinesAre(log, gs, base)
    ensures
      var added := AddGlyph(log, g);
      && added.base == base && |added.lines| == |log.lines|
      && Offset(Texts(added.lines), |log.lines| - 1) + |added.lines[|log.lines| - 1].glyphs| == |gs| + 1
      && forall k: nat | k < |log.lines| :: LineIs(added, gs + [g], base, k)
  {
    var added, n, all := AddGlyph(log, g), |log.lines| - 1, gs + [g];
    var w, w' := Texts(log.lines), Texts(added.lines);
    OffsetSame(w, w', n);
    forall k: nat | k < |log.lines|
      ensures LineIs(added, all, base, k)
    {
      LineAdd(log, gs, base, g, k);
    }
    hide LineIs, Offset;
  }

  lemma LineAdd(log: Log, gs: seq<Glyph>, base: byte, g: Glyph, k: nat)
    requires LinesAre(log, gs, base) && k < |log.lines|
    ensures LineIs(AddGlyph(log, g), gs + [g], base, k)
  {
    var added, n, all := AddGlyph(log, g), |log.lines| - 1, gs + [g];
    OffsetSame(Texts(log.lines), Texts(added.lines), k);
    assert LineIs(log, gs, base, k);
    var a, len := Offset(Texts(log.lines), k), |log.lines[k].glyphs|;
    hide Offset, Texts;
    assert gs[a..a + len] == all[a..a + len];
    if k == n {
      assert all[a..a + len + 1] == gs[a..] + [g];
    }
  }

  /** A new line behind a last one that the glyphs so far have ended. */
  lemma LinesNext(log: Log, gs: seq<Glyph>, base: byte, color: byte)
    requires log.lines != [] && log.base == base && gs != [] && gs[|gs| - 1].color == color
    requires forall k: nat | k < |log.lines| :: LineIs(log, gs, base, k)
    requires Offset(Texts(log.lines), |log.lines|) == |gs|
    ensures
      var next := NewLine(log, color);
      && Offset(Texts(next.lines), |next.lines| - 1) == |gs| && next.lines[|next.lines| - 1].glyphs == []
      && forall k: nat | k < |next.lines| :: LineIs(next, gs, base, k)
  {
    var next := NewLine(log, color);
    var w, w' := Texts(log.lines), Texts(next.lines);
    OffsetSame(w, w', |log.lines|);
    forall k: nat | k < |next.lines|
      ensures LineIs(next, gs, base, k)
    {
      OffsetSame(w, w', k);
      if k < |log.lines| {
        assert LineIs(log, gs, base, k);
      }
    }
  }

  lemma LinesPut(log: Log, gs: seq<Glyph>, base: byte, g: Glyph)
    requires LinesAre(log, gs, base)
    ensures LinesAre(Put(log, g.ch, g.color), gs + [g], base)
  {
    var n, all := |log.lines| - 1, gs + [g];
    PutValid(log, g.ch, g.color);
    if g.ch == NEWLINE {
      forall k: nat | k < |log.lines|
        ensures LineIs(log, all, base, k)
      {
        assert LineIs(log, gs, base, k);
        var a := Offset(Texts(log.lines), k);
        assert gs[a..a + |log.lines[k].glyphs|] == all[a..a + |log.lines[k].glyphs|];
      }
      LinesNext(log, all, base, g.color);
    } else {
      LinesAdd(log, gs, base, g);
      var added := AddGlyph(log, g);
      if |added.lines[n].glyphs| >= WIDTH {
        LinesNext(added, all, base, g.color);
      }
    }
  }

  /** After any glyphs on a cleared screen every line of the log shows its part of them, in their colours. */
  lemma {:induction false} LogIsColoured(gs: seq<Glyph>, base: byte)
    ensures LinesAre(PutAll(Empty(base), gs), gs, base)
  {
    if gs == [] {
      assert LineIs(Empty(base), gs, base, 0);
    } else {
      var n := |gs| - 1;
      LogIsColoured(gs[..n], base);
      LinesPut(PutAll(Empty(base), gs[..n]), gs[..n], base, gs[n]);
      assert gs[..n] + [gs[n]] == gs;
      hide LinesAre, Put;
    }
  }

  /**
   * The cell at row y and column x of a screen that was clear in colour base, after glyphs whose text wraps to
   * the lines w: character in the low byte, colour in the high one.
   */
  function CellOf(gs: seq<Glyph>, w: seq<seq<byte>>, base: byte, y: nat, x: nat): int {
    var k := if |w| > 25 then |w| - 25 + y else y;
    if k < |w| then
      var a := Offset(w, k);
      if x < |w[k]| then (if a + x < |gs| then gs[a + x].ch + 0x100 * gs[a + x].color else -1)
      else 32 + 0x100 * (if k < 25 then base else if 0 < a <= |gs| then gs[a - 1].color else -1)
    else
      32 + 0x100 * base
  }

  /** Every cell of the screen, with its colour. */
  lemma ScreenIsColoured(gs: seq<Glyph>, base: byte, y: nat, x: nat)
    requires y < HEIGHT && x < WIDTH
    ensures PutAll(Empty(base), gs).CellAt(y, x) == CellOf(gs, Wrap(Chars(gs)), base, y, x)
  {
    var log := PutAll(Empty(base), gs);
    LogIsColoured(gs, base);
    LogIsWrappedText(gs, base);
    hide *;
    CellIsColoured(log, gs, base, y, x);
  }

  lemma CellIsColoured(log: Log, gs: seq<Glyph>, base: byte, y: nat, x: nat)
    requires LinesAre(log, gs, base)
    ensures log.CellAt(y, x) == CellOf(gs, Texts(log.lines), base, y, x)
  {
    var k := log.Top() + y;
    hide VgaEntry, Offset;
    if k < |log.lines| {
      var line := log.lines[k];
      LineCell(log, gs, base, k, x);
      EntryValue(SPACE, line.pad);
      if x < |line.glyphs| {
        EntryValue(line.glyphs[x].ch, line.glyphs[x].color);
      }
    } else {
      EntryValue(SPACE, base);
    }
    hide LinesAre, LineIs;
  }

  lemma LineCell(log: Log, gs: seq<Glyph>, base: byte, k: nat, x: nat)
    requires LinesAre(log, gs, base) && k < |log.lines|
    ensures
      var w, line := Texts(log.lines), log.lines[k];
      var a := Offset(w, k);
      && |w[k]| == |line.glyphs|
      && (x < |line.glyphs| ==> a + x < |gs| && gs[a + x] == line.glyphs[x])
      && (if k < 25 then line.pad == base else 0 < a <= |gs| && line.pad == gs[a - 1].color)
  {
    hide *;
    LineOf(log, gs, base, k);
    LineParts(log, gs, base, k);
    TextLength(log.lines, k);
    if x < |log.lines[k].glyphs| {
      SliceAt(gs, Offset(Texts(log.lines), k), log.lines[k].glyphs, x);
    }
  }

  lemma LineOf(log: Log, gs: seq<Glyph>, base: byte, k: nat)
    requires LinesAre(log, gs, base) && k < |log.lines|
    ensures LineIs(log, gs, base, k)
  {
    hide LineIs, Offset, Texts;
  }

  lemma LineParts(log: Log, gs: seq<Glyph>, base: byte, k: nat)
    requires k < |log.lines| && LineIs(log, gs, base, k)
    ensures
      var a, line := Offset(Texts(log.lines), k), log.lines[k];
      && a + |line.glyphs| <= |gs| && line.glyphs == gs[a..a + |line.glyphs|]
      && (if k < 25 then line.pad == base else 0 < a && line.pad == gs[a - 1].color)
  {
    hide Offset, Texts;
  }

  lemma SliceAt(gs: seq<Glyph>, a: nat, line: seq<Glyph>, x: nat)
    requires a + |line| <= |gs| && line == gs[a..a + |line|] && x < |line|
    ensures gs[a + x] == line[x]
  {
  }

  lemma TextLength(lines: seq<Line>, k: nat)
    requires k < |lines|
    ensures |Texts(lines)[k]| == |lines[k].glyphs|
  {
  }

  // ---- runs of commands ----

  /** What the kernel asks of the terminal. */
  datatype Command = Write(data: seq<byte>) | SetColor(colour: byte)

  function ColorAfter(cmds: seq<Command>, color: byte): byte {
    if cmds == [] then color
    else
      match cmds[|cmds| - 1]
      case Write(_) => ColorAfter(cmds[..|cmds| - 1], color)
      case SetColor(colour) => colour
  }

  /** The characters written, each with the colour that was set at the time. */
  function GlyphsOf(cmds: seq<Command>, color: byte): seq<Glyph> {
    if cmds == [] then []
    else
      var front := cmds[..|cmds| - 1];
      GlyphsOf(front, color) +
      match cmds[|cmds| - 1]
      case Write(data) => Coloured(data, ColorAfter(front, color))
      case SetColor(_) => []
  }

  /** The texts written, joined. */
  function TextOf(cmds: seq<Command>): seq<byte> {
    if cmds == [] then []
    else TextOf(cmds[..|cmds| - 1]) + match cmds[|cmds| - 1] case Write(data) => data case SetColor(_) => []
  }

  /** The colours are set apart from the text. */
  lemma {:induction false} GlyphsSpellText(cmds: seq<Command>, color: byte)
    ensures Chars(GlyphsOf(cmds, color)) == TextOf(cmds)
  {
    if cmds != [] {
      var front, last := cmds[..|cmds| - 1], cmds[|cmds| - 1];
      GlyphsSpellText(front, color);
      if last.Write? {
        var gs := Coloured(last.data, ColorAfter(front, color));
        assert Chars(gs) == last.data;
        assert Chars(GlyphsOf(front, color) + gs) == Chars(GlyphsOf(front, color)) + Chars(gs);
      } else {
        assert TextOf(cmds) == TextOf(front) && GlyphsOf(cmds, color) == GlyphsOf(front, color);
      }
    }
  }

  // ---- the code ----

  class Screen {
    const buffer: array<cell>
    var row: nat
    var column: nat
    var color: byte
    ghost var log: Log

    /** The buffer shows the last 25 lines of the log and the cursor stands behind its last character. */
    ghost predicate Valid()
      reads this, buffer
    {
      && buffer.Length == WIDTH * HEIGHT && log.Valid()
      && row < HEIGHT && column < WIDTH
      && row == |log.lines| - 1 - log.Top() && column == |log.lines[|log.lines| - 1].glyphs|
      && Shows(buffer[..], log)
    }

    /** term_clean on a screen with the cursor at the origin */
    constructor (memory: array<cell>, initial: byte)
      requires memory.Length == WIDTH * HEIGHT
      modifies memory
      ensures Valid() && log == Empty(initial) && color == initial && buffer == memory && fresh(this)
    {
      buffer, row, column, color, log := memory, 0, 0, initial, Empty(initial);
      new;
      for y := 0 to HEIGHT
        invariant row == column == 0 && log == Empty(initial) && color == initial
        invariant forall k | 0 <= k < WIDTH * y :: buffer[k] == VgaEntry(SPACE, initial)
      {
        for x := 0 to WIDTH
          invariant row == column == 0 && log == Empty(initial) && color == initial
          invariant forall k | 0 <= k < WIDTH * y + x :: buffer[k] == VgaEntry(SPACE, initial)
        {
          PutCharAt(SPACE, color, x, y);
        }
      }
    }

    method PutCharAt(c: byte, colour: byte, x: nat, y: nat)
      requires buffer.Length == WIDTH * HEIGHT && x < WIDTH && y < HEIGHT
      modifies buffer
      ensures buffer[..] == old(buffer[..])[y * WIDTH + x := VgaEntry(c, colour)]
    {
      var index := y * WIDTH + x;
      buffer[index] := VgaEntry(c, colour);
    }

    /** term_newline: the copy runs forward over an overlap, which is safe because it copies downwards. */
    method ScrollUp()
      requires buffer.Length == WIDTH * HEIGHT
      modifies buffer
      ensures buffer[..] == Scrolled(old(buffer[..]), color)
    {
      ghost var b := buffer[..];
      MemCpy(buffer, 0, WIDTH, WIDTH * (HEIGHT - 1));
      ghost var c := buffer[..];
      for i := 0 to WIDTH
        invariant forall k | 0 <= k < WIDTH * HEIGHT ::
          buffer[k] == if WIDTH * (HEIGHT - 1) <= k < WIDTH * (HEIGHT - 1) + i then VgaEntry(SPACE, color) else c[k]
      {
        PutCharAt(SPACE, color, i, HEIGHT - 1);
      }
      CopiedUp(b, c);
    }

    method PutChar(c: byte)
      requires Valid()
      modifies this`row, this`column, this`log, buffer
      ensures Valid() && log == Put(old(log), c, color)
      ensures c != 10 ==>
        buffer[(if old(row) == 24 && old(column) == 79 then 23 else old(row)) * 80 + old(column)] == c + 0x100 * color
    {
      hide Shows, VgaEntry, Scrolled;
      EntryValue(c, color);
      ghost var l, b := log, buffer[..];
      if c == NEWLINE {
        column := 0;
      } else {
        PutCharAt(c, color, column, row);
        ShowsGlyph(b, l, c, color);
        log := AddGlyph(log, Glyph(c, color));
        column := column + 1;
        if !(column >= WIDTH) {
          return;
        }
        column := 0;
      }
      ghost var l1, b1 := log, buffer[..];
      log := NewLine(log, color);
      row := row + 1;
      if !(row >= HEIGHT) {
        ShowsNewLine(b1, l1, color);
        return;
      }
      row := HEIGHT - 1;
      RowMovesUp(b1, color);
      ScrollUp();
      ShowsScrolled(b1, l1, color);
    }

    method Write(data: seq<byte>)
      requires Valid()
      modifies this`row, this`column, this`log, buffer
      ensures Valid() && log == PutAll(old(log), Coloured(data, color))
    {
      ghost var gs := Coloured(data, color);
      for i := 0 to |data|
        invariant Valid() && log == PutAll(old(log), gs[..i])
      {
        PutChar(data[i]);
        assert gs[..i + 1][..i] == gs[..i];
      }
      assert gs[..|data|] == gs;
    }

    method SetColor(colour: byte)
      requires Valid()
      modifies this`color
      ensures Valid() && color == colour && log == old(log) && buffer[..] == old(buffer[..])
    {
      color := colour;
    }
  }

  /** One command. */
  method Obey(screen: Screen, cmd: Command)
    requires screen.Valid()
    modifies screen`row, screen`column, screen`color, screen`log, screen.buffer
    ensures screen.Valid() && screen.color == ColorAfter([cmd], old(screen.color))
    ensures screen.log == PutAll(old(screen.log), GlyphsOf([cmd], old(screen.color)))
  {
    assert [cmd][..0] == [];
    match cmd
    case Write(data) =>
      assert GlyphsOf([cmd], screen.color) == Coloured(data, screen.color);
      screen.Write(data);
    case SetColor(colour) =>
      screen.SetColor(colour);
  }

  lemma CommandsNext(cmds: seq<Command>, cmd: Command, color: byte)
    ensures ColorAfter(cmds + [cmd], color) == ColorAfter([cmd], ColorAfter(cmds, color))
    ensures GlyphsOf(cmds + [cmd], color) == GlyphsOf(cmds, color) + GlyphsOf([cmd], ColorAfter(cmds, color))
  {
    assert (cmds + [cmd])[..|cmds|] == cmds && [cmd][..0] == [];
  }

  /** What is written after a colour change is written in that colour. */
  lemma WrittenInColour(cmds: seq<Command>, color: byte, colour: byte, data: seq<byte>, i: nat)
    requires i < |data|
    ensures
      var before, gs := GlyphsOf(cmds, color), GlyphsOf(cmds + [SetColor(colour), Write(data)], color);
      |gs| == |before| + |data| && before <= gs && gs[|before| + i] == Glyph(data[i], colour)
  {
    hide *;
    var coloured := cmds + [SetColor(colour)];
    assert coloured + [Write(data)] == cmds + [SetColor(colour), Write(data)];
    OneCommand(SetColor(colour), color, i);
    OneCommand(SetColor(colour), ColorAfter(cmds, color), i);
    OneCommand(Write(data), colour, i);
    CommandsNext(cmds, SetColor(colour), color);
    CommandsNext(coloured, Write(data), color);
    assert GlyphsOf(coloured, color) == GlyphsOf(cmds, color);
  }

  lemma OneCommand(cmd: Command, color: byte, i: nat)
    ensures cmd.SetColor? ==> ColorAfter([cmd], color) == cmd.colour && GlyphsOf([cmd], color) == []
    ensures cmd.Write? ==>
      && |GlyphsOf([cmd], color)| == |cmd.data|
      && (i < |cmd.data| ==> GlyphsOf([cmd], color)[i] == Glyph(cmd.data[i], color))
  {
    assert [cmd][..0] == [];
  }

  /**
   * Any run of writes and colour changes: the log grows by the characters, each in the colour set when it was
   * written, and a screen that was clear at first shows the last 25 lines of the joined text, wrapped at 80
   * columns, whatever the colours.
   */
  method Play(screen: Screen, cmds: seq<Command>)
    requires screen.Valid()
    modifies screen`row, screen`column, screen`color, screen`log, screen.buffer
    ensures screen.Valid() && screen.color == ColorAfter(cmds, old(screen.color))
    ensures screen.log == PutAll(old(screen.log), GlyphsOf(cmds, old(screen.color)))
    ensures old(screen.log) == Empty(old(screen.log.base)) ==>
      forall y: nat, x: nat {:trigger Shown(Wrap(TextOf(cmds)), y, x)} | y < HEIGHT && x < WIDTH ::
        screen.buffer[y * WIDTH + x] % 0x100 == Shown(Wrap(TextOf(cmds)), y, x)
    ensures old(screen.log) == Empty(old(screen.log.base)) ==>
      Displays(screen.buffer[..], cmds, old(screen.color), old(screen.log.base))
  {
    hide CellOf, ColorAfter, GlyphsOf, TextOf, Wrap, Shown, Chars;
    ghost var log0, color0 := screen.log, screen.color;
    CommandsNone(log0, color0);
    assert cmds[..0] == [];
    for i := 0 to |cmds|
      invariant screen.Valid() && screen.color == ColorAfter(cmds[..i], color0)
      invariant screen.log == PutAll(log0, GlyphsOf(cmds[..i], color0))
    {
      assert cmds[..i + 1] == cmds[..i] + [cmds[i]];
      CommandsNext(cmds[..i], cmds[i], color0);
      PutAllConcat(log0, GlyphsOf(cmds[..i], color0), GlyphsOf([cmds[i]], screen.color));
      Obey(screen, cmds[i]);
    }
    assert cmds[..|cmds|] == cmds;
    if log0 == Empty(log0.base) {
      GlyphsSpellText(cmds, color0);
      forall y: nat, x: nat | y < HEIGHT && x < WIDTH
        ensures screen.buffer[y * WIDTH + x] % 0x100 == Shown(Wrap(TextOf(cmds)), y, x)
        ensures screen.buffer[y * WIDTH + x] ==
          CellOf(GlyphsOf(cmds, color0), Wrap(TextOf(cmds)), log0.base, y, x)
      {
        ScreenIsColoured(GlyphsOf(cmds, color0), log0.base, y, x);
        ScreenIsLastLines(GlyphsOf(cmds, color0), log0.base, y, x);
        ShownAt(screen.buffer[..], screen.log, y, x);
      }
    }
  }

  /** The cells of a screen after the commands, from a screen that was clear in colour base. */
  ghost predicate Displays(b: seq<cell>, cmds: seq<Command>, color: byte, base: byte) {
    && |b| == 80 * 25
    && var gs, w := GlyphsOf(cmds, color), Wrap(TextOf(cmds));
       forall y: nat, x: nat {:trigger CellOf(gs, w, base, y, x)} | y < 25 && x < 80 ::
         b[y * 80 + x] == CellOf(gs, w, base, y, x)
  }

  /** A whole session: memory cleared in a colour, and then any commands. */
  method Session(memory: array<cell>, initial: byte, cmds: seq<Command>) returns (screen: Screen)
    requires memory.Length == 80 * 25
    modifies memory
    ensures screen.Valid() && screen.buffer == memory && Displays(memory[..], cmds, initial, initial)
  {
    screen := new Screen(memory, initial);
    Play(screen, cmds);
  }

  lemma CommandsNone(log: Log, color: byte)
    requires log.lines != []
    ensures ColorAfter([], color) == color && PutAll(log, GlyphsOf([], color)) == log
  {
  }

  lemma ShownAt(b: seq<cell>, log: Log, y: nat, x: nat)
    requires Shows(b, log) && y < HEIGHT && x < WIDTH
    ensures y * WIDTH + x < |b| && b[y * WIDTH + x] == log.CellAt(y, x)
  {
  }

  ghost predicate Shows(b: seq<cell>, log: Log) {
    && |b| == WIDTH * HEIGHT
    && forall y: nat, x: nat {:trigger log.CellAt(y, x)} | y < HEIGHT && x < WIDTH ::
         b[y * WIDTH + x] == log.CellAt(y, x)
  }

  /** Every row moved up by one, and a blank last row. */
  function Scrolled(b: seq<cell>, color: byte): (r: seq<cell>)
    requires |b| == WIDTH * HEIGHT
    ensures |r| == |b|
  {
    b[WIDTH..] + seq(WIDTH, _ => VgaEntry(SPACE, color))
  }

  lemma RowMovesUp(b: seq<cell>, color: byte)
    requires |b| == WIDTH * HEIGHT
    ensures Scrolled(b, color)[23 * 80 + 79] == b[24 * 80 + 79]
  {
  }

  lemma CopiedUp(b: seq<cell>, c: seq<cell>)
    requires |b| == WIDTH * HEIGHT && c == ForwardCopy(b, 0, WIDTH, WIDTH * (HEIGHT - 1))
    ensures forall k: nat | k < WIDTH * (HEIGHT - 1) :: c[k] == b[WIDTH + k]
  {
    forall k: nat | k < WIDTH * (HEIGHT - 1)
      ensures c[k] == b[WIDTH + k]
    {
      ForwardCopyDelivers(b, 0, WIDTH, WIDTH * (HEIGHT - 1), k);
    }
  }

  /** A character in the last, unfinished line appears at the cursor. */
  lemma ShowsGlyph(b: seq<cell>, log: Log, c: byte, color: byte)
    requires log.Valid() && Shows(b, log)
    ensures
      var y, x := |log.lines| - 1 - log.Top(), |log.lines[|log.lines| - 1].glyphs|;
      Shows(b[y * WIDTH + x := VgaEntry(c, color)], AddGlyph(log, Glyph(c, color)))
  {
    var y, x := |log.lines| - 1 - log.Top(), |log.lines[|log.lines| - 1].glyphs|;
    hide Shows, Scrolled;
    ShowsAll(b, log);
    forall j: nat, i: nat | j < HEIGHT && i < WIDTH
      ensures b[y * WIDTH + x := VgaEntry(c, color)][j * WIDTH + i] == AddGlyph(log, Glyph(c, color)).CellAt(j, i)
    {
      GlyphCell(log, c, color, j, i);
      CellIndex(j, i, y, x);
      ShownAt(b, log, j, i);
      hide VgaEntry, AddGlyph;
    }
    ShownIf(b[y * WIDTH + x := VgaEntry(c, color)], AddGlyph(log, Glyph(c, color)));
  }

  lemma ShowsAll(b: seq<cell>, log: Log)
    requires Shows(b, log)
    ensures |b| == WIDTH * HEIGHT
  {
  }

  lemma ShownIf(b: seq<cell>, log: Log)
    requires |b| == WIDTH * HEIGHT
    requires forall j: nat, i: nat | j < HEIGHT && i < WIDTH :: b[j * WIDTH + i] == log.CellAt(j, i)
    ensures Shows(b, log)
  {
  }

  /** The glyph added is the only cell that changes. */
  lemma GlyphCell(log: Log, c: byte, color: byte, j: nat, i: nat)
    requires log.Valid() && j < HEIGHT && i < WIDTH
    ensures
      var y, x := |log.lines| - 1 - log.Top(), |log.lines[|log.lines| - 1].glyphs|;
      AddGlyph(log, Glyph(c, color)).CellAt(j, i) ==
        if j == y && i == x then VgaEntry(c, color) else log.CellAt(j, i)
  {
    hide VgaEntry;
  }

  lemma CellIndex(j: nat, i: nat, y: nat, x: nat)
    requires i < WIDTH && x < WIDTH
    ensures j * WIDTH + i == y * WIDTH + x <==> j == y && i == x
  {
  }

  /** While the screen is not full a new line changes no cell. */
  lemma ShowsNewLine(b: seq<cell>, log: Log, color: byte)
    requires log.lines != [] && Shows(b, log) && |log.lines| < HEIGHT
    ensures Shows(b, NewLine(log, color))
  {
    forall j: nat, i: nat | j < HEIGHT && i < WIDTH
      ensures b[j * WIDTH + i] == NewLine(log, color).CellAt(j, i)
    {
      assert b[j * WIDTH + i] == log.CellAt(j, i);
    }
  }

  /** On a full screen a new line is the scroll. */
  lemma ShowsScrolled(b: seq<cell>, log: Log, color: byte)
    requires log.lines != [] && Shows(b, log) && |log.lines| >= HEIGHT
    ensures Shows(Scrolled(b, color), NewLine(log, color))
  {
    forall j: nat, i: nat | j < HEIGHT && i < WIDTH
      ensures Scrolled(b, color)[j * WIDTH + i] == NewLine(log, color).CellAt(j, i)
    {
      if j < HEIGHT - 1 {
        assert b[(j + 1) * WIDTH + i] == log.CellAt(j + 1, i);
      }
    }
  }
}
