/**
 * The text of one frame: settled lines in settlement order, a blank line
 * only when both groups are non-empty, pending lines in registration order,
 * and a final newline. The colouring library and the tick/cross glyphs are
 * parameters (`Style`): a colour wraps text between an opening and a
 * closing control sequence, both empty when colour is off.
 */
module Frame {
  import opened Text
  import opened Tasks

  datatype Colour = Colour(open: String, close: String)

  datatype Style = Style(tick: String, cross: String, green: Colour, red: Colour, cyan: Colour)

  /** `chalk.<colour>(s)`: the text, unchanged, between the colour's opening and closing sequences. */
  function Paint(colour: Colour, s: String): (painted: String)
    ensures |painted| == |colour.open| + |s| + |colour.close|
    ensures painted[..|colour.open|] == colour.open
    ensures painted[|colour.open|..|colour.open| + |s|] == s
    ensures painted[|colour.open| + |s|..] == colour.close
  {
    colour.open + s + colour.close
  }

  predicate ColourNewlineFree(colour: Colour)
  {
    '\n' !in colour.open && '\n' !in colour.close
  }

  predicate StyleNewlineFree(st: Style)
  {
    && '\n' !in st.tick && '\n' !in st.cross
    && ColourNewlineFree(st.green) && ColourNewlineFree(st.red) && ColourNewlineFree(st.cyan)
  }

  /** Names, and for rejected items the error message, hold no newline. */
  predicate ItemNewlineFree(item: Item)
  {
    '\n' !in item.name && (item.status.Rejected? ==> '\n' !in item.status.err.message)
  }

  predicate AllNewlineFree(items: seq<Item>)
  {
    forall k :: 0 <= k < |items| ==> ItemNewlineFree(items[k])
  }

  /** One settled line: a green tick and the name, or a red cross, the name, " - " and the message. */
  function SettledLine(st: Style, item: Item): (line: String)
    requires item.status != Pending
    ensures var c := if item.status == Resolved then st.green else st.red;
      && |c.open| + |c.close| < |line|
      && line[..|c.open|] == c.open
      && line[|line| - |c.close|..] == c.close
    ensures item.status == Resolved ==> line[|st.green.open|..|line| - |st.green.close|] == " " + st.tick + " " + item.name
    ensures item.status.Rejected? ==>
      line[|st.red.open|..|line| - |st.red.close|] == " " + st.cross + " " + item.name + " - " + item.status.err.message
  {
    match item.status
    case Resolved => Paint(st.green, " " + st.tick + " " + item.name)
    case Rejected(err) => Paint(st.red, " " + st.cross + " " + item.name + " - " + err.message)
  }

  /** One pending line: the frame's spinner glyph and the name, in cyan. */
  function PendingLine(st: Style, glyph: String, item: Item): (line: String)
    ensures |st.cyan.open| + |st.cyan.close| < |line|
    ensures line[..|st.cyan.open|] == st.cyan.open
    ensures line[|line| - |st.cyan.close|..] == st.cyan.close
    ensures line[|st.cyan.open|..|line| - |st.cyan.close|] == " " + glyph + " " + item.name
  {
    Paint(st.cyan, " " + glyph + " " + item.name)
  }

  /** `settled.map(...)`: one line per settled item, in order. */
  function SettledLines(st: Style, items: seq<Item>): (lines: seq<String>)
    requires Terminal(items)
    ensures |lines| == |items|
    ensures forall k :: 0 <= k < |items| ==> lines[k] == SettledLine(st, items[k])
  {
    if items == [] then [] else [SettledLine(st, items[0])] + SettledLines(st, items[1..])
  }

  /** `pending.map(...)`: one line per pending item, in order, all with the same glyph. */
  function PendingLines(st: Style, glyph: String, items: seq<Item>): (lines: seq<String>)
    ensures |lines| == |items|
    ensures forall k :: 0 <= k < |items| ==> lines[k] == PendingLine(st, glyph, items[k])
  {
    if items == [] then [] else [PendingLine(st, glyph, items[0])] + PendingLines(st, glyph, items[1..])
  }

  /** The blank line between the groups, present only when both are non-empty. */
  function Separator(settledCount: nat, pendingCount: nat): (sep: String)
    ensures sep == "\n\n" <==> settledCount > 0 && pendingCount > 0
    ensures sep != "\n\n" ==> sep == []
  {
    if settledCount > 0 && pendingCount > 0 then "\n\n" else ""
  }

  /** The text `_renderFrame` builds from the two lists and one spinner glyph. */
  function RenderText(st: Style, settled: seq<Item>, pending: seq<Item>, glyph: String): (text: String)
    requires Terminal(settled)
    ensures |text| > 0 && text[|text| - 1] == '\n'
  {
    Join(SettledLines(st, settled), "\n")
      + Separator(|settled|, |pending|)
      + Join(PendingLines(st, glyph, pending), "\n")
      + "\n"
  }

  /**
   * The lines a frame is meant to show, as `split('\n')` sees them: the
   * settled lines, a blank line between the groups when both are present,
   * the pending lines, and the empty piece after the final newline. With
   * no tasks at all the frame is one blank line.
   */
  function Layout(settled: seq<String>, pending: seq<String>): seq<String>
  {
    (if settled == [] && pending == [] then [[]]
     else if settled != [] && pending != [] then settled + [[]] + pending
     else settled + pending)
    + [[]]
  }

  predicate LinesNewlineFree(lines: seq<String>)
  {
    forall k :: 0 <= k < |lines| ==> '\n' !in lines[k]
  }

  lemma SettledLinesNewlineFree(st: Style, items: seq<Item>)
    requires StyleNewlineFree(st) && Terminal(items) && AllNewlineFree(items)
    ensures LinesNewlineFree(SettledLines(st, items))
  {
    var lines := SettledLines(st, items);
    forall k | 0 <= k < |items| ensures '\n' !in lines[k] {
      SettledLineNewlineFree(st, items[k]);
    }
  }

  lemma SettledLineNewlineFree(st: Style, item: Item)
    requires StyleNewlineFree(st) && item.status != Pending && ItemNewlineFree(item)
    ensures '\n' !in SettledLine(st, item)
  {
  }

  lemma PendingLinesNewlineFree(st: Style, glyph: String, items: seq<Item>)
    requires StyleNewlineFree(st) && '\n' !in glyph && AllNewlineFree(items)
    ensures LinesNewlineFree(PendingLines(st, glyph, items))
  {
    var lines := PendingLines(st, glyph, items);
    forall k | 0 <= k < |items| ensures '\n' !in lines[k] {
      assert ItemNewlineFree(items[k]);
      PendingLineNewlineFree(st, glyph, items[k]);
    }
  }

  lemma PendingLineNewlineFree(st: Style, glyph: String, item: Item)
    requires StyleNewlineFree(st) && '\n' !in glyph && '\n' !in item.name
    ensures '\n' !in PendingLine(st, glyph, item)
  {
    assert PendingLine(st, glyph, item) == st.cyan.open + (" " + glyph + " " + item.name) + st.cyan.close;
  }

  /**
   * Splitting a rendered frame at newlines recovers exactly its layout:
   * the settled lines in order, the separator only when both groups are
   * present, the pending lines in order, and the final newline.
   */
  lemma RenderedLines(st: Style, settled: seq<Item>, pending: seq<Item>, glyph: String)
    requires StyleNewlineFree(st) && '\n' !in glyph
    requires Terminal(settled) && AllNewlineFree(settled) && AllNewlineFree(pending)
    ensures Split(RenderText(st, settled, pending, glyph), '\n')
         == Layout(SettledLines(st, settled), PendingLines(st, glyph, pending))
  {
    SettledLinesNewlineFree(st, settled);
    PendingLinesNewlineFree(st, glyph, pending);
    SplitLayout(SettledLines(st, settled), PendingLines(st, glyph, pending));
  }

  /** The layout of two groups of newline-free lines, joined the way `_renderFrame` joins them. */
  lemma SplitLayout(s: seq<String>, p: seq<String>)
    requires LinesNewlineFree(s) && LinesNewlineFree(p)
    ensures Split(Join(s, "\n") + Separator(|s|, |p|) + Join(p, "\n") + "\n", '\n') == Layout(s, p)
  {
    var text := Join(s, "\n") + Separator(|s|, |p|) + Join(p, "\n") + "\n";
    if s != [] && p != [] {
      assert text == Join(s, "\n") + "\n\n" + Join(p, "\n") + "\n";
      assert Layout(s, p) == s + [[]] + p + [[]];
      SplitBoth(s, p);
    } else if s != [] {
      assert text == Join(s, "\n") + "\n";
      assert Layout(s, p) == s + [[]];
      SplitOneGroup(s);
    } else if p != [] {
      assert text == Join(p, "\n") + "\n";
      assert Layout(s, p) == p + [[]];
      SplitOneGroup(p);
    } else {
      assert text == [] + ['\n'] + [];
      assert Layout(s, p) == [[], []];
      SplitAround([], '\n', []);
    }
  }

  /** A string followed by one newline splits into its own pieces and a last empty one. */
  lemma SplitTrailing(a: String)
    ensures Split(a + "\n", '\n') == Split(a, '\n') + [[]]
  {
    SplitAround(a, '\n', []);
    assert a + "\n" == a + ['\n'] + [];
  }

  lemma SplitOneGroup(lines: seq<String>)
    requires lines != [] && LinesNewlineFree(lines)
    ensures Split(Join(lines, "\n") + "\n", '\n') == lines + [[]]
  {
    SplitJoin(lines, '\n');
    SplitTrailing(Join(lines, "\n"));
  }

  /** The blank line and the pending group after the settled group. */
  lemma SplitBlankThenGroup(p: seq<String>)
    requires p != [] && LinesNewlineFree(p)
    ensures Split("\n" + Join(p, "\n") + "\n", '\n') == [[]] + p + [[]]
  {
    var jp := Join(p, "\n");
    SplitOneGroup(p);
    assert "\n" + jp + "\n" == [] + ['\n'] + (jp + "\n");
    SplitAround([], '\n', jp + "\n");
  }

  lemma SplitBoth(s: seq<String>, p: seq<String>)
    requires s != [] && p != [] && LinesNewlineFree(s) && LinesNewlineFree(p)
    ensures Split(Join(s, "\n") + "\n\n" + Join(p, "\n") + "\n", '\n') == s + [[]] + p + [[]]
  {
    var js, tail := Join(s, "\n"), "\n" + Join(p, "\n") + "\n";
    SplitJoin(s, '\n');
    SplitBlankThenGroup(p);
    assert js + "\n\n" + Join(p, "\n") + "\n" == js + ['\n'] + tail;
    SplitAround(js, '\n', tail);
  }

  /**
   * The line count `_renderFrame` records, `text.split('\n').length`, is the
   * number of newlines plus one; with newline-free names and messages it is
   * `s + p + 2` when both groups are non-empty, `n + 1` when only one group
   * of `n` tasks is, and 2 for no tasks.
   */
  lemma LineCount(st: Style, settled: seq<Item>, pending: seq<Item>, glyph: String)
    requires StyleNewlineFree(st) && '\n' !in glyph
    requires Terminal(settled) && AllNewlineFree(settled) && AllNewlineFree(pending)
    ensures var text := RenderText(st, settled, pending, glyph);
      |Split(text, '\n')| == Count(text, '\n') + 1
      == if |settled| > 0 && |pending| > 0 then |settled| + |pending| + 2
         else if |settled| > 0 then |settled| + 1
         else if |pending| > 0 then |pending| + 1
         else 2
  {
    SplitLength(RenderText(st, settled, pending, glyph), '\n');
    RenderedLines(st, settled, pending, glyph);
  }

  /** With no tasks a frame is a single blank line. */
  lemma EmptyFrameText(st: Style, glyph: String)
    ensures RenderText(st, [], [], glyph) == "\n"
  {
    assert SettledLines(st, []) == [] && PendingLines(st, glyph, []) == [];
  }

  /** With nothing pending a frame is the settled lines, each ending in a newline. */
  lemma SettledOnlyText(st: Style, settled: seq<Item>, glyph: String)
    requires Terminal(settled)
    ensures RenderText(st, settled, [], glyph) == Join(SettledLines(st, settled), "\n") + "\n"
  {
    assert PendingLines(st, glyph, []) == [];
  }

  /** With nothing settled a frame is the pending lines, each ending in a newline. */
  lemma PendingOnlyText(st: Style, pending: seq<Item>, glyph: String)
    ensures RenderText(st, [], pending, glyph) == Join(PendingLines(st, glyph, pending), "\n") + "\n"
  {
    assert SettledLines(st, []) == [];
  }

  /** One task still running: its spinner line and the final newline. */
  lemma OnePendingText(st: Style, glyph: String, x: Item)
    ensures RenderText(st, [], [x], glyph) == PendingLine(st, glyph, x) + "\n"
  {
    PendingOnlyText(st, [x], glyph);
    assert PendingLines(st, glyph, [x]) == [PendingLine(st, glyph, x)];
  }

  /** Two settled tasks and nothing pending: their lines in settlement order, no blank line. */
  lemma TwoSettledText(st: Style, glyph: String, x: Item, y: Item)
    requires x.status != Pending && y.status != Pending
    ensures RenderText(st, [x, y], [], glyph) == SettledLine(st, x) + "\n" + SettledLine(st, y) + "\n"
  {
    SettledOnlyText(st, [x, y], glyph);
    assert SettledLines(st, [x, y]) == [SettledLine(st, x), SettledLine(st, y)];
  }

  predicate IsInfix(x: String, s: String)
  {
    exists i, j :: 0 <= i <= j <= |s| && s[i..j] == x
  }

  /** A failure line shows the task's name followed by " - " and the error message. */
  lemma FailureLineShowsReason(st: Style, item: Item)
    requires item.status.Rejected?
    ensures IsInfix(item.name + " - " + item.status.err.message, SettledLine(st, item))
  {
    var x := item.name + " - " + item.status.err.message;
    var line := SettledLine(st, item);
    var i := |st.red.open| + 1 + |st.cross| + 1;
    assert line == st.red.open + " " + st.cross + " " + x + st.red.close;
    assert line[i..i + |x|] == x;
  }

  /** A success line shows the tick glyph followed by the name. */
  lemma SuccessLineShowsName(st: Style, item: Item)
    requires item.status == Resolved
    ensures IsInfix(st.tick + " " + item.name, SettledLine(st, item))
  {
    var x := st.tick + " " + item.name;
    var line := SettledLine(st, item);
    var i := |st.green.open| + 1;
    assert line == st.green.open + " " + x + st.green.close;
    assert line[i..i + |x|] == x;
  }
}
