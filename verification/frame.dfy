/** The text prgi.c writes to its output stream: erasing the lines of the previous frame
    (prgi_clear), fitting one line to the terminal (prgi_puts), the terminal check that guards
    both (valid_terminal), and the width arithmetic of prgi_printf's two passes. */
module Frame {
  import opened Base
  import opened AnsiText
  import opened BarLayout

  // ---------------------------------------------------------------------------------------------
  // Terminal widths

  /** global.width: the terminal width less two columns, capped at MAXLINELEN. */
  function UsableWidth(termWidth: int): (w: int)
    ensures w <= MAXLINELEN && w <= termWidth - 2
    ensures w == MAXLINELEN || w == termWidth - 2
    ensures termWidth >= MAXLINELEN + 2 <==> w == MAXLINELEN
  {
    if termWidth >= MAXLINELEN + 2 then MAXLINELEN else termWidth - 2
  }

  /** valid_terminal as written: an output stream and a terminal of at least 3 columns. */
  predicate ValidTerminalAsWritten(hasOutput: bool, termWidth: int) {
    hasOutput && termWidth >= 3
  }

  /** valid_terminal as the truncation needs it: room for ">>>" in the usable width. */
  predicate ValidTerminal(hasOutput: bool, width: int) {
    hasOutput && width >= 3
  }

  /** The corrected check is the written one plus two columns: it rejects exactly the 3- and
      4-column terminals the written one lets through. */
  lemma ValidTerminalRelation(hasOutput: bool, termWidth: int)
    ensures ValidTerminal(hasOutput, UsableWidth(termWidth)) <==>
            (ValidTerminalAsWritten(hasOutput, termWidth) && termWidth >= 5)
  {
  }

  // ---------------------------------------------------------------------------------------------
  // prgi_clear

  /** "\e[K", erase to the end of the line, and "\e[A", cursor up one line. */
  function EraseLine(): seq<char> { Csi("", "", 'K') }
  function CursorUp(): seq<char> { Csi("", "", 'A') }

  /** j times: up one line and erase it. */
  function UpErase(j: nat): seq<char> {
    if j == 0 then [] else CursorUp() + EraseLine() + UpErase(j - 1)
  }

  /** What prgi_clear writes when k lines are on the screen. */
  function ClearText(k: nat): seq<char> {
    if k == 0 then [] else "\r" + EraseLine() + UpErase(k - 1)
  }

  /** Adding one more up-and-erase at the end is one more repetition. */
  lemma {:induction false} UpEraseAppend(j: nat)
    ensures UpErase(j + 1) == UpErase(j) + CursorUp() + EraseLine()
  {
    if j > 0 {
      UpEraseAppend(j - 1);
    }
  }

  /** Erasing one more line adds one up-and-erase at the end. */
  lemma ClearTextAppend(k: nat)
    requires k > 0
    ensures ClearText(k + 1) == ClearText(k) + (CursorUp() + EraseLine())
  {
    UpEraseAppend(k - 1);
    var h := "\r" + EraseLine();
    assert ClearText(k + 1) == h + (UpErase(k - 1) + CursorUp() + EraseLine());
    assert UpErase(k - 1) + CursorUp() + EraseLine() == UpErase(k - 1) + (CursorUp() + EraseLine());
  }

  /** The loop of prgi_clear: a carriage return and an erase, then an up and an erase for
      each further line. */
  method EraseLines(n: nat) returns (text: seq<char>)
    requires n > 0
    ensures text == ClearText(n)
  {
    text := "\r" + EraseLine();
    var k := n - 1;
    assert ClearText(1) == text;
    while k != 0
      invariant 0 <= k < n
      invariant text == ClearText(n - k)
    {
      ClearTextAppend(n - k);
      text := text + (CursorUp() + EraseLine());
      k := k - 1;
    }
  }

  /** u is j up-and-erase sequences in a row. */
  ghost predicate UpErases(u: seq<char>, j: nat) {
    |u| == 6 * j && forall i :: 0 <= i < j ==> u[6 * i .. 6 * i + 6] == CursorUp() + EraseLine()
  }

  /** Erasing k lines writes a carriage return and an erase, then k - 1 times an up and an
      erase: 4 + 6(k - 1) characters of which only the carriage return is printable. */
  lemma ClearTextLayout(k: nat)
    requires k > 0
    ensures |ClearText(k)| == 4 + 6 * (k - 1)
    ensures ClearText(k)[..4] == "\r" + EraseLine()
    ensures UpErases(ClearText(k)[4..], k - 1)
    ensures VisibleLength(ClearText(k)) == 1
  {
    var u := UpErase(k - 1);
    var head := "\r" + EraseLine();
    UpEraseLayout(k - 1);
    assert ClearText(k) == head + u;
    assert (head + u)[4..] == u;
    ClearVisible(u);
  }

  lemma ClearVisible(u: seq<char>)
    requires VisibleLength(u) == 0
    ensures VisibleLength("\r" + EraseLine() + u) == 1
  {
    assert "\r" + EraseLine() + u == "\r" + (EraseLine() + u);
    PlainPrefixVisible("\r", EraseLine() + u);
    CsiPrefixVisible("", "", 'K', u);
  }

  lemma {:induction false} UpEraseLayout(j: nat)
    ensures UpErases(UpErase(j), j)
    ensures VisibleLength(UpErase(j)) == 0
  {
    if j > 0 {
      UpEraseLayout(j - 1);
      var rest := UpErase(j - 1);
      UpErasesCons(rest, j - 1);
      UpEraseVisible(rest);
      assert UpErase(j) == CursorUp() + EraseLine() + rest;
    } else {
      assert VisibleLength([]) == 0;
    }
  }

  /** An up-and-erase block in front adds no printable character. */
  lemma UpEraseVisible(rest: seq<char>)
    requires VisibleLength(rest) == 0
    ensures VisibleLength(CursorUp() + EraseLine() + rest) == 0
  {
    assert CursorUp() + EraseLine() + rest == Csi("", "", 'A') + (Csi("", "", 'K') + rest);
    CsiPrefixVisible("", "", 'A', Csi("", "", 'K') + rest);
    CsiPrefixVisible("", "", 'K', rest);
  }

  /** One more up-and-erase in front makes one more block. */
  lemma UpErasesCons(rest: seq<char>, j: nat)
    requires UpErases(rest, j)
    ensures UpErases(CursorUp() + EraseLine() + rest, j + 1)
  {
    var unit := CursorUp() + EraseLine();
    var u := unit + rest;
    forall i | 0 <= i < j + 1
      ensures u[6 * i .. 6 * i + 6] == unit
    {
      if i > 0 {
        assert u[6 * i .. 6 * i + 6] == rest[6 * (i - 1) .. 6 * (i - 1) + 6];
      }
    }
  }

  // ---------------------------------------------------------------------------------------------
  // prgi_puts

  /** The truncation indicator and the reset that follows it. */
  function Indicator(): seq<char> { ">>>" + ResetAttrs() }

  /** The line prgi_puts writes for s: s itself when its printable characters fit the usable
      width, else the longest raw prefix with width - 3 printable characters and the
      indicator. */
  function FitLine(s: seq<char>, width: int): (r: seq<char>)
    ensures VisibleLength(s) <= width ==> r == s
    ensures VisibleLength(s) > width ==> r == s[..RawLen(s, width - 3)] + Indicator()
  {
    if VisibleLength(s) <= width then s else s[..RawLen(s, width - 3)] + Indicator()
  }

  /** "\e[<w>G": the cursor parked at column w. */
  function Park(termWidth: int): seq<char> {
    Csi(IntText(termWidth), "", 'G')
  }

  /** Everything prgi_puts writes: a newline when lines were printed since the last clear, the
      fitted line and the parking sequence. */
  function PutsText(s: seq<char>, printedLines: int, width: int, termWidth: int): seq<char> {
    (if printedLines > 0 then "\n" else "") + FitLine(s, width) + Park(termWidth)
  }

  /** No more than three printable characters lie anywhere in the indicator. */
  lemma IndicatorVisible()
    ensures forall k :: 0 <= k <= |Indicator()| ==> Visible(Indicator(), k) <= 3
  {
    var b := Indicator();
    assert b == ['>', '>', '>', ESC, '[', '0', 'm'];
    ResetVisible(b);
  }

  lemma ResetVisible(b: seq<char>)
    requires b == ['>', '>', '>', ESC, '[', '0', 'm']
    ensures forall k :: 0 <= k <= 7 ==> Visible(b, k) <= 3
  {
    assert Visible(b, 3) == 0 by {
      assert Run(b, 5, '0', '?') == 6;
      assert Run(b, 6, ' ', '/') == 6;
      assert EscEnd(b, 3) == 7;
      assert Skip(b, 3) == 7;
    }
    GlyphStep(b, 2);
    GlyphStep(b, 1);
    GlyphStep(b, 0);
    VisibleAtEnd(b);
    GlyphStep(b, 6);
    GlyphStep(b, 5);
    GlyphStep(b, 4);
  }

  /** When the usable width has room for the indicator, the fitted line never has more
      printable characters than the width; a cut line keeps exactly width - 3 printable
      characters of s, the longest raw prefix with that many, before the indicator. */
  lemma FitLineWidth(s: seq<char>, width: int)
    requires width >= 3
    ensures VisibleLength(FitLine(s, width)) <= width
    ensures VisibleLength(s) > width ==>
              var p := s[..RawLen(s, width - 3)];
              VisibleLength(p) == width - 3 &&
              FitLine(s, width) == p + Indicator() &&
              (|p| < |s| ==> s[|p|] != ESC && VisibleLength(s[..|p| + 1]) == width - 2)
  {
    if VisibleLength(s) > width {
      RawLenPrefix(s, width - 3);
      var p := s[..RawLen(s, width - 3)];
      IndicatorVisible();
      AppendVisible(p, Indicator(), 0, 3);
    }
  }

  /** A line that fits is written unchanged; the newline comes first exactly when lines were
      printed before; the parking sequence adds no printable character. */
  lemma PutsTextLayout(s: seq<char>, printedLines: int, width: int, termWidth: int)
    requires VisibleLength(s) <= width
    ensures printedLines > 0 ==> PutsText(s, printedLines, width, termWidth) == "\n" + s + Park(termWidth)
    ensures printedLines <= 0 ==> PutsText(s, printedLines, width, termWidth) == s + Park(termWidth)
  {
  }

  /** As written, valid_terminal lets a 3-column terminal through, whose usable width is 1:
      esc_rawlen then gets the budget -2, keeps the whole line, and "abcd" goes out as
      "abcd>>>\e[0m", 7 printable characters on a 3-column terminal. */
  lemma ValidTerminalTooNarrow()
    ensures ValidTerminalAsWritten(true, 3)
    ensures UsableWidth(3) == 1
    ensures FitLine("abcd", UsableWidth(3)) == "abcd" + Indicator()
    ensures VisibleLength(FitLine("abcd", UsableWidth(3))) == 7
  {
    FitAbcd();
    AbcdColumns();
  }

  lemma FitAbcd()
    ensures FitLine("abcd", 1) == "abcd" + Indicator()
  {
    var s := "abcd";
    PlainVisible(s);
    RawEndAll(s, 0, -2);
    assert s[..4] == s;
  }

  lemma AbcdColumns()
    ensures VisibleLength("abcd" + Indicator()) == 7
  {
    var s, c := "abcd", Csi("0", "", 'm');
    assert s + (">>>" + c) == (s + ">>>") + c;
    PlainPrefixVisible(s + ">>>", c);
    CsiPrefixVisible("0", "", 'm', []);
    assert c + [] == c;
    VisibleAtEnd([]);
  }

  /** With the corrected check, every line prgi_puts writes fits the terminal with its two
      spare columns. */
  lemma ValidTerminalFits(hasOutput: bool, termWidth: int, s: seq<char>)
    requires ValidTerminal(hasOutput, UsableWidth(termWidth))
    ensures VisibleLength(FitLine(s, UsableWidth(termWidth))) <= termWidth - 2
  {
    FitLineWidth(s, UsableWidth(termWidth));
  }

  // ---------------------------------------------------------------------------------------------
  // prgi_printf

  /** The length each of k expandable items gets from avail free columns: an equal share when
      there are more columns than items, else 1. */
  function ExpandLen(avail: int, k: int): (r: int)
    requires k > 0
    ensures r >= 1
    ensures avail > k ==> r * k <= avail < (r + 1) * k
    ensures avail <= k ==> r == 1
  {
    if avail > k then avail / k else 1
  }

  /** One automatic bar between fixed plain texts pre and post: the first pass measures
      pre + post and the bar gets the rest of the usable width, which bar_doit clamps to
      10 ... MAXBARLEN; the second pass formats pre, the bar of that clamped length and post,
      and vsnprintf cuts the result to the line buffer. When at least 10 columns are left the
      line is never cut and fills the usable width exactly. */
  lemma AutoBarFillsLine(pre: seq<char>, post: seq<char>, width: int,
                         f0: char, f1: char, txt: seq<char>, p: real)
    requires width <= MAXLINELEN
    requires ESC !in pre && ESC !in post
    requires f0 != '\0' && f0 != ESC && f1 != ESC && ESC !in txt && p >= 0.0
    requires |txt| < ClampLength(ExpandLen(width - |pre| - |post|, 1))
    ensures var first := Truncate(pre + post, LINEBUFSIZE);
            var len := ExpandLen(width - VisibleLength(first), 1);
            var rest := width - |pre| - |post|;
            var full := pre + DrawBar(len, f0, f1, txt, p) + post;
            var line := Truncate(full, LINEBUFSIZE);
            && ClampLength(len) == (if rest < 10 then 10 else rest)
            && (|full| < LINEBUFSIZE ==> VisibleLength(line) == |pre| + ClampLength(len) + |post|)
            && (rest >= 10 ==> line == full && VisibleLength(line) == width)
  {
    var len := AutoBarLength(pre, post, width);
    AutoBarColumns(pre, post, len, f0, f1, txt, p);
    if width - |pre| - |post| >= 10 {
      BarRawLength(len, f0, f1, txt, p);
    }
  }

  /** The first pass: pre + post holds no escape, so the bar gets the rest of the width. */
  lemma AutoBarLength(pre: seq<char>, post: seq<char>, width: int) returns (len: int)
    requires width <= MAXLINELEN && ESC !in pre && ESC !in post
    ensures len == ExpandLen(width - VisibleLength(Truncate(pre + post, LINEBUFSIZE)), 1)
    ensures |pre| + |post| < LINEBUFSIZE ==> len == ExpandLen(width - |pre| - |post|, 1)
    ensures |pre| + |post| >= LINEBUFSIZE ==> len == 1
    ensures len == ExpandLen(width - |pre| - |post|, 1)
  {
    var first := Truncate(pre + post, LINEBUFSIZE);
    assert ESC !in first by {
      assert first == (pre + post)[..|first|];
    }
    PlainVisible(first);
    len := ExpandLen(width - VisibleLength(first), 1);
    if |pre + post| < LINEBUFSIZE {
      assert first == pre + post;
    } else {
      assert VisibleLength(first) == LINEBUFSIZE - 1;
    }
  }

  /** The second pass before the cut: pre, the bar's l columns and post. */
  lemma AutoBarColumns(pre: seq<char>, post: seq<char>, len: int,
                       f0: char, f1: char, txt: seq<char>, p: real)
    requires len > 0 && ESC !in pre && ESC !in post
    requires f0 != '\0' && f0 != ESC && f1 != ESC && ESC !in txt && p >= 0.0
    requires |txt| < ClampLength(len)
    ensures VisibleLength(pre + DrawBar(len, f0, f1, txt, p) + post) == |pre| + ClampLength(len) + |post|
  {
    var bar := DrawBar(len, f0, f1, txt, p);
    BarColumns(len, f0, f1, txt, p, post);
    assert pre + bar + post == pre + (bar + post);
    PlainPrefixVisible(pre, bar + post);
  }

  /** AutoBarFillsLine for a format f that puts the bar cell between pre and post, in the terms
      of Session.Printf's postcondition with one pending item: cell0 is the cell the first pass
      measures, cell the one it redraws, and f(cell) the line the second pass formats. */
  lemma AutoBarFormat(pre: seq<char>, post: seq<char>, width: int, f0: char, f1: char,
                      txt: seq<char>, p: real, f: seq<char> -> seq<char>, cell0: seq<char>, cell: seq<char>)
    requires width <= MAXLINELEN
    requires ESC !in pre && ESC !in post
    requires f0 != '\0' && f0 != ESC && f1 != ESC && ESC !in txt && p >= 0.0
    requires |txt| < ClampLength(ExpandLen(width - |pre| - |post|, 1))
    requires f(cell0) == pre + post && f(cell) == pre + cell + post
    requires cell == DrawBar(ExpandLen(width - VisibleLength(Truncate(f(cell0), LINEBUFSIZE)), 1), f0, f1, txt, p)
    ensures cell == DrawBar(ExpandLen(width - |pre| - |post|, 1), f0, f1, txt, p)
    ensures width - |pre| - |post| >= 10 ==>
              Truncate(f(cell), LINEBUFSIZE) == pre + cell + post && VisibleLength(pre + cell + post) == width
  {
    var len := AutoBarLength(pre, post, width);
    AutoBarFillsLine(pre, post, width, f0, f1, txt, p);
  }

  /** A bar of a text shorter than it takes its l cells and at most the 8 characters of the
      reverse-video and reset sequences. */
  lemma BarRawLength(len: int, f0: char, f1: char, txt: seq<char>, p: real)
    requires len > 0 && f0 != '\0' && p >= 0.0
    requires |txt| < ClampLength(len)
    ensures |DrawBar(len, f0, f1, txt, p)| <= ClampLength(len) + 8
  {
    if f1 != '\0' {
      TwoFillLayout(len, f0, f1, txt, p);
    } else {
      ReverseLayout(len, f0, txt, p);
    }
  }
}
