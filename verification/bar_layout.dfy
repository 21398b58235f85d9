/** The progress bar of prgi.c as strings: overwrite_centered, bar_fill and bar_doit's drawing
    of a bar of a given length (the state bar_doit also touches lives in Progress.Session). */
module BarLayout {
  import opened Base
  import opened AnsiText

  /** overwrite_centered: dest is the string held in a buffer of `size` bytes. A shorter src
      is written over the middle of dest (the left margin is the right one, or one less);
      otherwise src replaces dest, cut to what the buffer holds. */
  function OverwriteCentered(dest: seq<char>, size: int, src: seq<char>): (r: seq<char>)
    requires size >= 1
    ensures |dest| > |src| ==>
              var off := (|dest| - |src|) / 2;
              |r| == |dest| && off <= |dest| - |src| - off <= off + 1 &&
              (forall k :: 0 <= k < |r| ==> r[k] == if off <= k < off + |src| then src[k - off] else dest[k])
    ensures |dest| <= |src| ==> r == Truncate(src, size)
  {
    if |dest| > |src| then
      var off := (|dest| - |src|) / 2;
      dest[..off] + src + dest[off + |src|..]
    else
      Truncate(src, size)
  }

  /** The bar length bar_doit uses for a positive request: at least 10, at most MAXBARLEN. */
  function ClampLength(len: int): (l: nat)
    ensures 10 <= l <= MAXBARLEN
    ensures 10 <= len <= MAXBARLEN ==> l == len
    ensures len < 10 ==> l == 10
    ensures len > MAXBARLEN ==> l == MAXBARLEN
  {
    if len < 10 then 10 else if len > MAXBARLEN then MAXBARLEN else len
  }

  /** The number of filled cells: len * progress rounded to the nearest integer (myround),
      never more than len. */
  function FilledCount(len: nat, p: real): (n: nat)
    requires p >= 0.0
    ensures n <= len
    ensures n < len ==> n as real - 0.5 <= len as real * p < n as real + 0.5
    ensures n == len ==> len as real * p >= len as real - 0.5
  {
    var x := len as real * p + 0.5;
    assert x >= 0.5;
    var rounded := x.Floor;
    if rounded > len then len else rounded
  }

  /** No progress fills nothing; complete progress (or more) fills the whole bar. */
  lemma FilledExtremes(len: nat, p: real)
    requires p >= 0.0
    ensures p == 0.0 ==> FilledCount(len, p) == 0
    ensures p >= 1.0 ==> FilledCount(len, p) == len
  {
    if p >= 1.0 {
      ScaleMonotone(len, 1.0, p);
      var x := len as real * p + 0.5;
      assert x >= len as real + 0.5;
      assert x.Floor >= len;
    }
  }

  /** More progress never fills fewer cells. */
  lemma FilledMonotone(len: nat, p: real, q: real)
    requires 0.0 <= p <= q
    ensures FilledCount(len, p) <= FilledCount(len, q)
  {
    ScaleMonotone(len, p, q);
    assert len as real * p <= len as real * q;
    RoundMonotone(len as real * p, len as real * q);
  }

  lemma RoundMonotone(a: real, b: real)
    requires a <= b
    ensures (a + 0.5).Floor <= (b + 0.5).Floor
  {
  }

  lemma {:induction false} ScaleMonotone(n: nat, p: real, q: real)
    requires p <= q
    ensures n as real * p <= n as real * q
  {
    if n > 0 {
      ScaleMonotone(n - 1, p, q);
      assert n as real * p == (n - 1) as real * p + p;
      assert n as real * q == (n - 1) as real * q + q;
    }
  }

  /** bar_fill: n cells of f0, then len - n cells of f1, with txt over the middle. */
  function BarFill(f0: char, f1: char, n: nat, len: nat, txt: seq<char>): (r: seq<char>)
    requires n <= len <= MAXBARLEN
    ensures |txt| < len ==>
              var off := (len - |txt|) / 2;
              |r| == len &&
              forall k :: 0 <= k < len ==>
                r[k] == if off <= k < off + |txt| then txt[k - off] else if k < n then f0 else f1
    ensures |txt| >= len ==> r == Truncate(txt, BARBUFSIZE)
  {
    var cells := Repeat(f0, n) + Repeat(f1, len - n);
    assert forall k :: 0 <= k < len ==> cells[k] == if k < n then f0 else f1;
    OverwriteCentered(cells, BARBUFSIZE, txt)
  }

  /** The string bar_doit draws for a positive length: with a second fill character, a bar of
      both fills; without one, the bar filled with f0 whose first n cells are shown in reverse
      video, the whole cut to the bar buffer. */
  function DrawBar(len: int, f0: char, f1: char, txt: seq<char>, p: real): (r: seq<char>)
    requires len > 0 && f0 != '\0' && p >= 0.0
    ensures |r| < BARBUFSIZE
  {
    var l := ClampLength(len);
    var n := FilledCount(l, p);
    if f1 != '\0' then
      BarFill(f0, f1, n, l, txt)
    else
      var aux := BarFill(f0, f0, l, l, txt);
      assert n <= |aux|;
      Truncate(ReverseOn() + aux[..n] + ResetAttrs() + aux[n..], BARBUFSIZE)
  }

  /** With two fill characters and a text shorter than the bar, the bar is exactly l cells:
      the text centred, the first n other cells f0 and the rest f1, where n is the rounded
      share of progress. */
  lemma TwoFillLayout(len: int, f0: char, f1: char, txt: seq<char>, p: real)
    requires len > 0 && f0 != '\0' && f1 != '\0' && p >= 0.0
    requires |txt| < ClampLength(len)
    ensures var l, n := ClampLength(len), FilledCount(ClampLength(len), p);
            var off := (l - |txt|) / 2;
            var r := DrawBar(len, f0, f1, txt, p);
            |r| == l &&
            forall k :: 0 <= k < l ==>
              r[k] == if off <= k < off + |txt| then txt[k - off] else if k < n then f0 else f1
  {
    var l, n := ClampLength(len), FilledCount(ClampLength(len), p);
    assert DrawBar(len, f0, f1, txt, p) == BarFill(f0, f1, n, l, txt);
  }

  /** Without text, a two-fill bar is n copies of f0 followed by l - n copies of f1. */
  lemma TwoFillPlain(len: int, f0: char, f1: char, p: real)
    requires len > 0 && f0 != '\0' && f1 != '\0' && p >= 0.0
    ensures var l, n := ClampLength(len), FilledCount(ClampLength(len), p);
            DrawBar(len, f0, f1, "", p) == Repeat(f0, n) + Repeat(f1, l - n)
  {
    var l, n := ClampLength(len), FilledCount(ClampLength(len), p);
    TwoFillLayout(len, f0, f1, "", p);
    var r := DrawBar(len, f0, f1, "", p);
    assert r == Repeat(f0, n) + Repeat(f1, l - n) by {
      assert forall k :: 0 <= k < l ==> (Repeat(f0, n) + Repeat(f1, l - n))[k] == r[k];
    }
  }

  /** With one fill character and a text shorter than the bar, the bar is the l-cell bar of
      f0 with the text centred, its first n cells between the reverse-video and the reset
      sequences; nothing is cut. */
  lemma ReverseLayout(len: int, f0: char, txt: seq<char>, p: real)
    requires len > 0 && f0 != '\0' && p >= 0.0
    requires |txt| < ClampLength(len)
    ensures var l, n := ClampLength(len), FilledCount(ClampLength(len), p);
            var s := BarFill(f0, f0, l, l, txt);
            |s| == l && DrawBar(len, f0, '\0', txt, p) == ReverseOn() + s[..n] + ResetAttrs() + s[n..]
  {
  }

  /** The bar takes exactly l columns on the terminal, in both forms, when neither the fill
      characters nor the text hold an escape character and the text is shorter than the bar;
      plain text after it adds its own length. */
  lemma BarColumns(len: int, f0: char, f1: char, txt: seq<char>, p: real, post: seq<char>)
    requires len > 0 && f0 != '\0' && p >= 0.0
    requires f0 != ESC && f1 != ESC && ESC !in txt && ESC !in post
    requires |txt| < ClampLength(len)
    ensures VisibleLength(DrawBar(len, f0, f1, txt, p) + post) == ClampLength(len) + |post|
  {
    var l, n := ClampLength(len), FilledCount(ClampLength(len), p);
    var r := DrawBar(len, f0, f1, txt, p);
    if f1 != '\0' {
      FillWithoutEsc(f0, f1, n, l, txt);
      assert r == BarFill(f0, f1, n, l, txt);
      assert ESC !in r + post;
      PlainVisible(r + post);
    } else {
      ReverseColumns(len, f0, txt, p, post);
    }
  }

  lemma ReverseColumns(len: int, f0: char, txt: seq<char>, p: real, post: seq<char>)
    requires len > 0 && f0 != '\0' && p >= 0.0
    requires f0 != ESC && ESC !in txt && ESC !in post
    requires |txt| < ClampLength(len)
    ensures VisibleLength(DrawBar(len, f0, '\0', txt, p) + post) == ClampLength(len) + |post|
  {
    var l, n := ClampLength(len), FilledCount(ClampLength(len), p);
    var r := DrawBar(len, f0, '\0', txt, p);
    ReverseLayout(len, f0, txt, p);
    var s := BarFill(f0, f0, l, l, txt);
    FillWithoutEsc(f0, f0, l, l, txt);
    var x, y := s[..n], s[n..] + post;
    assert ESC !in x && ESC !in y;
    assert r + post == Csi("7", "", 'm') + (x + (Csi("0", "", 'm') + y));
    CsiPrefixVisible("7", "", 'm', x + (Csi("0", "", 'm') + y));
    PlainPrefixVisible(x, Csi("0", "", 'm') + y);
    CsiPrefixVisible("0", "", 'm', y);
    PlainVisible(y);
    assert |s| == |x| + |s[n..]|;
  }

  lemma FillWithoutEsc(f0: char, f1: char, n: nat, len: nat, txt: seq<char>)
    requires n <= len <= MAXBARLEN && |txt| < len
    requires f0 != ESC && f1 != ESC && ESC !in txt
    ensures ESC !in BarFill(f0, f1, n, len, txt)
  {
    var s := BarFill(f0, f1, n, len, txt);
    var off := (len - |txt|) / 2;
    forall k | 0 <= k < |s| ensures s[k] != ESC {
      if off <= k < off + |txt| {
        assert txt[k - off] in txt;
      }
    }
  }
}
