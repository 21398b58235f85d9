/** Measuring strings that hold ANSI control sequences (esc_skip, esc_strlen and esc_rawlen of
    prgi.c). Only CSI sequences are recognised, with the layout of section 5.4 of ECMA-48:
    ESC '[', parameter bytes 0x30-0x3F, intermediate bytes 0x20-0x2F, one final byte 0x40-0x7E.
    An ESC not followed by '[' is skipped on its own.

    A C string is modelled by its characters before the terminator; a position equal to the
    length of the sequence plays the part of the pointer to the terminator. The specification
    functions below walk the string by index, as the C code walks it by pointer. */
module AnsiText {

  const ESC: char := '\U{1B}'

  predicate IsFinalByte(c: char) {
    '@' <= c <= '~'
  }

  /** The first position at or after i whose character is outside lo..hi (or the end). */
  function Run(s: seq<char>, i: nat, lo: char, hi: char): (j: nat)
    requires i <= |s|
    ensures i <= j <= |s|
    decreases |s| - i
  {
    if i < |s| && lo <= s[i] <= hi then Run(s, i + 1, lo, hi) else i
  }

  /** The position just after the escape sequence that starts with the ESC at i. */
  function EscEnd(s: seq<char>, i: nat): (j: nat)
    requires i < |s| && s[i] == ESC
    ensures i < j <= |s|
  {
    if i + 1 < |s| && s[i + 1] == '[' then
      var q := Run(s, Run(s, i + 2, '0', '?'), ' ', '/');
      if q < |s| && IsFinalByte(s[q]) then q + 1 else q
    else i + 1
  }

  /** Where esc_skip stops when started at i: the next printable character, or the end. */
  function Skip(s: seq<char>, i: nat): (j: nat)
    requires i <= |s|
    ensures i <= j <= |s|
    decreases |s| - i
  {
    if i < |s| && s[i] == ESC then Skip(s, EscEnd(s, i)) else i
  }

  /** Number of printable characters from position i on. */
  function Visible(s: seq<char>, i: nat): (n: nat)
    requires i <= |s|
    ensures n <= |s| - i
    decreases |s| - i
  {
    var j := Skip(s, i);
    if j == |s| then 0 else 1 + Visible(s, j + 1)
  }

  /** Where the walk of esc_rawlen ends when started at i with l printable characters to take. */
  function RawEnd(s: seq<char>, i: nat, l: int): (r: nat)
    requires i <= |s|
    ensures i <= r <= |s|
    decreases |s| - i
  {
    var j := Skip(s, i);
    if l == 0 || j == |s| then j else RawEnd(s, j + 1, l - 1)
  }

  /** esc_strlen: the number of printable characters of s. */
  function VisibleLength(s: seq<char>): nat {
    Visible(s, 0)
  }

  /** esc_rawlen: the raw length of the longest prefix of s holding its first l printable characters. */
  function RawLen(s: seq<char>, l: int): nat {
    RawEnd(s, 0, l)
  }

  // ---------------------------------------------------------------------------------------------
  // The C loops, proved against the functions above.

  /** esc_skip: steps over every escape sequence starting at p0. */
  method EscSkip(s: seq<char>, p0: nat) returns (p: nat)
    requires p0 <= |s|
    ensures p == Skip(s, p0)
    ensures p0 <= p <= |s| && (p < |s| ==> s[p] != ESC)
  {
    p := p0;
    while p < |s| && s[p] == ESC
      invariant p0 <= p <= |s|
      invariant Skip(s, p) == Skip(s, p0)
      decreases |s| - p
    {
      ghost var e := p;
      p := p + 1;
      if p < |s| && s[p] == '[' {
        p := p + 1;
        while p < |s| && '0' <= s[p] <= '?'  // parameter bytes
          invariant e + 2 <= p <= |s|
          invariant Run(s, p, '0', '?') == Run(s, e + 2, '0', '?')
          decreases |s| - p
        {
          p := p + 1;
        }
        ghost var m := p;
        while p < |s| && ' ' <= s[p] <= '/'  // intermediate bytes
          invariant m <= p <= |s|
          invariant Run(s, p, ' ', '/') == Run(s, m, ' ', '/')
          decreases |s| - p
        {
          p := p + 1;
        }
        if p < |s| && IsFinalByte(s[p]) {
          p := p + 1;
        }
      }
      assert p == EscEnd(s, e);
    }
  }

  /** esc_strlen: counts the printable characters of s. */
  method EscStrlen(s: seq<char>) returns (n: nat)
    ensures n == VisibleLength(s)
    ensures n <= |s|
  {
    n := 0;
    var p := EscSkip(s, 0);
    VisibleFromSkip(s, 0);
    while p < |s|
      invariant p <= |s| && Skip(s, p) == p
      invariant n + Visible(s, p) == Visible(s, 0)
      decreases |s| - p
    {
      VisibleAdvance(s, p);
      n := n + 1;
      p := EscSkip(s, p + 1);
    }
  }

  /** esc_rawlen: the raw length of the maximal prefix of s holding the first l printable characters. */
  method EscRawlen(s: seq<char>, l: int) returns (r: nat)
    ensures r == RawLen(s, l)
    ensures r <= |s|
  {
    var n := 0;
    var p := EscSkip(s, 0);
    RawEndFromSkip(s, 0, l);
    while n != l && p < |s|
      invariant p <= |s| && Skip(s, p) == p
      invariant RawEnd(s, p, l - n) == RawEnd(s, 0, l)
      decreases |s| - p
    {
      RawEndAdvance(s, p, l - n);
      n := n + 1;
      p := EscSkip(s, p + 1);
    }
    RawEndHere(s, p, l - n);
    r := p;
  }

  /** From a printable character, the count is one plus the count after the next stop. */
  lemma VisibleAdvance(s: seq<char>, p: nat)
    requires p < |s| && Skip(s, p) == p
    ensures Visible(s, p) == 1 + Visible(s, Skip(s, p + 1))
  {
    VisibleFromSkip(s, p + 1);
  }

  /** From a printable character with some left to take, the rawlen walk goes on after the
      next stop with one fewer. */
  lemma RawEndAdvance(s: seq<char>, p: nat, k: int)
    requires p < |s| && Skip(s, p) == p && k != 0
    ensures RawEnd(s, p, k) == RawEnd(s, Skip(s, p + 1), k - 1)
  {
    RawEndFromSkip(s, p + 1, k - 1);
  }

  /** The rawlen walk ends where it starts when it starts at a stop with nothing to take or
      at the end. */
  lemma RawEndHere(s: seq<char>, p: nat, k: int)
    requires p <= |s| && Skip(s, p) == p && (k == 0 || p == |s|)
    ensures RawEnd(s, p, k) == p
  {
  }

  /** Starting the rawlen walk at a stopping point of esc_skip changes nothing. */
  lemma RawEndFromSkip(s: seq<char>, i: nat, l: int)
    requires i <= |s|
    ensures RawEnd(s, Skip(s, i), l) == RawEnd(s, i, l)
  {
    VisibleFromSkip(s, i);
  }

  // ---------------------------------------------------------------------------------------------
  // The escape grammar only looks at the characters it consumes, plus one to stop on: it gives
  // the same answers on a prefix that still holds what was consumed.

  lemma {:induction false} RunPrefix(s: seq<char>, i: nat, m: nat, lo: char, hi: char)
    requires i <= m <= |s| && Run(s, i, lo, hi) <= m
    ensures Run(s[..m], i, lo, hi) == Run(s, i, lo, hi)
    decreases m - i
  {
    if i < m && lo <= s[i] <= hi {
      RunPrefix(s, i + 1, m, lo, hi);
    }
  }

  lemma EscEndPrefix(s: seq<char>, i: nat, m: nat)
    requires i < m <= |s| && s[i] == ESC && EscEnd(s, i) <= m
    ensures EscEnd(s[..m], i) == EscEnd(s, i)
  {
    if i + 1 < |s| && s[i + 1] == '[' {
      var p := Run(s, i + 2, '0', '?');
      RunPrefix(s, i + 2, m, '0', '?');
      RunPrefix(s, p, m, ' ', '/');
    }
  }

  lemma {:induction false} SkipPrefix(s: seq<char>, i: nat, m: nat)
    requires i <= m <= |s| && Skip(s, i) <= m
    ensures Skip(s[..m], i) == Skip(s, i)
    decreases |s| - i
  {
    if i < |s| && s[i] == ESC {
      EscEndPrefix(s, i, m);
      SkipPrefix(s, EscEnd(s, i), m);
    }
  }

  /** The prefix esc_rawlen measures holds min(l, all) printable characters. */
  lemma RawEndPrefix(s: seq<char>, i: nat, l: int)
    requires i <= |s| && l >= 0
    ensures Visible(s[..RawEnd(s, i, l)], i) == if l < Visible(s, i) then l else Visible(s, i)
  {
    RawEndPrefixAt(s, i, l, RawEnd(s, i, l));
  }

  lemma {:induction false} RawEndPrefixAt(s: seq<char>, i: nat, l: int, m: nat)
    requires i <= |s| && l >= 0 && RawEnd(s, i, l) == m
    ensures Visible(s[..m], i) == if l < Visible(s, i) then l else Visible(s, i)
    decreases |s| - i
  {
    var j := Skip(s, i);
    if j == |s| {
      PrefixAtEnd(s, i, l, m);
    } else if l == 0 {
      PrefixAtZero(s, i, m);
    } else {
      var k := PrefixAtStep(s, i, l, m);
      RawEndPrefixAt(s, k + 1, l - 1, m);
    }
  }

  lemma PrefixAtEnd(s: seq<char>, i: nat, l: int, m: nat)
    requires i <= |s| && Skip(s, i) == |s| && RawEnd(s, i, l) == m
    ensures Visible(s, i) == 0 && Visible(s[..m], i) == 0
  {
    assert m == |s| && s[..m] == s;
  }

  lemma PrefixAtZero(s: seq<char>, i: nat, m: nat)
    requires i <= |s| && Skip(s, i) < |s| && RawEnd(s, i, 0) == m
    ensures Visible(s[..m], i) == 0 && Visible(s, i) > 0
  {
    SkipPrefix(s, i, m);
    VisibleAtEnd(s[..m]);
  }

  /** One step of RawEndPrefixAt: j is the printable character the walk stops on. */
  lemma PrefixAtStep(s: seq<char>, i: nat, l: int, m: nat) returns (j: nat)
    requires i <= |s| && Skip(s, i) < |s| && l != 0 && RawEnd(s, i, l) == m
    ensures i <= j < |s|
    ensures RawEnd(s, j + 1, l - 1) == m
    ensures Visible(s, i) == 1 + Visible(s, j + 1)
    ensures Visible(s[..m], i) == 1 + Visible(s[..m], j + 1)
  {
    j := Skip(s, i);
    RawEndStep(s, i, l);
    VisibleStep(s, i);
    PrefixStep(s, i, m);
  }

  /** One raw character past the prefix esc_rawlen measures is the next printable one. */
  lemma RawEndNext(s: seq<char>, i: nat, l: int)
    requires i <= |s| && l >= 0 && RawEnd(s, i, l) < |s|
    ensures Visible(s[..RawEnd(s, i, l) + 1], i) == l + 1
  {
    RawEndNextAt(s, i, l, RawEnd(s, i, l) + 1);
  }

  lemma {:induction false} RawEndNextAt(s: seq<char>, i: nat, l: int, m: nat)
    requires i <= |s| && l >= 0 && m <= |s| && RawEnd(s, i, l) + 1 == m
    ensures Visible(s[..m], i) == l + 1
    decreases |s| - i
  {
    if l == 0 {
      NextLast(s, i, m);
    } else {
      var j := NextStep(s, i, l, m);
      RawEndNextAt(s, j + 1, l - 1, m);
    }
  }

  /** With none left to take, the prefix ends just after the printable character the walk
      stops on. */
  lemma NextLast(s: seq<char>, i: nat, m: nat)
    requires i <= |s| && m <= |s| && RawEnd(s, i, 0) + 1 == m
    ensures Visible(s[..m], i) == 1
  {
    RawEndStep(s, i, 0);
    PrefixStep(s, i, m);
    PrefixAtItsEnd(s, m);
  }

  /** One step of RawEndNextAt: j is the printable character the walk stops on. */
  lemma NextStep(s: seq<char>, i: nat, l: int, m: nat) returns (j: nat)
    requires i <= |s| && l > 0 && m <= |s| && RawEnd(s, i, l) + 1 == m
    ensures i <= j < m
    ensures Visible(s[..m], i) == 1 + Visible(s[..m], j + 1)
    ensures RawEnd(s, j + 1, l - 1) + 1 == m
  {
    j := Skip(s, i);
    RawEndStep(s, i, l);
    PrefixStep(s, i, m);
  }

  /** The walk of esc_rawlen stops on the next printable character when none is left to take,
      and otherwise goes on after it. */
  lemma RawEndStep(s: seq<char>, i: nat, l: int)
    requires i <= |s| && Skip(s, i) < |s|
    ensures l == 0 ==> RawEnd(s, i, l) == Skip(s, i)
    ensures l != 0 ==> RawEnd(s, i, l) == RawEnd(s, Skip(s, i) + 1, l - 1)
  {
  }

  lemma PrefixAtItsEnd(s: seq<char>, m: nat)
    requires m <= |s|
    ensures Visible(s[..m], m) == 0
  {
    VisibleAtEnd(s[..m]);
  }

  lemma VisibleAtEnd(t: seq<char>)
    ensures Visible(t, |t|) == 0
  {
  }

  /** One step of the count on a prefix that still holds the next printable character. */
  lemma PrefixStep(s: seq<char>, i: nat, m: nat)
    requires i <= m <= |s| && Skip(s, i) < m
    ensures Visible(s[..m], i) == 1 + Visible(s[..m], Skip(s, i) + 1)
  {
    SkipPrefix(s, i, m);
    VisibleStep(s[..m], i);
  }

  /** One step of the count: the printable character the walk stops on, then the rest. */
  lemma VisibleStep(t: seq<char>, i: nat)
    requires i <= |t| && Skip(t, i) < |t|
    ensures Visible(t, i) == 1 + Visible(t, Skip(t, i) + 1)
  {
  }

  /** With at least as many characters asked for as there are, esc_rawlen takes the whole string. */
  lemma {:induction false} RawEndAll(s: seq<char>, i: nat, l: int)
    requires i <= |s| && (l < 0 || l >= Visible(s, i))
    ensures RawEnd(s, i, l) == |s|
    decreases |s| - i
  {
    var j := Skip(s, i);
    if j < |s| {
      RawEndAll(s, j + 1, l - 1);
    }
  }

  /** esc_rawlen's promise: the prefix of raw length RawLen(s, l) holds exactly min(l, all)
      printable characters, it swallows every escape that follows its last printable
      character (the next raw character is printable), and asking for all of them or more
      yields the whole string. */
  lemma RawLenPrefix(s: seq<char>, l: int)
    requires l >= 0
    ensures RawLen(s, l) <= |s|
    ensures VisibleLength(s[..RawLen(s, l)]) == if l < VisibleLength(s) then l else VisibleLength(s)
    ensures RawLen(s, l) < |s| ==> s[RawLen(s, l)] != ESC
    ensures RawLen(s, l) < |s| ==> VisibleLength(s[..RawLen(s, l) + 1]) == l + 1
    ensures l >= VisibleLength(s) ==> RawLen(s, l) == |s|
  {
    RawEndPrefix(s, 0, l);
    RawEndStops(s, 0, l);
    if RawLen(s, l) < |s| {
      RawEndNext(s, 0, l);
    }
    if l >= VisibleLength(s) {
      RawEndAll(s, 0, l);
    }
  }

  /** The examples of esc_rawlen's comment: in "abc\e[7mfgh" the first 3 printable characters
      take 7 raw characters (the sequence after 'c' is swallowed) and the first 4 take 8. */
  lemma RawLenExamples()
    ensures RawLen("abc\U{1B}[7mfgh", 3) == 7
    ensures RawLen("abc\U{1B}[7mfgh", 4) == 8
  {
    var s := "abc\U{1B}[7mfgh";
    ExampleEscape(s);
    RawEndGlyph(s, 0, 3);
    RawEndGlyph(s, 1, 2);
    RawEndGlyph(s, 2, 1);
    RawEndEsc(s, 3, 0);
    RawEndGlyph(s, 0, 4);
    RawEndGlyph(s, 1, 3);
    RawEndGlyph(s, 2, 2);
    RawEndEsc(s, 3, 1);
    RawEndGlyph(s, 7, 1);
  }

  lemma ExampleEscape(s: seq<char>)
    requires s == "abc\U{1B}[7mfgh"
    ensures |s| == 10 && s[3] == ESC && EscEnd(s, 3) == 7
    ensures s[0] != ESC && s[1] != ESC && s[2] != ESC
    ensures s[7] != ESC && s[8] != ESC && s[9] != ESC
  {
    assert s[4] == '[' && s[5] == '7' && s[6] == 'm';
    assert Run(s, 5, '0', '?') == 6;
    assert Run(s, 6, ' ', '/') == 6;
  }

  /** A printable character counts one. */
  lemma GlyphStep(s: seq<char>, i: nat)
    requires i < |s| && s[i] != ESC
    ensures Visible(s, i) == 1 + Visible(s, i + 1)
  {
  }

  /** The rawlen walk takes a printable character it meets while some are left to take, and
      stops on it otherwise. */
  lemma RawEndGlyph(s: seq<char>, i: nat, l: int)
    requires i < |s| && s[i] != ESC
    ensures RawEnd(s, i, l) == if l == 0 then i else RawEnd(s, i + 1, l - 1)
  {
  }

  /** The rawlen walk steps over an escape sequence it meets. */
  lemma RawEndEsc(s: seq<char>, i: nat, l: int)
    requires i < |s| && s[i] == ESC
    ensures RawEnd(s, i, l) == RawEnd(s, EscEnd(s, i), l)
  {
    SkipOverEsc(s, i);
  }

  // ---------------------------------------------------------------------------------------------
  // Shifting: a string placed after a prefix the walk has already passed is measured as alone.

  lemma {:induction false} RunShift(a: seq<char>, b: seq<char>, i: nat, lo: char, hi: char)
    requires i <= |b|
    ensures Run(a + b, |a| + i, lo, hi) == |a| + Run(b, i, lo, hi)
    decreases |b| - i
  {
    if i < |b| && lo <= b[i] <= hi {
      RunShift(a, b, i + 1, lo, hi);
    }
  }

  lemma EscEndShift(a: seq<char>, b: seq<char>, i: nat)
    requires i < |b| && b[i] == ESC
    ensures EscEnd(a + b, |a| + i) == |a| + EscEnd(b, i)
  {
    if i + 1 < |b| && b[i + 1] == '[' {
      RunShift(a, b, i + 2, '0', '?');
      RunShift(a, b, Run(b, i + 2, '0', '?'), ' ', '/');
    }
  }

  lemma {:induction false} SkipShift(a: seq<char>, b: seq<char>, i: nat)
    requires i <= |b|
    ensures Skip(a + b, |a| + i) == |a| + Skip(b, i)
    decreases |b| - i
  {
    if i < |b| && b[i] == ESC {
      EscEndShift(a, b, i);
      SkipShift(a, b, EscEnd(b, i));
    }
  }

  lemma {:induction false} VisibleShift(a: seq<char>, b: seq<char>, i: nat)
    requires i <= |b|
    ensures Visible(a + b, |a| + i) == Visible(b, i)
    decreases |b| - i
  {
    if Skip(b, i) < |b| {
      ShiftStep(a, b, i);
      VisibleShift(a, b, Skip(b, i) + 1);
    } else {
      ShiftEnd(a, b, i);
    }
  }

  lemma ShiftStep(a: seq<char>, b: seq<char>, i: nat)
    requires i <= |b| && Skip(b, i) < |b|
    ensures Visible(b, i) == 1 + Visible(b, Skip(b, i) + 1)
    ensures Visible(a + b, |a| + i) == 1 + Visible(a + b, |a| + (Skip(b, i) + 1))
  {
    SkipShift(a, b, i);
    VisibleStep(b, i);
    VisibleStep(a + b, |a| + i);
  }

  lemma ShiftEnd(a: seq<char>, b: seq<char>, i: nat)
    requires i <= |b| && Skip(b, i) == |b|
    ensures Visible(b, i) == 0 && Visible(a + b, |a| + i) == 0
  {
    SkipShift(a, b, i);
  }

  /** Counting from a stopping point of the walk is counting from where the walk started. */
  lemma VisibleFromSkip(s: seq<char>, i: nat)
    requires i <= |s|
    ensures Skip(s, Skip(s, i)) == Skip(s, i)
    ensures Visible(s, Skip(s, i)) == Visible(s, i)
  {
    SkipStops(s, i);
  }

  /** esc_skip stops on a character other than ESC, or at the end. */
  lemma {:induction false} SkipStops(s: seq<char>, i: nat)
    requires i <= |s|
    ensures Skip(s, i) < |s| ==> s[Skip(s, i)] != ESC
    decreases |s| - i
  {
    if i < |s| && s[i] == ESC {
      SkipStops(s, EscEnd(s, i));
    }
  }

  /** So does the walk of esc_rawlen. */
  lemma {:induction false} RawEndStops(s: seq<char>, i: nat, l: int)
    requires i <= |s|
    ensures RawEnd(s, i, l) < |s| ==> s[RawEnd(s, i, l)] != ESC
    decreases |s| - i
  {
    var j := Skip(s, i);
    SkipStops(s, i);
    if l != 0 && j < |s| {
      RawEndStops(s, j + 1, l - 1);
    }
  }

  /** Plain text (no ESC) in front of b adds its own length to b's printable count. */
  lemma PlainPrefixVisible(a: seq<char>, b: seq<char>)
    requires ESC !in a
    ensures VisibleLength(a + b) == |a| + VisibleLength(b)
  {
    PlainFrom(a, b, 0);
  }

  lemma {:induction false} PlainFrom(a: seq<char>, b: seq<char>, i: nat)
    requires ESC !in a && i <= |a|
    ensures Visible(a + b, i) == (|a| - i) + Visible(b, 0)
    decreases |a| - i
  {
    if i == |a| {
      VisibleShift(a, b, 0);
    } else {
      assert (a + b)[i] == a[i];
      PlainFrom(a, b, i + 1);
    }
  }

  /** A string without ESC is printable throughout. */
  lemma PlainVisible(a: seq<char>)
    requires ESC !in a
    ensures VisibleLength(a) == |a|
  {
    PlainPrefixVisible(a, []);
    assert a + [] == a;
  }

  // ---------------------------------------------------------------------------------------------
  // Complete CSI sequences and strings built from printable characters and such sequences.

  /** The text of a CSI sequence: ESC '[' params inters final. */
  function Csi(params: seq<char>, inters: seq<char>, final: char): seq<char> {
    [ESC, '['] + params + inters + [final]
  }

  predicate WellFormedCsi(params: seq<char>, inters: seq<char>, final: char) {
    (forall k :: 0 <= k < |params| ==> '0' <= params[k] <= '?') &&
    (forall k :: 0 <= k < |inters| ==> ' ' <= inters[k] <= '/') &&
    IsFinalByte(final)
  }

  /** "\e[7m", reverse video on, and "\e[0m", all attributes off. */
  function ReverseOn(): seq<char> { Csi("7", "", 'm') }
  function ResetAttrs(): seq<char> { Csi("0", "", 'm') }

  lemma {:induction false} RunOver(s: seq<char>, i: nat, j: nat, lo: char, hi: char)
    requires i <= j <= |s|
    requires forall k :: i <= k < j ==> lo <= s[k] <= hi
    requires j < |s| ==> !(lo <= s[j] <= hi)
    ensures Run(s, i, lo, hi) == j
    decreases j - i
  {
    if i < j {
      RunOver(s, i + 1, j, lo, hi);
    }
  }

  /** The walk steps over a complete CSI sequence in one go, whatever follows it. */
  lemma CsiEscEnd(params: seq<char>, inters: seq<char>, final: char, b: seq<char>)
    requires WellFormedCsi(params, inters, final)
    ensures EscEnd(Csi(params, inters, final) + b, 0) == |Csi(params, inters, final)|
  {
    var e := Csi(params, inters, final);
    var s := e + b;
    var p := 2 + |params|;
    var q := p + |inters|;
    assert forall k :: 2 <= k < p ==> s[k] == params[k - 2];
    assert forall k :: p <= k < q ==> s[k] == inters[k - p];
    assert s[q] == final;
    if inters != [] {
      assert s[p] == inters[0];
    }
    RunOver(s, 2, p, '0', '?');
    RunOver(s, p, q, ' ', '/');
  }

  /** A complete CSI sequence in front of b adds nothing to b's printable count. */
  lemma CsiPrefixVisible(params: seq<char>, inters: seq<char>, final: char, b: seq<char>)
    requires WellFormedCsi(params, inters, final)
    ensures VisibleLength(Csi(params, inters, final) + b) == VisibleLength(b)
  {
    var e := Csi(params, inters, final);
    var s := e + b;
    CsiEscEnd(params, inters, final, b);
    assert s[0] == ESC;
    SkipOverEsc(s, 0);
    VisibleSameSkip(s, 0, |e|);
    VisibleShift(e, b, 0);
  }

  lemma SkipOverEsc(s: seq<char>, i: nat)
    requires i < |s| && s[i] == ESC
    ensures Skip(s, i) == Skip(s, EscEnd(s, i))
  {
  }

  /** Two starts that the walk takes to the same stop count the same. */
  lemma VisibleSameSkip(s: seq<char>, i: nat, j: nat)
    requires i <= |s| && j <= |s| && Skip(s, i) == Skip(s, j)
    ensures Visible(s, i) == Visible(s, j)
  {
  }

  /** A piece of displayed text: one printable character or one control sequence. */
  datatype Piece = Glyph(c: char) | Control(params: seq<char>, inters: seq<char>, final: char)

  function Render(ps: seq<Piece>): seq<char> {
    if ps == [] then []
    else
      (match ps[0]
       case Glyph(c) => [c]
       case Control(p, i, f) => Csi(p, i, f)) + Render(ps[1..])
  }

  predicate WellFormedPiece(p: Piece) {
    match p
    case Glyph(c) => c != ESC
    case Control(params, inters, final) => WellFormedCsi(params, inters, final)
  }

  function GlyphCount(ps: seq<Piece>): nat {
    if ps == [] then 0 else (if ps[0].Glyph? then 1 else 0) + GlyphCount(ps[1..])
  }

  /** Printable characters interleaved with complete CSI sequences: the visible length is the
      number of printable characters, whatever the sequences. */
  lemma {:induction false} RenderVisible(ps: seq<Piece>)
    requires forall k :: 0 <= k < |ps| ==> WellFormedPiece(ps[k])
    ensures VisibleLength(Render(ps)) == GlyphCount(ps)
  {
    if ps != [] {
      RenderVisible(ps[1..]);
      match ps[0]
      case Glyph(c) =>
        PlainPrefixVisible([c], Render(ps[1..]));
      case Control(p, i, f) =>
        CsiPrefixVisible(p, i, f, Render(ps[1..]));
    }
  }

  /** A string made only of control sequences has no printable character. */
  lemma ControlsOnlyVisible(ps: seq<Piece>)
    requires forall k :: 0 <= k < |ps| ==> WellFormedPiece(ps[k]) && ps[k].Control?
    ensures VisibleLength(Render(ps)) == 0
  {
    RenderVisible(ps);
    ControlsOnlyCount(ps);
  }

  lemma {:induction false} ControlsOnlyCount(ps: seq<Piece>)
    requires forall k :: 0 <= k < |ps| ==> ps[k].Control?
    ensures GlyphCount(ps) == 0
  {
    if ps != [] {
      ControlsOnlyCount(ps[1..]);
    }
  }

  // ---------------------------------------------------------------------------------------------
  // Appending to a string: the walk over a keeps its course while it stays inside a.

  lemma {:induction false} RunExtend(a: seq<char>, b: seq<char>, i: nat, lo: char, hi: char)
    requires i <= |a|
    ensures Run(a, i, lo, hi) < |a| ==> Run(a + b, i, lo, hi) == Run(a, i, lo, hi)
    ensures Run(a, i, lo, hi) == |a| ==> Run(a + b, i, lo, hi) >= |a|
    decreases |a| - i
  {
    if i < |a| && lo <= a[i] <= hi {
      RunExtend(a, b, i + 1, lo, hi);
    }
  }

  lemma EscEndExtend(a: seq<char>, b: seq<char>, i: nat)
    requires i < |a| && a[i] == ESC
    ensures EscEnd(a, i) < |a| ==> EscEnd(a + b, i) == EscEnd(a, i)
    ensures EscEnd(a, i) == |a| ==> EscEnd(a + b, i) >= |a|
  {
    if i + 1 < |a| && a[i + 1] == '[' {
      var p := Run(a, i + 2, '0', '?');
      RunExtend(a, b, i + 2, '0', '?');
      if p < |a| {
        RunExtend(a, b, p, ' ', '/');
      }
    }
  }

  lemma {:induction false} SkipExtend(a: seq<char>, b: seq<char>, i: nat)
    requires i <= |a|
    ensures Skip(a, i) < |a| ==> Skip(a + b, i) == Skip(a, i)
    ensures Skip(a, i) == |a| ==> Skip(a + b, i) >= |a|
    decreases |a| - i
  {
    if i < |a| && a[i] == ESC {
      EscEndExtend(a, b, i);
      var e := EscEnd(a, i);
      if e < |a| {
        SkipExtend(a, b, e);
      }
    }
  }

  /** Appending b to a adds at most as many printable characters as b shows from any start. */
  lemma {:induction false} AppendVisible(a: seq<char>, b: seq<char>, i: nat, m: nat)
    requires i <= |a|
    requires forall k :: 0 <= k <= |b| ==> Visible(b, k) <= m
    ensures Visible(a + b, i) <= Visible(a, i) + m
    decreases |a| - i
  {
    if Skip(a, i) < |a| {
      AppendStep(a, b, i);
      AppendVisible(a, b, Skip(a, i) + 1, m);
    } else {
      var k := AppendTail(a, b, i);
      assert Visible(b, k) <= m;
    }
  }

  /** While the walk over a stops inside a, a + b is counted as a is. */
  lemma AppendStep(a: seq<char>, b: seq<char>, i: nat)
    requires i <= |a| && Skip(a, i) < |a|
    ensures Visible(a, i) == 1 + Visible(a, Skip(a, i) + 1)
    ensures Visible(a + b, i) == 1 + Visible(a + b, Skip(a, i) + 1)
  {
    SkipExtend(a, b, i);
    VisibleStep(a, i);
    VisibleStep(a + b, i);
  }

  /** Once the walk over a reaches its end, what is left of a + b is counted within b. */
  lemma AppendTail(a: seq<char>, b: seq<char>, i: nat) returns (k: nat)
    requires i <= |a| && Skip(a, i) == |a|
    ensures k <= |b| && Visible(a + b, i) == Visible(b, k)
  {
    SkipExtend(a, b, i);
    var j := Skip(a + b, i);
    VisibleFromSkip(a + b, i);
    k := j - |a|;
    VisibleShift(a, b, k);
    assert |a| + k == j;
  }
}
