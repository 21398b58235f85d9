/** The state of a prgi progress session: the per-thread counters of prgi_update, the shared
    global aggregate and status fields, the frame printed on the terminal, the bar and the
    throbber. The terminal width, the current time and the projected mark step are inputs of
    the operations that read them. */
module Progress {
  import opened Base
  import opened AnsiText
  import opened BarLayout
  import opened Frame

  // ---------------------------------------------------------------------------------------------
  // Sums over the threads

  function Sum(s: seq<int>): int {
    if s == [] then 0 else Sum(s[..|s| - 1]) + s[|s| - 1]
  }

  lemma SumAppend(s: seq<int>, x: int)
    ensures Sum(s + [x]) == Sum(s) + x
  {
    assert (s + [x])[..|s|] == s;
  }

  /** Replacing one term changes the sum by the difference. */
  lemma {:induction false} SumUpdate(s: seq<int>, i: nat, v: int)
    requires i < |s|
    ensures Sum(s[i := v]) == Sum(s) - s[i] + v
  {
    var t := s[i := v];
    if i < |s| - 1 {
      assert t[..|t| - 1] == s[..|s| - 1][i := v];
      SumUpdate(s[..|s| - 1], i, v);
    } else {
      assert t[..|t| - 1] == s[..|s| - 1];
    }
  }

  /** Termwise smaller terms give a smaller sum. */
  lemma {:induction false} SumMonotone(a: seq<int>, b: seq<int>)
    requires |a| == |b|
    requires forall i :: 0 <= i < |a| ==> a[i] <= b[i]
    ensures Sum(a) <= Sum(b)
  {
    if a != [] {
      SumMonotone(a[..|a| - 1], b[..|b| - 1]);
    }
  }

  /** Termwise smaller terms with the same sum are the same terms. */
  lemma {:induction false} SumEqualTerms(a: seq<int>, b: seq<int>)
    requires |a| == |b|
    requires forall i :: 0 <= i < |a| ==> a[i] <= b[i]
    requires Sum(a) == Sum(b)
    ensures a == b
  {
    if a != [] {
      var n := |a| - 1;
      SumMonotone(a[..n], b[..n]);
      SumEqualTerms(a[..n], b[..n]);
      assert a == a[..n] + [a[n]] && b == b[..n] + [b[n]];
    }
  }

  /** One term of non-negative terms is at most their sum. */
  lemma SumAtLeastTerm(s: seq<int>, i: nat)
    requires i < |s|
    requires forall k :: 0 <= k < |s| ==> 0 <= s[k]
    ensures s[i] <= Sum(s)
  {
    var z := seq(|s|, _ => 0);
    ZeroSum(|s|);
    SumUpdate(z, i, s[i]);
    SumMonotone(z[i := s[i]], s);
  }

  /** The counters of one thread (struct prgi_thread_state_). */
  class ThreadState {
    var total: int
    var count: int
    var lastCount: int
    var mark: int
    var lastTime: real

    /** A thread-local state before prgi_init_thread: all zero. */
    constructor ()
      ensures total == 0 && count == 0 && lastCount == 0 && mark == 0 && lastTime == 0.0
    {
      total := 0;
      count := 0;
      lastCount := 0;
      mark := 0;
      lastTime := 0.0;
    }
  }

  /** What a thread keeps true between calls: it has reported no more than it counted, and
      while it has not reached its total the mark does not lie beyond the total. */
  ghost predicate ThreadOk(t: ThreadState)
    reads t
  {
    t.total >= 0 && 0 <= t.lastCount <= t.count && (t.count < t.total ==> t.mark <= t.total)
  }

  /** prgi.remaining: the work left divided by the rate, non-finite while the rate is unknown
      or zero. */
  function RemainingTime(left: int, rate: Reading): (r: Reading)
    ensures r.Finite? <==> rate.Finite? && rate.value != 0.0
    ensures r.Finite? ==> r.value * rate.value == left as real
  {
    if rate.NonFinite? then NonFinite else Quotient(left as real, rate.value)
  }

  // ---------------------------------------------------------------------------------------------
  // prgi_throbber's index

  /** One call of prgi_throbber on anim from static index i: the character at i and the next
      index, or, at the end of anim, its first character (the terminator for an empty anim)
      and index 1. */
  function ThrobberStep(anim: seq<char>, i: nat): (step: (char, nat))
    requires i <= |anim|
    ensures step.1 <= |anim| || (anim == [] && step.1 == 1)
    ensures i < |anim| ==> step == (anim[i], i + 1)
    ensures i == |anim| && anim != [] ==> step == (anim[0], 1)
  {
    if i < |anim| then (anim[i], i + 1)
    else ((if anim == [] then '\0' else anim[0]), 1)
  }

  /** The static index after k calls from the start, for a non-empty anim. */
  function ThrobberIndex(anim: seq<char>, k: nat): (i: nat)
    requires anim != []
    ensures i <= |anim|
  {
    if k == 0 then 0 else ThrobberStep(anim, ThrobberIndex(anim, k - 1)).1
  }

  /** After k > 0 calls the static index has gone round anim: it is (k - 1) mod |anim| + 1. */
  lemma {:induction false} ThrobberCycles(anim: seq<char>, k: nat)
    requires anim != []
    ensures ThrobberIndex(anim, k) == if k == 0 then 0 else (k - 1) % |anim| + 1
  {
    if k > 1 {
      ThrobberCycles(anim, k - 1);
      ModNext(k - 2, |anim|);
    }
  }

  /** The throbber cycles through anim with period |anim|: call number k (counting from 0)
      returns anim[k mod |anim|]. */
  lemma ThrobberShows(anim: seq<char>, k: nat)
    requires anim != []
    ensures ThrobberStep(anim, ThrobberIndex(anim, k)).0 == anim[k % |anim|]
  {
    var n := |anim|;
    var i := ThrobberIndex(anim, k);
    ThrobberCycles(anim, k);
    if k == 0 {
      assert i == 0 && k % n == 0;
    } else {
      ModNext(k - 1, n);
      if i < n {
        assert k % n == i;
      } else {
        assert k % n == 0;
      }
    }
  }

  /** Counting on by one modulo n. */
  lemma ModNext(a: nat, n: nat)
    requires n > 0
    ensures (a + 1) % n == if a % n + 1 < n then a % n + 1 else 0
  {
    var q, r := a / n, a % n;
    if r + 1 < n {
      ModUnique(a + 1, n, q, r + 1);
    } else {
      assert a + 1 == (q + 1) * n by {
        assert (q + 1) * n == q * n + n;
      }
      ModUnique(a + 1, n, q + 1, 0);
    }
  }

  /** Quotient and remainder are the only ones with a remainder in [0, n). */
  lemma ModUnique(a: int, n: int, q: int, r: int)
    requires n > 0 && 0 <= r < n && a == q * n + r
    ensures a % n == r
  {
    var q' := a / n;
    MulAtLeast(n, q - q');
    MulAtLeast(n, q' - q);
    assert n * (q - q') == a - r - q' * n;
  }

  /** A positive multiple of n is at least n. */
  lemma {:induction false} MulAtLeast(n: int, d: int)
    requires n > 0
    ensures d >= 1 ==> n * d >= n
  {
    if d > 1 {
      MulAtLeast(n, d - 1);
      assert n * d == n * (d - 1) + n;
    }
  }

  // ---------------------------------------------------------------------------------------------
  // The session

  /** The status members of the prgi struct, as prgi_update__ publishes them. */
  datatype Status = Status(progress: Reading, elapsed: real, remaining: Reading,
                           rate: Reading, meanRate: Reading, width: int)

  /** The global struct: the aggregate over the threads, the usable width and the frame
      counters. */
  datatype Global = Global(total: int, count: int, lastCount: int, lastTime: real,
                           width: int, printedLines: int, expandCount: int)

  /** struct bar_state: the fill characters, the text inside the bar and whether the bar is
      pending expansion. */
  datatype BarState = BarState(fill0: char, fill1: char, txt: seq<char>, expand: bool)

  /** No double counting: the global count is the sum of what the threads reported and the
      global total the sum of their totals, none of them negative. */
  ghost predicate Counted(g: Global, reported: seq<int>, shares: seq<int>) {
    |reported| == |shares| &&
    (forall i :: 0 <= i < |reported| ==> 0 <= reported[i] && 0 <= shares[i]) &&
    g.count == Sum(reported) && g.total == Sum(shares) && g.expandCount >= 0
  }

  /** The bar text fits the bar buffer and holds no terminator, and a bar pending expansion
      has a fill character. */
  predicate BarOk(b: BarState) {
    |b.txt| < BARBUFSIZE && '\0' !in b.txt && (b.expand ==> b.fill0 != '\0')
  }

  /** The shared state of prgi.c: the prgi struct (configuration and status), the global
      struct, the bar state, the static buffer of bar_doit and index of prgi_throbber, and the
      text written to prgi.output. */
  class Session {
    var hasOutput: bool            // prgi.output is set
    var update: real               // prgi.update, seconds between updates
    var status: Status
    var global: Global
    var bar: BarState
    var barBuf: seq<char>          // the static buffer of bar_doit
    var throbberIndex: int         // the static index of prgi_throbber
    var out: seq<char>             // everything written to prgi.output
    // per joined thread, in order of joining: what it has reported and its total
    ghost var reported: seq<int>
    ghost var shares: seq<int>

    /** The threads' accounting holds, the usable width is at most MAXLINELEN, and the
        counters and buffers are within their bounds. */
    ghost predicate Valid()
      reads this`status, this`global, this`bar, this`barBuf, this`throbberIndex, this`reported, this`shares
    {
      Counted(global, reported, shares) && global.printedLines >= 0 && throbberIndex >= 0 &&
      global.width <= MAXLINELEN &&
      (status.progress.Finite? ==> status.progress.value >= 0.0) &&
      |barBuf| < BARBUFSIZE && BarOk(bar)
    }

    /** Thread t joined as number i: its state agrees with what the session holds for it. */
    ghost predicate Tracks(t: ThreadState, i: nat)
      reads this, t
    {
      i < |reported| && |reported| == |shares| && ThreadOk(t) &&
      t.lastCount == reported[i] && t.total == shares[i]
    }

    /** The static initial state: no output stream yet, updates every 0.2 s, all else zero. */
    constructor ()
      ensures Valid() && reported == [] && shares == []
      ensures !hasOutput && update == 0.2
      ensures status == Status(Finite(0.0), 0.0, Finite(0.0), Finite(0.0), Finite(0.0), 0)
      ensures global == Global(0, 0, 0, 0.0, 0, 0, 0)
      ensures bar == BarState('\0', '\0', [], false) && barBuf == [] && throbberIndex == 0 && out == []
    {
      hasOutput := false;
      update := 0.2;
      status := Status(Finite(0.0), 0.0, Finite(0.0), Finite(0.0), Finite(0.0), 0);
      global := Global(0, 0, 0, 0.0, 0, 0, 0);
      bar := BarState('\0', '\0', [], false);
      barBuf := [];
      throbberIndex := 0;
      out := [];
      reported := [];
      shares := [];
    }

    /** prgi_init_thread: the thread starts from zero with its own total, joins as the next
        thread, and the global total grows by its total. */
    method InitThread(t: ThreadState, threadTotal: int)
      requires Valid() && threadTotal >= 0
      modifies this`global, this`reported, this`shares, t
      ensures Valid() && Tracks(t, |old(reported)|)
      ensures reported == old(reported) + [0] && shares == old(shares) + [threadTotal]
      ensures global == old(global).(total := old(global.total) + threadTotal)
      ensures t.total == threadTotal && t.count == 0 && t.lastCount == 0 && t.mark == 0 && t.lastTime == 0.0
    {
      t.total := threadTotal;
      t.count := 0;
      t.lastCount := 0;
      t.mark := 0;
      t.lastTime := 0.0;
      global := global.(total := global.total + threadTotal);
      SumAppend(reported, 0);
      SumAppend(shares, threadTotal);
      reported := reported + [0];
      shares := shares + [threadTotal];
    }

    /** prgi_init: the default stream, the status reset (the rates and the remaining time
        unknown), the aggregate emptied, and the main thread joined with its total. */
    method Init(main: ThreadState, mainTotal: int)
      requires Valid() && mainTotal >= 0
      modifies this`hasOutput, this`status, this`global, this`reported, this`shares, main
      ensures Valid() && Tracks(main, 0) && reported == [0] && shares == [mainTotal]
      ensures hasOutput
      ensures status == Status(Finite(0.0), 0.0, NonFinite, NonFinite, NonFinite, -1)
      ensures global == Global(mainTotal, 0, 0, 0.0, -1, 0, 0)
      ensures main.total == mainTotal && main.count == 0 && main.lastCount == 0 && main.mark == 0
    {
      hasOutput := true;
      status := Status(Finite(0.0), 0.0, NonFinite, NonFinite, NonFinite, -1);
      global := Global(0, 0, 0, 0.0, -1, 0, 0);
      reported := [];
      shares := [];
      InitThread(main, mainTotal);
      assert reported == [] + [0] == [0];
      assert shares == [] + [mainTotal] == [mainTotal];
    }

    /** prgi_update: the thread's count grows by inc; the slow path runs exactly when the new
        count reaches the mark, and otherwise nothing else changes. */
    method Update(t: ThreadState, ghost i: nat, inc: int, now: real, termW: int, markStep: int)
      returns (r: bool)
      requires Valid() && Tracks(t, i) && inc >= 0
      modifies this`status, this`global, this`reported, this`out, t
      ensures Valid() && Tracks(t, i)
      ensures reported == old(reported)[i := t.lastCount] && shares == old(shares)
      ensures t.count == old(t.count) + inc && t.total == old(t.total)
      ensures t.count < old(t.mark) ==>
                !r && unchanged(this) && t.lastCount == old(t.lastCount) &&
                t.mark == old(t.mark) && t.lastTime == old(t.lastTime)
      ensures t.count >= old(t.mark) ==>
                t.lastCount == t.count && t.lastTime == now &&
                global.count == old(global.count) + (t.count - old(t.lastCount))
      ensures t.count >= old(t.mark) ==>
                var m := old(t.mark) + markStep;
                t.mark == if t.count < t.total && m > t.total then t.total else m
      ensures t.count >= old(t.mark) ==>
                var folded := old(global).(count := old(global.count) + (t.count - old(t.lastCount)));
                && (r <==> now - folded.lastTime > 0.8 * update ||
                           folded.count == t.count - old(t.lastCount) || t.count == t.total)
                && (!r ==> global == folded && status == old(status) && out == old(out))
                && (r ==> Published(folded, old(status.rate), old(out), now, termW))
      ensures old(t.count) < t.total == t.count ==> r
      ensures t.count >= old(t.mark) && old(global.count) == 0 ==> r
    {
      t.count := t.count + inc;
      if t.count >= t.mark {
        r := SlowPath(t, i, now, termW, markStep);
      } else {
        r := false;
      }
    }

    /** prgi_update__: folds the thread's unreported work into the global count, moves the mark
        by the projected step (clamped to the total while the total is not reached), and
        publishes when enough time has passed, on the first work or on the thread's last. */
    method SlowPath(t: ThreadState, ghost i: nat, now: real, termW: int, markStep: int)
      returns (r: bool)
      requires Valid() && i < |reported| && t.total == shares[i] && t.total >= 0
      requires 0 <= reported[i] == t.lastCount <= t.count
      modifies this`status, this`global, this`reported, this`out, t
      ensures Valid() && Tracks(t, i)
      ensures reported == old(reported)[i := t.count] && shares == old(shares)
      ensures t.count == old(t.count) && t.total == old(t.total)
      ensures t.lastCount == t.count && t.lastTime == now
      ensures var m := old(t.mark) + markStep;
              t.mark == if t.count < t.total && m > t.total then t.total else m
      ensures var folded := old(global).(count := old(global.count) + (t.count - old(t.lastCount)));
              && global.count == folded.count
              && (r <==> now - folded.lastTime > 0.8 * update ||
                         folded.count == t.count - old(t.lastCount) || t.count == t.total)
              && (!r ==> global == folded && status == old(status) && out == old(out))
              && (r ==> Published(folded, old(status.rate), old(out), now, termW))
    {
      var delta := t.count - t.lastCount;
      Fold(t, i, now, markStep);
      var dt := now - global.lastTime;
      var ready := dt > 0.8 * update;
      if !(ready || global.count == delta || t.count == t.total) {
        return false;
      }
      Publish(now, dt, ready, termW);
      r := true;
    }

    /** The bookkeeping half of prgi_update__: the thread's mark moves by the projected step
        (clamped to the total while the total is not reached), the thread reports its count at
        now, and its unreported work is added to the global count. */
    method Fold(t: ThreadState, ghost i: nat, now: real, markStep: int)
      requires Valid() && i < |reported| && t.total == shares[i] && t.total >= 0
      requires 0 <= reported[i] == t.lastCount <= t.count
      modifies this`global, this`reported, t
      ensures Valid() && Tracks(t, i)
      ensures reported == old(reported)[i := t.count]
      ensures t.count == old(t.count) && t.total == old(t.total)
      ensures t.lastCount == t.count && t.lastTime == now
      ensures var m := old(t.mark) + markStep;
              t.mark == if t.count < t.total && m > t.total then t.total else m
      ensures global == old(global).(count := old(global.count) + (t.count - old(t.lastCount)))
    {
      var delta := t.count - t.lastCount;
      t.mark := t.mark + markStep;
      if t.count < t.total && t.mark > t.total {
        t.mark := t.total;
      }
      t.lastCount := t.count;
      t.lastTime := now;
      SumUpdate(reported, i, t.count);
      global := global.(count := global.count + delta);
      reported := reported[i := t.count];
    }

    /** What a publishing update leaves, from the aggregate g it starts with: the status
        computed from the aggregate, the widths read, the aggregate's last report at now, no
        pending expandable item, and the previous frame erased. */
    ghost predicate Published(g: Global, oldRate: Reading, oldOut: seq<char>, now: real, termW: int)
      reads this
    {
      var dt := now - g.lastTime;
      var w := UsableWidth(termW);
      var rate := if dt > 0.8 * update then Quotient((g.count - g.lastCount) as real, dt) else oldRate;
      status == Status(Quotient(g.count as real, g.total as real), now,
                       RemainingTime(g.total - g.count, rate), rate, Quotient(g.count as real, now), termW) &&
      global == g.(width := w, lastCount := g.count, lastTime := now, expandCount := 0, printedLines := 0) &&
      out == oldOut + (if g.printedLines > 0 && ValidTerminalAsWritten(hasOutput, termW) then ClearText(g.printedLines) else [])
    }

    /** The publishing half of prgi_update__. */
    method Publish(now: real, dt: real, ready: bool, termW: int)
      requires Valid()
      requires dt == now - global.lastTime && (ready <==> dt > 0.8 * update)
      modifies this`status, this`global, this`out
      ensures Valid()
      ensures Published(old(global), old(status.rate), old(out), now, termW)
    {
      CountsNonNegative();
      var rate := status.rate;
      if ready {
        rate := Quotient((global.count - global.lastCount) as real, dt);
      }
      status := Status(Quotient(global.count as real, global.total as real), now,
                       RemainingTime(global.total - global.count, rate), rate,
                       Quotient(global.count as real, now), termW);
      global := global.(width := UsableWidth(termW), lastCount := global.count, lastTime := now,
                        expandCount := 0);
      Clear();
    }

    /** The global count and total are sums of non-negative thread values. */
    lemma CountsNonNegative()
      requires Valid()
      ensures 0 <= global.count && 0 <= global.total
    {
      SumMonotone(seq(|reported|, _ => 0), reported);
      SumMonotone(seq(|shares|, _ => 0), shares);
      ZeroSum(|reported|);
    }

    /** When no thread has reported more than its total, the global count does not exceed the
        global total and the published progress is at most 1. */
    lemma CountWithinTotal()
      requires Valid()
      requires forall i :: 0 <= i < |reported| ==> reported[i] <= shares[i]
      ensures global.count <= global.total
      ensures Quotient(global.count as real, global.total as real).Finite? ==>
                Quotient(global.count as real, global.total as real).value <= 1.0
    {
      SumMonotone(reported, shares);
      CountsNonNegative();
    }

    /** Once every thread has reported exactly its total, the progress reads 1: the complete
        display. */
    lemma AllCounted()
      requires Valid() && reported == shares && global.total > 0
      ensures Quotient(global.count as real, global.total as real) == Finite(1.0)
    {
    }

    /** Conversely, while no thread has reported more than its total, a progress of 1 means
        every thread has reported exactly its total. */
    lemma OnlyAllCountedIsComplete()
      requires Valid() && global.total > 0
      requires forall i :: 0 <= i < |reported| ==> reported[i] <= shares[i]
      requires Quotient(global.count as real, global.total as real) == Finite(1.0)
      ensures reported == shares
    {
      assert global.count == global.total;
      SumEqualTerms(reported, shares);
    }

    /** The update that brings the last unfinished thread to its total publishes, and the
        progress it publishes is exactly 1. */
    method FinishLast(t: ThreadState, ghost i: nat, now: real, termW: int, markStep: int)
      returns (r: bool)
      requires Valid() && Tracks(t, i) && t.count < t.total
      requires forall j :: 0 <= j < |reported| && j != i ==> reported[j] == shares[j]
      modifies this`status, this`global, this`reported, this`out, t
      ensures Valid() && Tracks(t, i) && t.count == t.total && reported == shares
      ensures r && status.progress == Finite(1.0)
    {
      r := Update(t, i, t.total - t.count, now, termW, markStep);
      assert reported == shares;
      SumAtLeastTerm(shares, i);
      AllCounted();
    }

    /** prgi_clear: erases the lines printed since the last clear, when the terminal is valid,
        and forgets them in any case. */
    method Clear()
      requires Valid()
      modifies this`global, this`out
      ensures Valid()
      ensures global == old(global).(printedLines := 0)
      ensures out == old(out) + (if old(global.printedLines) > 0 && ValidTerminalAsWritten(hasOutput, status.width)
                                 then ClearText(old(global.printedLines)) else [])
    {
      if global.printedLines == 0 {
        return;
      }
      if !ValidTerminalAsWritten(hasOutput, status.width) {
        global := global.(printedLines := 0);
        return;
      }
      var text := EraseLines(global.printedLines);
      out := out + text;
      global := global.(printedLines := 0);
    }

    /** prgi_puts: on a valid terminal, writes s fitted to the usable width, preceded by a
        newline when lines were printed before and followed by the parking sequence, and counts
        one more line; otherwise does nothing. */
    method Puts(s: seq<char>)
      requires Valid()
      modifies this`global, this`out
      ensures Valid()
      ensures !ValidTerminalAsWritten(hasOutput, status.width) ==> global == old(global) && out == old(out)
      ensures ValidTerminalAsWritten(hasOutput, status.width) ==>
                global == old(global).(printedLines := old(global.printedLines) + 1) &&
                out == old(out) + PutsText(s, old(global.printedLines), global.width, status.width)
    {
      if !ValidTerminalAsWritten(hasOutput, status.width) {
        return;
      }
      var prefix: seq<char> := if global.printedLines != 0 then "\n" else "";
      var n := EscStrlen(s);
      var line: seq<char>;
      if n <= global.width {
        line := s;
      } else {
        var r := EscRawlen(s, global.width - 3);
        line := s[..r] + Indicator();
      }
      assert line == FitLine(s, global.width);
      out := out + (prefix + line + Park(status.width));
      global := global.(printedLines := global.printedLines + 1);
    }

    /** bar_doit: a non-positive length leaves an empty placeholder and one more pending
        expandable item; a positive one draws the bar for the current progress. */
    method BarDoit(len: int)
      requires Valid() && bar.fill0 != '\0'
      requires len > 0 ==> status.progress.Finite?
      modifies this`barBuf, this`bar, this`global
      ensures Valid()
      ensures len <= 0 ==> barBuf == [] && bar == old(bar).(expand := true) &&
                           global == old(global).(expandCount := old(global.expandCount) + 1)
      ensures len > 0 ==> bar == old(bar) && global == old(global) &&
                          barBuf == DrawBar(len, bar.fill0, bar.fill1, bar.txt, status.progress.value)
    {
      if len <= 0 {
        bar := bar.(expand := true);
        global := global.(expandCount := global.expandCount + 1);
        barBuf := [];
        return;
      }
      barBuf := DrawBar(len, bar.fill0, bar.fill1, bar.txt, status.progress.value);
    }

    /** prgi_bar: the two fill characters taken, no text, and the bar drawn. */
    method Bar(len: int, f0: char, f1: char) returns (cell: seq<char>)
      requires Valid() && f0 != '\0'
      requires len > 0 ==> status.progress.Finite?
      modifies this`barBuf, this`bar, this`global
      ensures Valid() && cell == barBuf
      ensures bar.fill0 == f0 && bar.fill1 == f1 && bar.txt == []
      ensures len <= 0 ==> cell == [] && bar.expand &&
                           global == old(global).(expandCount := old(global.expandCount) + 1)
      ensures len > 0 ==> cell == DrawBar(len, f0, f1, [], status.progress.value) &&
                          bar.expand == old(bar.expand) && global == old(global)
    {
      bar := bar.(fill0 := f0, fill1 := f1, txt := []);
      BarDoit(len);
      cell := barBuf;
    }

    /** prgi_bartxt: as prgi_bar, with the formatted text, cut to the bar buffer, centred in
        the bar. */
    method BarTxt(len: int, f0: char, f1: char, txt: seq<char>) returns (cell: seq<char>)
      requires Valid() && f0 != '\0' && '\0' !in txt
      requires len > 0 ==> status.progress.Finite?
      modifies this`barBuf, this`bar, this`global
      ensures Valid() && cell == barBuf
      ensures bar.fill0 == f0 && bar.fill1 == f1 && bar.txt == Truncate(txt, BARBUFSIZE)
      ensures len <= 0 ==> cell == [] && bar.expand &&
                           global == old(global).(expandCount := old(global.expandCount) + 1)
      ensures len > 0 ==> cell == DrawBar(len, f0, f1, bar.txt, status.progress.value) &&
                          bar.expand == old(bar.expand) && global == old(global)
    {
      bar := bar.(fill0 := f0, fill1 := f1, txt := Truncate(txt, BARBUFSIZE));
      BarDoit(len);
      cell := barBuf;
    }

    /** prgi_printf with the line as a function of the bar cell's contents: with pending
        expandable items, the first pass measures the line, the automatic bar is redrawn with
        its share of the free width, and the second pass formats the line that prgi_puts
        writes. */
    method Printf(fmt: seq<char> -> seq<char>)
      requires Valid()
      requires global.expandCount != 0 && bar.expand ==> status.progress.Finite?
      modifies this`barBuf, this`bar, this`global, this`out
      ensures Valid()
      ensures !ValidTerminalAsWritten(hasOutput, status.width) ==> unchanged(this)
      ensures ValidTerminalAsWritten(hasOutput, status.width) ==>
                global == old(global).(expandCount := 0, printedLines := old(global.printedLines) + 1) &&
                out == old(out) + PutsText(Truncate(fmt(barBuf), LINEBUFSIZE), old(global.printedLines),
                                           global.width, status.width)
      ensures ValidTerminalAsWritten(hasOutput, status.width) && old(global.expandCount) != 0 && old(bar.expand) ==>
                bar == old(bar).(expand := false) &&
                barBuf == DrawBar(ExpandLen(global.width - VisibleLength(Truncate(fmt(old(barBuf)), LINEBUFSIZE)),
                                            old(global.expandCount)),
                                  bar.fill0, bar.fill1, bar.txt, status.progress.value)
      ensures ValidTerminalAsWritten(hasOutput, status.width) && (old(global.expandCount) == 0 || !old(bar.expand)) ==>
                barBuf == old(barBuf) && bar == old(bar)
    {
      if !ValidTerminalAsWritten(hasOutput, status.width) {
        return;
      }
      if global.expandCount != 0 {
        Expand(fmt);
      }
      assert global == old(global).(expandCount := 0) && ValidTerminalAsWritten(hasOutput, status.width);
      var line := Truncate(fmt(barBuf), LINEBUFSIZE);
      ghost var cell, b := barBuf, bar;
      Puts(line);
      assert barBuf == cell && bar == b;
    }

    /** The first pass of prgi_printf: the line is measured with the bar cell as it is, the
        automatic bar is redrawn with its share of the free width and stops being pending, and
        no expandable item is left pending. */
    method Expand(fmt: seq<char> -> seq<char>)
      requires Valid() && global.expandCount != 0
      requires bar.expand ==> status.progress.Finite?
      modifies this`barBuf, this`bar, this`global
      ensures Valid()
      ensures global == old(global).(expandCount := 0)
      ensures old(bar.expand) ==>
                bar == old(bar).(expand := false) &&
                barBuf == DrawBar(ExpandLen(global.width - VisibleLength(Truncate(fmt(old(barBuf)), LINEBUFSIZE)),
                                            old(global.expandCount)),
                                  bar.fill0, bar.fill1, bar.txt, status.progress.value)
      ensures !old(bar.expand) ==> barBuf == old(barBuf) && bar == old(bar)
    {
      var first := Truncate(fmt(barBuf), LINEBUFSIZE);
      var n := EscStrlen(first);
      var expandLen := ExpandLen(global.width - n, global.expandCount);
      if bar.expand {
        BarDoit(expandLen);
        bar := bar.(expand := false);
      }
      global := global.(expandCount := 0);
    }

    /** prgi_throbber: a blank once all work is counted; otherwise the next character of anim,
        cyclically. */
    method Throbber(anim: seq<char>) returns (c: char)
      requires Valid() && throbberIndex <= |anim|
      modifies this`throbberIndex
      ensures Valid()
      ensures global.count == global.total ==> c == ' ' && throbberIndex == old(throbberIndex)
      ensures global.count != global.total ==> (c, throbberIndex) == ThrobberStep(anim, old(throbberIndex))
    {
      if global.count == global.total {
        return ' ';
      }
      var i := throbberIndex;
      if i < |anim| {
        c := anim[i];
        throbberIndex := i + 1;
      } else {
        c := if anim == [] then '\0' else anim[0];
        throbberIndex := 1;
      }
    }
  }

  lemma ZeroSum(n: nat)
    ensures Sum(seq(n, _ => 0)) == 0
  {
    if n > 0 {
      assert seq(n, _ => 0)[..n - 1] == seq(n - 1, _ => 0);
      ZeroSum(n - 1);
    }
  }
}
