# prgi in Dafny

A model of the core of prgi, a small C library that prints progress indicators on a
terminal. The model covers:

- how the library measures text that holds ANSI control sequences (`esc_skip`, `esc_strlen`,
  `esc_rawlen`);
- the per-thread counters and the shared aggregate behind `prgi_update` (the inline hot path
  and the slow path `prgi_update__`) and their initialisation;
- the frame on the terminal (`valid_terminal`, `prgi_clear`, `prgi_puts`);
- the progress bar (`overwrite_centered`, `bar_fill`, `bar_doit`, `prgi_bar`, `prgi_bartxt`)
  and the two passes of `prgi_printf` that size an automatic bar;
- the formatters `timehms`, `dec3` and `sipref`, and the throbber.

Modules, one per part of `prgi.c`:

- `Base` (`base.dfy`): the buffer limits, C floats as exact reals (`Reading`: a finite value
  or NaN/infinity), snprintf-style truncation and decimal text.
- `AnsiText` (`ansi_text.dfy`): the escape grammar as specification functions over positions
  in a string (`Skip`, `Visible`, `RawEnd`). The three C loops are methods proved against them,
  and lemmas state what the counts mean.
- `Formatters` (`formatters.dfy`): `timehms` with its `divmod` chain, `dec3` and `sipref`'s
  choice of prefix.
- `BarLayout` (`bar_layout.dfy`): the bar string for a given length, fill characters, text and
  progress.
- `Frame` (`frame.dfy`): the text `prgi_clear` and `prgi_puts` write, the terminal check and
  the width share of `prgi_printf`.
- `Progress` (`progress.dfy`): the classes `ThreadState` (`struct prgi_thread_state_`) and
  `Session`. `Session` holds the `prgi` and `global` structs, the bar state, the static bar
  buffer, the throbber index and the text written so far. Its methods update these in place.
  Its ghost fields `reported` and `shares` record, per thread, the count last folded into the
  aggregate and the thread's total. `Valid()` keeps the aggregate equal to their sums, so no
  work is counted twice.

The current time, the terminal width and the step by which the slow path moves a thread's mark
are parameters of the operations that read them. The format string of `prgi_printf` is a
function from the bar buffer's contents to the text it produces. `prgi_bartxt` takes the text
it formats, since C evaluates its arguments once and the redraw reuses the stored text.

## Model

| member | source | states |
|---|---|---|
| `AnsiText.EscSkip` | prgi.c:98-109 | returns the first position from p0 on that is not inside an escape sequence (the end if none): the stop of `Skip`, never an ESC |
| `AnsiText.EscStrlen` | prgi.c:112-120 | returns the number of printable characters of s (`VisibleLength`), at most the raw length |
| `AnsiText.EscRawlen` | prgi.c:130-140 | returns `RawLen(s, l)`, at most the raw length |
| `AnsiText.RawLenPrefix` | prgi.c:122-140 | the prefix of raw length `RawLen(s, l)` holds min(l, all) printable characters; it is maximal: the next raw character is not ESC and adding it gives l + 1 printable characters; asking for all or more gives the whole string |
| `AnsiText.RawLenExamples` | prgi.c:122-129 | the comment's examples: 3 printable characters of "abc\e[7mfgh" take 7 raw characters, 4 take 8 |
| `AnsiText.RenderVisible` | prgi.c:94-109 | a string made of printable characters and complete CSI sequences (ECMA-48 section 5.4) has exactly as many printable characters as it has characters outside the sequences |
| `AnsiText.ControlsOnlyVisible` | prgi.c:111-120 | a string made only of complete CSI sequences has no printable character |
| `Base.Quotient` | prgi.c:485-491 | a float quotient is non-finite exactly when the divisor is 0; otherwise it times the divisor gives the dividend, and it lies in [0, 1] when 0 <= a <= b |
| `Base.Truncate` | prgi.c:156-159 | what snprintf leaves in a buffer: a prefix of s shorter than the buffer, all of s when it fits, size - 1 characters otherwise |
| `Base.DecRoundTrip` | prgi.c:634 | the "%d" text of n reads back as n |
| `Base.Pad2RoundTrip` | prgi.c:637 | the "%02d" text of n < 100 is two digits that read back as n |
| `Formatters.Decompose` | prgi.c:630-643 | the divmod chain picks seconds, minutes, hours or days by the magnitude of n, and the fields recombine to n within the unit dropped |
| `Formatters.TimeHms` | prgi.c:621-644 | "?" for a negative or non-finite time, scientific for more than 7 days, else the fields of Decompose rendered in the code's formats |
| `Formatters.TimeHmsExamples` | prgi.c:619-644 | 45 gives "45s", 125 gives "2m05s", 3725 gives "1h02m", 90000 gives "1d102h", and -1 and NaN give "?" |
| `Formatters.DayFormatAsWritten` | prgi.c:643 | for 90000 seconds (1 day, 1 hour) the digits between 'd' and 'h' read 102 |
| `Formatters.TimeHmsIntended` | prgi.c:621-644 | timehms with the day format "%dd%02dh"; the other cases are unchanged |
| `Formatters.TimeHmsIntendedDays` | prgi.c:640-643 | with the corrected format, 1 to 7 days print the whole days, 'd', the hour of the day as two digits that read back as it, and 'h' |
| `Formatters.Dec3` | prgi.c:661-666 | 2, 1 or 0 decimals, which with the digits of the integer part make 3 significant digits for 1 <= x < 1000 |
| `Formatters.SiPref` | prgi.c:668-697 | "?" exactly for a negative or non-finite x; no prefix below 1000; otherwise the largest prefix value not above x and a mantissa in [1, 1000); "%.2G" from 1E30 on, so 'Q' is never used |
| `BarLayout.OverwriteCentered` | prgi.c:161-173 | a shorter src overwrites dest starting at (len(dest) - len(src)) / 2 and every other character is kept; otherwise src replaces dest, cut to the buffer |
| `BarLayout.ClampLength` | prgi.c:565-570 | the bar length is the request clamped to [10, MAXBARLEN] |
| `BarLayout.FilledCount` | prgi.c:572-575 | the filled count is len * progress rounded to nearest and capped at len |
| `BarLayout.FilledExtremes` | prgi.c:572-575 | no progress fills no cell; complete progress fills all of them |
| `BarLayout.FilledMonotone` | prgi.c:572-575 | more progress never fills fewer cells |
| `BarLayout.BarFill` | prgi.c:541-549 | n cells of fill[0], then len - n of fill[1], with the text centred over them, or the text alone when it is not shorter |
| `BarLayout.DrawBar` | prgi.c:576-590 | the drawn bar fits the bar buffer |
| `BarLayout.TwoFillLayout` | prgi.c:578-582 | with two fill characters and a shorter text, the bar is exactly l cells: the text centred, the other cells fill[0] before n and fill[1] from n |
| `BarLayout.TwoFillPlain` | prgi.h:172-176 | without text, a two-fill bar is n copies of fill[0] and then l - n copies of fill[1] |
| `BarLayout.ReverseLayout` | prgi.c:583-590 | with one fill character, the bar is "\e[7m", the first n cells, "\e[0m" and the rest of the l-cell bar, with nothing cut |
| `BarLayout.BarColumns` | prgi.h:168-185 | the bar takes exactly l columns in both forms when no fill character or text holds ESC |
| `Frame.UsableWidth` | prgi.c:493-495 | global.width is MAXLINELEN when the terminal has at least MAXLINELEN + 2 columns, else the width less 2 |
| `Frame.EraseLines` | prgi.c:329-340 | the loop writes "\r\e[K" and then "\e[A\e[K" once per further line: `ClearText(n)` |
| `Frame.ClearTextLayout` | prgi.c:323-343 | erasing k lines writes 4 + 6(k - 1) characters: "\r\e[K" and then k - 1 blocks of "\e[A\e[K"; only the carriage return is printable |
| `Frame.FitLine` | prgi.c:355-365 | a line that fits is kept; a longer one is cut to `RawLen(s, width - 3)` raw characters and gets ">>>\e[0m" |
| `Frame.FitLineWidth` | prgi.h:240-245 | with room for the indicator, a written line has at most `width` printable characters; a cut one keeps exactly width - 3 of s, the longest such raw prefix, then the indicator |
| `Frame.PutsTextLayout` | prgi.c:350-370 | a line that fits is written unchanged, after a newline exactly when lines were printed before, then the parking sequence |
| `Frame.ValidTerminalAsWritten` | prgi.c:319-321 | valid_terminal as the code has it: an output stream and a terminal (prgi.width) of at least 3 columns; Clear (also inside Publish), Puts and Printf are gated by it, as prgi_clear, prgi_puts and prgi_printf call valid_terminal |
| `Frame.ValidTerminal` | prgi.c:319-321 | the corrected check: room for ">>>" in the usable width, global.width >= 3 |
| `Frame.ValidTerminalRelation` | prgi.c:319-321 | the corrected check holds exactly when the written one does and the terminal has at least 5 columns |
| `Frame.ValidTerminalTooNarrow` | prgi.c:319-321 | as written, a 3-column terminal passes the check, and "abcd" goes out with 7 printable characters |
| `Frame.ValidTerminalFits` | prgi.c:319-321 | with the corrected check, every line written fits the terminal with its two spare columns |
| `Frame.ExpandLen` | prgi.c:752-754 | each of k items gets the floor of avail / k when avail > k, else 1 |
| `Frame.AutoBarFillsLine` | prgi.c:743-766 | one automatic bar between fixed plain texts pre and post, with a text shorter than the bar, gets clamp(W - len(pre) - len(post), 10, MAXBARLEN) columns, and the second pass's line, cut to the line buffer, has exactly len(pre) + that + len(post) printable characters whenever it fits the buffer, which it always does, filling the width W exactly, when at least 10 columns are left |
| `Frame.AutoBarFormat` | prgi.c:743-766 | the same for Session.Printf with the format pre + cell + post and one pending item, stated in the terms of Printf's postcondition: the redrawn cell is the bar of the rest of the width, and with at least 10 columns left the line vsnprintf leaves is pre + cell + post and fills the width; `Session.Valid` bounds the session's width by MAXLINELEN as this needs |
| `Progress.RemainingTime` | prgi.c:491 | the remaining time is finite exactly when the rate is finite and not 0, and then times the rate gives the work left |
| `Progress.ThrobberStep` | prgi.c:714-727 | one call returns the character at the index and moves on by one, or at the end returns anim[0] and sets the index to 1 |
| `Progress.ThrobberCycles` | prgi.c:721-725 | after k > 0 calls the index is (k - 1) mod len(anim) + 1 |
| `Progress.ThrobberShows` | prgi.h:196-208 | call number k returns anim[k mod len(anim)]: the throbber cycles with period len(anim) |
| `Progress.ThreadState.constructor` | prgi.h:33-36 | a thread's counters start at zero |
| `Progress.Session.constructor` | prgi.c:218-222 | the static state: no output stream, an update every 0.2 s, everything else zero |
| `Progress.Session.InitThread` | prgi.c:378-389 | the thread starts from zero with its total, joins the session, and the global total grows by exactly that total |
| `Progress.Session.Init` | prgi.c:392-415 | the stream is set, progress is 0, rates and remaining time are unknown, the aggregate is empty and the main thread has joined with its total |
| `Progress.Session.Update` | prgi.h:115-117 | the count grows by inc; below the mark nothing else changes and false is returned; otherwise the slow path runs: the mark moves by the step and is clamped to the total, the result is true exactly when dt > 0.8 * update, or this is the first work, or the thread has reached its total, false leaves the aggregate folded and status and output unchanged, and true publishes |
| `Progress.Session.SlowPath` | prgi.c:454-505 | folds exactly count - last_count into the global count, moves and clamps the mark, and returns true exactly when dt > 0.8 * update, or this is the first work, or the thread has reached its total; false changes only the thread and the count; true publishes |
| `Progress.Session.Fold` | prgi.c:455-469 | the mark moves by the step and is clamped to the total while the total is not reached; the thread's delta goes into the global count and nothing else of the aggregate changes |
| `Progress.Session.Publish` | prgi.c:485-504 | status from the aggregate, the rate only when the time condition held, the widths read, last count and time set, no pending expandable item, and the frame erased |
| `Progress.Session.CountsNonNegative` | prgi.c:469 | the global count and total are never negative |
| `Progress.Session.CountWithinTotal` | prgi.c:485 | when no thread has counted past its total, the global count is at most the global total and the published progress at most 1 |
| `Progress.Session.AllCounted` | prgi.c:485 | once every thread has reported exactly its total, the progress global.count / global.total is exactly 1 |
| `Progress.Session.OnlyAllCountedIsComplete` | prgi.c:485 | while no thread has reported past its total, a progress of 1 means every thread has reported exactly its total |
| `Progress.Session.FinishLast` | prgi.h:115-117 | the update that brings the last unfinished thread to its total publishes, and the published progress is exactly 1, the complete display |
| `Progress.Session.Clear` | prgi.c:323-343 | forgets the printed lines in every case, and erases them (`ClearText`) only when there are some and the terminal is valid |
| `Progress.Session.Puts` | prgi.c:350-370 | on an invalid terminal nothing changes; otherwise it writes the newline if needed, the fitted line and the parking sequence, and counts one more line |
| `Progress.Session.BarDoit` | prgi.c:553-593 | a length <= 0 leaves an empty buffer, marks the bar as expanding and adds exactly one pending item; a positive length draws the bar into the buffer |
| `Progress.Session.Bar` | prgi.c:597-601 | takes the fill characters, clears the text and draws |
| `Progress.Session.BarTxt` | prgi.c:603-607 | takes the fill characters and the text cut to the bar buffer, and draws |
| `Progress.Session.Printf` | prgi.c:738-767 | with pending items, the automatic bar is redrawn for its share of the width the first pass leaves; the line is formatted again from the updated buffer and written by Puts; nothing changes on an invalid terminal |
| `Progress.Session.Expand` | prgi.c:743-762 | the first pass: the bar is redrawn with `ExpandLen` of the free width, it stops expanding, and no pending item is left |
| `Progress.Session.Throbber` | prgi.c:714-727 | a blank, with the index kept, once all work is counted; otherwise the next `ThrobberStep` |

## Left out

- Floating point: `float` and `double` values are exact reals. NaN and the infinities are one
  value, `NonFinite`. Rounding, `myround`'s float addition and float-to-int truncation are not
  modelled.
- printf rendering: "%.*f", "%.2E", "%.2G" and "%.0f%%" are not rendered. `TimeHms` and
  `SiPref` return the number and the layout they would print. `prgi_percent` is not modelled.
  The formatters `prgi_remaining`, `prgi_elapsed`, `prgi_rate` and `prgi_mean_rate` are these
  functions applied to a status field.
- The format string of `prgi_printf` is a function of the bar buffer, and `prgi_bartxt` takes
  the text its format produces. The model does not interpret either format.
- `Frame.AutoBarFillsLine`: when fewer than 10 columns are left and pre, the bar and post
  together reach the line buffer, vsnprintf cuts the line; the lemma then states only the
  bar's length, not how many printable characters the cut line keeps.
- Time, the terminal width (`termwidth`, `gettime`, `timef`) and `fflush` are not modelled. The
  time and the width are parameters.
- The mutex, `prgi_lock`, `prgi_unlock` and `lock_on_update` are not modelled. Each call of the
  slow path is one atomic step, and threads are separate `ThreadState` objects called in any
  order.
- `Progress.Session.SlowPath`: the mark's step `update * delta / (now - last_time)` is an
  integer parameter. Its float computation and truncation are not modelled.
- Static buffers and structs are values. memset and memcpy are modelled by their results, not
  byte by byte. A C string is the sequence of its characters before the terminator, and the
  texts are assumed to hold no NUL.
- `prgi_clear` writes its text in one piece. The model builds that text in `Frame.EraseLines`
  and appends it once.
- Output stream: the documentation (prgi.h:65-66) names stderr as the default, but the code
  (prgi.c:393) sets stdout. The model follows the code and records only that a stream is set.
- `Progress.Session.Update`: requires inc >= 0, the amount of work done since the last call as
  prgi.h:95-97 describes it. Negative increments are not modelled.
- `Progress.Session.InitThread`: requires a non-negative total, the work the thread will do.
- `Progress.Session.Throbber`: requires the static index to lie within anim. An index beyond
  the string, after a longer string was used, reads past its end in C.
- `Progress.Session.BarDoit`: requires fill[0] to be a character and the progress to be a
  finite reading when drawing. A NaN progress is not modelled.
- Thread links: `Tracks(t, i)` ties a thread to its entry in the session in each call's
  contract, and is not an invariant over all threads.
- Sessions follow the terminal check as the code has it, `Frame.ValidTerminalAsWritten`
  (prgi.width >= 3). The corrected check `Frame.ValidTerminal` and what it guarantees,
  `Frame.ValidTerminalFits`, are stated beside it (see Findings); on a 3- or 4-column terminal
  a session writes lines wider than the terminal, as the code does.
- Characters: a Dafny `char` stands for one C byte. esc_strlen and esc_rawlen count bytes, so a
  multi-byte UTF-8 character counts as several printable characters in C; the model has no
  encoding and counts each `char` once.
- Integer widths: the `long` counters and totals and the `int` lengths and widths are unbounded
  integers. Overflow of a count past LONG_MAX, or of a width past INT_MAX, is not modelled.

## Findings

| source | as written | input that shows it | evidently intended | confidence | as-written member | corrected member |
|---|---|---|---|---|---|---|
| prgi.c:643 | the day case uses the format "%dd%d02h", which prints the hour without padding followed by a literal "02" | 90000 s (1 day, 1 hour) prints "1d102h" | "%dd%02dh", which prints "1d01h" like the other cases' "%02d" | not executed | `Formatters.DayFormatAsWritten` | `Formatters.TimeHmsIntendedDays` |
| prgi.c:319-321 | valid_terminal accepts a terminal of 3 columns, but prgi_puts cuts to global.width - 3, and global.width is the terminal width less 2 | a 3-column terminal and the line "abcd": esc_rawlen gets -2, keeps the whole line, and "abcd>>>\e[0m" (7 printable characters) is written | room for ">>>" in the usable width: global.width >= 3 | not executed | `Frame.ValidTerminalTooNarrow` | `Frame.ValidTerminalFits` |
