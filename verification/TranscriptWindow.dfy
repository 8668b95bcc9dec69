/** The bounded window the Stop hook reads from an append-only JSONL transcript
    (hooks/stop-transcript-snapshot.py, `_load_cursor` and `_read_window`). */
module TranscriptWindow {
  import opened Prelude

  type Byte = b: int | 0 <= b < 256
  type Bytes = seq<Byte>

  const NL: Byte := 10
  const CR: Byte := 13

  // ---------------------------------------------------------------------------
  // Lines
  // ---------------------------------------------------------------------------

  /** Where the first line of `d` ends: at a line feed, a carriage return or the end. */
  function LineEnd(d: Bytes): (n: nat)
    ensures n <= |d|
    ensures n < |d| ==> d[n] == NL || d[n] == CR
  {
    if d == [] || d[0] == NL || d[0] == CR then 0 else 1 + LineEnd(d[1..])
  }

  /** The rest of `d` after its first line and that line's terminator. */
  function AfterLine(d: Bytes): (r: Bytes)
    requires d != []
    ensures |r| < |d|
  {
    var n := LineEnd(d);
    if n == |d| then [] else d[n + Terminator(d, n)..]
  }

  /** `bytes.splitlines()`: CR, LF and CR LF each end a line. */
  function SplitLines(d: Bytes): seq<Bytes>
    decreases |d|
  {
    if d == [] then [] else [d[..LineEnd(d)]] + SplitLines(AfterLine(d))
  }

  ghost predicate EndsLine(d: Bytes)
  {
    d == [] || d[|d| - 1] == NL
  }

  lemma {:induction false} LineEndConcat(a: Bytes, b: Bytes)
    requires LineEnd(a) < |a|
    ensures LineEnd(a + b) == LineEnd(a)
  {
    if a[0] != NL && a[0] != CR {
      assert (a + b)[1..] == a[1..] + b;
      LineEndConcat(a[1..], b);
    }
  }

  lemma {:induction false} LineEndExists(a: Bytes)
    requires a != [] && EndsLine(a)
    ensures LineEnd(a) < |a|
  {
    if a[0] != NL && a[0] != CR {
      LineEndExists(a[1..]);
    }
  }

  /** How many bytes end the first line. */
  function Terminator(d: Bytes, n: nat): (k: nat)
    requires n < |d|
    ensures 0 < k && n + k <= |d|
  {
    if d[n] == CR && n + 1 < |d| && d[n + 1] == NL then 2 else 1
  }

  lemma DropConcat(a: Bytes, b: Bytes, k: nat)
    requires k <= |a|
    ensures (a + b)[k..] == a[k..] + b
  {
  }

  lemma AfterLineConcat(a: Bytes, b: Bytes)
    requires a != [] && EndsLine(a)
    ensures LineEnd(a + b) == LineEnd(a) < |a|
    ensures AfterLine(a + b) == AfterLine(a) + b && EndsLine(AfterLine(a))
  {
    LineEndExists(a);
    LineEndConcat(a, b);
    var n := LineEnd(a);
    assert a[n] == CR ==> n + 1 < |a|;
    DropConcat(a, b, n + Terminator(a, n));
  }

  lemma SplitFirst(d: Bytes, n: nat, rest: Bytes)
    requires d != [] && LineEnd(d) == n && AfterLine(d) == rest
    ensures SplitLines(d) == [d[..n]] + SplitLines(rest)
  {
  }

  lemma Regroup(head: Bytes, rest: seq<Bytes>, lines: seq<Bytes>)
    ensures [head] + (rest + lines) == ([head] + rest) + lines
  {
  }

  /** Cutting right after a line feed never changes the lines on either side. */
  lemma {:induction false} SplitLinesConcat(a: Bytes, b: Bytes)
    requires EndsLine(a)
    ensures SplitLines(a + b) == SplitLines(a) + SplitLines(b)
    decreases |a|
  {
    if a == [] {
      assert a + b == b;
    } else {
      AfterLineConcat(a, b);
      var n, rest := LineEnd(a), AfterLine(a);
      assert (a + b)[..n] == a[..n];
      SplitFirst(a + b, n, rest + b);
      SplitFirst(a, n, rest);
      SplitLinesConcat(rest, b);
      Regroup(a[..n], SplitLines(rest), SplitLines(b));
    }
  }

  /** No line holds a line end, and putting a line feed, a carriage return or both after each line but an
      unfinished last one gives the bytes back; a carriage return takes a following line feed with it. */
  lemma {:induction false} SplitLinesExact(d: Bytes) returns (ends: seq<Bytes>)
    ensures |ends| == |SplitLines(d)| && d == Joined(SplitLines(d), ends)
    ensures forall i :: 0 <= i < |ends| ==> Clean(SplitLines(d)[i])
    ensures forall i :: 0 <= i < |ends| ==> Ends(SplitLines(d), ends, i)
    decreases |d|
  {
    if d == [] {
      ends := [];
    } else {
      var n, rest := LineEnd(d), AfterLine(d);
      LineClean(d);
      var more := SplitLinesExact(rest);
      var end := FirstEnd(d);
      ends := [end] + more;
      SplitFirst(d, n, rest);
      JoinedFirst(d[..n], SplitLines(rest), end, more);
      forall i | 0 <= i < |ends| ensures Ends(SplitLines(d), ends, i) {
        if i == 0 {
          NextEnd(SplitLines(rest), more, rest);
        } else {
          assert Ends(SplitLines(rest), more, i - 1);
        }
      }
    }
  }

  /** What follows line `i`: a line end, as long as can be, or nothing at the end of an unfinished last line. */
  ghost predicate Ends(lines: seq<Bytes>, ends: seq<Bytes>, i: nat)
    requires |lines| == |ends| && i < |lines|
  {
    || ends[i] == [NL] || ends[i] == [CR, NL]
    || (ends[i] == [CR] && !(i + 1 < |lines| && lines[i + 1] == [] && ends[i + 1] == [NL]))
    || (ends[i] == [] && i == |lines| - 1 && lines[i] != [])
  }

  lemma NextEnd(lines: seq<Bytes>, ends: seq<Bytes>, d: Bytes)
    requires |lines| == |ends| && d == Joined(lines, ends)
    ensures lines != [] && lines[0] == [] && ends[0] == [NL] ==> d != [] && d[0] == NL
    ensures d == [] && (forall i :: 0 <= i < |ends| ==> Ends(lines, ends, i)) ==> lines == []
  {
    if lines != [] {
      assert d == lines[0] + ends[0] + Joined(lines[1..], ends[1..]);
      assert Ends(lines, ends, 0) ==> |lines[0] + ends[0]| > 0;
    }
  }

  ghost predicate Clean(line: Bytes)
  {
    forall i :: 0 <= i < |line| ==> line[i] != NL && line[i] != CR
  }

  function Joined(lines: seq<Bytes>, ends: seq<Bytes>): Bytes
    requires |lines| == |ends|
  {
    if lines == [] then [] else lines[0] + ends[0] + Joined(lines[1..], ends[1..])
  }

  lemma JoinedFirst(line: Bytes, lines: seq<Bytes>, end: Bytes, ends: seq<Bytes>)
    requires |lines| == |ends|
    ensures Joined([line] + lines, [end] + ends) == line + end + Joined(lines, ends)
  {
    assert ([line] + lines)[1..] == lines && ([end] + ends)[1..] == ends;
  }

  lemma {:induction false} LineClean(d: Bytes)
    ensures Clean(d[..LineEnd(d)])
  {
    if d != [] && d[0] != NL && d[0] != CR {
      LineClean(d[1..]);
      forall i | 0 <= i < LineEnd(d) ensures d[i] != NL && d[i] != CR {
        assert i > 0 ==> d[1..][..LineEnd(d[1..])][i - 1] == d[i];
      }
    }
  }

  /** What ends the first line. */
  lemma FirstEnd(d: Bytes) returns (end: Bytes)
    requires d != []
    ensures var n, rest := LineEnd(d), AfterLine(d);
            && d == d[..n] + end + rest
            && (n == |d| ==> rest == [] && end == [])
            && (n < |d| ==> end == [NL] || end == [CR, NL] || (end == [CR] && !(rest != [] && rest[0] == NL)))
  {
    var n := LineEnd(d);
    if n == |d| {
      end := [];
      assert d == d[..n] + end + [];
    } else {
      var m := n + Terminator(d, n);
      end := d[n..m];
      ThreeParts(d, n, m);
      assert end == if m == n + 2 then [CR, NL] else [d[n]];
    }
  }

  lemma ThreeParts(d: Bytes, n: nat, m: nat)
    requires n <= m <= |d|
    ensures d == d[..n] + d[n..m] + d[m..]
  {
  }

  // ---------------------------------------------------------------------------
  // The window
  // ---------------------------------------------------------------------------

  /** The file position after `readline()` at `start`. */
  function AfterReadline(content: Bytes, start: nat): (r: nat)
    requires start <= |content|
    ensures start <= r <= |content|
    ensures forall i :: start <= i < r - 1 ==> content[i] != NL
    ensures start < r && content[r - 1] != NL ==> r == |content|
    ensures r == start ==> start == |content|
    decreases |content| - start
  {
    if start == |content| then start
    else if content[start] == NL then start + 1
    else AfterReadline(content, start + 1)
  }

  /** The position after the last line feed in `content[start..size]`, or `start` if there is none. */
  function AfterLastNewline(content: Bytes, start: nat, size: nat): (r: nat)
    requires start <= size <= |content|
    ensures start <= r <= size
    ensures r > start ==> content[r - 1] == NL
    ensures forall i :: r <= i < size ==> content[i] != NL
  {
    if size == start then start
    else if content[size - 1] == NL then size
    else AfterLastNewline(content, start, size - 1)
  }

  /** The byte range of one snapshot. `origin` is the start it asked for, `requested` that start after
      the increment bound, `start..next` the range it parsed. */
  datatype Window = Window(size: nat, origin: nat, requested: nat, start: nat, next: nat, bootstrap: bool) {
    function Dropped(): int { requested - origin }
    function Skipped(): int { start - requested }
    function Scanned(): int { next - start }
    function Tail(): int { size - next }
  }

  ghost predicate AtBoundary(content: Bytes, offset: nat)
  {
    offset <= |content| && (offset == 0 || content[offset - 1] == NL)
  }

  function Origin(size: nat, offset: Option<nat>, bootstrapBytes: nat): (r: nat)
    requires offset.Some? ==> offset.value <= size
    ensures r <= size
  {
    match offset
    case Some(n) => n
    case None => if size <= bootstrapBytes then 0 else size - bootstrapBytes
  }

  /** Where a snapshot starts to read, after the increment bound. */
  function Requested(size: nat, offset: Option<nat>, bootstrapBytes: nat, bound: nat): (r: nat)
    requires offset.Some? ==> offset.value <= size
    ensures Origin(size, offset, bootstrapBytes) <= r <= size && size - r <= bound
  {
    var origin := Origin(size, offset, bootstrapBytes);
    if size - origin > bound then size - bound else origin
  }

  /** `content` is the file when it is read; `size` was taken a little earlier, so the file may have grown. */
  function WindowOf(content: Bytes, size: nat, offset: Option<nat>, bootstrapBytes: nat, bound: nat): (w: Window)
    requires size <= |content| && (offset.Some? ==> offset.value <= size)
    ensures w.size == size && w.origin <= w.requested <= w.start <= w.next <= |content|
  {
    var origin := Origin(size, offset, bootstrapBytes);
    var requested := Requested(size, offset, bootstrapBytes, bound);
    var start := if requested > 0 && content[requested - 1] != NL then AfterReadline(content, requested) else requested;
    var next := if start < size then AfterLastNewline(content, start, size) else start;
    Window(size, origin, requested, start, next, offset.None?)
  }

  /** What is parsed begins and ends at record boundaries; an unfinished record stays unread, and a cut
      inside a record skips no more than the rest of it. */
  lemma WindowClean(content: Bytes, size: nat, offset: Option<nat>, bootstrapBytes: nat, bound: nat)
    requires size <= |content| && (offset.Some? ==> offset.value <= size)
    ensures var w := WindowOf(content, size, offset, bootstrapBytes, bound);
            && (w.start < w.next ==> AtBoundary(content, w.start))
            && (AtBoundary(content, w.start) || w.start == |content|)
            && (w.next == w.start || content[w.next - 1] == NL)
            && (forall i :: w.next <= i < size ==> content[i] != NL)
            && (w.requested < w.start ==> !AtBoundary(content, w.requested))
            && (forall i :: w.requested <= i < w.start - 1 ==> content[i] != NL)
  {
  }

  /** The read starts on a boundary, or a record ends at or after its start. */
  ghost predicate CleanCut(content: Bytes, requested: nat)
  {
    AtBoundary(content, requested) || exists i :: requested <= i < |content| && content[i] == NL
  }

  /** The next cursor points right after a newline (or at the start of the file) exactly if the read is a clean
      cut. Otherwise it points into a record that is not finished yet. */
  lemma NextAtBoundaryIff(content: Bytes, size: nat, offset: Option<nat>, bootstrapBytes: nat, bound: nat)
    requires size <= |content| && (offset.Some? ==> offset.value <= size)
    ensures AtBoundary(content, WindowOf(content, size, offset, bootstrapBytes, bound).next)
            <==> CleanCut(content, Requested(size, offset, bootstrapBytes, bound))
  {
    var w := WindowOf(content, size, offset, bootstrapBytes, bound);
    if !AtBoundary(content, w.requested) {
      assert w.start == AfterReadline(content, w.requested);
      if w.requested < w.start && content[w.start - 1] == NL {
        assert CleanCut(content, w.requested);
      } else {
        assert w.start == w.next == |content|;
      }
    }
  }

  /** A read starts at byte 0 exactly for a cursor at 0, or without a cursor in a file within the bootstrap bound. */
  lemma StartsAtZero(size: nat, offset: Option<nat>, bootstrapBytes: nat)
    requires offset.Some? ==> offset.value <= size
    ensures Origin(size, offset, bootstrapBytes) == 0
            <==> offset == Some(0) || (offset.None? && size <= bootstrapBytes)
  {
  }

  /** How much of the end of the file is asked for: at most the increment bound, and without a cursor at most the
      bootstrap bound. */
  lemma AsksFor(size: nat, offset: Option<nat>, bootstrapBytes: nat, bound: nat)
    requires offset.Some? ==> offset.value <= size
    ensures var asked, wanted := size - Requested(size, offset, bootstrapBytes, bound),
                                 if offset.Some? then size - offset.value else if size <= bootstrapBytes then size else bootstrapBytes;
            asked == if wanted <= bound then wanted else bound
  {
  }

  /** Dropped, skipped, scanned and unfinished bytes add up to what was new, and the window respects its
      bound. (The file can only exceed the bound's share by growing while a partial record is skipped.) */
  lemma WindowAccounts(content: Bytes, size: nat, offset: Option<nat>, bootstrapBytes: nat, bound: nat)
    requires size <= |content| && (offset.Some? ==> offset.value <= size)
    ensures var w := WindowOf(content, size, offset, bootstrapBytes, bound);
            && w.Dropped() + w.Skipped() + w.Scanned() + w.Tail() == size - Origin(size, offset, bootstrapBytes)
            && w.Dropped() >= 0 && w.Skipped() >= 0 && 0 <= w.Scanned() <= bound
            && (size == |content| ==> w.Tail() >= 0 && w.Skipped() + w.Scanned() + w.Tail() <= bound)
  {
  }

  /** A cursor on a boundary, within the bound of the end, resumes exactly where it stands. */
  lemma WindowResumes(content: Bytes, size: nat, offset: nat, bootstrapBytes: nat, bound: nat)
    requires offset <= size <= |content| && AtBoundary(content, offset)
    ensures var w := WindowOf(content, size, Some(offset), bootstrapBytes, bound);
            && (w.Dropped() == 0 <==> size - offset <= bound)
            && (w.Dropped() == 0 ==> w.start == offset && AtBoundary(content, w.next))
  {
  }

  /** The lines a window holds. */
  function LinesOf(content: Bytes, w: Window): seq<Bytes>
    requires w.start <= w.next <= |content|
  {
    SplitLines(content[w.start..w.next])
  }

  /** Every line of a window is a whole line of the file, and they are consecutive lines of it. */
  ghost predicate WholeLines(content: Bytes, w: Window)
    requires w.start <= w.next <= |content|
  {
    LinesOf(content, w) == []
    || SplitLines(content) == SplitLines(content[..w.start]) + LinesOf(content, w) + SplitLines(content[w.next..])
  }

  lemma WindowWhole(content: Bytes, w: Window)
    requires w.start <= w.next <= |content|
    requires w.start < w.next ==> AtBoundary(content, w.start) && content[w.next - 1] == NL
    ensures WholeLines(content, w)
  {
    if w.start < w.next {
      SplitAt(content, w.next);
      assert content[..w.next][..w.start] == content[..w.start];
      assert content[..w.next][w.start..] == content[w.start..w.next];
      SplitAt(content[..w.next], w.start);
    } else {
      assert content[w.start..w.next] == [];
    }
  }

  lemma SplitAt(d: Bytes, n: nat)
    requires AtBoundary(d, n)
    ensures SplitLines(d) == SplitLines(d[..n]) + SplitLines(d[n..])
  {
    assert d == d[..n] + d[n..];
    SplitLinesConcat(d[..n], d[n..]);
  }
}
