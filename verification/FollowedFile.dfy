/** The shared line tailer: bounded reads of one line at a time, partial lines held back, overlong
    lines skipped, positions resumed by cursor. A cursor carries the file's identity, the offset of
    the end of the line, and a digest of the line's bytes, here the bytes themselves. */
module FollowedFile {
  import opened Prelude

  type Byte = b: int | 0 <= b < 256
  type Identity = nat

  const NEWLINE: Byte := 10
  const RETURN: Byte := 13
  const NUL: Byte := 0
  const MAX_LINE_BYTES: nat := 65536

  datatype Cursor = Cursor(identity: Identity, offset: nat, digest: seq<Byte>)

  datatype RawLine = RawLine(text: seq<Byte>, cursor: Cursor)

  // ---------------------------------------------------------------- what should be emitted

  // The end of the line that starts at `pos`: just past its newline, or the end of the content.
  function LineEnd(c: seq<Byte>, pos: nat): (e: nat)
    requires pos <= |c|
    ensures pos <= e <= |c|
    ensures forall i :: pos <= i < e - 1 ==> c[i] != NEWLINE
    ensures e == pos ==> pos == |c|
    ensures e < |c| ==> c[e - 1] == NEWLINE
    decreases |c| - pos
  {
    if pos == |c| then pos else if c[pos] == NEWLINE then pos + 1 else LineEnd(c, pos + 1)
  }

  // A complete line starts at `pos`.
  predicate Complete(c: seq<Byte>, pos: nat)
    requires pos <= |c|
  {
    var e := LineEnd(c, pos); pos < e && c[e - 1] == NEWLINE
  }

  function StripEnd(raw: seq<Byte>): seq<Byte> {
    if raw != [] && (raw[|raw| - 1] == NEWLINE || raw[|raw| - 1] == RETURN) then StripEnd(raw[..|raw| - 1]) else raw
  }

  // The line the tailer makes of raw bytes; a line with a NUL is dropped.
  function Line(raw: seq<Byte>, identity: Identity, end: nat): Option<RawLine> {
    var text := StripEnd(raw);
    if NUL in text then None else Some(RawLine(text, Cursor(identity, end, raw)))
  }

  // What one complete line yields: nothing if it is longer than the cap or dropped.
  function Emitted(raw: seq<Byte>, identity: Identity, end: nat): (out: seq<RawLine>)
    ensures |out| <= 1 && forall l :: l in out ==> l.cursor == Cursor(identity, end, raw)
  {
    if |raw| > MAX_LINE_BYTES then []
    else match Line(raw, identity, end) case None => [] case Some(l) => [l]
  }

  // The promised output: every complete line from `pos` on that is within the cap and free of NULs.
  function Expected(c: seq<Byte>, identity: Identity, pos: nat): seq<RawLine>
    requires pos <= |c|
    decreases |c| - pos
  {
    if !Complete(c, pos) then []
    else
      var e := LineEnd(c, pos);
      Emitted(c[pos..e], identity, e) + Expected(c, identity, e)
  }

  // Where the trailing unfinished line starts.
  function TailStart(c: seq<Byte>, pos: nat): (t: nat)
    requires pos <= |c|
    ensures pos <= t <= |c| && !Complete(c, t)
    decreases |c| - pos
  {
    if Complete(c, pos) then TailStart(c, LineEnd(c, pos)) else pos
  }

  predicate Boundary(c: seq<Byte>, pos: nat) {
    pos <= |c| && (pos == 0 || c[pos - 1] == NEWLINE)
  }

  // ---------------------------------------------------------------- facts about lines

  // A line end is pinned down by what it is, so appending bytes does not move a complete line.
  lemma {:induction false} LineEndUnique(c: seq<Byte>, pos: nat, e: nat)
    requires pos < e <= |c| && c[e - 1] == NEWLINE && forall i :: pos <= i < e - 1 ==> c[i] != NEWLINE
    ensures LineEnd(c, pos) == e && Complete(c, pos)
    decreases e - pos
  {
    if c[pos] != NEWLINE {
      LineEndUnique(c, pos + 1, e);
    }
  }

  lemma CompleteIsStable(c: seq<Byte>, c': seq<Byte>, pos: nat)
    requires pos <= |c| && c <= c' && Complete(c, pos)
    ensures Complete(c', pos) && LineEnd(c', pos) == LineEnd(c, pos)
  {
    LineEndUnique(c', pos, LineEnd(c, pos));
  }

  // A complete line that starts before a boundary ends at or before it.
  lemma CompleteWithin(c: seq<Byte>, m: nat, pos: nat)
    requires pos < m && Boundary(c, m)
    ensures Complete(c, pos) && LineEnd(c, pos) <= m
    ensures Complete(c[..m], pos) && LineEnd(c[..m], pos) == LineEnd(c, pos)
  {
    assert c[m - 1] == NEWLINE;
    LineEndUnique(c[..m], pos, LineEnd(c, pos));
  }

  // The same line in two contents yields the same output.
  lemma ExpectedCons(c: seq<Byte>, d: seq<Byte>, identity: Identity, pos: nat)
    requires pos <= |d| && d <= c && Complete(d, pos)
    ensures Complete(c, pos) && LineEnd(c, pos) == LineEnd(d, pos)
    ensures var e := LineEnd(c, pos); var first := Emitted(c[pos..e], identity, e);
            && Expected(c, identity, pos) == first + Expected(c, identity, e)
            && Expected(d, identity, pos) == first + Expected(d, identity, e)
  {
    CompleteIsStable(d, c, pos);
    var e := LineEnd(c, pos);
    assert d[pos..e] == c[pos..e];
  }

  // What is expected up to a line boundary, and what is expected from there on.
  lemma {:induction false} ExpectedSplit(c: seq<Byte>, identity: Identity, pos: nat, m: nat)
    requires pos <= m && Boundary(c, m)
    ensures Expected(c, identity, pos) == Expected(c[..m], identity, pos) + Expected(c, identity, m)
    decreases m - pos
  {
    if pos < m {
      CompleteWithin(c, m, pos);
      ExpectedCons(c, c[..m], identity, pos);
      ExpectedSplit(c, identity, LineEnd(c, pos), m);
    }
  }

  // Reading one more complete line.
  lemma ExpectedStep(c: seq<Byte>, identity: Identity, pos: nat)
    requires Boundary(c, pos) && Complete(c, pos)
    ensures var e := LineEnd(c, pos);
            Boundary(c, e)
            && Expected(c[..e], identity, 0) == Expected(c[..pos], identity, 0) + Emitted(c[pos..e], identity, e)
  {
    var e := LineEnd(c, pos);
    assert c[..e][..pos] == c[..pos];
    ExpectedSplit(c[..e], identity, 0, pos);
    OneLine(c, identity, pos);
  }

  // Up to the end of its first line a file yields that line.
  lemma OneLine(c: seq<Byte>, identity: Identity, pos: nat)
    requires pos <= |c| && Complete(c, pos)
    ensures var e := LineEnd(c, pos); Expected(c[..e], identity, pos) == Emitted(c[pos..e], identity, e)
  {
    var e := LineEnd(c, pos);
    PrefixHead(c, identity, pos, e);
    assert Emitted(c[pos..e], identity, e) + [] == Emitted(c[pos..e], identity, e);
  }

  // A prefix that reaches past the first line starts with the same line.
  lemma PrefixHead(c: seq<Byte>, identity: Identity, pos: nat, off: nat)
    requires pos <= |c| && Complete(c, pos) && LineEnd(c, pos) <= off <= |c|
    ensures var e := LineEnd(c, pos);
            Expected(c[..off], identity, pos) == Emitted(c[pos..e], identity, e) + Expected(c[..off], identity, e)
    ensures Expected(c[..LineEnd(c, pos)], identity, LineEnd(c, pos)) == []
  {
    LineEndUnique(c[..off], pos, LineEnd(c, pos));
    ExpectedCons(c, c[..off], identity, pos);
  }

  lemma SplitAfter(first: seq<RawLine>, rest: seq<RawLine>, k: nat)
    requires |first| < k <= |first| + |rest|
    ensures (first + rest)[k - 1] == rest[k - |first| - 1] && (first + rest)[..k] == first + rest[..k - |first|]
  {
  }

  // The k-th expected line ends at a boundary, and it is the last of the lines expected up to there.
  lemma {:induction false} ExpectedPrefix(c: seq<Byte>, identity: Identity, pos: nat, k: nat)
    requires pos <= |c| && 1 <= k <= |Expected(c, identity, pos)|
    ensures var lines := Expected(c, identity, pos); var off := lines[k - 1].cursor.offset;
            && pos < off <= |c| && Boundary(c, off)
            && lines[k - 1].cursor.identity == identity
            && Expected(c[..off], identity, pos) == lines[..k]
    decreases |c| - pos
  {
    var e := LineEnd(c, pos);
    var first, rest := Emitted(c[pos..e], identity, e), Expected(c, identity, e);
    ExpectedHead(c, identity, pos);
    if k <= |first| {
      PrefixHead(c, identity, pos, e);
      assert (first + rest)[..1] == first == first + [];
    } else {
      ExpectedPrefix(c, identity, e, k - |first|);
      SplitAfter(first, rest, k);
      PrefixHead(c, identity, pos, rest[k - |first| - 1].cursor.offset);
    }
  }

  lemma {:induction false} TailBoundary(c: seq<Byte>, identity: Identity, pos: nat)
    requires Boundary(c, pos)
    ensures Boundary(c, TailStart(c, pos))
    ensures Expected(c, identity, pos) == Expected(c[..TailStart(c, pos)], identity, pos)
    decreases |c| - pos
  {
    if Complete(c, pos) {
      TailBoundary(c, identity, LineEnd(c, pos));
    }
    ExpectedSplit(c, identity, pos, TailStart(c, pos));
  }

  lemma Associates(a: seq<RawLine>, b: seq<RawLine>, c: seq<RawLine>)
    ensures (a + b) + c == a + (b + c)
  {
  }

  lemma ExpectedHead(c: seq<Byte>, identity: Identity, pos: nat)
    requires pos <= |c| && Complete(c, pos)
    ensures var e := LineEnd(c, pos);
            Expected(c, identity, pos) == Emitted(c[pos..e], identity, e) + Expected(c, identity, e)
  {
  }

  // The promised output moves from what is still expected to what has been emitted.
  lemma Advance(done: seq<RawLine>, c: seq<Byte>, identity: Identity, pos: nat)
    requires pos <= |c| && Complete(c, pos)
    ensures var e := LineEnd(c, pos);
            && (done + Emitted(c[pos..e], identity, e)) + Expected(c, identity, e) == done + Expected(c, identity, pos)
            && TailStart(c, pos) == TailStart(c, e)
            && (e - pos > MAX_LINE_BYTES ==> done + Emitted(c[pos..e], identity, e) == done)
  {
    var e := LineEnd(c, pos);
    ExpectedHead(c, identity, pos);
    Associates(done, Emitted(c[pos..e], identity, e), Expected(c, identity, e));
  }

  // ---------------------------------------------------------------- the promised output, byte by byte

  // Bytes s to e are one line with its newline, at `pos` or after it.
  ghost predicate WholeLine(c: seq<Byte>, pos: nat, s: nat, e: nat) {
    && pos <= s < e <= |c| && (s == pos || c[s - 1] == 10)
    && c[e - 1] == 10 && forall i :: s <= i < e - 1 ==> c[i] != 10
  }

  // The text is the bytes without the carriage returns and newlines they end in.
  ghost predicate TextOf(text: seq<Byte>, raw: seq<Byte>) {
    && text <= raw && (forall i :: |text| <= i < |raw| ==> raw[i] == 10 || raw[i] == 13)
    && (text != [] ==> text[|text| - 1] != 10 && text[|text| - 1] != 13)
  }

  ghost predicate LineOf(c: seq<Byte>, identity: Identity, pos: nat, l: RawLine) {
    exists s: nat ::
      && WholeLine(c, pos, s, l.cursor.offset) && l.cursor.offset - s <= 65536
      && l.cursor == Cursor(identity, l.cursor.offset, c[s..l.cursor.offset])
      && 0 !in l.text && TextOf(l.text, l.cursor.digest)
  }

  predicate EndsAt(lines: seq<RawLine>, e: nat) {
    exists k :: 0 <= k < |lines| && lines[k].cursor.offset == e
  }

  // The lines are whole lines in file order, and a whole line is among them exactly if it is short enough
  // and free of NULs.
  ghost predicate LinesMean(c: seq<Byte>, identity: Identity, pos: nat, lines: seq<RawLine>) {
    && (forall k :: 0 <= k < |lines| ==> LineOf(c, identity, pos, lines[k]))
    && (forall k, m :: 0 <= k < m < |lines| ==> lines[k].cursor.offset < lines[m].cursor.offset)
    && (forall s: nat, e: nat :: WholeLine(c, pos, s, e) ==> (EndsAt(lines, e) <==> e - s <= 65536 && 0 !in c[s..e]))
  }

  lemma {:induction false} StripMeans(raw: seq<Byte>)
    ensures TextOf(StripEnd(raw), raw) && (0 in StripEnd(raw) <==> 0 in raw)
  {
    if raw != [] && (raw[|raw| - 1] == 10 || raw[|raw| - 1] == 13) {
      StripMeans(raw[..|raw| - 1]);
      assert raw == raw[..|raw| - 1] + [raw[|raw| - 1]];
    }
  }

  // After the first line the whole lines are those of the rest.
  lemma WholeLinesAfter(c: seq<Byte>, pos: nat, s: nat, e: nat)
    requires pos <= |c| && Complete(c, pos)
    ensures WholeLine(c, pos, s, e) <==> (s == pos && e == LineEnd(c, pos)) || WholeLine(c, LineEnd(c, pos), s, e)
  {
    if WholeLine(c, pos, s, e) && s == pos {
      LineEndUnique(c, pos, e);
    }
  }

  lemma FirstLineMeans(c: seq<Byte>, identity: Identity, pos: nat)
    requires pos <= |c| && Complete(c, pos)
    ensures var e := LineEnd(c, pos);
            var first := Emitted(c[pos..e], identity, e);
            && (forall l :: l in first ==> LineOf(c, identity, pos, l) && l.cursor.offset == e)
            && (first != [] <==> e - pos <= 65536 && 0 !in c[pos..e])
  {
    StripMeans(c[pos..LineEnd(c, pos)]);
    WholeLinesAfter(c, pos, pos, LineEnd(c, pos));
  }

  lemma LaterLineMeans(c: seq<Byte>, identity: Identity, pos: nat, l: RawLine)
    requires pos <= |c| && Complete(c, pos) && LineOf(c, identity, LineEnd(c, pos), l)
    ensures LineOf(c, identity, pos, l) && l.cursor.offset > LineEnd(c, pos)
  {
    var s: nat :| WholeLine(c, LineEnd(c, pos), s, l.cursor.offset) && l.cursor.offset - s <= 65536
                  && l.cursor == Cursor(identity, l.cursor.offset, c[s..l.cursor.offset]);
    WholeLinesAfter(c, pos, s, l.cursor.offset);
  }

  lemma {:induction false} ExpectedMeans(c: seq<Byte>, identity: Identity, pos: nat)
    requires pos <= |c|
    ensures LinesMean(c, identity, pos, Expected(c, identity, pos))
    decreases |c| - pos
  {
    if Complete(c, pos) {
      var e := LineEnd(c, pos);
      ExpectedMeans(c, identity, e);
      ExpectedHead(c, identity, pos);
      FirstLineMeans(c, identity, pos);
      OneMoreLine(c, identity, pos, Emitted(c[pos..e], identity, e), Expected(c, identity, e));
    }
  }

  lemma OneMoreLine(c: seq<Byte>, identity: Identity, pos: nat, first: seq<RawLine>, rest: seq<RawLine>)
    requires pos <= |c| && Complete(c, pos) && LinesMean(c, identity, LineEnd(c, pos), rest) && |first| <= 1
    requires forall l :: l in first ==> LineOf(c, identity, pos, l) && l.cursor.offset == LineEnd(c, pos)
    requires first != [] <==> LineEnd(c, pos) - pos <= 65536 && 0 !in c[pos..LineEnd(c, pos)]
    ensures LinesMean(c, identity, pos, first + rest)
  {
    var lines := first + rest;
    forall k | 0 <= k < |lines|
      ensures LineOf(c, identity, pos, lines[k])
      ensures if k < |first| then lines[k].cursor.offset == LineEnd(c, pos)
              else lines[k] == rest[k - |first|] && lines[k].cursor.offset > LineEnd(c, pos)
    {
      if k < |first| {
        assert lines[k] in first;
      } else {
        LaterLineMeans(c, identity, pos, rest[k - |first|]);
      }
    }
    if first != [] {
      assert first[0] in first && EndsAt(first, LineEnd(c, pos));
    }
    assert !EndsAt(rest, LineEnd(c, pos)) by {
      assert forall k :: 0 <= k < |rest| ==> rest[k] == lines[|first| + k];
    }
    forall s: nat, e: nat | WholeLine(c, pos, s, e)
      ensures EndsAt(lines, e) <==> e - s <= 65536 && 0 !in c[s..e]
    {
      WholeLinesAfter(c, pos, s, e);
      EndsInEither(first, rest, e);
    }
  }

  lemma EndsInEither(first: seq<RawLine>, rest: seq<RawLine>, e: nat)
    ensures EndsAt(first + rest, e) <==> EndsAt(first, e) || EndsAt(rest, e)
  {
    forall k | 0 <= k < |first| && first[k].cursor.offset == e
      ensures EndsAt(first + rest, e)
    {
      assert (first + rest)[k] == first[k];
    }
    forall k | 0 <= k < |rest| && rest[k].cursor.offset == e
      ensures EndsAt(first + rest, e)
    {
      assert (first + rest)[|first| + k] == rest[k];
    }
  }

  // The unfinished line at the end starts here.
  ghost predicate TailAt(c: seq<Byte>, pos: nat, t: nat) {
    pos <= t <= |c| && (t == pos || c[t - 1] == 10) && forall i :: t <= i < |c| ==> c[i] != 10
  }

  lemma {:induction false} TailMeans(c: seq<Byte>, pos: nat)
    requires pos <= |c|
    ensures TailAt(c, pos, TailStart(c, pos))
    decreases |c| - pos
  {
    if Complete(c, pos) {
      TailMeans(c, LineEnd(c, pos));
    }
  }

  // ---------------------------------------------------------------- bounded reads

  // Where `readline(limit)` stops.
  function ChunkEnd(c: seq<Byte>, pos: nat, limit: nat): (e: nat)
    requires pos <= |c|
    ensures pos <= e <= |c| && e - pos <= limit
  {
    var e := LineEnd(c, pos); if e - pos <= limit then e else pos + limit
  }

  predicate EndsLine(chunk: seq<Byte>) {
    chunk != [] && chunk[|chunk| - 1] == NEWLINE
  }

  lemma {:induction false} LineEndInside(c: seq<Byte>, s: nat, p: nat)
    requires s <= p <= |c| && forall i :: s <= i < p ==> c[i] != NEWLINE
    ensures LineEnd(c, s) == LineEnd(c, p)
    decreases p - s
  {
    if s < p { LineEndInside(c, s + 1, p); }
  }

  // What a bounded read at `pos` tells about the line there.
  lemma ChunkFacts(c: seq<Byte>, pos: nat)
    requires pos <= |c|
    ensures var e := ChunkEnd(c, pos, MAX_LINE_BYTES); var chunk := c[pos..e];
            && (chunk == [] ==> pos == |c|)
            && (EndsLine(chunk) ==> Complete(c, pos) && LineEnd(c, pos) == e)
            && (!EndsLine(chunk) && |chunk| < MAX_LINE_BYTES ==> !Complete(c, pos) && e == |c|)
            && (!EndsLine(chunk) && |chunk| >= MAX_LINE_BYTES ==>
                  && e == pos + MAX_LINE_BYTES && LineEnd(c, e) == LineEnd(c, pos)
                  && (Complete(c, e) <==> Complete(c, pos)))
  {
    var e := ChunkEnd(c, pos, MAX_LINE_BYTES);
    var end := LineEnd(c, pos);
    var chunk := c[pos..e];
    if chunk != [] {
      assert chunk[|chunk| - 1] == c[e - 1];
      if !EndsLine(chunk) && |chunk| >= MAX_LINE_BYTES {
        LineEndInside(c, pos, e);
      }
    }
  }

  class FileHandle {
    const content: seq<Byte>
    var position: nat

    ghost predicate Valid()
      reads this
    {
      position <= |content|
    }

    constructor (content: seq<Byte>)
      ensures Valid() && this.content == content && position == 0
    {
      this.content, position := content, 0;
    }

    method ReadLine(limit: nat) returns (chunk: seq<Byte>)
      requires Valid()
      modifies this
      ensures Valid() && position == ChunkEnd(content, old(position), limit)
      ensures chunk == content[old(position)..position]
    {
      var end := ChunkEnd(content, position, limit);
      chunk := content[position..end];
      position := end;
    }

    method Seek(offset: nat)
      requires offset <= |content|
      modifies this
      ensures Valid() && position == offset
    {
      position := offset;
    }
  }

  // The path as seen by open(): missing, or a regular file with an identity.
  datatype Path = Missing | Present(identity: Identity, content: seq<Byte>)

  datatype SavedCursor = NoCursor | Malformed | Saved(cursor: Cursor)

  datatype Opened = Unavailable | CursorUnavailable | Handle(h: FileHandle, identity: Identity)

  datatype Backlogged = BacklogUnavailable | BacklogCursorUnavailable | Lines(lines: seq<RawLine>)

  class Tailer {
    constructor () {}

    method OpenAt(path: Path, saved: SavedCursor) returns (o: Opened)
      ensures o == CursorUnavailable <==>
                saved.Malformed? || (saved.Saved? && path.Present? && path.identity != saved.cursor.identity)
      ensures o == Unavailable <==> !saved.Malformed? && path.Missing?
      ensures o.Handle? ==>
                && fresh(o.h) && o.h.Valid() && o.h.content == path.content && o.identity == path.identity
                && o.h.position
                   == if saved.Saved? && saved.cursor.offset <= |path.content| then saved.cursor.offset else 0
    {
      if saved.Malformed? {
        return CursorUnavailable;
      }
      if path.Missing? {
        return Unavailable;
      }
      if saved.Saved? && saved.cursor.identity != path.identity {
        return CursorUnavailable;
      }
      var h := new FileHandle(path.content);
      if saved.Saved? && saved.cursor.offset <= |path.content| {
        h.Seek(saved.cursor.offset);
      }
      return Handle(h, path.identity);
    }

    // On content that does not change: exactly the complete, NUL-free lines within the cap, each
    // overlong line skipped whole; a short trailing fragment is left unread for the next call.
    method ReadAvailable(h: FileHandle, identity: Identity) returns (lines: seq<RawLine>)
      requires h.Valid()
      modifies h
      ensures h.Valid() && lines == Expected(h.content, identity, old(h.position))
      ensures var t := TailStart(h.content, old(h.position));
              && TailAt(h.content, old(h.position), t)
              && h.position == if |h.content| - t < 65536 then t else |h.content|
      ensures LinesMean(h.content, identity, old(h.position), lines)
    {
      ExpectedMeans(h.content, identity, h.position);
      TailMeans(h.content, h.position);
      lines := [];
      while true
        invariant h.Valid()
        invariant lines + Expected(h.content, identity, h.position) == Expected(h.content, identity, old(h.position))
        invariant TailStart(h.content, h.position) == TailStart(h.content, old(h.position))
        decreases |h.content| - h.position
      {
        var start := h.position;
        var chunk := h.ReadLine(MAX_LINE_BYTES);
        ChunkFacts(h.content, start);
        if Complete(h.content, start) {
          Advance(lines, h.content, identity, start);
        }
        if chunk == [] {
          return;
        }
        if !EndsLine(chunk) {
          if |chunk| >= MAX_LINE_BYTES {
            var found := DiscardOverlong(h);
            if !found {
              return;
            }
            continue;
          }
          h.Seek(start);
          return;
        }
        assert chunk == h.content[start..h.position];
        var line := Line(chunk, identity, h.position);
        if line.Some? {
          lines := lines + [line.value];
        } else {
          assert lines + [] == lines;
        }
      }
    }

    // Skips to the end of the line the handle is in; false when the content ends first.
    method DiscardOverlong(h: FileHandle) returns (found: bool)
      requires h.Valid()
      modifies h
      ensures h.Valid() && h.position == LineEnd(h.content, old(h.position))
      ensures found <==> Complete(h.content, old(h.position))
    {
      while true
        invariant h.Valid() && old(h.position) <= h.position
        invariant forall i :: old(h.position) <= i < h.position ==> h.content[i] != NEWLINE
        invariant LineEnd(h.content, h.position) == LineEnd(h.content, old(h.position))
        decreases |h.content| - h.position
      {
        var start := h.position;
        var chunk := h.ReadLine(MAX_LINE_BYTES);
        if chunk == [] {
          return false;
        }
        if EndsLine(chunk) {
          LineEndUnique(h.content, old(h.position), h.position);
          return true;
        }
        LineEndInside(h.content, start, h.position);
      }
    }

    // Resuming from the cursor of line k of a file emits exactly the lines after k; without a cursor,
    // all of them. With a limit it stops after that many lines, but never before the first.
    method Backlog(path: Path, saved: SavedCursor, limit: Option<nat>) returns (result: Backlogged)
      ensures result == BacklogUnavailable <==> !saved.Malformed? && path.Missing?
      ensures result == BacklogCursorUnavailable <==>
                saved.Malformed? || (saved.Saved? && path.Present? && path.identity != saved.cursor.identity)
      ensures result.Lines? && saved.NoCursor? ==>
          UpTo(Expected(path.content, path.identity, 0), limit, result.lines)
      ensures forall k :: result.Lines? && saved.Saved?
                && 1 <= k <= |Expected(path.content, path.identity, 0)|
                && saved.cursor == Expected(path.content, path.identity, 0)[k - 1].cursor
                ==> UpTo(Expected(path.content, path.identity, 0)[k..], limit, result.lines)
      ensures result.Lines? ==>
                var start := if saved.Saved? && saved.cursor.offset <= |path.content| then saved.cursor.offset else 0;
                exists all :: LinesMean(path.content, path.identity, start, all) && UpTo(all, limit, result.lines)
    {
      var o := OpenAt(path, saved);
      match o {
        case Unavailable => return BacklogUnavailable;
        case CursorUnavailable => return BacklogCursorUnavailable;
        case Handle(h, identity) =>
          ghost var start := h.position;
          var lines := ReadAvailable(h, identity);
          forall k | saved.Saved? && 1 <= k <= |Expected(path.content, path.identity, 0)|
                     && saved.cursor == Expected(path.content, path.identity, 0)[k - 1].cursor
            ensures lines == Expected(path.content, path.identity, 0)[k..]
          {
            ExpectedPrefix(path.content, path.identity, 0, k);
            ExpectedSplit(path.content, path.identity, 0, start);
          }
          assert UpTo(lines, limit, Limited(lines, limit));
          return Lines(Limited(lines, limit));
      }
    }
  }

  function Limited(lines: seq<RawLine>, limit: Option<nat>): seq<RawLine> {
    if limit.None? || limit.value >= |lines| then lines
    else if limit.value == 0 then lines[..1] else lines[..limit.value]
  }

  // The first lines up to the limit, but never fewer than one if there is one.
  predicate UpTo(all: seq<RawLine>, limit: Option<nat>, lines: seq<RawLine>) {
    && lines <= all
    && (lines == all || (limit.Some? && |lines| == if limit.value == 0 then 1 else limit.value))
    && (limit.Some? ==> |lines| <= 1 || |lines| <= limit.value)
  }
}
