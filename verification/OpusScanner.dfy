/** The duration of an Opus file, from the granule positions of its Ogg pages. */
module OpusScanner {
  import opened Basics
  import opened Bytes

  // "OggS"
  const CAPTURE: seq<Byte> := [0x4F, 0x67, 0x67, 0x53]

  const HEADER: nat := 27

  const SIGN: int := 0x8000_0000_0000_0000

  /** Eight little-endian bytes read as a signed number, and back. */
  function Signed(value: nat): int { if value >= SIGN then value - 2 * SIGN else value }

  function Unsigned(value: int): int { if value < 0 then value + 2 * SIGN else value }

  function Sum(table: seq<Byte>): nat {
    if table == [] then 0 else Sum(table[..|table| - 1]) + table[|table| - 1]
  }

  /** A whole page header that starts with the capture pattern. */
  predicate HeaderAt(s: seq<Byte>, pos: nat) {
    pos + HEADER <= |s| && s[pos..pos + 4] == CAPTURE
  }

  function GranuleAt(s: seq<Byte>, pos: nat): int
    requires HeaderAt(s, pos)
  {
    Signed(FromLe(s[pos + 6..pos + 14]))
  }

  /** The headers the scan stops at, from a position on: it moves one byte at a time
      until it meets one, then jumps over the page that header describes. */
  function Starts(s: seq<Byte>, pos: nat): (r: seq<nat>)
    ensures forall k :: 0 <= k < |r| ==> pos <= r[k] && HeaderAt(s, r[k])
    decreases |s| - pos
  {
    if pos + HEADER > |s| then []
    else if !HeaderAt(s, pos) then Starts(s, pos + 1)
    else
      var data := pos + HEADER + s[pos + 26];
      if data > |s| then [pos] else [pos] + Starts(s, data + Sum(s[pos + HEADER..data]))
  }

  function Latest(s: seq<Byte>, starts: seq<nat>, best: int): int
    requires forall k :: 0 <= k < |starts| ==> HeaderAt(s, starts[k])
  {
    if starts == [] then best else Latest(s, starts[1..], Max(best, GranuleAt(s, starts[0])))
  }

  method PageSize(table: seq<Byte>) returns (size: nat)
    ensures size == Sum(table)
  {
    size := 0;
    for i := 0 to |table|
      invariant size == Sum(table[..i])
    {
      assert table[..i + 1][..i] == table[..i];
      size := size + table[i];
    }
    assert table[..|table|] == table;
  }

  lemma ScanEnds(s: seq<Byte>, pos: nat, best: int)
    requires pos + HEADER > |s|
    ensures Latest(s, Starts(s, pos), best) == best
  {
  }

  lemma ScanMoves(s: seq<Byte>, pos: nat, best: int)
    requires pos + HEADER <= |s| && !HeaderAt(s, pos)
    ensures Latest(s, Starts(s, pos), best) == Latest(s, Starts(s, pos + 1), best)
  {
  }

  lemma ScanJumps(s: seq<Byte>, pos: nat, best: int)
    requires HeaderAt(s, pos)
    ensures var data := pos + HEADER + s[pos + 26]; var next := Max(best, GranuleAt(s, pos));
            Latest(s, Starts(s, pos), best)
            == if data > |s| then next else Latest(s, Starts(s, data + Sum(s[pos + HEADER..data])), next)
  {
    hide GranuleAt, Sum;
    var starts := Starts(s, pos);
    var data := pos + HEADER + s[pos + 26];
    assert data > |s| ==> starts[1..] == [];
    assert data <= |s| ==> starts[1..] == Starts(s, data + Sum(s[pos + HEADER..data]));
  }

  /** The loop of the scanner; it ends on every input. */
  method OpusDuration(s: seq<Byte>) returns (duration: real)
    ensures duration == Latest(s, Starts(s, 0), 0) as real / 48000.0
  {
    hide Starts, Latest, Sum, FromLe;
    var pos, total := 0, 0;
    while true
      invariant Latest(s, Starts(s, 0), 0) == Latest(s, Starts(s, pos), total)
      decreases |s| - pos
    {
      if pos + HEADER > |s| {
        ScanEnds(s, pos, total);
        break;
      }
      var header := s[pos..pos + HEADER];
      Within(s, pos, pos + HEADER, 0, 4);
      if header[0..4] != CAPTURE {
        ScanMoves(s, pos, total);
        pos := pos + 1;
        continue;
      }
      ScanJumps(s, pos, total);
      Within(s, pos, pos + HEADER, 6, 14);
      var granule := Signed(FromLe(header[6..14]));
      if granule > total {
        total := granule;
      }
      var data := pos + HEADER + header[26];
      if data > |s| {
        break;
      }
      var size := PageSize(s[pos + HEADER..data]);
      pos := data + size;
    }
    duration := total as real / 48000.0;
  }

  // ------------------------------------------------------------- streams of pages

  datatype Page = Page(kind: seq<Byte>, granule: int, rest: seq<Byte>, table: seq<Byte>, body: seq<Byte>)

  predicate WellFormed(p: Page) {
    && |p.kind| == 2 && |p.rest| == 12 && |p.table| <= 255 && |p.body| == Sum(p.table)
    && -SIGN <= p.granule < SIGN
  }

  function PageBytes(p: Page): seq<Byte>
    requires WellFormed(p)
  {
    CAPTURE + p.kind + Le(Unsigned(p.granule), 8) + p.rest + [|p.table|] + p.table + p.body
  }

  /** Pages with other bytes before each of them. */
  datatype Chunk = Chunk(junk: seq<Byte>, page: Page)

  predicate AllWellFormed(chunks: seq<Chunk>) {
    forall k :: 0 <= k < |chunks| ==> WellFormed(chunks[k].page)
  }

  function Stream(chunks: seq<Chunk>, tail: seq<Byte>): seq<Byte>
    requires AllWellFormed(chunks)
  {
    if chunks == [] then tail
    else chunks[0].junk + PageBytes(chunks[0].page) + Stream(chunks[1..], tail)
  }

  predicate Quiet(s: seq<Byte>, a: nat, b: nat) {
    forall p :: a <= p < b ==> !HeaderAt(s, p)
  }

  /** Where the pages of a stream begin, when the stream begins at a position. */
  function PageStarts(chunks: seq<Chunk>, pos: nat): seq<nat>
    requires AllWellFormed(chunks)
  {
    if chunks == [] then []
    else var start := pos + |chunks[0].junk|;
      [start] + PageStarts(chunks[1..], start + |PageBytes(chunks[0].page)|)
  }

  /** No header begins in the bytes between the pages. */
  predicate QuietBetween(s: seq<Byte>, chunks: seq<Chunk>, pos: nat)
    requires AllWellFormed(chunks)
  {
    if chunks == [] then Quiet(s, pos, |s|)
    else
      var start := pos + |chunks[0].junk|;
      Quiet(s, pos, start) && QuietBetween(s, chunks[1..], start + |PageBytes(chunks[0].page)|)
  }

  function Granules(chunks: seq<Chunk>): (r: seq<int>)
    ensures |r| == |chunks|
  {
    if chunks == [] then [] else [chunks[0].page.granule] + Granules(chunks[1..])
  }

  lemma {:induction false} SkipQuiet(s: seq<Byte>, a: nat, b: nat)
    requires a <= b <= |s| && Quiet(s, a, b)
    ensures Starts(s, a) == Starts(s, b)
    decreases b - a
  {
    if a < b && a + HEADER <= |s| {
      assert !HeaderAt(s, a);
      SkipQuiet(s, a + 1, b);
    }
  }

  lemma PageLayout(p: Page)
    requires WellFormed(p)
    ensures var b, n := PageBytes(p), |p.table|;
            && |b| == HEADER + n + Sum(p.table)
            && b[0..4] == CAPTURE && b[6..14] == Le(Unsigned(p.granule), 8) && b[26] == n && b[HEADER..HEADER + n] == p.table
  {
  }

  /** The page in the bytes of its file: the capture pattern, the granule position as a
      little-endian two's complement number, the segment table behind its length, the body. */
  lemma PageIsOgg(p: Page)
    requires WellFormed(p)
    ensures var b, n := PageBytes(p), |p.table|;
            && |b| >= 27 + n && b[0..4] == [0x4F, 0x67, 0x67, 0x53] && b[4..6] == p.kind
            && LongNumber(b, 6) == (if p.granule < 0 then p.granule + 0x1_0000_0000_0000_0000 else p.granule)
            && b[14..26] == p.rest && b[26] == n && b[27..27 + n] == p.table && b[27 + n..] == p.body
  {
    hide Le, Sum;
    PageLayout(p);
    Widths();
    DecodeEncode(Unsigned(p.granule), 8);
    LongNumberIs(PageBytes(p), 6);
  }

  lemma GranuleDecodes(g: int)
    requires -SIGN <= g < SIGN
    ensures Unsigned(g) >= 0 && Signed(FromLe(Le(Unsigned(g), 8))) == g
  {
    Widths();
    DecodeEncode(Unsigned(g), 8);
  }

  lemma PageInStream(s: seq<Byte>, pos: nat, p: Page)
    requires WellFormed(p) && pos + |PageBytes(p)| <= |s| && s[pos..pos + |PageBytes(p)|] == PageBytes(p)
    ensures var data := pos + HEADER + |p.table|;
            && data + Sum(p.table) == pos + |PageBytes(p)|
            && s[pos..pos + 4] == CAPTURE && s[pos + 6..pos + 14] == Le(Unsigned(p.granule), 8)
            && s[pos + 26] == |p.table| && s[pos + HEADER..data] == p.table
  {
    hide PageBytes, Le, Sum;
    var b, n, end := PageBytes(p), |p.table|, pos + |PageBytes(p)|;
    PageLayout(p);
    Within(s, pos, end, 0, 4);
    Within(s, pos, end, 6, 14);
    Within(s, pos, end, HEADER, HEADER + n);
    assert s[pos + 26] == b[26];
  }

  lemma PageIsVisited(s: seq<Byte>, pos: nat, p: Page)
    requires WellFormed(p) && pos + |PageBytes(p)| <= |s| && s[pos..pos + |PageBytes(p)|] == PageBytes(p)
    ensures HeaderAt(s, pos) && GranuleAt(s, pos) == p.granule
    ensures Starts(s, pos) == [pos] + Starts(s, pos + |PageBytes(p)|)
  {
    hide PageBytes, FromLe, Le, Sum;
    PageInStream(s, pos, p);
    GranuleDecodes(p.granule);
  }

  lemma ChunkIsVisited(s: seq<Byte>, pos: nat, chunks: seq<Chunk>, tail: seq<Byte>)
    requires AllWellFormed(chunks) && chunks != [] && pos <= |s| && s[pos..] == Stream(chunks, tail)
    requires QuietBetween(s, chunks, pos)
    ensures var start := pos + |chunks[0].junk|; var next := start + |PageBytes(chunks[0].page)|;
            && next <= |s| && s[next..] == Stream(chunks[1..], tail)
            && HeaderAt(s, start) && GranuleAt(s, start) == chunks[0].page.granule
            && Starts(s, pos) == [start] + Starts(s, next)
  {
    hide PageBytes, Starts, HeaderAt, GranuleAt;
    var junk, page, after := chunks[0].junk, PageBytes(chunks[0].page), Stream(chunks[1..], tail);
    var start := pos + |junk|;
    var next := start + |page|;
    Pieces(s, pos, junk, page, after);
    SkipQuiet(s, pos, start);
    PageIsVisited(s, start, chunks[0].page);
  }

  lemma Pieces(s: seq<Byte>, pos: nat, junk: seq<Byte>, page: seq<Byte>, after: seq<Byte>)
    requires pos <= |s| && s[pos..] == junk + page + after
    ensures var start := pos + |junk|; var next := start + |page|;
            next <= |s| && s[start..next] == page && s[next..] == after
  {
    var start := pos + |junk|;
    var next := start + |page|;
    assert s[start..next] == s[pos..][|junk|..|junk| + |page|];
    assert s[next..] == s[pos..][|junk| + |page|..];
  }

  /** From the first byte of a stream the scan stops exactly where the pages begin. */
  lemma {:induction false} VisitsThePages(s: seq<Byte>, pos: nat, chunks: seq<Chunk>, tail: seq<Byte>, best: int)
    requires AllWellFormed(chunks) && pos <= |s| && s[pos..] == Stream(chunks, tail) && QuietBetween(s, chunks, pos)
    ensures Starts(s, pos) == PageStarts(chunks, pos)
    ensures Latest(s, Starts(s, pos), best) == Greatest(Granules(chunks), best)
    decreases |chunks|
  {
    hide PageBytes, Starts, HeaderAt, GranuleAt, Stream;
    if chunks == [] {
      SkipQuiet(s, pos, |s|);
      NothingAtTheEnd(s);
    } else {
      ChunkIsVisited(s, pos, chunks, tail);
      var start := pos + |chunks[0].junk|;
      var next := start + |PageBytes(chunks[0].page)|;
      VisitsThePages(s, next, chunks[1..], tail, Max(best, chunks[0].page.granule));
      assert Starts(s, pos)[1..] == Starts(s, next);
      assert Granules(chunks)[1..] == Granules(chunks[1..]);
    }
  }

  lemma NothingAtTheEnd(s: seq<Byte>)
    ensures Starts(s, |s|) == []
  {
  }

  function Greatest(granules: seq<int>, best: int): int {
    if granules == [] then best else Greatest(granules[1..], Max(best, granules[0]))
  }

  lemma {:induction false} GreatestIs(granules: seq<int>, best: int)
    ensures Greatest(granules, best) >= best
    ensures forall k :: 0 <= k < |granules| ==> granules[k] <= Greatest(granules, best)
    ensures Greatest(granules, best) == best || Greatest(granules, best) in granules
  {
    if granules != [] {
      GreatestIs(granules[1..], Max(best, granules[0]));
    }
  }

  /** On junk and pages in any mixture, as long as no header begins outside a page, the
      scanner visits the pages and finds the greatest granule position, at least zero. */
  lemma ScannerFindsThePages(chunks: seq<Chunk>, tail: seq<Byte>)
    requires AllWellFormed(chunks) && QuietBetween(Stream(chunks, tail), chunks, 0)
    ensures var s := Stream(chunks, tail); var last := Latest(s, Starts(s, 0), 0);
            && Starts(s, 0) == PageStarts(chunks, 0)
            && last >= 0
            && (forall k :: 0 <= k < |chunks| ==> chunks[k].page.granule <= last)
            && (last == 0 || exists k :: 0 <= k < |chunks| && chunks[k].page.granule == last)
  {
    hide Stream, Starts, QuietBetween, PageStarts, Latest;
    var s := Stream(chunks, tail);
    assert s[0..] == s;
    VisitsThePages(s, 0, chunks, tail, 0);
    GreatestIs(Granules(chunks), 0);
    GranulesAre(chunks);
  }

  lemma {:induction false} GranulesAre(chunks: seq<Chunk>)
    ensures forall k :: 0 <= k < |chunks| ==> Granules(chunks)[k] == chunks[k].page.granule
  {
    if chunks != [] {
      GranulesAre(chunks[1..]);
    }
  }
}
