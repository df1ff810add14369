/** The read path of the chunk cache (cache/client.go): a per-project index
    of immutable on-disk chunks, and a client that answers range queries by
    merging the chunks that meet the requested window.

    The registry lock, logging and timing are left out; the chunk decoder,
    the query fingerprint and the freshness signal are parameters. */
module Cache {
  import opened Wrappers
  import opened Timeseries
  import Collections

  type ProjectId = string
  /** The fingerprint `queryHash` computes for a query's text. */
  type QueryHash = string
  type ChunkKey = string
  /** The identity the chunk reader gives a series. */
  type SeriesKey = int
  type Sample = real

  /** A chunk descriptor. `lastTs` is the value of the chunk's `To()`, the
      timestamp of its last point. */
  datatype Chunk = Chunk(from: Time, step: Duration, path: string, created: Time, lastTs: Time)

  datatype QueryData = QueryData(chunksOnDisk: map<ChunkKey, Chunk>)

  datatype ProjectData = ProjectData(queries: map<QueryHash, QueryData>, step: Duration)

  /** One sample slot of the merged result: a series and a point index on
      the aligned grid. */
  datatype Cell = Cell(series: SeriesKey, index: int)

  /** What one `chunk.Read` call does to the result sink: overwrite the
      given cells, or fail. */
  datatype ReadResult = Written(cells: map<Cell, Sample>) | Failed(err: string)

  /** `chunk.Read(path, from, pointsCount, step, ...)`; the fill function the
      caller passes is part of the reader. */
  type ChunkReader = (string, Time, int, Duration) -> ReadResult

  datatype Error = UnknownProject(projectId: ProjectId) | External(cause: string)

  // ---------------------------------------------------------------------
  // Grid arithmetic

  /** `int(to.Sub(from)/step + 1)`: the number of grid points. */
  function ResultPoints(from: Time, to: Time, step: Duration): int
    requires step > 0
  {
    Quot(to - from, step) + 1
  }

  /** An aligned window from grid index `a` to grid index `b` has
      `b - a + 1` points, the last of them at `b * step`. */
  lemma AlignedPoints(a: int, b: int, step: Duration)
    requires step > 0
    ensures ResultPoints(a * step, b * step, step) == b - a + 1
    ensures a * step + (ResultPoints(a * step, b * step, step) - 1) * step == b * step
  {
    assert b * step - a * step == (b - a) * step;
    QuotOfMultiple(b - a, step);
  }

  /** Every read covers the aligned window exactly: `points` grid points
      from `from'`, the last of them `to'`; a window with `from <= to` has
      at least one point. */
  lemma GridAlignment(from: Time, to: Time, step: Duration)
    requires step > 0
    ensures var from', to' := Truncate(from, step), Truncate(to, step);
      from' + (ResultPoints(from', to', step) - 1) * step == to'
    ensures from <= to ==> ResultPoints(Truncate(from, step), Truncate(to, step), step) >= 1
  {
    var a, b := Quot(from, step), Quot(to, step);
    assert Truncate(from, step) == a * step;
    assert Truncate(to, step) == b * step;
    AlignedPoints(a, b, step);
    if from <= to {
      QuotMonotone(from, to, step);
    }
  }

  lemma QuotMonotone(x: int, y: int, d: int)
    requires d > 0 && x <= y
    ensures Quot(x, d) <= Quot(y, d)
  {
    var a, b := Quot(x, d), Quot(y, d);
    DiffSign(a, b, d);
    MulSign(a, d);
    MulSign(b, d);
    QuotOrder(x, y, d, a, b, a * d, b * d);
  }

  lemma DiffSign(a: int, b: int, d: int)
    requires d > 0
    ensures a - b >= 1 ==> a * d - b * d >= d
  {
    assert a * d - b * d == (a - b) * d;
    MulSign(a - b, d);
  }

  /** The sign reasoning behind `QuotMonotone`, with the products `a * d`
      and `b * d` as plain numbers `ad` and `bd`. */
  lemma QuotOrder(x: int, y: int, d: int, a: int, b: int, ad: int, bd: int)
    requires d > 0 && x <= y
    requires x >= 0 ==> ad <= x < ad + d
    requires x < 0 ==> ad - d < x <= ad
    requires y >= 0 ==> bd <= y < bd + d
    requires y < 0 ==> bd - d < y <= bd
    requires a - b >= 1 ==> ad - bd >= d
    requires (a >= 1 ==> ad >= d) && (a == 0 ==> ad == 0) && (a <= -1 ==> ad <= -d)
    requires (b >= 1 ==> bd >= d) && (b == 0 ==> bd == 0) && (b <= -1 ==> bd <= -d)
    ensures a <= b
  {
  }

  // ---------------------------------------------------------------------
  // Chunk selection and ordering

  /** `!(ch.From > to || ch.To() < from)`: `[From, To()]` meets `[from, to]`. */
  predicate Intersects(ch: Chunk, from: Time, to: Time) {
    !(ch.from > to || ch.lastTs < from)
  }

  predicate SortedByCreated(s: seq<Chunk>) {
    forall i, j :: 0 <= i < j < |s| ==> s[i].created <= s[j].created
  }

  /** Inserts `c` before the first chunk that is not older than it. */
  function InsertByCreated(s: seq<Chunk>, c: Chunk): seq<Chunk>
  {
    if s == [] || c.created <= s[0].created then [c] + s
    else [s[0]] + InsertByCreated(s[1..], c)
  }

  lemma {:induction false} InsertByCreatedAdds(s: seq<Chunk>, c: Chunk)
    ensures multiset(InsertByCreated(s, c)) == multiset(s) + multiset{c}
  {
    if s != [] && c.created > s[0].created {
      InsertByCreatedAdds(s[1..], c);
      assert s == [s[0]] + s[1..];
    }
  }

  lemma ConsSorted(h: Chunk, t: seq<Chunk>)
    requires SortedByCreated(t)
    requires forall x :: x in t ==> h.created <= x.created
    ensures SortedByCreated([h] + t)
  {
    var r := [h] + t;
    forall i, j | 0 <= i < j < |r|
      ensures r[i].created <= r[j].created
    {
      assert r[j] == t[j - 1];
      if i > 0 {
        assert r[i] == t[i - 1];
      }
    }
  }

  /** Inserting into a list sorted by `Created` keeps it sorted. */
  lemma {:induction false} InsertByCreatedSorted(s: seq<Chunk>, c: Chunk)
    requires SortedByCreated(s)
    ensures SortedByCreated(InsertByCreated(s, c))
  {
    if s == [] || c.created <= s[0].created {
      ConsSorted(c, s);
    } else {
      var rest := InsertByCreated(s[1..], c);
      assert SortedByCreated(s[1..]);
      InsertByCreatedSorted(s[1..], c);
      InsertByCreatedAdds(s[1..], c);
      forall x | x in rest
        ensures s[0].created <= x.created
      {
        assert x in multiset(rest);
        if x != c {
          assert x in multiset(s[1..]);
        }
      }
      ConsSorted(s[0], rest);
    }
  }

  /** `sort.Slice(chunks, Created <)`: ascending by `Created`; the library's
      sort is not stable, so chunks with equal `Created` come in any order. */
  method SortByCreated(chunks: seq<Chunk>) returns (sorted: seq<Chunk>)
    ensures SortedByCreated(sorted)
    ensures multiset(sorted) == multiset(chunks)
  {
    sorted := [];
    for i := 0 to |chunks|
      invariant SortedByCreated(sorted)
      invariant multiset(sorted) == multiset(chunks[..i])
    {
      assert chunks[..i + 1] == chunks[..i] + [chunks[i]];
      InsertByCreatedAdds(sorted, chunks[i]);
      InsertByCreatedSorted(sorted, chunks[i]);
      sorted := InsertByCreated(sorted, chunks[i]);
    }
    assert chunks[..|chunks|] == chunks;
  }

  /** The chunks of `s` that meet `[from, to]`, in the order of `s`. */
  function Selected(s: seq<Chunk>, from: Time, to: Time): seq<Chunk>
  {
    if s == [] then []
    else
      var last := s[|s| - 1];
      Selected(s[..|s| - 1], from, to) + (if Intersects(last, from, to) then [last] else [])
  }

  lemma SelectedSnoc(s: seq<Chunk>, c: Chunk, from: Time, to: Time)
    ensures Selected(s + [c], from, to) == Selected(s, from, to) + (if Intersects(c, from, to) then [c] else [])
  {
    assert (s + [c])[..|s|] == s;
  }

  /** Selection keeps every intersecting chunk as often as it occurs, and no
      other chunk. */
  lemma {:induction false} SelectedCount(s: seq<Chunk>, from: Time, to: Time, c: Chunk)
    ensures multiset(Selected(s, from, to))[c] == if Intersects(c, from, to) then multiset(s)[c] else 0
  {
    if s != [] {
      var init, last := s[..|s| - 1], s[|s| - 1];
      assert s == init + [last];
      SelectedCount(init, from, to, c);
      SelectedSnoc(init, last, from, to);
      assert multiset(s) == multiset(init) + multiset{last};
      var tail := if Intersects(last, from, to) then [last] else [];
      assert multiset(Selected(s, from, to)) == multiset(Selected(init, from, to)) + multiset(tail);
    }
  }

  lemma {:induction false} SelectedAppend(a: seq<Chunk>, b: seq<Chunk>, from: Time, to: Time)
    ensures Selected(a + b, from, to) == Selected(a, from, to) + Selected(b, from, to)
  {
    if b != [] {
      var b' := b[..|b| - 1];
      assert (a + b)[..|a + b| - 1] == a + b';
      SelectedAppend(a, b', from, to);
    } else {
      assert a + b == a;
    }
  }

  lemma {:induction false} SelectedSorted(s: seq<Chunk>, from: Time, to: Time)
    requires SortedByCreated(s)
    ensures SortedByCreated(Selected(s, from, to))
  {
    if s != [] {
      var init, last := s[..|s| - 1], s[|s| - 1];
      SelectedSorted(init, from, to);
      forall x | x in Selected(init, from, to)
        ensures x.created <= last.created
      {
        SelectedCount(init, from, to, x);
        var i :| 0 <= i < |init| && init[i] == x;
      }
    }
  }

  // ---------------------------------------------------------------------
  // Merging

  /** The cells the read of `c` writes, or none if that read fails. */
  function WrittenBy(read: ChunkReader, c: Chunk, from: Time, points: int, step: Duration): map<Cell, Sample>
  {
    match read(c.path, from, points, step)
    case Written(cells) => cells
    case Failed(_) => map[]
  }

  /** Reading `chunks` in order into one result sink, stopping at the first
      failed read. */
  function Merge(read: ChunkReader, chunks: seq<Chunk>, from: Time, points: int, step: Duration): Result<map<Cell, Sample>, string>
  {
    if chunks == [] then Success(map[])
    else
      match Merge(read, chunks[..|chunks| - 1], from, points, step)
      case Failure(e) => Failure(e)
      case Success(acc) =>
        match read(chunks[|chunks| - 1].path, from, points, step)
        case Failed(e) => Failure(e)
        case Written(cells) => Success(acc + cells)
  }

  /** A successful merge is the merge of all but the last chunk, overridden
      by what the read of the last chunk wrote. */
  lemma MergeStep(read: ChunkReader, chunks: seq<Chunk>, from: Time, points: int, step: Duration)
    requires chunks != [] && Merge(read, chunks, from, points, step).Success?
    ensures var init, last := chunks[..|chunks| - 1], chunks[|chunks| - 1];
      && Merge(read, init, from, points, step).Success?
      && read(last.path, from, points, step).Written?
      && Merge(read, chunks, from, points, step).value
           == Merge(read, init, from, points, step).value + WrittenBy(read, last, from, points, step)
  {
  }

  /** A merge succeeds only when every read succeeds. */
  lemma {:induction false} MergeAllWritten(read: ChunkReader, chunks: seq<Chunk>, from: Time, points: int, step: Duration)
    requires Merge(read, chunks, from, points, step).Success?
    ensures forall i :: 0 <= i < |chunks| ==> read(chunks[i].path, from, points, step).Written?
  {
    if chunks != [] {
      MergeStep(read, chunks, from, points, step);
      MergeAllWritten(read, chunks[..|chunks| - 1], from, points, step);
    }
  }

  /** The index of the last chunk whose read writes `cell`, or -1 if no
      read writes it. */
  function LastWriter(read: ChunkReader, chunks: seq<Chunk>, from: Time, points: int, step: Duration, cell: Cell): (j: int)
    ensures -1 <= j < |chunks|
    ensures j >= 0 ==> cell in WrittenBy(read, chunks[j], from, points, step)
    ensures j < 0 ==> forall i :: 0 <= i < |chunks| ==> cell !in WrittenBy(read, chunks[i], from, points, step)
    ensures forall i :: j < i < |chunks| ==> cell !in WrittenBy(read, chunks[i], from, points, step)
  {
    if chunks == [] then -1
    else if cell in WrittenBy(read, chunks[|chunks| - 1], from, points, step) then |chunks| - 1
    else
      var j := LastWriter(read, chunks[..|chunks| - 1], from, points, step, cell);
      assert forall i :: 0 <= i < |chunks| - 1 ==> chunks[i] == chunks[..|chunks| - 1][i];
      j
  }

  /** Last write wins: a cell is in the merged result exactly when some
      chunk's read writes it, and it then holds the value written by the
      last such chunk. */
  lemma {:induction false} MergeLastWriteWins(read: ChunkReader, chunks: seq<Chunk>, from: Time, points: int, step: Duration, cell: Cell)
    requires Merge(read, chunks, from, points, step).Success?
    ensures var res, j := Merge(read, chunks, from, points, step).value, LastWriter(read, chunks, from, points, step, cell);
      && (cell in res <==> j >= 0)
      && (cell in res ==> res[cell] == WrittenBy(read, chunks[j], from, points, step)[cell])
  {
    if chunks != [] {
      var n := |chunks| - 1;
      var init := chunks[..n];
      MergeStep(read, chunks, from, points, step);
      MergeLastWriteWins(read, init, from, points, step, cell);
      if cell !in WrittenBy(read, chunks[n], from, points, step) {
        assert LastWriter(read, chunks, from, points, step, cell) == LastWriter(read, init, from, points, step, cell);
        var j := LastWriter(read, init, from, points, step, cell);
        if j >= 0 {
          assert chunks[j] == init[j];
        }
      }
    }
  }

  /** In a list sorted by `Created`, the last chunk whose read writes
      `cell` is a newest one among the chunks whose reads write it. */
  lemma LastWriterIsNewest(read: ChunkReader, chunks: seq<Chunk>, from: Time, points: int, step: Duration, cell: Cell)
    requires SortedByCreated(chunks)
    ensures var j := LastWriter(read, chunks, from, points, step, cell);
      forall i :: 0 <= i < |chunks| && cell in WrittenBy(read, chunks[i], from, points, step) ==>
        0 <= j && chunks[i].created <= chunks[j].created
  {
    var j := LastWriter(read, chunks, from, points, step, cell);
    forall i | 0 <= i < |chunks| && cell in WrittenBy(read, chunks[i], from, points, step)
      ensures 0 <= j && chunks[i].created <= chunks[j].created
    {
      assert i <= j;
    }
  }

  /** With the chunks in ascending `Created` order, a merged cell holds the
      value written by a chunk whose `Created` is the greatest among the
      chunks whose reads write that cell. */
  lemma MergeNewestWins(read: ChunkReader, chunks: seq<Chunk>, from: Time, points: int, step: Duration, cell: Cell)
    requires SortedByCreated(chunks)
    requires Merge(read, chunks, from, points, step).Success?
    requires cell in Merge(read, chunks, from, points, step).value
    ensures var j := LastWriter(read, chunks, from, points, step, cell);
      && 0 <= j
      && Merge(read, chunks, from, points, step).value[cell] == WrittenBy(read, chunks[j], from, points, step)[cell]
      && forall i :: 0 <= i < |chunks| && cell in WrittenBy(read, chunks[i], from, points, step) ==>
           chunks[i].created <= chunks[j].created
  {
    MergeLastWriteWins(read, chunks, from, points, step, cell);
    LastWriterIsNewest(read, chunks, from, points, step, cell);
  }

  // ---------------------------------------------------------------------
  // What a QueryRange call reads

  /** Every chunk of the query that meets the window was read, as often as
      it occurs among the query's chunks, and no other chunk was. */
  ghost predicate ReadAllIntersecting(log: seq<Chunk>, chunks: map<ChunkKey, Chunk>, from: Time, to: Time) {
    forall c :: multiset(log)[c] == if Intersects(c, from, to) then Collections.MultisetOfValues(chunks)[c] else 0
  }

  /** Reading stopped after the last chunk of `log`: only intersecting
      chunks were read, and every intersecting chunk left unread is at
      least as new as that last one. */
  ghost predicate StoppedAfterLast(log: seq<Chunk>, chunks: map<ChunkKey, Chunk>, from: Time, to: Time) {
    && log != []
    && (forall c :: multiset(log)[c] <= if Intersects(c, from, to) then Collections.MultisetOfValues(chunks)[c] else 0)
    && (forall c :: multiset(log)[c] < (if Intersects(c, from, to) then Collections.MultisetOfValues(chunks)[c] else 0) ==>
          c.created >= log[|log| - 1].created)
  }

  lemma UnreadAreNewer(chunks: seq<Chunk>, i: nat, from: Time, to: Time, c: Chunk)
    requires SortedByCreated(chunks) && i < |chunks|
    ensures multiset(Selected(chunks, from, to))
      == multiset(Selected(chunks[..i + 1], from, to)) + multiset(Selected(chunks[i + 1..], from, to))
    ensures multiset(Selected(chunks[..i + 1], from, to))[c] <= multiset(Selected(chunks, from, to))[c]
    ensures multiset(Selected(chunks[..i + 1], from, to))[c] < multiset(Selected(chunks, from, to))[c] ==>
      c.created >= chunks[i].created
  {
    var pre, post := chunks[..i + 1], chunks[i + 1..];
    assert chunks == pre + post;
    SelectedAppend(pre, post, from, to);
    SelectedCount(post, from, to, c);
    if c in post {
      var k :| 0 <= k < |post| && post[k] == c;
      assert chunks[i + 1 + k] == c;
    }
  }

  /** The chunks of `chunks[..i + 1]` that meet the window, for an
      intersecting `chunks[i]`, end with `chunks[i]` and stay sorted. */
  lemma SelectedEndsWith(chunks: seq<Chunk>, i: nat, from: Time, to: Time)
    requires SortedByCreated(chunks)
    requires i < |chunks| && Intersects(chunks[i], from, to)
    ensures var log := Selected(chunks[..i + 1], from, to);
      SortedByCreated(log) && log != [] && log[|log| - 1] == chunks[i]
  {
    assert chunks[..i + 1][..i] == chunks[..i];
    assert SortedByCreated(chunks[..i + 1]);
    SelectedSorted(chunks[..i + 1], from, to);
  }

  /** A read loop over `chunks` that stopped after the read of `chunks[i]`
      has read the intersecting chunks of `chunks[..i + 1]`, in order. */
  lemma StoppedRead(chunks: seq<Chunk>, m: map<ChunkKey, Chunk>, i: nat, from: Time, to: Time)
    requires SortedByCreated(chunks) && multiset(chunks) == Collections.MultisetOfValues(m)
    requires i < |chunks| && Intersects(chunks[i], from, to)
    ensures var log := Selected(chunks[..i + 1], from, to);
      && SortedByCreated(log)
      && log != [] && log[|log| - 1] == chunks[i]
      && StoppedAfterLast(log, m, from, to)
  {
    var log := Selected(chunks[..i + 1], from, to);
    SelectedEndsWith(chunks, i, from, to);
    forall c
      ensures multiset(log)[c] <= multiset(Selected(chunks, from, to))[c]
      ensures multiset(log)[c] < multiset(Selected(chunks, from, to))[c] ==> c.created >= chunks[i].created
      ensures multiset(Selected(chunks, from, to))[c] ==
        if Intersects(c, from, to) then Collections.MultisetOfValues(m)[c] else 0
    {
      UnreadAreNewer(chunks, i, from, to, c);
      SelectedCount(chunks, from, to, c);
    }
  }

  /** A read loop over all of `chunks` has read every intersecting chunk,
      in order. */
  lemma CompleteRead(chunks: seq<Chunk>, m: map<ChunkKey, Chunk>, from: Time, to: Time)
    requires SortedByCreated(chunks) && multiset(chunks) == Collections.MultisetOfValues(m)
    ensures SortedByCreated(Selected(chunks, from, to))
    ensures ReadAllIntersecting(Selected(chunks, from, to), m, from, to)
  {
    SelectedSorted(chunks, from, to);
    forall c
      ensures multiset(Selected(chunks, from, to))[c] ==
        if Intersects(c, from, to) then Collections.MultisetOfValues(m)[c] else 0
    {
      SelectedCount(chunks, from, to, c);
    }
  }

  /** The read loop of `QueryRange`: reads the chunks of `chunks` that meet
      `[from, to]`, in order, into one result sink, and stops at the first
      failed read. */
  method ReadChunks(chunks: seq<Chunk>, from: Time, to: Time, points: int, step: Duration, read: ChunkReader)
    returns (r: Result<map<Cell, Sample>, string>, readLog: seq<Chunk>)
    ensures r == Merge(read, readLog, from, points, step)
    ensures r.Success? ==> readLog == Selected(chunks, from, to)
    ensures r.Failure? ==>
      && readLog != []
      && Merge(read, readLog[..|readLog| - 1], from, points, step).Success?
      && read(readLog[|readLog| - 1].path, from, points, step) == Failed(r.error)
      && exists i :: 0 <= i < |chunks| && Intersects(chunks[i], from, to)
           && readLog == Selected(chunks[..i + 1], from, to)
  {
    var res: map<Cell, Sample> := map[];
    readLog := [];
    for i := 0 to |chunks|
      invariant readLog == Selected(chunks[..i], from, to)
      invariant Merge(read, readLog, from, points, step) == Success(res)
    {
      var ch := chunks[i];
      assert chunks[..i + 1] == chunks[..i] + [ch];
      SelectedSnoc(chunks[..i], ch, from, to);
      if ch.from > to || ch.lastTs < from {
        continue;
      }
      readLog := readLog + [ch];
      assert readLog[..|readLog| - 1] == Selected(chunks[..i], from, to);
      match read(ch.path, from, points, step)
      case Failed(e) =>
        return Failure(e), readLog;
      case Written(cells) =>
        res := res + cells;
    }
    assert chunks[..|chunks|] == chunks;
    r := Success(res);
  }

  // ---------------------------------------------------------------------
  // The registry and the client

  /** The registry: project stores by project id. It is filled by the
      chunk writer, which is not part of this model. */
  class Cache {
    var byProject: map<ProjectId, ProjectData>

    constructor (byProject: map<ProjectId, ProjectData>)
      ensures this.byProject == byProject
    {
      this.byProject := byProject;
    }

    method GetCacheClient(projectId: ProjectId) returns (c: Client)
      ensures fresh(c) && c.cache == this && c.projectId == projectId
    {
      c := new Client(this, projectId);
    }
  }

  class Client {
    const cache: Cache
    const projectId: ProjectId

    constructor (cache: Cache, projectId: ProjectId)
      ensures this.cache == cache && this.projectId == projectId
    {
      this.cache := cache;
      this.projectId := projectId;
    }

    /** Answers a range query. `readLog` is the sequence of chunks whose
        `Read` was invoked, in invocation order; each was read with the
        aligned `from'` and the point count of the aligned window. */
    method QueryRange(query: string, from: Time, to: Time, step: Duration,
                      queryHash: string -> QueryHash, read: ChunkReader)
      returns (r: Result<map<Cell, Sample>, Error>, readLog: seq<Chunk>)
      requires projectId in cache.byProject && queryHash(query) in cache.byProject[projectId].queries ==> step > 0
      ensures projectId !in cache.byProject ==> r == Failure(UnknownProject(projectId)) && readLog == []
      ensures projectId in cache.byProject && queryHash(query) !in cache.byProject[projectId].queries ==>
        r == Success(map[]) && readLog == []
      ensures projectId in cache.byProject && queryHash(query) in cache.byProject[projectId].queries ==>
        var chunks := cache.byProject[projectId].queries[queryHash(query)].chunksOnDisk;
        var from', to' := Truncate(from, step), Truncate(to, step);
        var points := ResultPoints(from', to', step);
        && SortedByCreated(readLog)
        && (r.Success? ==>
              && ReadAllIntersecting(readLog, chunks, from', to')
              && Merge(read, readLog, from', points, step) == Success(r.value))
        && (r.Failure? ==>
              && StoppedAfterLast(readLog, chunks, from', to')
              && Merge(read, readLog[..|readLog| - 1], from', points, step).Success?
              && read(readLog[|readLog| - 1].path, from', points, step).Failed?
              && r.error == External(read(readLog[|readLog| - 1].path, from', points, step).err))
    {
      if projectId !in cache.byProject {
        return Failure(UnknownProject(projectId)), [];
      }
      var projData := cache.byProject[projectId];
      var hash := queryHash(query);
      if hash !in projData.queries {
        return Success(map[]), [];
      }
      var qData := projData.queries[hash];
      var alignedFrom := Truncate(from, step);
      var alignedTo := Truncate(to, step);

      var resPoints := ResultPoints(alignedFrom, alignedTo, step);

      var chunks := Collections.Values(qData.chunksOnDisk);
      chunks := SortByCreated(chunks);

      var merged;
      merged, readLog := ReadChunks(chunks, alignedFrom, alignedTo, resPoints, step, read);
      if merged.Failure? {
        var i :| 0 <= i < |chunks| && Intersects(chunks[i], alignedFrom, alignedTo)
          && readLog == Selected(chunks[..i + 1], alignedFrom, alignedTo);
        StoppedRead(chunks, qData.chunksOnDisk, i, alignedFrom, alignedTo);
        return Failure(External(merged.error)), readLog;
      }
      CompleteRead(chunks, qData.chunksOnDisk, alignedFrom, alignedTo);
      r := Success(merged.value);
    }

    /** The coarsest step among the project's chunks that meet `[from, to]`
        (the raw, untruncated window), or the project's step when none of
        them has a positive step. */
    method GetStep(from: Time, to: Time) returns (r: Result<Duration, Error>)
      ensures projectId !in cache.byProject ==> r == Failure(UnknownProject(projectId))
      ensures projectId in cache.byProject ==> r.Success? && IsStepFor(cache.byProject[projectId], from, to, r.value)
    {
      if projectId !in cache.byProject {
        return Failure(UnknownProject(projectId));
      }
      var projData := cache.byProject[projectId];
      var step: Duration := 0;
      var queriesLeft := projData.queries.Keys;
      while queriesLeft != {}
        invariant queriesLeft <= projData.queries.Keys
        invariant step >= 0
        invariant forall h, k ::
          (h in projData.queries && h !in queriesLeft && k in projData.queries[h].chunksOnDisk
           && Intersects(projData.queries[h].chunksOnDisk[k], from, to)) ==> projData.queries[h].chunksOnDisk[k].step <= step
        invariant step == 0 || StepAttained(projData, from, to, step)
        decreases queriesLeft
      {
        var h :| h in queriesLeft;
        var chunks := projData.queries[h].chunksOnDisk;
        var chunksLeft := chunks.Keys;
        while chunksLeft != {}
          invariant chunksLeft <= chunks.Keys
          invariant step >= 0
          invariant forall h, k ::
            (h in projData.queries && h !in queriesLeft && k in projData.queries[h].chunksOnDisk
             && Intersects(projData.queries[h].chunksOnDisk[k], from, to)) ==> projData.queries[h].chunksOnDisk[k].step <= step
          invariant forall k :: k in chunks && k !in chunksLeft && Intersects(chunks[k], from, to) ==> chunks[k].step <= step
          invariant step == 0 || StepAttained(projData, from, to, step)
          decreases chunksLeft
        {
          var k :| k in chunksLeft;
          chunksLeft := chunksLeft - {k};
          var ch := chunks[k];
          if ch.from > to || ch.lastTs < from {
            continue;
          }
          if ch.step > step {
            step := ch.step;
          }
        }
        queriesLeft := queriesLeft - {h};
      }
      if step == 0 {
        step := projData.step;
      }
      return Success(step);
    }

    /** The freshness bound: the minimum update time of the project's
        sources less one project step, so that a step whose ingestion may
        still be running is never exposed. */
    method GetTo(getMinUpdateTime: ProjectId -> Result<Time, string>) returns (r: Result<Time, Error>)
      ensures getMinUpdateTime(projectId).Failure? ==> r == Failure(External(getMinUpdateTime(projectId).error))
      ensures getMinUpdateTime(projectId) == Success(0) ==> r == Success(0)
      ensures getMinUpdateTime(projectId).Success? && getMinUpdateTime(projectId).value != 0 ==>
        if projectId !in cache.byProject then r == Failure(UnknownProject(projectId))
        else r.Success? && r.value + cache.byProject[projectId].step == getMinUpdateTime(projectId).value
    {
      var minUpdate := getMinUpdateTime(projectId);
      if minUpdate.Failure? {
        return Failure(External(minUpdate.error));
      }
      var to := minUpdate.value;
      if to == 0 {
        return Success(0);
      }
      if projectId !in cache.byProject {
        return Failure(UnknownProject(projectId));
      }
      var step := cache.byProject[projectId].step;
      return Success(to - step);
    }
  }

  /** Some chunk of the project that meets `[from, to]` has step `s`. */
  ghost predicate StepAttained(p: ProjectData, from: Time, to: Time, s: Duration) {
    exists h, k :: h in p.queries && k in p.queries[h].chunksOnDisk
      && Intersects(p.queries[h].chunksOnDisk[k], from, to) && p.queries[h].chunksOnDisk[k].step == s
  }

  /** No chunk of the project that meets `[from, to]` has a step above `s`. */
  ghost predicate StepBound(p: ProjectData, from: Time, to: Time, s: Duration) {
    forall h, k ::
      (h in p.queries && k in p.queries[h].chunksOnDisk && Intersects(p.queries[h].chunksOnDisk[k], from, to)) ==>
        p.queries[h].chunksOnDisk[k].step <= s
  }

  /** `s` is what `GetStep` must answer: the largest positive step of an
      intersecting chunk, or the project's step if there is none. */
  ghost predicate IsStepFor(p: ProjectData, from: Time, to: Time, s: Duration) {
    || (s > 0 && StepBound(p, from, to, s) && StepAttained(p, from, to, s))
    || (StepBound(p, from, to, 0) && s == p.step)
  }

  /** At most one answer satisfies `IsStepFor`. */
  lemma StepForIsUnique(p: ProjectData, from: Time, to: Time, s1: Duration, s2: Duration)
    requires IsStepFor(p, from, to, s1) && IsStepFor(p, from, to, s2)
    ensures s1 == s2
  {
  }
}
