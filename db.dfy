/**
 * The storage layer's bookkeeping (db.go): a queue of memtables whose last
 * element is the mutable one, the segment files flushed from them, and the
 * segments found on disk when the storage is opened.
 *
 * Reading and writing segment files, the search of each memtable and
 * segment, and the logger are not part of this model: the directory's
 * entry names and the per-memtable and per-segment search results are
 * parameters, and every file write is taken to succeed.
 */
module Storage {
  import opened Wrappers
  import opened Bytes
  import opened Postings
  import opened Fusion
  import opened Providers
  import opened Memtables

  const MemtableSizeLimit: int := 20000000
  /** memtableFlushThreshold, which is the segment writer's bufLimit. */
  const FlushThreshold: int := 100000000

  /** How a call to Index ends: indexed, rejected with an error, or a runtime panic. */
  datatype Outcome = Indexed | TooLarge | Panicked

  /** The sum of Size() over a queue. */
  function TotalSize(q: seq<Memtable>): (total: nat)
    reads q
    ensures q != [] ==> total >= q[|q| - 1].sizeUsed
  {
    if q == [] then 0 else TotalSize(q[..|q| - 1]) + q[|q| - 1].sizeUsed
  }

  /** The metadata of n segment files numbered on from f. */
  function NewSegments(f: int, n: nat): (s: seq<FileMetadata>)
    ensures |s| == n
    ensures forall i :: 0 <= i < n ==> s[i] == FileMetadata(f + 1 + i, Segment)
  {
    if n == 0 then [] else NewSegments(f, n - 1) + [FileMetadata(f + n, Segment)]
  }

  /** What FlushMemtables keeps of a non-empty queue: its last memtable, unless it is the only one. */
  function Kept(q: seq<Memtable>): (kept: seq<Memtable>)
  {
    if |q| >= 2 then [q[|q| - 1]] else []
  }

  /**
   * The state FlushMemtables leaves behind a non-empty queue q, taking the
   * segments segs, the flushed contents cs and the file number f to segs',
   * cs' and f': the memtables it does not keep are written, in queue order,
   * to segments under the next file numbers.
   */
  predicate Flushed(q: seq<Memtable>, segs: seq<FileMetadata>, cs: seq<Memtable>, f: int,
                    segs': seq<FileMetadata>, cs': seq<Memtable>, f': int)
  {
    var n := |q| - |Kept(q)|;
    && 0 <= n <= |q|
    && segs' == segs + NewSegments(f, n)
    && cs' == cs + q[..n]
    && f' == f + n
  }

  /** The segment entries of a listing, in listing order. */
  function SegmentsIn(meta: seq<FileMetadata>): (s: seq<FileMetadata>)
    ensures forall f :: f in s <==> f in meta && IsSegment(f)
  {
    if meta == [] then []
    else SegmentsIn(meta[..|meta| - 1]) + (if IsSegment(meta[|meta| - 1]) then [meta[|meta| - 1]] else [])
  }

  /** The file number of the last segment entry of a listing, or f when it has none. */
  function LastSegmentNum(meta: seq<FileMetadata>, f: int): (n: int)
    ensures SegmentsIn(meta) == [] ==> n == f
    ensures SegmentsIn(meta) != [] ==> n == SegmentsIn(meta)[|SegmentsIn(meta)| - 1].fileNum
  {
    if meta == [] then f
    else if IsSegment(meta[|meta| - 1]) then meta[|meta| - 1].fileNum
    else LastSegmentNum(meta[..|meta| - 1], f)
  }

  /**
   * Segments numbered from `loaded` on strictly increase and none is above f.
   * Segments found on disk come first and are not ordered by this.
   */
  ghost predicate Numbered(segments: seq<FileMetadata>, loaded: nat, f: int) {
    && loaded <= |segments|
    && (forall i :: 0 <= i < |segments| ==> IsSegment(segments[i]))
    && (forall i, j :: loaded <= i < j < |segments| ==> segments[i].fileNum < segments[j].fileNum)
    && (forall i :: loaded <= i < |segments| ==> segments[i].fileNum <= f)
  }

  /** Appending the next n segment numbers keeps the numbering, now bounded by f + n. */
  lemma NumberedAppend(segments: seq<FileMetadata>, loaded: nat, f: int, n: nat)
    requires Numbered(segments, loaded, f)
    ensures Numbered(segments + NewSegments(f, n), loaded, f + n)
  {
    var s := segments + NewSegments(f, n);
    forall i, j | loaded <= i < j < |s| ensures s[i].fileNum < s[j].fileNum {
      if j >= |segments| {
        assert s[j].fileNum == f + 1 + (j - |segments|);
        if i < |segments| {
          assert s[i] == segments[i];
        } else {
          assert s[i].fileNum == f + 1 + (i - |segments|);
        }
      } else {
        assert s[i] == segments[i] && s[j] == segments[j];
      }
    }
    forall i | loaded <= i < |s| ensures s[i].fileNum <= f + n {
      if i < |segments| { assert s[i] == segments[i]; }
    }
    forall i | 0 <= i < |s| ensures IsSegment(s[i]) {
      if i < |segments| { assert s[i] == segments[i]; }
    }
  }

  /**
   * loadSegments, less the file reading: list the directory, keep the
   * segment entries in listing order, and leave the counter at the number
   * of the last one.
   */
  method LoadSegments(provider: Provider, names: seq<string>) returns (r: Result<seq<FileMetadata>>)
    modifies provider
    ensures Listed(names, 6).Failure? ==> r == Failure(Listed(names, 6).msg) && provider.fileNum == old(provider.fileNum)
    ensures Listed(names, 6).Success? ==>
      && r == Success(SegmentsIn(Listed(names, 6).value))
      && provider.fileNum == LastSegmentNum(Listed(names, 6).value, old(provider.fileNum))
  {
    var listed := provider.ListFiles(names);
    if listed.Failure? {
      return Failure(listed.msg);
    }
    var meta := listed.value;
    var segments: seq<FileMetadata> := [];
    var i := 0;
    while i < |meta|
      invariant 0 <= i <= |meta|
      invariant segments == SegmentsIn(meta[..i])
      invariant provider.fileNum == LastSegmentNum(meta[..i], old(provider.fileNum))
    {
      var f := meta[i];
      assert meta[..i + 1][..i] == meta[..i] && meta[..i + 1][i] == f;
      if IsSegment(f) {
        // opening the two segment files and decoding their indices: file I/O
        segments := segments + [f];
        provider.fileNum := f.fileNum;
      }
      i := i + 1;
    }
    assert meta[..i] == meta;
    r := Success(segments);
  }

  /**
   * Open, less the directory creation: the listed segments are loaded and
   * the queue holds one fresh memtable, which is the mutable one.
   * emptySize is the length of the encoding of an empty memtable.
   */
  method Open(names: seq<string>, emptySize: nat) returns (r: Result<IndexStorage>)
    ensures Listed(names, 6).Failure? ==> r == Failure(Listed(names, 6).msg)
    ensures Listed(names, 6).Success? ==>
      && r.Success? && fresh(r.value) && fresh(r.value.provider) && fresh(r.value.mutable)
      && r.value.Valid()
      && r.value.segments == SegmentsIn(Listed(names, 6).value)
      && r.value.provider.fileNum == LastSegmentNum(Listed(names, 6).value, 0)
      && r.value.queue == [r.value.mutable]
      && r.value.mutable.sizeUsed == 0 && r.value.mutable.docs == []
  {
    var provider := new Provider();
    var loaded := LoadSegments(provider, names);
    if loaded.Failure? {
      return Failure(loaded.msg);
    }
    var db := new IndexStorage(provider, loaded.value, emptySize);
    r := Success(db);
  }

  class IndexStorage {
    const provider: Provider
    /** The length of the encoding of an empty memtable. */
    const emptySize: nat
    var mutable: Memtable
    var queue: seq<Memtable>
    var segments: seq<FileMetadata>
    /** How many of the segments were found on disk by Open. */
    ghost const loaded: nat
    /** The memtable written to each segment after the loaded ones. */
    ghost var contents: seq<Memtable>

    /** The queue ends with the mutable memtable unless it is empty; segments are numbered. */
    ghost predicate Valid()
      reads this, provider
    {
      && (queue == [] || queue[|queue| - 1] == mutable)
      && Numbered(segments, loaded, provider.fileNum)
      && |contents| == |segments| - loaded
    }

    /** The storage Open builds once the segments are loaded. */
    constructor (provider: Provider, segments: seq<FileMetadata>, emptySize: nat)
      requires forall i :: 0 <= i < |segments| ==> IsSegment(segments[i])
      ensures this.provider == provider && this.segments == segments && this.emptySize == emptySize
      ensures fresh(mutable) && queue == [mutable]
      ensures mutable.sizeLimit == MemtableSizeLimit && mutable.sizeUsed == 0
      ensures mutable.encodedSize == emptySize && mutable.docs == []
      ensures loaded == |segments| && contents == []
      ensures Valid()
    {
      this.provider := provider;
      this.segments := segments;
      this.emptySize := emptySize;
      loaded := |segments|;
      contents := [];
      var m := new Memtable(MemtableSizeLimit, emptySize);
      mutable := m;
      queue := [m];
    }

    /** rotateMemtables: a fresh memtable becomes the mutable one and joins the end of the queue. */
    method RotateMemtables() returns (m: Memtable)
      requires Valid()
      modifies this
      ensures fresh(m) && m.sizeLimit == MemtableSizeLimit && m.sizeUsed == 0
      ensures m.encodedSize == emptySize && m.docs == []
      ensures mutable == m && queue == old(queue) + [m]
      ensures segments == old(segments) && contents == old(contents)
      ensures Valid()
    {
      mutable := new Memtable(MemtableSizeLimit, emptySize);
      queue := queue + [mutable];
      m := mutable;
    }

    /**
     * FlushMemtables: with two or more memtables queued, all but the last
     * are written out and the last is kept; with one, it is written out and
     * the queue is left empty while it stays the mutable one; with none,
     * the slice bound is -1 and the call panics.
     */
    method FlushMemtables() returns (r: Result<()>)
      requires Valid()
      modifies this, provider
      ensures mutable == old(mutable) && Valid()
      ensures old(queue) == [] ==> r.Failure? && queue == [] && segments == old(segments)
      ensures old(queue) == [] ==> contents == old(contents) && provider.fileNum == old(provider.fileNum)
      ensures old(queue) != [] ==> r.Success? && queue == Kept(old(queue))
      ensures old(queue) != [] ==> Flushed(old(queue), old(segments), old(contents), old(provider.fileNum), segments, contents, provider.fileNum)
    {
      var n := |queue| - 1;
      if |queue| == 1 {
        n := |queue|;
      }
      if n < 0 {
        return Failure("slice bounds out of range");
      }
      var flushable := queue[..n];
      queue := queue[n..];
      assert queue == Kept(old(queue));
      var i := 0;
      while i < |flushable|
        invariant 0 <= i <= |flushable|
        invariant queue == Kept(old(queue)) && mutable == old(mutable)
        invariant segments == old(segments) + NewSegments(old(provider.fileNum), i)
        invariant contents == old(contents) + flushable[..i]
        invariant provider.fileNum == old(provider.fileNum) + i
      {
        var meta := provider.PrepareNewFile();
        // writing the two index encodings to the segment's files: file I/O, taken to succeed
        segments := segments + [meta];
        assert flushable[..i + 1] == flushable[..i] + [flushable[i]];
        contents := contents + [flushable[i]];
        i := i + 1;
      }
      assert flushable[..i] == flushable;
      NumberedAppend(old(segments), loaded, old(provider.fileNum), n);
      r := Success(());
    }

    /** maybeScheduleFlush: flush once the queue's sizes add up to more than the threshold. */
    method MaybeScheduleFlush()
      requires Valid()
      modifies this, provider
      ensures mutable == old(mutable) && Valid()
      ensures old(TotalSize(queue)) <= FlushThreshold ==>
        queue == old(queue) && segments == old(segments) && contents == old(contents)
        && provider.fileNum == old(provider.fileNum)
      ensures old(TotalSize(queue)) > FlushThreshold ==>
        old(queue) != [] && queue == Kept(old(queue))
        && Flushed(old(queue), old(segments), old(contents), old(provider.fileNum), segments, contents, provider.fileNum)
    {
      var totalSize := 0;
      var i := 0;
      while i < |queue|
        invariant 0 <= i <= |queue|
        invariant totalSize == TotalSize(queue[..i])
      {
        assert queue[..i + 1][..i] == queue[..i];
        totalSize := totalSize + queue[i].Size();
        i := i + 1;
      }
      assert queue[..i] == queue;
      if totalSize <= FlushThreshold {
        return;
      }
      var err := FlushMemtables();
      // an error here ends the process; file writes are taken to succeed
    }

    /**
     * Index: a document whose size added to the mutable memtable's encoding
     * exceeds the threshold is rejected with nothing changed. Otherwise it
     * goes into the mutable memtable, or into a fresh one rotated in when
     * that has no room for it (`target`); the queue as it then stands
     * (`pending`) is flushed when its sizes add up to more than the
     * threshold; and when the target's size itself exceeds the threshold,
     * the queue, which the flush has cut to at most one memtable, loses its
     * last memtable and gets a fresh mutable one, or panics when the flush
     * left it empty.
     */
    method Index(docID: int, document: seq<byte>, newSize: nat)
      returns (r: Outcome, ghost target: Memtable, ghost pending: seq<Memtable>)
      requires Valid()
      modifies this, provider, mutable
      ensures old(mutable.encodedSize) + |document| > FlushThreshold ==>
        && r == TooLarge && queue == old(queue) && mutable == old(mutable)
        && segments == old(segments) && contents == old(contents)
        && unchanged(old(mutable)) && unchanged(provider)
      ensures old(mutable.encodedSize) + |document| <= FlushThreshold ==>
        && r != TooLarge
        && (old(mutable.HasRoomForWrite(document)) ==>
              target == old(mutable) && pending == old(queue)
              && target.docs == old(mutable.docs) + [(docID, document)])
        && (!old(mutable.HasRoomForWrite(document)) ==>
              fresh(target) && target.sizeLimit == MemtableSizeLimit && pending == old(queue) + [target]
              && target.docs == [(docID, document)])
        && target.sizeUsed == newSize && target.encodedSize == newSize
      ensures old(mutable.encodedSize) + |document| <= FlushThreshold && TotalSize(pending) <= FlushThreshold ==>
        && segments == old(segments) && contents == old(contents) && provider.fileNum == old(provider.fileNum)
        && (newSize <= FlushThreshold ==> r == Indexed && queue == pending && mutable == target)
      ensures old(mutable.encodedSize) + |document| <= FlushThreshold && TotalSize(pending) > FlushThreshold ==>
        && Flushed(pending, old(segments), old(contents), old(provider.fileNum), segments, contents, provider.fileNum)
        && (newSize <= FlushThreshold ==> r == Indexed && queue == Kept(pending) && mutable == target)
      ensures old(mutable.encodedSize) + |document| <= FlushThreshold && newSize > FlushThreshold ==>
        && (pending != [] ==> TotalSize(pending) > FlushThreshold)
        && (|pending| <= 1 ==> r == Panicked)
        && (|pending| >= 2 ==> r == Indexed && fresh(mutable) && queue == [mutable]
                               && mutable.sizeUsed == 0 && mutable.docs == [])
      ensures r == Indexed ==> Valid()
    {
      if mutable.encodedSize + |document| > FlushThreshold {
        return TooLarge, mutable, queue;
      }
      target := Write(docID, document, newSize);
      pending := queue;
      var panicked := FlushAndDrop();
      r := if panicked then Panicked else Indexed;
    }

    /**
     * The steps of Index after the write: maybeScheduleFlush, then the drop
     * of an oversized mutable memtable. The sizes are those of the queue as
     * the write left it.
     */
    method FlushAndDrop() returns (panicked: bool)
      requires Valid()
      modifies this, provider
      ensures TotalSize(old(queue)) <= FlushThreshold ==>
        segments == old(segments) && contents == old(contents) && provider.fileNum == old(provider.fileNum)
      ensures TotalSize(old(queue)) > FlushThreshold ==>
        Flushed(old(queue), old(segments), old(contents), old(provider.fileNum), segments, contents, provider.fileNum)
      ensures old(mutable.sizeUsed) <= FlushThreshold ==>
        && !panicked && mutable == old(mutable)
        && queue == if TotalSize(old(queue)) > FlushThreshold then Kept(old(queue)) else old(queue)
      ensures old(mutable.sizeUsed) > FlushThreshold ==>
        && (old(queue) != [] ==> TotalSize(old(queue)) > FlushThreshold)
        && (|old(queue)| <= 1 ==> panicked)
        && (|old(queue)| >= 2 ==> !panicked && fresh(mutable) && queue == [mutable]
                                  && mutable.sizeUsed == 0 && mutable.docs == [])
      ensures !panicked ==> Valid()
    {
      ghost var q, total := queue, TotalSize(queue);
      MaybeScheduleFlush();
      assert TotalSize(q) == total;
      panicked := DropOversized();
    }

    /**
     * The write step of Index: the document goes into the mutable memtable,
     * after a rotation when that has no room for it.
     */
    method Write(docID: int, document: seq<byte>, newSize: nat) returns (ghost target: Memtable)
      requires Valid()
      modifies this, mutable
      ensures Valid() && mutable == target && segments == old(segments) && contents == old(contents)
      ensures queue != [] ==> queue[|queue| - 1] == target
      ensures old(mutable.HasRoomForWrite(document)) ==>
        target == old(mutable) && queue == old(queue) && target.docs == old(mutable.docs) + [(docID, document)]
      ensures !old(mutable.HasRoomForWrite(document)) ==>
        && fresh(target) && target.sizeLimit == MemtableSizeLimit && queue == old(queue) + [target]
        && target.docs == [(docID, document)]
      ensures target.sizeUsed == newSize && target.encodedSize == newSize
    {
      var m := mutable;
      if !m.HasRoomForWrite(document) {
        m := RotateMemtables();
      }
      m.Insert(docID, document, newSize);
      target := m;
    }

    /**
     * The last step of Index: when the mutable memtable's size exceeds the
     * threshold, the queue loses its last two memtables (its last one when
     * it holds only one) and a fresh mutable memtable joins it; an empty
     * queue makes the slice bound -1, a panic.
     */
    method DropOversized() returns (panicked: bool)
      requires Valid()
      modifies this
      ensures segments == old(segments) && contents == old(contents)
      ensures old(mutable.sizeUsed) <= FlushThreshold ==> !panicked && queue == old(queue) && mutable == old(mutable)
      ensures old(mutable.sizeUsed) > FlushThreshold && old(queue) == [] ==> panicked
      ensures old(mutable.sizeUsed) > FlushThreshold && old(queue) != [] ==>
        && !panicked && fresh(mutable) && mutable.sizeUsed == 0 && mutable.docs == []
        && queue == old(queue)[..if |old(queue)| > 1 then |old(queue)| - 2 else 0] + [mutable]
      ensures !panicked ==> Valid()
    {
      panicked := false;
      if mutable.sizeUsed > FlushThreshold {
        // drop the memtable whose size does not fit the buffer
        if |queue| > 1 {
          queue := queue[..|queue| - 2];
        } else {
          if |queue| - 1 < 0 {
            return true;
          }
          queue := queue[..|queue| - 1];
        }
        mutable := new Memtable(MemtableSizeLimit, emptySize);
        queue := queue + [mutable];
      }
    }

    /**
     * The tail of Get: the results of the queued memtables, newest first,
     * then those of the segments in the order their searches deliver them,
     * sorted by score, of which min(k, total) are kept. memtableMatches[i]
     * is the search result of queue[i]; those searches are not part of this
     * model.
     */
    method Get(memtableMatches: seq<seq<Match>>, segmentMatches: seq<seq<Match>>, k: int)
      returns (r: Result<seq<Match>>)
      ensures k < 0 ==> r.Failure?
      ensures k >= 0 ==> r.Success? && IsTopK(r.value, NewestFirst(memtableMatches) + InOrder(segmentMatches), k)
    {
      var matches: seq<Match> := [];
      var i := |memtableMatches|;
      while i > 0
        invariant 0 <= i <= |memtableMatches|
        invariant matches == NewestFirst(memtableMatches[i..])
      {
        i := i - 1;
        assert memtableMatches[i..][1..] == memtableMatches[i + 1..];
        matches := matches + memtableMatches[i];
      }
      var j := 0;
      while j < |segmentMatches|
        invariant 0 <= j <= |segmentMatches|
        invariant matches == NewestFirst(memtableMatches) + InOrder(segmentMatches[..j])
      {
        assert segmentMatches[..j + 1][..j] == segmentMatches[..j];
        matches := matches + segmentMatches[j];
        j := j + 1;
      }
      assert segmentMatches[..j] == segmentMatches;
      r := TopK(matches, k);
    }
  }

  /** The lists joined from the last to the first. */
  function NewestFirst(ms: seq<seq<Match>>): seq<Match> {
    if ms == [] then [] else NewestFirst(ms[1..]) + ms[0]
  }

  /** The lists joined from the first to the last. */
  function InOrder(ms: seq<seq<Match>>): seq<Match> {
    if ms == [] then [] else InOrder(ms[..|ms| - 1]) + ms[|ms| - 1]
  }
}
