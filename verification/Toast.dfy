/**
 Reassembly of a TOASTed value: ToastChunkDecode on one tuple, the block and file scans around it,
 and the rescans of ReadStringFromToast, against the value whose chunks the file holds.
 */
module Toast {
  import opened Bytes

  const TOAST_MAX_CHUNK_SIZE: int := 1996

  // ---------------------------------------------------------------- one tuple

  /** A line pointer the scan passes over (unused, out of the block, removed), or a tuple: the address of
      its data area, the data, and the rest of the block's memory behind it. */
  datatype Item = Skipped | Tuple(addr: nat, bytes: seq<byte>, beyond: seq<byte>)

  /** What a tuple of the TOAST relation does to a reader that wants a chunk. */
  datatype Effect = Ignored | Taken(appended: seq<byte>, advance: bool) | ReadsOutside

  /** ToastChunkDecode: a length running past the tuple reads on in the block, and past the block C defines
      nothing. */
  function ReadChunk(item: Item, oid: nat, want: nat): Effect
    requires item.Tuple?
  {
    var tuple := item.bytes;
    var delta := AlignUp(item.addr, 4) - item.addr;
    if |tuple| < delta + 4 then Ignored
    else if LeValue(tuple[delta..delta + 4]) != oid then Ignored
    else if |tuple| < delta + 8 then Ignored
    else if LeValue(tuple[delta + 4..delta + 8]) != want then Ignored
    else if |tuple| == delta + 8 then Ignored
    else ReadPayload(tuple[delta + 8..], item.beyond)
  }

  /** DecodeBytesBinary and the size check behind it. */
  function ReadPayload(data: seq<byte>, beyond: seq<byte>): Effect
    requires |data| > 0
  {
    if data[0] % 4 != 0 then Taken([], |data| == 4)
    else
      var memory := data + beyond;
      if |memory| < 4 then ReadsOutside
      else
        var size := LeValue(memory[..4]) / 4;
        if size < 4 || size > |memory| then ReadsOutside else Taken(memory[4..size], size == |data|)
  }

  /** A chunk as the TOAST relation stores it: value id, sequence number, plain 4-byte varlena. */
  function ChunkTuple(oid: nat, id: nat, chunk: seq<byte>, addr: nat): seq<byte> {
    Zeros(AlignUp(addr, 4) - addr) + LeBytes(oid, 4) + LeBytes(id, 4) + LeBytes(4 * (|chunk| + 4), 4) + chunk
  }

  // ---------------------------------------------------------------- the scans

  /** The value looked for: its id, its stored size, and the bytes allocated for it. */
  datatype Target = Target(oid: nat, ext: nat, size: nat)

  /** The chunk wanted next, and the bytes read so far. */
  datatype Progress = Progress(want: nat, data: seq<byte>)

  /** None is a step out of the block or out of the allocated buffer, where C defines nothing. */
  function Step(st: Progress, item: Item, t: Target): Option<Progress> {
    if item.Skipped? then Some(st)
    else
      match ReadChunk(item, t.oid, st.want)
      case Ignored => Some(st)
      case Taken(appended, advance) =>
        if |st.data + appended| > t.size then None
        else Some(Progress(if advance then st.want + 1 else st.want, st.data + appended))
      case ReadsOutside => None
  }

  /** FormatItemBlock: the items of one block, left early once everything is read. */
  function ScanBlock(items: seq<Item>, st: Progress, t: Target): Option<Progress> {
    if |items| == 0 then Some(st)
    else
      match Step(st, items[0], t)
      case None => None
      case Some(next) =>
        if items[0].Tuple? && |next.data| >= t.ext then Some(next) else ScanBlock(items[1..], next, t)
  }

  /** DumpFileContents: the blocks of the file, left early once everything is read. */
  function ScanFile(blocks: seq<seq<Item>>, st: Progress, t: Target): Option<Progress> {
    if |blocks| == 0 then Some(st)
    else
      match ScanBlock(blocks[0], st, t)
      case None => None
      case Some(next) => if |next.data| >= t.ext then Some(next) else ScanFile(blocks[1..], next, t)
  }

  datatype Outcome = Undefined | Ended(ok: bool, last: Progress, scans: nat)

  /** num_chunks, an unsigned quotient: for a stored size of zero it is not zero. */
  function ChunkCount(ext: nat): nat {
    if ext == 0 then ((0x1_0000_0000_0000_0000 - 1) / TOAST_MAX_CHUNK_SIZE + 1) % 0x1_0000_0000
    else (ext - 1) / TOAST_MAX_CHUNK_SIZE + 1
  }

  /** ReadStringFromToast's loop from its given state on. */
  function Reassemble(blocks: seq<seq<Item>>, st: Progress, loops: nat, t: Target): Outcome
    decreases ChunkCount(t.ext) + 2 - loops
  {
    if st.want >= ChunkCount(t.ext) then Ended(true, st, loops)
    else
      match ScanFile(blocks, st, t)
      case None => Undefined
      case Some(next) =>
        if loops > ChunkCount(t.ext) then Ended(false, next, loops + 1) else Reassemble(blocks, next, loops + 1, t)
  }

  const START: Progress := Progress(0, [])

  // ---------------------------------------------------------------- every file

  /** What no step of a scan undoes. */
  predicate Grown(st: Progress, next: Progress, t: Target) {
    st.want <= next.want && st.data <= next.data && |next.data| <= t.size
  }

  lemma {:induction false} BlockGrows(items: seq<Item>, st: Progress, t: Target)
    requires |st.data| <= t.size
    ensures var r := ScanBlock(items, st, t); r.Some? ==> Grown(st, r.value, t)
  {
    hide ReadChunk;
    if |items| > 0 {
      var next := Step(st, items[0], t);
      if next.Some? {
        BlockGrows(items[1..], next.value, t);
      }
    }
  }

  lemma {:induction false} FileGrows(blocks: seq<seq<Item>>, st: Progress, t: Target)
    requires |st.data| <= t.size
    ensures var r := ScanFile(blocks, st, t); r.Some? ==> Grown(st, r.value, t)
  {
    hide ScanBlock;
    if |blocks| > 0 {
      BlockGrows(blocks[0], st, t);
      var next := ScanBlock(blocks[0], st, t);
      if next.Some? {
        FileGrows(blocks[1..], next.value, t);
      }
    }
  }

  /** On every file the loop ends: either a step leaves what C defines, or there are at most two scans more
      than chunks, the bytes read fit the buffer, and success means that all chunks were counted. */
  lemma {:induction false} ScansAreBounded(blocks: seq<seq<Item>>, st: Progress, loops: nat, t: Target)
    requires loops <= ChunkCount(t.ext) + 1 && |st.data| <= t.size
    ensures var r := Reassemble(blocks, st, loops, t);
            r.Ended? ==>
              && r.scans <= ChunkCount(t.ext) + 2 && Grown(st, r.last, t)
              && (r.ok ==> r.last.want >= ChunkCount(t.ext)) && (!r.ok ==> r.scans == ChunkCount(t.ext) + 2)
    decreases ChunkCount(t.ext) + 2 - loops
  {
    hide ScanFile;
    if st.want < ChunkCount(t.ext) {
      FileGrows(blocks, st, t);
      var next := ScanFile(blocks, st, t);
      if next.Some? && loops <= ChunkCount(t.ext) {
        ScansAreBounded(blocks, next.value, loops + 1, t);
      }
    }
  }

  // ---------------------------------------------------------------- files holding a value

  /** Where chunk k starts in the value: with 8192-byte blocks four chunks of 1996 bytes go on a page. */
  function Offset(k: nat, ext: nat): (o: nat)
    ensures o <= ext
  {
    if k * 1996 <= ext then k * 1996 else ext
  }

  function Chunk(value: seq<byte>, k: nat): seq<byte>
  {
    if k * 1996 <= |value| then value[k * 1996..Offset(k + 1, |value|)] else []
  }

  /** An item that holds chunk k whenever that is wanted, and is ignored otherwise. */
  ghost predicate HoldsChunk(item: Item, k: nat, oid: nat, value: seq<byte>) {
    item.Tuple? && forall want: nat ::
      ReadChunk(item, oid, want) == if want == k then Taken(Chunk(value, k), true) else Ignored
  }

  ghost predicate IsForeign(item: Item, oid: nat, chunks: nat) {
    item.Tuple? ==> forall want: nat :: want < chunks ==> ReadChunk(item, oid, want) == Ignored
  }

  /** Every item of the file is a chunk of the value looked for, with its number, or none of its business. */
  ghost predicate Labelled(items: seq<Item>, labels: seq<Option<nat>>, t: Target, value: seq<byte>) {
    && 0 < |value| == t.ext <= t.size && |labels| == |items|
    && forall i :: 0 <= i < |items| ==>
         match labels[i]
         case None => IsForeign(items[i], t.oid, ChunkCount(|value|))
         case Some(k) => k < ChunkCount(|value|) && HoldsChunk(items[i], k, t.oid, value)
  }

  function Flatten(blocks: seq<seq<Item>>): seq<Item> {
    if |blocks| == 0 then [] else blocks[0] + Flatten(blocks[1..])
  }

  /** The stored form of a chunk is read as that chunk, at every address and whatever lies behind. */
  lemma ChunkTupleHoldsChunk(oid: nat, k: nat, value: seq<byte>, addr: nat, beyond: seq<byte>)
    requires oid < 0x1_0000_0000 && k < 0x1_0000_0000
    ensures HoldsChunk(Tuple(addr, ChunkTuple(oid, k, Chunk(value, k), addr), beyond), k, oid, value)
  {
    hide LeBytes, LeValue, AlignUp, ReadPayload;
    var chunk := Chunk(value, k);
    var tuple := ChunkTuple(oid, k, chunk, addr);
    var delta := AlignUp(addr, 4) - addr;
    WordRoundTrip(oid);
    WordRoundTrip(k);
    assert tuple[delta..delta + 4] == LeBytes(oid, 4);
    assert tuple[delta + 4..delta + 8] == LeBytes(k, 4);
    assert tuple[delta + 8..] == LeBytes(4 * (|chunk| + 4), 4) + chunk;
    LengthWord(|chunk| + 4);
    PayloadIsRead(LeBytes(4 * (|chunk| + 4), 4), chunk, beyond);
  }

  lemma LengthWord(size: nat)
    requires size < 0x4000_0000
    ensures LeBytes(4 * size, 4)[0] % 4 == 0 && LeValue(LeBytes(4 * size, 4)) / 4 == size
  {
    hide LeBytes, LeValue;
    WordRoundTrip(4 * size);
  }

  lemma PayloadIsRead(header: seq<byte>, chunk: seq<byte>, beyond: seq<byte>)
    requires |header| == 4 && header[0] % 4 == 0 && LeValue(header) / 4 == |chunk| + 4
    ensures ReadPayload(header + chunk, beyond) == Taken(chunk, true)
  {
    hide LeValue;
    var data := header + chunk;
    var memory := data + beyond;
    assert memory[..4] == header;
    assert memory[4..|chunk| + 4] == chunk;
  }

  /** The two ids in front of a payload. */
  function Ids(oid: nat, k: nat, addr: nat): (s: seq<byte>)
    ensures |s| == AlignUp(addr, 4) - addr + 8
  {
    Zeros(AlignUp(addr, 4) - addr) + LeBytes(oid, 4) + LeBytes(k, 4)
  }

  lemma PayloadFollows(oid: nat, k: nat, payload: seq<byte>, addr: nat, beyond: seq<byte>)
    requires oid < 0x1_0000_0000 && k < 0x1_0000_0000
    ensures ReadChunk(Tuple(addr, Ids(oid, k, addr) + payload, beyond), oid, k)
            == if payload == [] then Ignored else ReadPayload(payload, beyond)
  {
    hide LeBytes, LeValue, AlignUp, ReadPayload;
    var delta := AlignUp(addr, 4) - addr;
    var tuple := Ids(oid, k, addr) + payload;
    WordRoundTrip(oid);
    WordRoundTrip(k);
    assert tuple[delta..delta + 4] == LeBytes(oid, 4);
    assert tuple[delta + 4..delta + 8] == LeBytes(k, 4);
    assert tuple[delta + 8..] == payload;
  }

  /** A chunk cut inside its ids or right behind them is ignored. */
  lemma CutChunkIsIgnored(oid: nat, k: nat, chunk: seq<byte>, addr: nat, m: nat, beyond: seq<byte>)
    requires oid < 0x1_0000_0000 && k < 0x1_0000_0000 && m <= AlignUp(addr, 4) - addr + 8
    ensures ReadChunk(Tuple(addr, ChunkTuple(oid, k, chunk, addr)[..m], beyond), oid, k) == Ignored
  {
    hide LeBytes, LeValue, AlignUp, ReadPayload;
  }

  /** A wanted chunk in short-header form is not copied; the reader moves on exactly when the form is four
      bytes long. */
  lemma ShortChunkIsLost(oid: nat, k: nat, chunk: seq<byte>, addr: nat, beyond: seq<byte>)
    requires oid < 0x1_0000_0000 && k < 0x1_0000_0000 && |chunk| <= 126
    ensures ReadChunk(Tuple(addr, Ids(oid, k, addr) + ([2 * (|chunk| + 1) + 1] + chunk), beyond), oid, k)
            == Taken([], |chunk| == 3)
  {
    hide Ids;
    PayloadFollows(oid, k, [2 * (|chunk| + 1) + 1] + chunk, addr, beyond);
  }

  /** A wanted chunk that claims more bytes than its tuple has is read on in the block and counted, but does
      not move the reader on; past the block C defines nothing. */
  lemma LongChunkReadsOn(oid: nat, k: nat, chunk: seq<byte>, claimed: nat, addr: nat, beyond: seq<byte>)
    requires oid < 0x1_0000_0000 && k < 0x1_0000_0000 && |chunk| < claimed && claimed + 4 < 0x4000_0000
    ensures ReadChunk(Tuple(addr, Ids(oid, k, addr) + (LeBytes(4 * (claimed + 4), 4) + chunk), beyond), oid, k)
            == if claimed <= |chunk + beyond| then Taken((chunk + beyond)[..claimed], false) else ReadsOutside
  {
    hide Ids, LeBytes, LeValue, ReadChunk;
    var header := LeBytes(4 * (claimed + 4), 4);
    PayloadFollows(oid, k, header + chunk, addr, beyond);
    LengthWord(claimed + 4);
    var memory := header + chunk + beyond;
    assert (header + chunk)[0] == header[0];
    assert memory[..4] == header;
    if claimed <= |chunk + beyond| {
      assert memory[4..claimed + 4] == (chunk + beyond)[..claimed];
    }
  }

  /** A tuple of another value is foreign, whatever follows its value id. */
  lemma OtherValueIsForeign(other: nat, oid: nat, addr: nat, rest: seq<byte>, beyond: seq<byte>, chunks: nat)
    requires other < 0x1_0000_0000 && other != oid
    ensures IsForeign(Tuple(addr, Zeros(AlignUp(addr, 4) - addr) + LeBytes(other, 4) + rest, beyond), oid, chunks)
  {
    hide LeBytes, LeValue, AlignUp;
    WordRoundTrip(other);
    var delta := AlignUp(addr, 4) - addr;
    var tuple := Zeros(delta) + LeBytes(other, 4) + rest;
    assert tuple[delta..delta + 4] == LeBytes(other, 4);
  }

  // ---------------------------------------------------------------- scans seen through the labels

  /** The reader's state once chunks 0, ..., w - 1 have been read. */
  function At(w: nat, value: seq<byte>): Progress {
    Progress(w, value[..Offset(w, |value|)])
  }

  lemma OffsetReachesEnd(w: nat, ext: nat)
    requires ext > 0
    ensures Offset(w, ext) >= ext <==> w >= ChunkCount(ext)
  {
    var n := ChunkCount(ext);
    assert (n - 1) * TOAST_MAX_CHUNK_SIZE < ext <= n * TOAST_MAX_CHUNK_SIZE;
  }

  lemma OneMoreChunk(w: nat, value: seq<byte>)
    ensures value[..Offset(w, |value|)] + Chunk(value, w) == value[..Offset(w + 1, |value|)]
  {
  }

  /** num_chunks is the stored size over the chunk size, rounded up; for an empty value it is what the unsigned
      arithmetic leaves of 2^64 - 1. */
  lemma ChunksAreEnough(ext: nat)
    ensures ext > 0 ==> (ChunkCount(ext) - 1) * 1996 < ext <= ChunkCount(ext) * 1996
    ensures ChunkCount(0) == 955_393_527
  {
  }

  /** The chunk wanted after scanning items i, i + 1, ... wanting w. */
  function Advance(labels: seq<Option<nat>>, i: nat, w: nat, n: nat): (r: nat)
    requires i <= |labels|
    ensures r >= w
    ensures w <= n ==> r <= n
    decreases |labels| - i
  {
    if i == |labels| || w >= n then w
    else Advance(labels, i + 1, if labels[i] == Some(w) then w + 1 else w, n)
  }

  lemma {:induction false} BlockScan(items: seq<Item>, labels: seq<Option<nat>>, i: nat, w: nat, t: Target,
                                     value: seq<byte>)
    requires Labelled(items, labels, t, value) && i <= |items| && w < ChunkCount(|value|)
    ensures ScanBlock(items[i..], At(w, value), t) == Some(At(Advance(labels, i, w, ChunkCount(|value|)), value))
    decreases |items| - i
  {
    hide HoldsChunk, IsForeign, Step, ChunkCount;
    if i < |items| {
      var next := if labels[i] == Some(w) then w + 1 else w;
      assert items[i..][0] == items[i] && items[i..][1..] == items[i + 1..];
      LabelledStep(items[i], labels[i], w, t, value);
      OffsetReachesEnd(next, |value|);
      if next < ChunkCount(|value|) {
        BlockScan(items, labels, i + 1, next, t, value);
      }
    }
  }

  lemma LabelledStep(item: Item, mark: Option<nat>, w: nat, t: Target, value: seq<byte>)
    requires 0 < |value| <= t.size && w < ChunkCount(|value|)
    requires if mark.None? then IsForeign(item, t.oid, ChunkCount(|value|))
             else HoldsChunk(item, mark.value, t.oid, value)
    ensures Step(At(w, value), item, t) == Some(At(if mark == Some(w) then w + 1 else w, value))
    ensures item.Skipped? ==> mark.None?
  {
    hide ReadChunk;
    OneMoreChunk(w, value);
  }

  lemma {:induction false} ScanOfJoin(a: seq<Item>, b: seq<Item>, st: Progress, t: Target)
    requires |st.data| < t.ext
    ensures var mid := ScanBlock(a, st, t);
            ScanBlock(a + b, st, t)
            == if mid.None? || |mid.value.data| >= t.ext then mid else ScanBlock(b, mid.value, t)
  {
    hide ReadChunk;
    if |a| == 0 {
      assert a + b == b;
    } else {
      var next := Step(st, a[0], t);
      assert (a + b)[1..] == a[1..] + b;
      if next.Some? && |next.value.data| < t.ext {
        ScanOfJoin(a[1..], b, next.value, t);
      } else {
        assert a[0].Tuple?;
      }
    }
  }

  /** Leaving a block and leaving the file early add up to leaving one long list of items early. */
  lemma {:induction false} FileScanIsFlat(blocks: seq<seq<Item>>, st: Progress, t: Target)
    requires |st.data| < t.ext
    ensures ScanFile(blocks, st, t) == ScanBlock(Flatten(blocks), st, t)
  {
    if |blocks| > 0 {
      ScanOfJoin(blocks[0], Flatten(blocks[1..]), st, t);
      var next := ScanBlock(blocks[0], st, t);
      if next.Some? && |next.value.data| < t.ext {
        FileScanIsFlat(blocks[1..], next.value, t);
      }
    }
  }

  /** After any scan the bytes read are exactly chunks 0, ..., want - 1, and all of them are there
      exactly when want has reached the chunk count. */
  lemma ScanKeepsPrefix(blocks: seq<seq<Item>>, labels: seq<Option<nat>>, w: nat, t: Target, value: seq<byte>)
    requires Labelled(Flatten(blocks), labels, t, value) && w < ChunkCount(|value|)
    ensures var next := Advance(labels, 0, w, ChunkCount(|value|));
            ScanFile(blocks, At(w, value), t) == Some(At(next, value))
            && (|At(next, value).data| == |value| <==> next == ChunkCount(|value|))
  {
    hide Labelled, ScanBlock, ScanFile, Advance, ChunkCount;
    LabelledIsTarget(Flatten(blocks), labels, t, value);
    OffsetReachesEnd(w, |value|);
    FileScanIsFlat(blocks, At(w, value), t);
    var items := Flatten(blocks);
    BlockScan(items, labels, 0, w, t, value);
    assert items[0..] == items;
    OffsetReachesEnd(Advance(labels, 0, w, ChunkCount(|value|)), |value|);
  }

  lemma LabelledIsTarget(items: seq<Item>, labels: seq<Option<nat>>, t: Target, value: seq<byte>)
    requires Labelled(items, labels, t, value)
    ensures 0 < |value| == t.ext <= t.size && |labels| == |items|
  {
  }

  // ---------------------------------------------------------------- the whole run

  ghost predicate Complete(labels: seq<Option<nat>>, n: nat) {
    forall k: nat :: k < n ==> Some(k) in labels
  }

  lemma {:induction false} AdvanceFinds(labels: seq<Option<nat>>, i: nat, j: nat, w: nat, n: nat)
    requires i <= j < |labels| && labels[j] == Some(w) && w < n
    ensures Advance(labels, i, w, n) >= w + 1
    decreases |labels| - i
  {
    if labels[i] != Some(w) {
      AdvanceFinds(labels, i + 1, j, w, n);
    }
  }

  lemma {:induction false} AdvanceStops(labels: seq<Option<nat>>, i: nat, w: nat, k: nat, n: nat)
    requires i <= |labels| && w <= k
    requires forall j :: i <= j < |labels| ==> labels[j] != Some(k)
    ensures Advance(labels, i, w, n) <= k
    decreases |labels| - i
  {
    if i < |labels| && w < n {
      AdvanceStops(labels, i + 1, if labels[i] == Some(w) then w + 1 else w, k, n);
    }
  }

  lemma {:induction false} CompleteRun(blocks: seq<seq<Item>>, labels: seq<Option<nat>>, w: nat, loops: nat, t: Target,
                                       value: seq<byte>)
    requires Labelled(Flatten(blocks), labels, t, value)
    requires Complete(labels, ChunkCount(|value|)) && loops <= w <= ChunkCount(|value|)
    ensures var n := ChunkCount(|value|);
            var r := Reassemble(blocks, At(w, value), loops, t);
            r.Ended? && r.ok && r.last == Progress(n, value) && r.scans <= n
    decreases ChunkCount(|value|) - w
  {
    hide ScanFile, HoldsChunk, IsForeign, Flatten, Advance, ChunkCount;
    var n := ChunkCount(|value|);
    if w < n {
      var j :| 0 <= j < |labels| && labels[j] == Some(w);
      AdvanceFinds(labels, 0, j, w, n);
      ScanKeepsPrefix(blocks, labels, w, t, value);
      CompleteRun(blocks, labels, Advance(labels, 0, w, n), loops + 1, t, value);
    } else {
      OffsetReachesEnd(w, |value|);
      assert value[..|value|] == value;
    }
  }

  lemma {:induction false} IncompleteRun(blocks: seq<seq<Item>>, labels: seq<Option<nat>>, w: nat, k: nat, loops: nat,
                                         t: Target, value: seq<byte>)
    requires Labelled(Flatten(blocks), labels, t, value)
    requires w <= k < ChunkCount(|value|) && Some(k) !in labels && loops <= ChunkCount(|value|) + 1
    ensures var n := ChunkCount(|value|);
            var r := Reassemble(blocks, At(w, value), loops, t);
            r.Ended? && !r.ok && r.scans == n + 2 && r.last.want <= k
    decreases ChunkCount(|value|) + 2 - loops
  {
    hide ScanFile, HoldsChunk, IsForeign, Flatten, Advance, ChunkCount;
    var n := ChunkCount(|value|);
    ScanKeepsPrefix(blocks, labels, w, t, value);
    AdvanceStops(labels, 0, w, k, n);
    if loops <= n {
      IncompleteRun(blocks, labels, Advance(labels, 0, w, n), k, loops + 1, t, value);
    }
  }

  /** In any order, repeated, among any other tuples: no step leaves a tuple or the buffer, and the value is
      reassembled exactly when every chunk is somewhere in the file, in at most as many scans as chunks;
      otherwise the code gives up after two more. */
  lemma ReassemblesExactlyComplete(blocks: seq<seq<Item>>, labels: seq<Option<nat>>, t: Target, value: seq<byte>)
    requires Labelled(Flatten(blocks), labels, t, value)
    ensures var n := ChunkCount(|value|);
            var r := Reassemble(blocks, START, 0, t);
            r.Ended? && (r.ok <==> Complete(labels, n))
            && (r.ok ==> r.last == Progress(n, value) && r.scans <= n)
            && (!r.ok ==> r.scans == n + 2)
  {
    var n := ChunkCount(|value|);
    assert At(0, value) == START;
    if Complete(labels, n) {
      CompleteRun(blocks, labels, 0, 0, t, value);
    } else {
      var k: nat :| k < n && Some(k) !in labels;
      IncompleteRun(blocks, labels, 0, k, 0, t, value);
    }
  }

  // ---------------------------------------------------------------- how many scans

  /** Chunk k lies at item place[k], and nowhere else. */
  ghost predicate Placed(labels: seq<Option<nat>>, place: seq<nat>) {
    && (forall k :: 0 <= k < |place| ==> place[k] < |labels| && labels[place[k]] == Some(k))
    && (forall i :: 0 <= i < |labels| && labels[i].Some? && labels[i].value < |place| ==> place[labels[i].value] == i)
  }

  /** How many chunks k >= w are followed by a chunk k + 1 that lies before them. */
  function Descents(place: seq<nat>, w: nat): nat
    decreases |place| - w
  {
    if w + 1 >= |place| then 0
    else (if place[w + 1] < place[w] then 1 else 0) + Descents(place, w + 1)
  }

  /** The chunk at which a scan that wants w from the start of the file stops. */
  function RunEnd(place: seq<nat>, w: nat): (e: nat)
    requires w < |place|
    ensures w < e <= |place|
    decreases |place| - w
  {
    if w + 1 < |place| && place[w + 1] > place[w] then RunEnd(place, w + 1) else w + 1
  }

  lemma {:induction false} RunAndDescents(place: seq<nat>, w: nat)
    requires w < |place| && forall k :: 0 <= k < |place| - 1 ==> place[k] != place[k + 1]
    ensures var e := RunEnd(place, w); Descents(place, w) == if e < |place| then 1 + Descents(place, e) else 0
    decreases |place| - w
  {
    if w + 1 < |place| && place[w + 1] > place[w] {
      RunAndDescents(place, w + 1);
    }
  }

  lemma {:induction false} AdvanceToRunEnd(labels: seq<Option<nat>>, place: seq<nat>, i: nat, w: nat)
    requires Placed(labels, place) && w < |place| && i <= place[w]
    ensures Advance(labels, i, w, |place|) == RunEnd(place, w)
    decreases |labels| - i
  {
    if i < place[w] {
      AdvanceToRunEnd(labels, place, i + 1, w);
    } else if w + 1 < |place| {
      if place[w + 1] > place[w] {
        AdvanceToRunEnd(labels, place, i + 1, w + 1);
      } else {
        AdvanceStops(labels, i + 1, w + 1, w + 1, |place|);
      }
    }
  }

  lemma {:induction false} ScansFrom(blocks: seq<seq<Item>>, labels: seq<Option<nat>>, place: seq<nat>, w: nat,
                                     loops: nat, t: Target, value: seq<byte>)
    requires Labelled(Flatten(blocks), labels, t, value)
    requires Placed(labels, place) && |place| == ChunkCount(|value|) && loops <= w < |place|
    ensures var r := Reassemble(blocks, At(w, value), loops, t); r.Ended? && r.scans == loops + 1 + Descents(place, w)
    decreases |place| - w
  {
    hide ScanFile, HoldsChunk, IsForeign, Flatten, Advance, ChunkCount;
    var e := RunEnd(place, w);
    AdvanceToRunEnd(labels, place, 0, w);
    ScanKeepsPrefix(blocks, labels, w, t, value);
    RunAndDescents(place, w);
    if e < |place| {
      ScansFrom(blocks, labels, place, e, loops + 1, t, value);
    }
  }

  /** One scan, and one more for each chunk that lies before its predecessor. */
  lemma ScanCountIsExact(blocks: seq<seq<Item>>, labels: seq<Option<nat>>, place: seq<nat>, t: Target,
                         value: seq<byte>)
    requires Labelled(Flatten(blocks), labels, t, value)
    requires Placed(labels, place) && |place| == ChunkCount(|value|)
    ensures var r := Reassemble(blocks, START, 0, t);
            r.Ended? && r.ok && r.last.data == value && r.scans == 1 + Descents(place, 0)
  {
    assert At(0, value) == START;
    forall k: nat | k < |place|
      ensures Some(k) in labels
    {
      assert labels[place[k]] == Some(k);
    }
    ReassemblesExactlyComplete(blocks, labels, t, value);
    ScansFrom(blocks, labels, place, 0, 0, t, value);
  }

  // ---------------------------------------------------------------- the code

  /** The variables ReadStringFromToast shares with the scan through pointers. A method that returns false
      has left what C defines, and says nothing more. */
  class ToastReader {
    const t: Target
    const toastValue: array<byte>
    var want: nat
    var read: nat

    constructor (t: Target)
      ensures this.t == t && fresh(toastValue)
      ensures Valid() && State() == START
    {
      this.t := t;
      toastValue := new byte[t.size];
      want, read := 0, 0;
    }

    ghost predicate Valid()
      reads this
    {
      read <= toastValue.Length == t.size
    }

    ghost function State(): Progress
      reads this, toastValue
      requires Valid()
    {
      Progress(want, toastValue[..read])
    }

    /** Copies the wanted chunk behind the bytes read so far; the caller counts them. */
    method ToastChunkDecode(item: Item) returns (inside: bool, chunkSize: nat)
      requires Valid() && item.Tuple?
      modifies this`want, toastValue
      ensures inside == Step(old(State()), item, t).Some?
      ensures inside ==>
                && read + chunkSize <= toastValue.Length
                && Some(Progress(want, toastValue[..read + chunkSize])) == Step(old(State()), item, t)
    {
      hide LeValue, AlignUp;
      inside, chunkSize := true, 0;
      var tuple := item.bytes;
      var delta := AlignUp(item.addr, 4) - item.addr;
      if |tuple| < delta + 4 || LeValue(tuple[delta..delta + 4]) != t.oid {
        return;
      }
      if |tuple| < delta + 8 || LeValue(tuple[delta + 4..delta + 8]) != want {
        return;
      }
      var data := tuple[delta + 8..];
      if |data| == 0 {
        return;
      }
      var processed := 4;
      ghost var before := toastValue[..read];
      assert before + [] == before;
      if data[0] % 4 == 0 {
        var memory := data + item.beyond;
        if |memory| < 4 {
          return false, 0;
        }
        processed := LeValue(memory[..4]) / 4;
        if processed < 4 || processed > |memory| || read + (processed - 4) > toastValue.Length {
          return false, 0;
        }
        chunkSize := processed - 4;
        forall i | 0 <= i < chunkSize {
          toastValue[read + i] := memory[4 + i];
        }
        assert toastValue[..read + chunkSize] == before + memory[4..processed];
      }
      if |data| != processed {
        return;
      }
      want := want + 1;
    }

    /** The item loop of FormatItemBlock on a TOAST block. */
    method FormatItemBlock(items: seq<Item>) returns (inside: bool)
      requires Valid()
      modifies this, toastValue
      ensures inside == ScanBlock(items, old(State()), t).Some?
      ensures inside ==> Valid() && Some(State()) == ScanBlock(items, old(State()), t)
    {
      hide Step;
      var x := 0;
      while x < |items|
        invariant x <= |items| && Valid()
        invariant ScanBlock(items[x..], State(), t) == ScanBlock(items, old(State()), t)
      {
        assert items[x..][0] == items[x] && items[x..][1..] == items[x + 1..];
        SkippedStep(State(), items[x], t);
        if items[x].Tuple? {
          var ok, chunkSize := ToastChunkDecode(items[x]);
          if !ok {
            return false;
          }
          read := read + chunkSize;
          if read >= t.ext {
            return true;
          }
        }
        x := x + 1;
      }
      inside := true;
    }

    /** The block loop of DumpFileContents. */
    method DumpFileContents(blocks: seq<seq<Item>>) returns (inside: bool)
      requires Valid()
      modifies this, toastValue
      ensures inside == ScanFile(blocks, old(State()), t).Some?
      ensures inside ==> Valid() && Some(State()) == ScanFile(blocks, old(State()), t)
    {
      hide ScanBlock;
      var block := 0;
      while block < |blocks|
        invariant block <= |blocks| && Valid()
        invariant ScanFile(blocks[block..], State(), t) == ScanFile(blocks, old(State()), t)
      {
        assert blocks[block..][0] == blocks[block] && blocks[block..][1..] == blocks[block + 1..];
        var ok := FormatItemBlock(blocks[block]);
        if !ok {
          return false;
        }
        if read >= t.ext {
          return true;
        }
        block := block + 1;
      }
      inside := true;
    }
  }

  lemma SkippedStep(st: Progress, item: Item, t: Target)
    ensures item.Skipped? ==> Step(st, item, t) == Some(st)
  {
  }

  /** The rescans of ReadStringFromToast, from allocating the buffer to closing the file. */
  method ReadChunks(blocks: seq<seq<Item>>, t: Target)
    returns (inside: bool, result: int, toastValue: array<byte>, toastRead: nat, loops: nat)
    ensures fresh(toastValue) && toastValue.Length == t.size
    ensures inside == Reassemble(blocks, START, 0, t).Ended?
    ensures inside ==>
              var r := Reassemble(blocks, START, 0, t);
              && result == (if r.ok then 0 else -1) && toastRead <= t.size
              && toastValue[..toastRead] == r.last.data && loops == r.scans
  {
    hide ScanFile;
    var numChunks := ChunkCount(t.ext);
    var reader := new ToastReader(t);
    result, loops := 0, 0;
    toastValue, toastRead := reader.toastValue, 0;
    while reader.want < numChunks
      invariant fresh(reader) && fresh(reader.toastValue) && reader.t == t && reader.toastValue == toastValue
      invariant reader.Valid() && loops <= numChunks + 1
      invariant Reassemble(blocks, reader.State(), loops, t) == Reassemble(blocks, START, 0, t)
      decreases numChunks + 2 - loops
    {
      var ok := reader.DumpFileContents(blocks);
      if !ok {
        inside := false;
        return;
      }
      var gaveUp := loops > numChunks;
      loops := loops + 1;
      if gaveUp {
        result := -1;
        break;
      }
    }
    inside, toastRead := true, reader.read;
  }

  // ---------------------------------------------------------------- what is handed over

  /** The outcome of the rescans for the printer: an error, fewer bytes than it is told to read, or the
      stored value. */
  datatype Fetch = Missing | Unread | Fetched(stored: seq<byte>)

  /** The first `ext` bytes of the buffer are handed over; bytes never copied there are not defined. */
  function FetchStored(blocks: seq<seq<Item>>, t: Target): Fetch {
    match Reassemble(blocks, START, 0, t)
    case Undefined => Unread
    case Ended(ok, last, _) =>
      if !ok then Missing else if |last.data| < t.ext then Unread else Fetched(last.data[..t.ext])
  }

  /** A file that holds chunks of the value, in any order and among any tuples, hands over the value exactly
      when every chunk is there, and reports an error otherwise. */
  lemma ValueIsFetched(blocks: seq<seq<Item>>, labels: seq<Option<nat>>, t: Target, value: seq<byte>)
    requires Labelled(Flatten(blocks), labels, t, value)
    ensures FetchStored(blocks, t) == if Complete(labels, ChunkCount(|value|)) then Fetched(value) else Missing
  {
    ReassemblesExactlyComplete(blocks, labels, t, value);
    assert value[..|value|] == value;
  }

  /** The tuples in which PostgreSQL stores a value, one a chunk, in order; each with any memory behind it. */
  function StoredChunks(oid: nat, value: seq<byte>, addrs: seq<nat>, beyond: seq<seq<byte>>): (items: seq<Item>)
    requires |addrs| == |beyond| == ChunkCount(|value|)
    ensures |items| == |addrs|
  {
    seq(|addrs|, k requires 0 <= k < |addrs| =>
      Tuple(addrs[k], ChunkTuple(oid, k, Chunk(value, k), addrs[k]), beyond[k]))
  }

  /** Storing a value and fetching it gives it back after one scan. */
  lemma StoredIsFetched(oid: nat, value: seq<byte>, addrs: seq<nat>, beyond: seq<seq<byte>>, size: nat)
    requires oid < 0x1_0000_0000 && 0 < |value| < 0x4000_0000 && |value| <= size
    requires |addrs| == |beyond| == ChunkCount(|value|)
    ensures var blocks := [StoredChunks(oid, value, addrs, beyond)];
            var t := Target(oid, |value|, size);
            && FetchStored(blocks, t) == Fetched(value)
            && Reassemble(blocks, START, 0, t) == Ended(true, Progress(|addrs|, value), 1)
            && exists labels :: Labelled(Flatten(blocks), labels, t, value) && Complete(labels, ChunkCount(|value|))
  {
    hide HoldsChunk, ChunkTuple, Reassemble, Descents;
    var items, t := StoredChunks(oid, value, addrs, beyond), Target(oid, |value|, size);
    var labels := seq(|items|, k requires 0 <= k < |items| => Some(k));
    var place := seq(|items|, k requires 0 <= k < |items| => k);
    forall k | 0 <= k < |items|
      ensures HoldsChunk(items[k], k, oid, value)
    {
      ChunkTupleHoldsChunk(oid, k, value, addrs[k], beyond[k]);
    }
    assert Flatten([items]) == items;
    assert forall k: nat :: k < |items| ==> labels[k] == Some(k);
    assert Labelled(Flatten([items]), labels, t, value);
    ValueIsFetched([items], labels, t, value);
    ReassemblesExactlyComplete([items], labels, t, value);
    NoDescents(place, 0);
    ScanCountIsExact([items], labels, place, t, value);
  }

  lemma {:induction false} NoDescents(place: seq<nat>, w: nat)
    requires w <= |place| && forall k :: 0 <= k < |place| ==> place[k] == k
    ensures Descents(place, w) == 0
    decreases |place| - w
  {
    if w < |place| {
      NoDescents(place, w + 1);
    }
  }
}
