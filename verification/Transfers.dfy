/** File transfer in chunks: the splitter's arithmetic and the reassembler keyed by transfer id. */
module Transfers {
  type Bytes = seq<bv8>

  const CHUNK_SIZE := 512 * 1024
  const MAX_SIZE := 100 * 1024 * 1024

  // ---- Splitting ----

  function Min(a: int, b: int): int {
    if a < b then a else b
  }

  /** The number of chunks: the size divided by the chunk size, rounded up. */
  function TotalChunks(size: nat): nat {
    (size + CHUNK_SIZE - 1) / CHUNK_SIZE
  }

  lemma ChunksCover(size: nat)
    ensures TotalChunks(size) >= 0 && Min(TotalChunks(size) * CHUNK_SIZE, size) == size
  {
  }

  function Piece(file: Bytes, i: nat): Bytes
    requires i < TotalChunks(|file|)
  {
    file[i * CHUNK_SIZE..i * CHUNK_SIZE + Min(CHUNK_SIZE, |file| - i * CHUNK_SIZE)]
  }

  /** Every chunk carries something and fits; all but the last are full. */
  lemma PieceSizes(file: Bytes, i: nat)
    requires i < TotalChunks(|file|)
    ensures 1 <= |Piece(file, i)| <= CHUNK_SIZE
    ensures i + 1 < TotalChunks(|file|) ==> |Piece(file, i)| == CHUNK_SIZE
    ensures 0 <= i * CHUNK_SIZE <= Min((i + 1) * CHUNK_SIZE, |file|)
    ensures Piece(file, i) == file[i * CHUNK_SIZE..Min((i + 1) * CHUNK_SIZE, |file|)]
  {
  }

  /** The first n chunks, one after the other. */
  function Joined(chunks: map<int, Bytes>, n: nat): Bytes
    requires forall i :: 0 <= i < n ==> i in chunks
  {
    if n == 0 then [] else Joined(chunks, n - 1) + chunks[n - 1]
  }

  ghost predicate PiecesOf(chunks: map<int, Bytes>, file: Bytes) {
    forall i :: i in chunks ==> 0 <= i < TotalChunks(|file|) && chunks[i] == Piece(file, i)
  }

  /** Joining the chunks in index order gives the file back. */
  lemma {:induction false} JoinedPieces(chunks: map<int, Bytes>, file: Bytes, n: nat)
    requires PiecesOf(chunks, file) && n <= TotalChunks(|file|) && forall i :: 0 <= i < n ==> i in chunks
    ensures Joined(chunks, n) == file[..Min(n * CHUNK_SIZE, |file|)]
  {
    if n > 0 {
      hide Piece;
      JoinedPieces(chunks, file, n - 1);
      PieceSizes(file, n - 1);
      SliceAppend(file, (n - 1) * CHUNK_SIZE, Min(n * CHUNK_SIZE, |file|));
    }
  }

  lemma SliceAppend(file: Bytes, from: nat, to: nat)
    requires from <= to <= |file|
    ensures file[..from] + file[from..to] == file[..to]
  {
  }

  // ---- Receiving ----

  datatype Message =
    | Chunk(id: string, path: string, index: int, total: int, data: Bytes, base: string)
    | Complete(id: string)
    | Expire(id: string)

  datatype Transfer = Transfer(chunks: map<int, Bytes>, total: int, path: string, base: string)

  datatype Write = Write(id: string, base: string, path: string, content: Bytes)

  /** The transfers under way, and every file write so far. */
  datatype Receiver = Receiver(pending: map<string, Transfer>, disk: seq<Write>)

  predicate HasAll(t: Transfer) {
    t.total >= 0 && forall i :: 0 <= i < t.total ==> i in t.chunks
  }

  function Assembled(r: Receiver, id: string, t: Transfer): Receiver {
    Receiver(r.pending - {id},
             if HasAll(t) then r.disk + [Write(id, t.base, t.path, Joined(t.chunks, t.total))] else r.disk)
  }

  function WithChunk(r: Receiver, id: string, path: string, index: int, total: int, data: Bytes, base: string): Transfer
  {
    var t := if id in r.pending then r.pending[id] else Transfer(map[], total, path, base);
    t.(chunks := t.chunks[index := data])
  }

  function After(r: Receiver, m: Message): Receiver {
    match m
    case Chunk(id, path, index, total, data, base) =>
      if id == "" || path == "" || data == [] || base == "" then r
      else
        var t := WithChunk(r, id, path, index, total, data, base);
        if |t.chunks.Keys| == t.total then Assembled(r, id, t) else r.(pending := r.pending[id := t])
    case Complete(id) =>
      if id != "" && id in r.pending && |r.pending[id].chunks.Keys| == r.pending[id].total
      then Assembled(r, id, r.pending[id]) else r
    case Expire(id) => r.(pending := r.pending - {id})
  }

  function Run(r: Receiver, ms: seq<Message>): Receiver {
    if ms == [] then r else After(Run(r, ms[..|ms| - 1]), ms[|ms| - 1])
  }

  // ---- One transfer among others ----

  /** What a transfer id stands for. */
  datatype File = File(id: string, base: string, path: string, bytes: Bytes)

  predicate Proper(f: File) {
    f.id != "" && f.base != "" && f.path != "" && |f.bytes| > 0
  }

  /** The splitter's message for chunk i. */
  function Sent(f: File, i: nat): Message
    requires i < TotalChunks(|f.bytes|)
  {
    Chunk(f.id, f.path, i, TotalChunks(|f.bytes|), Piece(f.bytes, i), f.base)
  }

  /** Chunk messages with this id are the splitter's; messages of other transfers may be anything. */
  ghost predicate Honest(f: File, m: Message) {
    m.Chunk? && m.id == f.id ==> 0 <= m.index < TotalChunks(|f.bytes|) && m == Sent(f, m.index)
  }

  ghost predicate IsChunk(f: File, m: Message, i: int) {
    m.Chunk? && m.id == f.id && m.index == i
  }

  ghost predicate Arrives(f: File, ms: seq<Message>, i: int) {
    exists j :: 0 <= j < |ms| && IsChunk(f, ms[j], i)
  }

  /** The chunk indices that arrive in the messages. */
  ghost function Indices(f: File, ms: seq<Message>): set<int> {
    set i | 0 <= i < TotalChunks(|f.bytes|) && Arrives(f, ms, i)
  }

  ghost predicate Exact(f: File, w: Write) {
    w.id == f.id ==> w == Write(f.id, f.base, f.path, f.bytes)
  }

  /** What is stored for the transfer is part of the file, and not yet all of it. */
  ghost predicate Partial(f: File, r: Receiver) {
    f.id in r.pending ==>
      var t := r.pending[f.id];
      t.path == f.path && t.base == f.base && t.total == TotalChunks(|f.bytes|)
      && PiecesOf(t.chunks, f.bytes) && |t.chunks.Keys| < t.total
  }

  ghost predicate Good(f: File, r: Receiver) {
    Partial(f, r) && forall w :: w in r.disk ==> Exact(f, w)
  }

  function Range(n: nat): (s: set<int>)
    ensures |s| == n && forall i :: i in s <==> 0 <= i < n
  {
    if n == 0 then {} else Range(n - 1) + {n - 1}
  }

  lemma FullRange(keys: set<int>, n: nat)
    requires |keys| == n && forall i :: i in keys ==> 0 <= i < n
    ensures forall i :: 0 <= i < n ==> i in keys
  {
    var all := Range(n);
    forall i | 0 <= i < n
      ensures i in keys
    {
      if i !in keys {
        SubsetSize(keys, all - {i});
      }
    }
  }

  lemma {:induction false} SubsetSize(a: set<int>, b: set<int>)
    requires forall i :: i in a ==> i in b
    ensures |a| <= |b|
    decreases |a|
  {
    if i :| i in a {
      SubsetSize(a - {i}, b - {i});
    } else {
      var none: set<int> := {};
      assert forall i: int :: i in a <==> i in none;
      assert a == none;
    }
  }

  lemma WritesAppend(f: File, disk: seq<Write>, w: Write)
    ensures Writes(f, disk + [w]) == if w.id == f.id then Writes(f, disk) + [w] else Writes(f, disk)
  {
    assert (disk + [w])[..|disk|] == disk;
  }

  /** Nothing about the transfer differs between r and u, and u is still good for it. */
  ghost predicate Untouched(f: File, r: Receiver, u: Receiver) {
    && Good(f, u) && (f.id in u.pending <==> f.id in r.pending)
    && (f.id in r.pending ==> u.pending[f.id] == r.pending[f.id])
    && Writes(f, u.disk) == Writes(f, r.disk)
  }

  /** A message leaves another transfer as it was. */
  lemma OthersUntouched(f: File, r: Receiver, m: Message)
    requires m.id != f.id && Good(f, r)
    ensures Untouched(f, r, After(r, m))
  {
    NoneUntouched(f, r);
    match m
    case Chunk(id, path, index, total, data, base) =>
      var t := WithChunk(r, id, path, index, total, data, base);
      OtherStored(f, r, id, t);
      OtherAssembled(f, r, id, t);
      hide WithChunk, Assembled, Untouched;
    case Complete(id) =>
      if id in r.pending {
        OtherAssembled(f, r, id, r.pending[id]);
      }
      hide Assembled, Untouched;
    case Expire(id) => OtherDropped(f, r, id);
  }

  lemma NoneUntouched(f: File, r: Receiver)
    requires Good(f, r)
    ensures Untouched(f, r, r)
  {
  }

  lemma OtherStored(f: File, r: Receiver, id: string, t: Transfer)
    requires id != f.id && Good(f, r)
    ensures Untouched(f, r, r.(pending := r.pending[id := t]))
  {
    hide PiecesOf, TotalChunks, Writes;
  }

  lemma OtherDropped(f: File, r: Receiver, id: string)
    requires id != f.id && Good(f, r)
    ensures Untouched(f, r, r.(pending := r.pending - {id}))
  {
    hide PiecesOf, TotalChunks, Writes;
  }

  lemma OtherAssembled(f: File, r: Receiver, id: string, t: Transfer)
    requires id != f.id && Good(f, r)
    ensures Untouched(f, r, Assembled(r, id, t))
  {
    hide PiecesOf, TotalChunks, Joined;
    OtherDropped(f, r, id);
    if HasAll(t) {
      WritesAppend(f, r.disk, Write(id, t.base, t.path, Joined(t.chunks, t.total)));
    }
    hide Writes, Partial, HasAll;
  }

  /** The writes of one transfer. */
  function Writes(f: File, disk: seq<Write>): seq<Write> {
    if disk == [] then []
    else
      var init, last := Writes(f, disk[..|disk| - 1]), disk[|disk| - 1];
      if last.id == f.id then init + [last] else init
  }

  /** The indices stored for the transfer. */
  function Stored(f: File, r: Receiver): set<int> {
    if f.id in r.pending then r.pending[f.id].chunks.Keys else {}
  }

  /** A chunk of the transfer is stored, or completes it: then, and only then, the file is written. */
  lemma ChunkEffect(f: File, r: Receiver, i: nat)
    requires Proper(f) && Good(f, r) && i < TotalChunks(|f.bytes|)
    ensures Good(f, After(r, Sent(f, i)))
    ensures if Stored(f, r) + {i} == Range(TotalChunks(|f.bytes|))
            then Stored(f, After(r, Sent(f, i))) == {} &&
                 Writes(f, After(r, Sent(f, i)).disk) == Writes(f, r.disk) + [Write(f.id, f.base, f.path, f.bytes)]
            else Stored(f, After(r, Sent(f, i))) == Stored(f, r) + {i} &&
                 Writes(f, After(r, Sent(f, i)).disk) == Writes(f, r.disk)
  {
    var n := TotalChunks(|f.bytes|);
    var t := WithChunk(r, f.id, f.path, i, n, Piece(f.bytes, i), f.base);
    WithChunkStores(f, r, i, t);
    AfterSent(f, r, i, t);
    FullIff(t.chunks.Keys, n);
    hide After, Piece, PiecesOf, WithChunk, Range, TotalChunks, HasAll, Assembled;
    if |t.chunks.Keys| == n {
      AssembledWrites(f, r, t);
      WrittenGood(f, r);
    } else {
      StoredGood(f, r, t);
    }
    hide Good, Writes, Stored;
  }

  lemma StoredGood(f: File, r: Receiver, t: Transfer)
    requires Good(f, r) && t.path == f.path && t.base == f.base && t.total == TotalChunks(|f.bytes|)
    requires PiecesOf(t.chunks, f.bytes) && |t.chunks.Keys| < t.total
    ensures var u := r.(pending := r.pending[f.id := t]);
            Good(f, u) && Stored(f, u) == t.chunks.Keys && Writes(f, u.disk) == Writes(f, r.disk)
  {
    hide PiecesOf, TotalChunks, Writes;
  }

  lemma WrittenGood(f: File, r: Receiver)
    requires Good(f, r)
    ensures var w := Write(f.id, f.base, f.path, f.bytes);
            var u := Receiver(r.pending - {f.id}, r.disk + [w]);
            Good(f, u) && Stored(f, u) == {} && Writes(f, u.disk) == Writes(f, r.disk) + [w]
  {
    WritesAppend(f, r.disk, Write(f.id, f.base, f.path, f.bytes));
    hide Writes, PiecesOf, TotalChunks;
  }

  lemma FullIff(keys: set<int>, n: nat)
    requires forall i :: i in keys ==> 0 <= i < n
    ensures |keys| == n <==> keys == Range(n)
    ensures |keys| <= n
  {
    SubsetSize(keys, Range(n));
    if |keys| == n {
      FullRange(keys, n);
      assert forall i: int :: i in keys <==> i in Range(n);
    }
  }

  lemma WithChunkStores(f: File, r: Receiver, i: nat, t: Transfer)
    requires Partial(f, r) && i < TotalChunks(|f.bytes|)
    requires t == WithChunk(r, f.id, f.path, i, TotalChunks(|f.bytes|), Piece(f.bytes, i), f.base)
    ensures t.path == f.path && t.base == f.base && t.total == TotalChunks(|f.bytes|)
    ensures PiecesOf(t.chunks, f.bytes) && t.chunks.Keys == Stored(f, r) + {i}
  {
    hide Piece;
  }

  lemma AfterSent(f: File, r: Receiver, i: nat, t: Transfer)
    requires Proper(f) && i < TotalChunks(|f.bytes|)
    requires t == WithChunk(r, f.id, f.path, i, TotalChunks(|f.bytes|), Piece(f.bytes, i), f.base)
    ensures After(r, Sent(f, i)) ==
            if |t.chunks.Keys| == t.total then Assembled(r, f.id, t) else r.(pending := r.pending[f.id := t])
  {
    PieceSizes(f.bytes, i);
    hide Piece, WithChunk, Assembled;
  }

  lemma AssembledWrites(f: File, r: Receiver, t: Transfer)
    requires t.path == f.path && t.base == f.base && t.total == TotalChunks(|f.bytes|)
    requires PiecesOf(t.chunks, f.bytes) && t.chunks.Keys == Range(t.total)
    ensures Assembled(r, f.id, t) == Receiver(r.pending - {f.id}, r.disk + [Write(f.id, f.base, f.path, f.bytes)])
  {
    assert forall i :: 0 <= i < t.total ==> i in t.chunks.Keys;
    ChunksCover(|f.bytes|);
    hide PiecesOf, Range, TotalChunks;
    JoinedPieces(t.chunks, f.bytes, t.total);
    assert f.bytes[..|f.bytes|] == f.bytes;
  }

  // ---- Runs ----

  ghost predicate HonestAll(f: File, ms: seq<Message>) {
    forall j :: 0 <= j < |ms| ==> Honest(f, ms[j])
  }

  ghost predicate NoExpiry(f: File, ms: seq<Message>) {
    forall j :: 0 <= j < |ms| ==> ms[j] != Expire(f.id)
  }

  lemma StepGood(f: File, r: Receiver, m: Message)
    requires Proper(f) && Good(f, r) && Honest(f, m)
    ensures Good(f, After(r, m))
  {
    if m.id != f.id {
      OthersUntouched(f, r, m);
    } else if m.Chunk? {
      ChunkEffect(f, r, m.index);
    }
  }

  /** Whatever the order, duplication, loss and expiry of its chunks and whatever other transfers do,
      the only content ever written for a transfer is its file. */
  lemma {:induction false} OnlyTheFileIsWritten(f: File, r: Receiver, ms: seq<Message>)
    requires Proper(f) && Good(f, r) && HonestAll(f, ms)
    ensures Good(f, Run(r, ms))
    ensures forall w :: w in Run(r, ms).disk && w.id == f.id ==> w == Write(f.id, f.base, f.path, f.bytes)
    decreases |ms|
  {
    if ms != [] {
      OnlyTheFileIsWritten(f, r, ms[..|ms| - 1]);
      StepGood(f, Run(r, ms[..|ms| - 1]), ms[|ms| - 1]);
    }
  }

  lemma IndicesAppend(f: File, ms: seq<Message>, m: Message)
    ensures Indices(f, ms) <= Indices(f, ms + [m])
    ensures forall i :: i in Indices(f, ms + [m]) <==>
              i in Indices(f, ms) || (0 <= i < TotalChunks(|f.bytes|) && IsChunk(f, m, i))
  {
    forall i
      ensures Arrives(f, ms + [m], i) <==> Arrives(f, ms, i) || IsChunk(f, m, i)
    {
      if Arrives(f, ms, i) {
        var j :| 0 <= j < |ms| && IsChunk(f, ms[j], i);
        assert IsChunk(f, (ms + [m])[j], i);
      }
      if IsChunk(f, m, i) {
        assert IsChunk(f, (ms + [m])[|ms|], i);
      }
    }
  }

  /** While some chunk is missing nothing is written for the transfer, and, unless it expires, exactly
      the chunks that arrived are stored. */
  lemma {:induction false} NothingWhileMissing(f: File, r: Receiver, ms: seq<Message>, missing: nat)
    requires Proper(f) && Good(f, r) && f.id !in r.pending && HonestAll(f, ms)
    requires missing < TotalChunks(|f.bytes|) && missing !in Indices(f, ms)
    ensures Good(f, Run(r, ms)) && Writes(f, Run(r, ms).disk) == Writes(f, r.disk)
    ensures Stored(f, Run(r, ms)) <= Indices(f, ms)
    ensures NoExpiry(f, ms) ==> Stored(f, Run(r, ms)) == Indices(f, ms)
    decreases |ms|
  {
    if ms == [] {
      assert Indices(f, ms) == {};
    } else {
      var init, m := ms[..|ms| - 1], ms[|ms| - 1];
      assert ms == init + [m];
      IndicesAppend(f, init, m);
      NothingWhileMissing(f, r, init, missing);
      StepStores(f, Run(r, init), m, missing);
    }
  }

  /** One message adds its own index, if it has one and `missing` stays missing. */
  lemma StepStores(f: File, r: Receiver, m: Message, missing: nat)
    requires Proper(f) && Good(f, r) && Honest(f, m)
    requires missing < TotalChunks(|f.bytes|) && missing !in Stored(f, r) && !IsChunk(f, m, missing)
    ensures Good(f, After(r, m)) && Writes(f, After(r, m).disk) == Writes(f, r.disk)
    ensures m == Expire(f.id) ==> Stored(f, After(r, m)) == {}
    ensures m != Expire(f.id) ==> forall i :: i in Stored(f, After(r, m)) <==> i in Stored(f, r) || IsChunk(f, m, i)
  {
    if m.id != f.id {
      OthersUntouched(f, r, m);
    } else if m.Chunk? {
      ChunkEffect(f, r, m.index);
      assert missing in Range(TotalChunks(|f.bytes|)) && missing !in Stored(f, r) + {m.index};
    }
  }

  /** The chunk that was missing last completes the transfer: exactly then the file is written, once,
      however the other chunks came. */
  lemma LastChunkWrites(f: File, r: Receiver, ms: seq<Message>, last: nat)
    requires Proper(f) && Good(f, r) && f.id !in r.pending && HonestAll(f, ms) && NoExpiry(f, ms)
    requires last < TotalChunks(|f.bytes|) && last !in Indices(f, ms)
    requires forall i :: 0 <= i < TotalChunks(|f.bytes|) && i != last ==> i in Indices(f, ms)
    ensures var w := Run(r, ms + [Sent(f, last)]);
            Writes(f, w.disk) == Writes(f, r.disk) + [Write(f.id, f.base, f.path, f.bytes)] && Stored(f, w) == {}
  {
    NothingWhileMissing(f, r, ms, last);
    ChunkEffect(f, Run(r, ms), last);
    hide After, Writes, TotalChunks, Good, Arrives;
    assert (ms + [Sent(f, last)])[..|ms|] == ms;
    var n := TotalChunks(|f.bytes|);
    assert forall i: int :: i in Stored(f, Run(r, ms)) + {last} <==> i in Range(n);
    assert Stored(f, Run(r, ms)) + {last} == Range(n);
  }

  /** A message makes a write or leaves everything stored that was, with its own chunk. */
  lemma StepKeepsOrWrites(f: File, r: Receiver, m: Message)
    requires Proper(f) && Good(f, r) && Honest(f, m) && m != Expire(f.id)
    ensures |Writes(f, r.disk)| <= |Writes(f, After(r, m).disk)|
    ensures |Writes(f, r.disk)| == |Writes(f, After(r, m).disk)| ==>
              forall i :: i in Stored(f, r) || IsChunk(f, m, i) ==> i in Stored(f, After(r, m))
  {
    if m.id != f.id {
      OthersUntouched(f, r, m);
    } else if m.Chunk? {
      ChunkEffect(f, r, m.index);
    }
  }

  lemma {:induction false} KeepsOrWrites(f: File, r: Receiver, ms: seq<Message>)
    requires Proper(f) && Good(f, r) && HonestAll(f, ms) && NoExpiry(f, ms)
    ensures Good(f, Run(r, ms)) && |Writes(f, r.disk)| <= |Writes(f, Run(r, ms).disk)|
    ensures |Writes(f, r.disk)| == |Writes(f, Run(r, ms).disk)| ==> Indices(f, ms) <= Stored(f, Run(r, ms))
    decreases |ms|
  {
    if ms == [] {
      assert Indices(f, ms) == {};
    } else {
      var init, m := ms[..|ms| - 1], ms[|ms| - 1];
      assert ms == init + [m];
      KeepsOrWrites(f, r, init);
      IndicesAppend(f, init, m);
      StepGood(f, Run(r, init), m);
      StepKeepsOrWrites(f, Run(r, init), m);
      hide After, Writes, Good, Stored, Indices;
    }
  }

  /** Every chunk of the file is among the messages. */
  ghost predicate Full(f: File, ms: seq<Message>) {
    forall i :: 0 <= i < TotalChunks(|f.bytes|) ==> i in Indices(f, ms)
  }

  lemma SomeMissing(f: File, r: Receiver)
    requires Proper(f) && Partial(f, r)
    ensures exists i :: 0 <= i < TotalChunks(|f.bytes|) && i !in Stored(f, r)
  {
    var n := TotalChunks(|f.bytes|);
    if forall i :: 0 <= i < n ==> i in Stored(f, r) {
      hide PiecesOf;
      SubsetSize(Range(n), Stored(f, r));
    }
  }

  /** When every chunk arrives and the transfer does not expire, the file is written, whatever was
      stored before. */
  lemma AllChunksWrite(f: File, r: Receiver, ms: seq<Message>)
    requires Proper(f) && Good(f, r) && HonestAll(f, ms) && NoExpiry(f, ms) && Full(f, ms)
    ensures |Writes(f, Run(r, ms).disk)| > |Writes(f, r.disk)|
  {
    KeepsOrWrites(f, r, ms);
    var u, n := Run(r, ms), TotalChunks(|f.bytes|);
    hide Run, Writes, Indices, HonestAll, NoExpiry;
    SomeMissing(f, u);
    var i :| 0 <= i < n && i !in Stored(f, u);
    assert i in Indices(f, ms);
  }

  // ---- How often the file is written ----

  /** The messages contain k successive parts that each hold every chunk. */
  ghost predicate HasParts(f: File, ms: seq<Message>, k: nat)
    decreases k
  {
    k > 0 ==> exists j :: 0 <= j <= |ms| && Full(f, ms[j..]) && HasParts(f, ms[..j], k - 1)
  }

  lemma IndicesPrefix(f: File, ms: seq<Message>, more: seq<Message>)
    ensures Indices(f, ms) <= Indices(f, ms + more)
  {
    forall i | Arrives(f, ms, i)
      ensures Arrives(f, ms + more, i)
    {
      var j :| 0 <= j < |ms| && IsChunk(f, ms[j], i);
      assert IsChunk(f, (ms + more)[j], i);
    }
  }

  lemma PartsInLonger(f: File, ms: seq<Message>, j: nat, k: nat)
    requires j <= |ms| && HasParts(f, ms[..j], k)
    ensures HasParts(f, ms, k)
  {
    if k > 0 {
      var l :| 0 <= l <= j && Full(f, ms[..j][l..]) && HasParts(f, ms[..j][..l], k - 1);
      IndicesPrefix(f, ms[..j][l..], ms[j..]);
      assert ms[..j][l..] + ms[j..] == ms[l..];
      assert ms[..j][..l] == ms[..l];
    }
  }

  lemma {:induction false} FewerParts(f: File, ms: seq<Message>, k: nat, l: nat)
    requires HasParts(f, ms, k) && l <= k
    ensures HasParts(f, ms, l)
    decreases k
  {
    if l > 0 {
      var j :| 0 <= j <= |ms| && Full(f, ms[j..]) && HasParts(f, ms[..j], k - 1);
      FewerParts(f, ms[..j], k - 1, l - 1);
    }
  }

  lemma RunLast(r: Receiver, ms: seq<Message>, m: Message)
    ensures Run(r, ms + [m]) == After(Run(r, ms), m)
  {
    hide After;
    assert (ms + [m])[..|ms|] == ms;
  }

  lemma {:induction false} RunSplits(r: Receiver, ms: seq<Message>, more: seq<Message>)
    ensures Run(r, ms + more) == Run(Run(r, ms), more)
    decreases |more|
  {
    hide After;
    if more == [] {
      assert ms + more == ms;
    } else {
      hide Run;
      var init, m := more[..|more| - 1], more[|more| - 1];
      RunSplits(r, ms, init);
      RunLast(r, ms + init, m);
      RunLast(Run(r, ms), init, m);
      assert ms + more == (ms + init) + [m] && more == init + [m];
    }
  }

  lemma BothPartsHonest(f: File, ms: seq<Message>, j: nat)
    requires j <= |ms| && HonestAll(f, ms) && NoExpiry(f, ms)
    ensures HonestAll(f, ms[..j]) && NoExpiry(f, ms[..j]) && HonestAll(f, ms[j..]) && NoExpiry(f, ms[j..])
  {
    hide Honest;
  }

  lemma {:induction false} PartsMakeWrites(f: File, r: Receiver, ms: seq<Message>, k: nat)
    requires Proper(f) && Good(f, r) && HonestAll(f, ms) && NoExpiry(f, ms) && HasParts(f, ms, k)
    ensures |Writes(f, Run(r, ms).disk)| >= |Writes(f, r.disk)| + k
    decreases k
  {
    hide Run, Writes, Good, Stored, Indices, Full, HonestAll, NoExpiry;
    if k == 0 {
      KeepsOrWrites(f, r, ms);
    } else {
      var j :| 0 <= j <= |ms| && Full(f, ms[j..]) && HasParts(f, ms[..j], k - 1);
      BothPartsHonest(f, ms, j);
      hide HasParts;
      PartsMakeWrites(f, r, ms[..j], k - 1);
      KeepsOrWrites(f, r, ms[..j]);
      AllChunksWrite(f, Run(r, ms[..j]), ms[j..]);
      RunSplits(r, ms[..j], ms[j..]);
      assert ms[..j] + ms[j..] == ms;
    }
  }

  lemma OnePartMore(f: File, ms: seq<Message>, j: nat, k: nat)
    requires j <= |ms| && Full(f, ms[j..]) && HasParts(f, ms[..j], k)
    ensures HasParts(f, ms, k + 1)
  {
  }

  /** After k writes the messages up to the cut hold k parts, and what is stored came after it. */
  ghost predicate CutAt(f: File, u: Receiver, ms: seq<Message>, cut: nat, k: int) {
    cut <= |ms| && k >= 0 && HasParts(f, ms[..cut], k) && Stored(f, u) <= Indices(f, ms[cut..])
  }

  lemma {:induction false} WritesMakeParts(f: File, r: Receiver, ms: seq<Message>) returns (cut: nat)
    requires Proper(f) && Good(f, r) && f.id !in r.pending && HonestAll(f, ms) && NoExpiry(f, ms)
    ensures Good(f, Run(r, ms))
    ensures CutAt(f, Run(r, ms), ms, cut, |Writes(f, Run(r, ms).disk)| - |Writes(f, r.disk)|)
    decreases |ms|
  {
    hide After, Writes, Good, Honest;
    if ms == [] {
      cut := 0;
    } else {
      var init, m := ms[..|ms| - 1], ms[|ms| - 1];
      assert ms == init + [m];
      RunLast(r, init, m);
      assert Honest(f, ms[|ms| - 1]) && m != Expire(f.id) && HonestAll(f, init) && NoExpiry(f, init);
      hide Run, CutAt, HonestAll, NoExpiry;
      cut := WritesMakeParts(f, r, init);
      StepGood(f, Run(r, init), m);
      cut := StepCuts(f, Run(r, init), init, m, cut, |Writes(f, Run(r, init).disk)| - |Writes(f, r.disk)|);
    }
  }

  /** A write closes the part that began at the cut. */
  lemma StepCuts(f: File, r: Receiver, ms: seq<Message>, m: Message, cut: nat, k: int) returns (next: nat)
    requires Proper(f) && Good(f, r) && Honest(f, m) && m != Expire(f.id) && CutAt(f, r, ms, cut, k)
    ensures CutAt(f, After(r, m), ms + [m], next, k + |Writes(f, After(r, m).disk)| - |Writes(f, r.disk)|)
  {
    hide After, Writes, Good, Honest, Stored, Indices, HasParts, IsChunk;
    var all := ms + [m];
    assert all[..cut] == ms[..cut] && all[cut..] == ms[cut..] + [m];
    IndicesAppend(f, ms[cut..], m);
    StepCloses(f, r, m);
    next := cut;
    if |Writes(f, r.disk)| < |Writes(f, After(r, m).disk)| {
      assert Full(f, all[cut..]);
      OnePartMore(f, all, cut, k);
      next := |all|;
      assert all[..next] == all;
    } else {
      forall i: int | i in Stored(f, After(r, m))
        ensures i in Indices(f, all[cut..])
      {
      }
    }
  }

  /** A write needs every chunk but the one that comes; otherwise nothing else is stored. */
  lemma StepCloses(f: File, r: Receiver, m: Message)
    requires Proper(f) && Good(f, r) && Honest(f, m) && m != Expire(f.id)
    ensures var u := After(r, m);
            if |Writes(f, u.disk)| == |Writes(f, r.disk)|
            then forall i :: i in Stored(f, u) ==>
                   i in Stored(f, r) || (0 <= i < TotalChunks(|f.bytes|) && IsChunk(f, m, i))
            else && |Writes(f, u.disk)| == |Writes(f, r.disk)| + 1 && Stored(f, u) == {}
                 && forall i :: 0 <= i < TotalChunks(|f.bytes|) ==> i in Stored(f, r) || IsChunk(f, m, i)
  {
    if m.id != f.id {
      OthersUntouched(f, r, m);
    } else if m.Chunk? {
      ChunkEffect(f, r, m.index);
    }
  }

  /** Without expiry the file is written k times or more exactly when the messages contain k
      successive parts that each hold every chunk. */
  lemma WritesCountParts(f: File, r: Receiver, ms: seq<Message>, k: nat)
    requires Proper(f) && Good(f, r) && f.id !in r.pending && HonestAll(f, ms) && NoExpiry(f, ms)
    ensures |Writes(f, Run(r, ms).disk)| >= |Writes(f, r.disk)| + k <==> HasParts(f, ms, k)
  {
    hide Run, Writes, Full, Good, HonestAll, NoExpiry;
    var cut := WritesMakeParts(f, r, ms);
    var n := |Writes(f, Run(r, ms).disk)| - |Writes(f, r.disk)|;
    PartsInLonger(f, ms, cut, n);
    if k <= n {
      FewerParts(f, ms, n, k);
    }
    if HasParts(f, ms, k) {
      PartsMakeWrites(f, r, ms, k);
    }
  }

  // ---- Whatever arrives ----

  /** The message carries a chunk of the transfer, with every field given. */
  predicate Carries(m: Message, id: string) {
    && m.Chunk? && m.id == id
    && m.id != "" && m.path != "" && m.data != [] && m.base != ""
  }

  predicate SoundTransfer(id: string, t: Transfer) {
    && id != "" && t.path != "" && t.base != "" && |t.chunks.Keys| != t.total
    && forall i :: i in t.chunks ==> t.chunks[i] != []
  }

  /** No transfer is under way or written without an id, a path and a base, and none is kept that has as
      many chunks as it announced. */
  ghost predicate Sound(r: Receiver) {
    && (forall id :: id in r.pending ==> SoundTransfer(id, r.pending[id]))
    && forall w :: w in r.disk ==> w.id != "" && w.path != "" && w.base != ""
  }

  lemma AssembledSound(r: Receiver, id: string, t: Transfer)
    requires Sound(r) && id != "" && t.path != "" && t.base != ""
    ensures Sound(Assembled(r, id, t))
  {
    hide Joined, HasAll, SoundTransfer;
  }

  lemma StoredSound(r: Receiver, id: string, t: Transfer)
    requires Sound(r) && SoundTransfer(id, t)
    ensures Sound(r.(pending := r.pending[id := t]))
  {
    hide SoundTransfer;
  }

  lemma StepSound(r: Receiver, m: Message)
    requires Sound(r)
    ensures Sound(After(r, m))
  {
    match m
    case Chunk(id, path, index, total, data, base) =>
      if id != "" && path != "" && data != [] && base != "" {
        var t := WithChunk(r, id, path, index, total, data, base);
        assert id in r.pending ==> SoundTransfer(id, r.pending[id]);
        assert t.path != "" && t.base != "" && forall i :: i in t.chunks ==> t.chunks[i] != [];
        AssembledSound(r, id, t);
        if |t.chunks.Keys| != t.total {
          StoredSound(r, id, t);
        }
        hide WithChunk, Assembled, Sound, SoundTransfer;
      }
    case Complete(id) =>
      assert id in r.pending ==> SoundTransfer(id, r.pending[id]);
      hide Assembled;
    case Expire(id) =>
  }

  lemma {:induction false} RunSound(r: Receiver, ms: seq<Message>)
    requires Sound(r)
    ensures Sound(Run(r, ms))
    decreases |ms|
  {
    if ms != [] {
      RunSound(r, ms[..|ms| - 1]);
      StepSound(Run(r, ms[..|ms| - 1]), ms[|ms| - 1]);
    }
  }

  /** Whatever messages came before, a completion message never assembles anything: the last chunk has. */
  lemma CompleteDoesNothing(ms: seq<Message>, id: string)
    ensures Sound(Run(Receiver(map[], []), ms))
    ensures Run(Receiver(map[], []), ms + [Complete(id)]) == Run(Receiver(map[], []), ms)
  {
    var start := Receiver(map[], []);
    RunSound(start, ms);
    RunLast(start, ms, Complete(id));
    hide Run;
    var r := Run(start, ms);
    assert id in r.pending ==> SoundTransfer(id, r.pending[id]);
  }

  predicate SameHeader(t: Transfer, u: Transfer) {
    t.path == u.path && t.base == u.base && t.total == u.total
  }

  lemma StepWhilePending(r: Receiver, m: Message, id: string)
    requires id in After(r, m).pending
    ensures id in r.pending ==>
              var t, u := r.pending[id], After(r, m).pending[id];
              SameHeader(t, u) && u.chunks == if Carries(m, id) then t.chunks[m.index := m.data] else t.chunks
    ensures id !in r.pending ==>
              Carries(m, id) && After(r, m).pending[id] == Transfer(map[m.index := m.data], m.total, m.path, m.base)
  {
    hide Joined, HasAll;
  }

  /** Message j is the last that carries this chunk of the transfer, from message i on. */
  ghost predicate LastCarrying(ms: seq<Message>, id: string, index: int, i: nat, j: nat) {
    && i <= j < |ms| && Carries(ms[j], id) && ms[j].index == index
    && forall k :: j < k < |ms| ==> !(Carries(ms[k], id) && ms[k].index == index)
  }

  /** The transfer holds the last chunk that came with each index since message i, and the header of
      that message. */
  ghost predicate Reflects(t: Transfer, ms: seq<Message>, id: string, i: nat) {
    && i < |ms| && Carries(ms[i], id)
    && t.path == ms[i].path && t.base == ms[i].base && t.total == ms[i].total
    && (forall index, j: nat :: LastCarrying(ms, id, index, i, j) ==>
          index in t.chunks && t.chunks[index] == ms[j].data)
    && forall index :: index in t.chunks ==> exists j: nat :: LastCarrying(ms, id, index, i, j)
  }

  lemma ReflectsOpening(t: Transfer, ms: seq<Message>, id: string)
    requires ms != [] && var m := ms[|ms| - 1];
             Carries(m, id) && t == Transfer(map[m.index := m.data], m.total, m.path, m.base)
    ensures Reflects(t, ms, id, |ms| - 1)
  {
    var m := ms[|ms| - 1];
    assert LastCarrying(ms, id, m.index, |ms| - 1, |ms| - 1);
  }

  lemma LastCarryingOn(ms: seq<Message>, m: Message, id: string, index: int, i: nat, j: nat)
    requires i < |ms|
    ensures LastCarrying(ms + [m], id, index, i, j) <==>
            if Carries(m, id) && m.index == index then j == |ms| else LastCarrying(ms, id, index, i, j)
  {
    var all := ms + [m];
    assert all[|ms|] == m && forall k :: 0 <= k < |ms| ==> all[k] == ms[k];
    hide Carries;
  }

  lemma ReflectsOn(t: Transfer, u: Transfer, ms: seq<Message>, m: Message, id: string, i: nat)
    requires Reflects(t, ms, id, i) && SameHeader(t, u)
    requires u.chunks == if Carries(m, id) then t.chunks[m.index := m.data] else t.chunks
    ensures Reflects(u, ms + [m], id, i)
  {
    var all := ms + [m];
    assert all[|ms|] == m && forall k :: 0 <= k < |ms| ==> all[k] == ms[k];
    forall index, j: nat
      ensures LastCarrying(all, id, index, i, j) <==>
              if Carries(m, id) && m.index == index then j == |ms| else LastCarrying(ms, id, index, i, j)
    {
      LastCarryingOn(ms, m, id, index, i, j);
    }
    hide LastCarrying, Carries;
    forall index, j: nat | LastCarrying(all, id, index, i, j)
      ensures index in u.chunks && j < |all| && u.chunks[index] == all[j].data
    {
      if !(Carries(m, id) && m.index == index) {
        LastIsEarlier(ms, id, index, i, j);
      }
    }
    forall index | index in u.chunks
      ensures exists j: nat :: LastCarrying(all, id, index, i, j)
    {
      if Carries(m, id) && m.index == index {
        assert LastCarrying(all, id, index, i, |ms|);
      } else {
        var j: nat :| LastCarrying(ms, id, index, i, j);
        assert LastCarrying(all, id, index, i, j);
      }
    }
  }

  lemma LastIsEarlier(ms: seq<Message>, id: string, index: int, i: nat, j: nat)
    requires LastCarrying(ms, id, index, i, j)
    ensures j < |ms|
  {
  }

  /** From message i on, which opened it, the transfer has been under way all the time. */
  ghost predicate OpenFrom(r: Receiver, ms: seq<Message>, id: string, i: nat) {
    && i < |ms| && id !in Run(r, ms[..i]).pending
    && forall k :: i < k <= |ms| ==> id in Run(r, ms[..k]).pending
  }

  /** While a transfer is under way, honest or not, its path, base and announced total are those of the
      first of its messages, and it holds exactly the last chunk that came with each index. */
  lemma {:induction false} FirstHeaderLastChunks(r: Receiver, ms: seq<Message>, id: string, i: nat)
    requires OpenFrom(r, ms, id, i)
    ensures id in Run(r, ms).pending && Reflects(Run(r, ms).pending[id], ms, id, i)
    decreases |ms|
  {
    var n := |ms| - 1;
    var init, m := ms[..n], ms[n];
    assert ms[..|ms|] == ms && ms == init + [m];
    RunLast(r, init, m);
    if i == n {
      assert init == ms[..i];
    } else {
      OpenEarlier(r, ms, id, i);
      FirstHeaderLastChunks(r, init, id, i);
    }
    hide Run, After, Reflects, Carries;
    StepWhilePending(Run(r, init), m, id);
    if i == n {
      ReflectsOpening(Run(r, ms).pending[id], ms, id);
    } else {
      ReflectsOn(Run(r, init).pending[id], Run(r, ms).pending[id], init, m, id, i);
    }
  }

  lemma OpenEarlier(r: Receiver, ms: seq<Message>, id: string, i: nat)
    requires OpenFrom(r, ms, id, i) && i < |ms| - 1
    ensures OpenFrom(r, ms[..|ms| - 1], id, i) && id in Run(r, ms[..|ms| - 1]).pending
  {
    var init := ms[..|ms| - 1];
    hide Run;
    assert init[..i] == ms[..i];
    forall k | i < k <= |init|
      ensures id in Run(r, init[..k]).pending
    {
      assert init[..k] == ms[..k];
    }
    assert init == ms[..|ms| - 1];
  }

  // ---- Sender and receiver ----

  datatype Plan = Oversized | Single | Chunks(messages: seq<Message>)

  ghost function Split(f: File): seq<Message> {
    seq(TotalChunks(|f.bytes|), i requires 0 <= i < TotalChunks(|f.bytes|) => Sent(f, i)) + [Complete(f.id)]
  }

  /** Files over the limit are skipped and small ones go whole; the others are cut into chunks. */
  method SendFile(f: File) returns (plan: Plan)
    ensures plan.Oversized? <==> |f.bytes| > 100 * 1024 * 1024
    ensures plan.Single? <==> |f.bytes| <= 512 * 1024
    ensures plan.Chunks? ==> plan.messages == Split(f) && 3 <= |plan.messages| <= 201
  {
    var size := |f.bytes|;
    if size > MAX_SIZE {
      return Oversized;
    }
    if size <= CHUNK_SIZE {
      return Single;
    }
    var totalChunks := (size + CHUNK_SIZE - 1) / CHUNK_SIZE;
    var messages: seq<Message> := [];
    for i := 0 to totalChunks
      invariant |messages| == i && forall j :: 0 <= j < i ==> messages[j] == Sent(f, j)
    {
      var start := i * CHUNK_SIZE;
      var chunkSize := Min(CHUNK_SIZE, size - start);
      messages := messages + [Chunk(f.id, f.path, i, totalChunks, f.bytes[start..start + chunkSize], f.base)];
    }
    return Chunks(messages + [Complete(f.id)]);
  }

  function SizeSum(file: Bytes, n: nat): nat
    requires n <= TotalChunks(|file|)
  {
    if n == 0 then 0 else SizeSum(file, n - 1) + |Piece(file, n - 1)|
  }

  /** The chunk sizes add up to the size of the file. */
  lemma {:induction false} SizesAddUp(file: Bytes, n: nat)
    requires n <= TotalChunks(|file|)
    ensures SizeSum(file, n) == Min(n * CHUNK_SIZE, |file|)
    ensures n == TotalChunks(|file|) ==> SizeSum(file, n) == |file|
  {
    if n > 0 {
      SizesAddUp(file, n - 1);
      PieceSizes(file, n - 1);
    }
  }

  /** Received in the order sent, the chunks of a file make one write of that file. */
  lemma SentFileArrives(f: File, r: Receiver)
    requires Proper(f) && Good(f, r) && f.id !in r.pending
    ensures Writes(f, Run(r, Split(f)).disk) == Writes(f, r.disk) + [Write(f.id, f.base, f.path, f.bytes)]
  {
    var n := TotalChunks(|f.bytes|);
    ChunksCover(|f.bytes|);
    var init, last := Split(f)[..n - 1], Sent(f, n - 1);
    assert Split(f) == init + [last] + [Complete(f.id)];
    AllButLast(f, init);
    LastChunkWrites(f, r, init, n - 1);
    OnlyTheFileIsWritten(f, r, init);
    hide Run, Split, Sent, TotalChunks, After;
    StepGood(f, Run(r, init), last);
    RunSnoc(r, init, last);
    RunSnoc(r, init + [last], Complete(f.id));
    CompleteIdle(f, Run(r, init + [last]));
  }

  lemma RunSnoc(r: Receiver, ms: seq<Message>, m: Message)
    ensures Run(r, ms + [m]) == After(Run(r, ms), m)
  {
    assert (ms + [m])[..|ms|] == ms;
  }

  lemma CompleteIdle(f: File, r: Receiver)
    requires Good(f, r)
    ensures After(r, Complete(f.id)) == r
  {
  }

  lemma AllButLast(f: File, init: seq<Message>)
    requires TotalChunks(|f.bytes|) >= 1 && init == Split(f)[..TotalChunks(|f.bytes|) - 1]
    ensures HonestAll(f, init) && NoExpiry(f, init)
    ensures forall i :: 0 <= i < TotalChunks(|f.bytes|) ==> (i in Indices(f, init) <==> i != TotalChunks(|f.bytes|) - 1)
  {
    var n := TotalChunks(|f.bytes|);
    assert forall j :: 0 <= j < |init| ==> init[j] == Sent(f, j);
    hide Piece, Split, TotalChunks;
    forall i | 0 <= i < n
      ensures i in Indices(f, init) <==> i != n - 1
    {
      if i < n - 1 {
        assert IsChunk(f, init[i], i);
      }
    }
  }

  lemma AssembledForgets(r: Receiver, id: string, t: Transfer)
    ensures Assembled(r.(pending := r.pending[id := t]), id, t) == Assembled(r, id, t)
  {
    assert r.pending[id := t] - {id} == r.pending - {id};
  }

  class PushReceiver {
    var pending: map<string, Transfer>
    var disk: seq<Write>

    ghost function Now(): Receiver
      reads this
    {
      Receiver(pending, disk)
    }

    constructor ()
      ensures Now() == Receiver(map[], [])
    {
      pending, disk := map[], [];
    }

    method HandleChunk(id: string, path: string, index: int, total: int, data: Bytes, base: string)
      modifies this
      ensures Now() == After(old(Now()), Chunk(id, path, index, total, data, base))
    {
      if id == "" || path == "" || data == [] || base == "" {
        return;
      }
      if id !in pending {
        pending := pending[id := Transfer(map[], total, path, base)];
      }
      var transfer := pending[id];
      pending := pending[id := transfer.(chunks := transfer.chunks[index := data])];
      ghost var t := WithChunk(old(Now()), id, path, index, total, data, base);
      assert Now() == old(Now()).(pending := old(pending)[id := t]);
      hide WithChunk, Assembled;
      AssembledForgets(old(Now()), id, t);
      if |pending[id].chunks.Keys| == pending[id].total {
        Assemble(id);
      }
    }

    method HandleComplete(id: string)
      modifies this
      ensures Now() == After(old(Now()), Complete(id))
    {
      if id == "" {
        return;
      }
      if id in pending && |pending[id].chunks.Keys| == pending[id].total {
        Assemble(id);
      }
    }

    /** The timer set by a completion message. */
    method DropIncomplete(id: string)
      modifies this
      ensures Now() == After(old(Now()), Expire(id))
    {
      if id in pending {
        pending := pending - {id};
      }
    }

    method Assemble(id: string)
      requires id in pending && pending[id].total >= 0
      modifies this
      ensures Now() == Assembled(old(Now()), id, old(pending)[id])
    {
      var transfer := pending[id];
      var content: Bytes := [];
      for i := 0 to transfer.total
        invariant pending == old(pending) && disk == old(disk)
        invariant forall j :: 0 <= j < i ==> j in transfer.chunks
        invariant content == Joined(transfer.chunks, i)
      {
        if i !in transfer.chunks {
          pending := pending - {id};
          return;
        }
        content := content + transfer.chunks[i];
      }
      disk := disk + [Write(id, transfer.base, transfer.path, content)];
      pending := pending - {id};
    }
  }
}
