/** The search index of a knowledge base: a document table, a chunk table, and a full-text table that
    has to keep the rowids and the token text of the chunk table. */
module KnowledgeIndex {
  import opened Wrappers

  type Path = string
  type Rowid = int

  datatype Doc = Doc(sha256: string, size: int, mtime: int, title: string, ingestedAt: string)
  datatype DocRow = DocRow(doc: Doc, chunkCount: nat)
  datatype Chunk = Chunk(ord: int, text: string, tokens: string, start: int, end: int)
  datatype ChunkRow = ChunkRow(path: Path, chunk: Chunk)

  datatype Tables = Tables(docs: map<Path, DocRow>, chunks: map<Rowid, ChunkRow>, fts: map<Rowid, string>)

  datatype Op =
    | Replace(path: Path, doc: Doc, list: seq<Chunk>)
    | Remove(path: Path)
    | Clear
    | Touch(path: Path, size: int, mtime: int, sha256: string)

  // ---- Row allocation ----

  ghost predicate IsMaxRowid(chunks: map<Rowid, ChunkRow>, m: Rowid) {
    && m >= 0
    && (forall r :: r in chunks ==> r <= m)
    && (m == 0 || m in chunks)
  }

  lemma {:induction false} MaxRowidExists(chunks: map<Rowid, ChunkRow>)
    ensures exists m :: IsMaxRowid(chunks, m)
    decreases chunks.Keys
  {
    if a :| a in chunks {
      var rest := chunks - {a};
      MaxRowidExists(rest);
      var m :| IsMaxRowid(rest, m);
      assert forall x :: x in chunks ==> x == a || x in rest;
      assert IsMaxRowid(chunks, if m < a then a else m);
    } else {
      assert IsMaxRowid(chunks, 0);
    }
  }

  /** SQLite gives a new row one more than the largest rowid in use, so a deleted rowid comes back. */
  ghost function NextRowid(chunks: map<Rowid, ChunkRow>): (r: Rowid)
    ensures IsMaxRowid(chunks, r - 1)
  {
    MaxRowidExists(chunks);
    var m :| IsMaxRowid(chunks, m);
    m + 1
  }

  // ---- The effect of each call on the tables ----

  predicate HoldsOrd(chunks: map<Rowid, ChunkRow>, path: Path, ord: int) {
    exists r :: r in chunks && chunks[r].path == path && chunks[r].chunk.ord == ord
  }

  /** One insertion; None when a uniqueness constraint of either table is violated. */
  ghost function InsertOne(t: Tables, ftsOn: bool, path: Path, c: Chunk): Option<Tables> {
    var r := NextRowid(t.chunks);
    if HoldsOrd(t.chunks, path, c.ord) || (ftsOn && r in t.fts) then None
    else Some(Tables(t.docs, t.chunks[r := ChunkRow(path, c)], if ftsOn then t.fts[r := c.tokens] else t.fts))
  }

  ghost function InsertAll(t: Tables, ftsOn: bool, path: Path, list: seq<Chunk>): Option<Tables> {
    if list == [] then Some(t)
    else
      var before := InsertAll(t, ftsOn, path, list[..|list| - 1]);
      if before.None? then None else InsertOne(before.value, ftsOn, path, list[|list| - 1])
  }

  function WithoutChunks(t: Tables, ftsOn: bool, path: Path): Tables {
    Tables(t.docs,
           map r | r in t.chunks && t.chunks[r].path != path :: t.chunks[r],
           if ftsOn then map r | r in t.fts && !(r in t.chunks && t.chunks[r].path == path) :: t.fts[r] else t.fts)
  }

  /** The tables after a call; a call that throws leaves them as they were. */
  ghost function Step(t: Tables, ftsOn: bool, op: Op): Tables {
    match op
    case Replace(path, doc, list) =>
      var cleared := WithoutChunks(t, ftsOn, path);
      var inserted := InsertAll(cleared.(docs := cleared.docs[path := DocRow(doc, |list|)]), ftsOn, path, list);
      if inserted.None? then t else inserted.value
    case Remove(path) =>
      var cleared := WithoutChunks(t, ftsOn, path);
      cleared.(docs := cleared.docs - {path})
    case Clear => Tables(map[], map[], if ftsOn then map[] else t.fts)
    case Touch(path, size, mtime, sha256) =>
      if path !in t.docs then t
      else
        var doc := t.docs[path].doc.(size := size, mtime := mtime, sha256 := sha256);
        t.(docs := t.docs[path := t.docs[path].(doc := doc)])
  }

  ghost function Run(t: Tables, ftsOn: bool, ops: seq<Op>): Tables {
    if ops == [] then t else Step(Run(t, ftsOn, ops[..|ops| - 1]), ftsOn, ops[|ops| - 1])
  }

  // ---- What the tables mean ----

  ghost function RowsOf(chunks: map<Rowid, ChunkRow>, path: Path): set<Rowid> {
    set r | r in chunks && chunks[r].path == path
  }

  ghost function ChunksOf(chunks: map<Rowid, ChunkRow>, path: Path): set<Chunk> {
    set r | r in chunks && chunks[r].path == path :: chunks[r].chunk
  }

  datatype Entry = Entry(doc: Doc, chunks: set<Chunk>)

  /** The knowledge base as its users see it. */
  ghost function Content(t: Tables): map<Path, Entry> {
    map p | p in t.docs :: Entry(t.docs[p].doc, ChunksOf(t.chunks, p))
  }

  ghost predicate InStep(t: Tables, ftsOn: bool) {
    t.fts == if ftsOn then map r | r in t.chunks :: t.chunks[r].chunk.tokens else map[]
  }

  ghost predicate NoOrphans(t: Tables) {
    forall r :: r in t.chunks ==> t.chunks[r].path in t.docs
  }

  ghost predicate OrdsUnique(chunks: map<Rowid, ChunkRow>) {
    forall q, r :: q in chunks && r in chunks && q != r && chunks[q].path == chunks[r].path ==>
      chunks[q].chunk.ord != chunks[r].chunk.ord
  }

  ghost predicate CountsExact(t: Tables) {
    forall p :: p in t.docs ==> t.docs[p].chunkCount == |RowsOf(t.chunks, p)|
  }

  ghost predicate Consistent(t: Tables, ftsOn: bool) {
    InStep(t, ftsOn) && NoOrphans(t) && OrdsUnique(t.chunks) && CountsExact(t)
  }

  // ---- The simple map the index has to behave like ----

  predicate DistinctOrds(list: seq<Chunk>) {
    forall i, j :: 0 <= i < j < |list| ==> list[i].ord != list[j].ord
  }

  ghost function Meant(m: map<Path, Entry>, op: Op): map<Path, Entry> {
    match op
    case Replace(path, doc, list) =>
      if DistinctOrds(list) then m[path := Entry(doc, set c | c in list)] else m
    case Remove(path) => m - {path}
    case Clear => map[]
    case Touch(path, size, mtime, sha256) =>
      if path !in m then m
      else m[path := m[path].(doc := m[path].doc.(size := size, mtime := mtime, sha256 := sha256))]
  }

  ghost function MeantRun(m: map<Path, Entry>, ops: seq<Op>): map<Path, Entry> {
    if ops == [] then m else Meant(MeantRun(m, ops[..|ops| - 1]), ops[|ops| - 1])
  }

  // ---- Insertion ----

  /** What a run of insertions for one path has made of the tables `a`. */
  ghost predicate Inserted(a: Tables, ftsOn: bool, path: Path, list: seq<Chunk>, b: Tables) {
    && b.docs == a.docs && InStep(b, ftsOn) && OrdsUnique(b.chunks)
    && (forall r :: r in a.chunks ==> r in b.chunks && b.chunks[r] == a.chunks[r])
    && (forall r :: r in b.chunks && r !in a.chunks ==> b.chunks[r].path == path && b.chunks[r].chunk in list)
    && (forall c :: c in list ==> HoldsChunk(b.chunks, path, c))
    && |RowsOf(b.chunks, path)| == |list|
  }

  ghost predicate HoldsChunk(chunks: map<Rowid, ChunkRow>, path: Path, c: Chunk) {
    exists r :: r in chunks && chunks[r] == ChunkRow(path, c)
  }

  lemma InsertOneMeans(t: Tables, ftsOn: bool, path: Path, c: Chunk)
    requires InStep(t, ftsOn) && OrdsUnique(t.chunks)
    ensures InsertOne(t, ftsOn, path, c).None? <==> HoldsOrd(t.chunks, path, c.ord)
    ensures InsertOne(t, ftsOn, path, c).Some? ==>
              var u := InsertOne(t, ftsOn, path, c).value;
              && InStep(u, ftsOn) && OrdsUnique(u.chunks) && u.docs == t.docs
              && NextRowid(t.chunks) !in t.chunks
              && u.chunks == t.chunks[NextRowid(t.chunks) := ChunkRow(path, c)]
  {
  }

  lemma {:induction false} InsertAllMeans(a: Tables, ftsOn: bool, path: Path, list: seq<Chunk>)
    requires InStep(a, ftsOn) && OrdsUnique(a.chunks) && RowsOf(a.chunks, path) == {}
    ensures InsertAll(a, ftsOn, path, list).Some? <==> DistinctOrds(list)
    ensures InsertAll(a, ftsOn, path, list).Some? ==>
              Inserted(a, ftsOn, path, list, InsertAll(a, ftsOn, path, list).value)
    decreases |list|
  {
    if list != [] {
      var init, c := list[..|list| - 1], list[|list| - 1];
      InsertAllMeans(a, ftsOn, path, init);
      assert list == init + [c];
      if DistinctOrds(init) {
        var t := InsertAll(a, ftsOn, path, init).value;
        InsertOneMeans(t, ftsOn, path, c);
        OrdTaken(a, t, ftsOn, path, init, c.ord);
        if DistinctOrds(list) {
          InsertedOneMore(a, t, ftsOn, path, init, c);
        }
      }
    }
  }

  lemma OrdTaken(a: Tables, t: Tables, ftsOn: bool, path: Path, list: seq<Chunk>, ord: int)
    requires RowsOf(a.chunks, path) == {} && Inserted(a, ftsOn, path, list, t)
    ensures HoldsOrd(t.chunks, path, ord) <==> exists i :: 0 <= i < |list| && list[i].ord == ord
  {
    if HoldsOrd(t.chunks, path, ord) {
      var r :| r in t.chunks && t.chunks[r].path == path && t.chunks[r].chunk.ord == ord;
      assert r !in RowsOf(a.chunks, path);
      assert t.chunks[r].chunk in list;
    }
    if i :| 0 <= i < |list| && list[i].ord == ord {
      assert HoldsChunk(t.chunks, path, list[i]);
    }
  }

  lemma InsertedOneMore(a: Tables, t: Tables, ftsOn: bool, path: Path, list: seq<Chunk>, c: Chunk)
    requires Inserted(a, ftsOn, path, list, t) && InsertOne(t, ftsOn, path, c).Some?
    ensures Inserted(a, ftsOn, path, list + [c], InsertOne(t, ftsOn, path, c).value)
  {
    var u := InsertOne(t, ftsOn, path, c).value;
    var r := NextRowid(t.chunks);
    InsertOneMeans(t, ftsOn, path, c);
    assert RowsOf(u.chunks, path) == RowsOf(t.chunks, path) + {r};
    assert u.chunks[r] == ChunkRow(path, c);
    forall d | d in list + [c]
      ensures HoldsChunk(u.chunks, path, d)
    {
      if d in list {
        assert HoldsChunk(t.chunks, path, d);
        var q :| q in t.chunks && t.chunks[q] == ChunkRow(path, d);
        assert u.chunks[q] == ChunkRow(path, d);
      }
    }
  }

  // ---- Each call keeps the tables consistent and does what it means ----

  lemma WithoutChunksMeans(t: Tables, ftsOn: bool, path: Path)
    requires Consistent(t, ftsOn)
    ensures var u := WithoutChunks(t, ftsOn, path);
            && InStep(u, ftsOn) && OrdsUnique(u.chunks) && RowsOf(u.chunks, path) == {}
            && u.docs == t.docs && forall r :: r in u.chunks <==> r in t.chunks && t.chunks[r].path != path
  {
  }

  /** Two chunk tables that agree outside one path agree on the rows and chunks of every other. */
  lemma SameElsewhere(s: map<Rowid, ChunkRow>, u: map<Rowid, ChunkRow>, path: Path, p: Path)
    requires p != path
    requires forall r :: r in s && s[r].path != path ==> r in u && u[r] == s[r]
    requires forall r :: r in u && u[r].path != path ==> r in s && u[r] == s[r]
    ensures RowsOf(u, p) == RowsOf(s, p) && ChunksOf(u, p) == ChunksOf(s, p)
  {
    forall r
      ensures r in RowsOf(u, p) <==> r in RowsOf(s, p)
    {
    }
  }

  lemma ReplaceRefines(t: Tables, ftsOn: bool, path: Path, doc: Doc, list: seq<Chunk>)
    requires Consistent(t, ftsOn)
    ensures Consistent(Step(t, ftsOn, Replace(path, doc, list)), ftsOn)
    ensures Content(Step(t, ftsOn, Replace(path, doc, list))) == Meant(Content(t), Replace(path, doc, list))
  {
    var cleared := WithoutChunks(t, ftsOn, path);
    WithoutChunksMeans(t, ftsOn, path);
    var a := cleared.(docs := cleared.docs[path := DocRow(doc, |list|)]);
    InsertAllMeans(a, ftsOn, path, list);
    if DistinctOrds(list) {
      var u := InsertAll(a, ftsOn, path, list).value;
      hide InsertAll, WithoutChunks;
      ReplacedContent(t, a, u, ftsOn, path, doc, list);
    }
  }

  lemma ReplacedContent(t: Tables, a: Tables, u: Tables, ftsOn: bool, path: Path, doc: Doc, list: seq<Chunk>)
    requires Consistent(t, ftsOn) && Inserted(a, ftsOn, path, list, u)
    requires a.docs == t.docs[path := DocRow(doc, |list|)]
    requires forall r :: r in a.chunks <==> r in t.chunks && t.chunks[r].path != path
    requires forall r :: r in a.chunks ==> a.chunks[r] == t.chunks[r]
    ensures Consistent(u, ftsOn) && Content(u) == Content(t)[path := Entry(doc, set c | c in list)]
  {
    forall p | p != path
      ensures RowsOf(u.chunks, p) == RowsOf(t.chunks, p) && ChunksOf(u.chunks, p) == ChunksOf(t.chunks, p)
    {
      SameElsewhere(t.chunks, u.chunks, path, p);
    }
    InsertedChunks(a, u, ftsOn, path, list);
  }

  lemma InsertedChunks(a: Tables, u: Tables, ftsOn: bool, path: Path, list: seq<Chunk>)
    requires Inserted(a, ftsOn, path, list, u)
    requires forall r :: r in a.chunks ==> a.chunks[r].path != path
    ensures ChunksOf(u.chunks, path) == set c | c in list
  {
    forall c | c in list
      ensures c in ChunksOf(u.chunks, path)
    {
      assert HoldsChunk(u.chunks, path, c);
    }
    forall c | c in ChunksOf(u.chunks, path)
      ensures c in list
    {
      var r :| r in u.chunks && u.chunks[r].path == path && u.chunks[r].chunk == c;
      assert r !in a.chunks;
    }
  }

  lemma RemoveRefines(t: Tables, ftsOn: bool, path: Path)
    requires Consistent(t, ftsOn)
    ensures Consistent(Step(t, ftsOn, Remove(path)), ftsOn)
    ensures Content(Step(t, ftsOn, Remove(path))) == Content(t) - {path}
  {
    var u := Step(t, ftsOn, Remove(path));
    WithoutChunksMeans(t, ftsOn, path);
    forall p | p != path
      ensures RowsOf(u.chunks, p) == RowsOf(t.chunks, p) && ChunksOf(u.chunks, p) == ChunksOf(t.chunks, p)
    {
      SameElsewhere(t.chunks, u.chunks, path, p);
    }
  }

  /** The tables refine the simple map: every call keeps full-text and chunk rows in step, chunk
      counts exact and documents for all chunks, and changes the content exactly as it means to. */
  lemma StepRefines(t: Tables, ftsOn: bool, op: Op)
    requires Consistent(t, ftsOn)
    ensures Consistent(Step(t, ftsOn, op), ftsOn)
    ensures Content(Step(t, ftsOn, op)) == Meant(Content(t), op)
  {
    match op
    case Replace(path, doc, list) => ReplaceRefines(t, ftsOn, path, doc, list);
    case Remove(path) => RemoveRefines(t, ftsOn, path);
    case Clear =>
    case Touch(path, size, mtime, sha256) =>
  }

  lemma {:induction false} RunRefines(t: Tables, ftsOn: bool, ops: seq<Op>)
    requires Consistent(t, ftsOn)
    ensures Consistent(Run(t, ftsOn, ops), ftsOn)
    ensures Content(Run(t, ftsOn, ops)) == MeantRun(Content(t), ops)
    decreases |ops|
  {
    if ops != [] {
      RunRefines(t, ftsOn, ops[..|ops| - 1]);
      StepRefines(Run(t, ftsOn, ops[..|ops| - 1]), ftsOn, ops[|ops| - 1]);
    }
  }

  // ---- Reading back ----

  /** The call writes the document anew. */
  predicate Writes(op: Op, p: Path) {
    op.Replace? && op.path == p && DistinctOrds(op.list)
  }

  predicate Erases(op: Op, p: Path) {
    op.Clear? || (op.Remove? && op.path == p)
  }

  predicate Touches(op: Op, p: Path) {
    op.Touch? && op.path == p
  }

  ghost predicate LastChange(ops: seq<Op>, p: Path, i: nat) {
    && i < |ops| && (Writes(ops[i], p) || Erases(ops[i], p))
    && forall k :: i < k < |ops| ==> !Writes(ops[k], p) && !Erases(ops[k], p)
  }

  /** The last refresh of the fingerprint after call i. */
  ghost predicate LastTouch(ops: seq<Op>, p: Path, i: nat, j: nat) {
    i < j < |ops| && Touches(ops[j], p) && forall k :: j < k < |ops| ==> !Touches(ops[k], p)
  }

  ghost predicate HasFingerprint(doc: Doc, op: Op)
    requires op.Touch?
  {
    doc.size == op.size && doc.mtime == op.mtime && doc.sha256 == op.sha256
  }

  /** Of the document there is what call i wrote, with the fingerprint of the last refresh since, or
      nothing if call i erased it. */
  ghost predicate ReadsAs(m: map<Path, Entry>, ops: seq<Op>, p: Path, i: nat)
    requires i < |ops|
  {
    && (p in m <==> Writes(ops[i], p))
    && (Writes(ops[i], p) ==>
          && m[p].chunks == (set c | c in ops[i].list)
          && m[p].doc.title == ops[i].doc.title && m[p].doc.ingestedAt == ops[i].doc.ingestedAt
          && ((forall k :: i < k < |ops| ==> !Touches(ops[k], p)) ==> m[p].doc == ops[i].doc)
          && forall j: nat :: LastTouch(ops, p, i, j) ==> HasFingerprint(m[p].doc, ops[j]))
  }

  lemma {:induction false} MeantLastChange(m: map<Path, Entry>, ops: seq<Op>, p: Path, i: nat)
    requires LastChange(ops, p, i)
    ensures ReadsAs(MeantRun(m, ops), ops, p, i)
    decreases |ops|
  {
    var n := |ops| - 1;
    var init := ops[..n];
    hide DistinctOrds;
    if i < n {
      assert forall k :: 0 <= k < n ==> init[k] == ops[k];
      MeantLastChange(m, init, p, i);
      assert init + [ops[n]] == ops;
      hide Meant, ReadsAs;
      ReadsOn(MeantRun(m, init), init, ops[n], p, i);
    }
  }

  lemma ReadsOn(m: map<Path, Entry>, ops: seq<Op>, op: Op, p: Path, i: nat)
    requires i < |ops| && ReadsAs(m, ops, p, i) && !Writes(op, p) && !Erases(op, p)
    ensures ReadsAs(Meant(m, op), ops + [op], p, i)
  {
    hide DistinctOrds;
    var all := ops + [op];
    assert forall k :: 0 <= k < |ops| ==> all[k] == ops[k];
    forall j: nat | LastTouch(all, p, i, j)
      ensures if Touches(op, p) then j == |ops| else LastTouch(ops, p, i, j)
    {
      assert all[|ops|] == op;
    }
    if forall k :: i < k < |all| ==> !Touches(all[k], p) {
      assert !Touches(all[|ops|], p);
    }
  }

  /** After any run, what is read of a document is what its last successful replacement wrote, with the
      fingerprint of the last refresh since; and nothing, if it was removed or all was cleared since. */
  lemma LastWriteIsRead(t: Tables, ftsOn: bool, ops: seq<Op>, p: Path, i: nat)
    requires Consistent(t, ftsOn) && LastChange(ops, p, i)
    ensures ReadsAs(Content(Run(t, ftsOn, ops)), ops, p, i)
  {
    RunRefines(t, ftsOn, ops);
    MeantLastChange(Content(t), ops, p, i);
  }

  /** Calls on other documents leave a document as it was. */
  lemma {:induction false} OthersUntouched(t: Tables, ftsOn: bool, ops: seq<Op>, p: Path)
    requires Consistent(t, ftsOn)
    requires forall k :: 0 <= k < |ops| ==> !Writes(ops[k], p) && !Erases(ops[k], p) && !Touches(ops[k], p)
    ensures var before, now := Content(t), Content(Run(t, ftsOn, ops));
            (p in now <==> p in before) && (p in now ==> now[p] == before[p])
    decreases |ops|
  {
    if ops != [] {
      var init, op := ops[..|ops| - 1], ops[|ops| - 1];
      OthersUntouched(t, ftsOn, init, p);
      RunRefines(t, ftsOn, init);
      StepRefines(Run(t, ftsOn, init), ftsOn, op);
      assert Run(t, ftsOn, ops) == Step(Run(t, ftsOn, init), ftsOn, op);
      assert !Writes(ops[|ops| - 1], p) && !Erases(ops[|ops| - 1], p) && !Touches(ops[|ops| - 1], p);
      hide Run, Step, Content, Consistent, DistinctOrds;
      MeantElsewhere(Content(Run(t, ftsOn, init)), op, p);
    }
  }

  lemma MeantElsewhere(m: map<Path, Entry>, op: Op, p: Path)
    requires !Writes(op, p) && !Erases(op, p) && !Touches(op, p)
    ensures (p in Meant(m, op) <==> p in m) && (p in m ==> Meant(m, op)[p] == m[p])
  {
    hide DistinctOrds;
  }

  // ---- Reading ----

  datatype Hit = Hit(rowid: Rowid, row: ChunkRow)

  /** getChunksByRowids: the rows that still exist, in the order asked for. */
  function Fetched(chunks: map<Rowid, ChunkRow>, rowids: seq<Rowid>): seq<Hit> {
    if rowids == [] then []
    else
      var init, r := Fetched(chunks, rowids[..|rowids| - 1]), rowids[|rowids| - 1];
      if r in chunks then init + [Hit(r, chunks[r])] else init
  }

  /** A chunk that the full-text table can find: its row, its document and its token text agree. */
  ghost predicate FindsChunk(t: Tables, r: Rowid, p: Path, c: Chunk) {
    && r in t.fts && r in t.chunks && t.chunks[r] == ChunkRow(p, c) && t.fts[r] == c.tokens
    && p in Content(t) && c in Content(t)[p].chunks
  }

  /** Whatever list of rowids a full-text search yields, fetching it yields one chunk per rowid, in
      that order, of a present document, whose token text is the text that was searched. */
  lemma {:induction false} SearchHitsAreCurrent(t: Tables, rowids: seq<Rowid>)
    requires Consistent(t, true) && forall i :: 0 <= i < |rowids| ==> rowids[i] in t.fts
    ensures |Fetched(t.chunks, rowids)| == |rowids|
    ensures forall i :: 0 <= i < |rowids| ==>
              var hit := Fetched(t.chunks, rowids)[i];
              hit.rowid == rowids[i] && FindsChunk(t, rowids[i], hit.row.path, hit.row.chunk)
  {
    if rowids != [] {
      SearchHitsAreCurrent(t, rowids[..|rowids| - 1]);
    }
  }

  lemma FetchedOneMore(chunks: map<Rowid, ChunkRow>, a: seq<Rowid>, r: Rowid)
    ensures Fetched(chunks, a + [r]) == Fetched(chunks, a) + if r in chunks then [Hit(r, chunks[r])] else []
  {
    assert (a + [r])[..|a|] == a;
  }

  /** Fetching goes through the rowids one by one and passes over those without a row. */
  lemma {:induction false} FetchedInParts(chunks: map<Rowid, ChunkRow>, a: seq<Rowid>, b: seq<Rowid>)
    ensures Fetched(chunks, a + b) == Fetched(chunks, a) + Fetched(chunks, b)
    decreases |b|
  {
    if b == [] {
      assert a + b == a;
    } else {
      hide Fetched;
      var init, last := b[..|b| - 1], b[|b| - 1];
      FetchedInParts(chunks, a, init);
      FetchedOneMore(chunks, a + init, last);
      FetchedOneMore(chunks, init, last);
      assert (a + init) + [last] == a + b && init + [last] == b;
    }
  }

  lemma FetchedOne(chunks: map<Rowid, ChunkRow>, r: Rowid)
    ensures Fetched(chunks, [r]) == if r in chunks then [Hit(r, chunks[r])] else []
  {
    assert [r][..0] == [];
  }

  /** And every chunk of every document can be found by its token text. */
  lemma EveryChunkIsSearchable(t: Tables, p: Path, c: Chunk)
    requires Consistent(t, true) && p in Content(t) && c in Content(t)[p].chunks
    ensures exists r :: FindsChunk(t, r, p, c)
  {
    var r :| r in t.chunks && t.chunks[r].path == p && t.chunks[r].chunk == c;
    assert FindsChunk(t, r, p, c);
  }

  // ---- Rowids kept across calls ----

  lemma MaxRowidUnique(chunks: map<Rowid, ChunkRow>, m: Rowid)
    requires IsMaxRowid(chunks, m)
    ensures NextRowid(chunks) == m + 1
  {
  }

  /** The rows of the list `list` follow the rows `a`, numbered from one more than `m`. */
  ghost predicate Numbered(a: map<Rowid, ChunkRow>, b: map<Rowid, ChunkRow>, path: Path, list: seq<Chunk>, m: Rowid) {
    && IsMaxRowid(b, m + |list|)
    && (forall r :: m < r <= m + |list| ==> r in b && b[r] == ChunkRow(path, list[r - m - 1]))
    && (forall r :: r in b && r <= m ==> r in a && b[r] == a[r])
  }

  lemma LastInsertion(a: Tables, ftsOn: bool, path: Path, list: seq<Chunk>)
    requires list != [] && InsertAll(a, ftsOn, path, list).Some?
    ensures var before := InsertAll(a, ftsOn, path, list[..|list| - 1]);
            && before.Some?
            && InsertAll(a, ftsOn, path, list).value.chunks ==
               before.value.chunks[NextRowid(before.value.chunks) := ChunkRow(path, list[|list| - 1])]
  {
    hide NextRowid, HoldsOrd;
  }

  /** Insertion numbers the chunks of the list consecutively, from one more than the greatest rowid in
      use. */
  lemma {:induction false} InsertsConsecutively(a: Tables, ftsOn: bool, path: Path, list: seq<Chunk>, m: Rowid)
    requires IsMaxRowid(a.chunks, m) && InsertAll(a, ftsOn, path, list).Some?
    ensures Numbered(a.chunks, InsertAll(a, ftsOn, path, list).value.chunks, path, list, m)
    decreases |list|
  {
    if list != [] {
      hide InsertAll, NextRowid;
      var init, c := list[..|list| - 1], list[|list| - 1];
      LastInsertion(a, ftsOn, path, list);
      InsertsConsecutively(a, ftsOn, path, init, m);
      var t := InsertAll(a, ftsOn, path, init).value;
      MaxRowidUnique(t.chunks, m + |init|);
      NumberedOneMore(a.chunks, t.chunks, path, init, m, c);
      assert list == init + [c];
      assert m >= 0;
      hide Numbered, IsMaxRowid;
    }
  }

  lemma NumberedOneMore(a: map<Rowid, ChunkRow>, b: map<Rowid, ChunkRow>, path: Path, list: seq<Chunk>, m: Rowid,
                        c: Chunk)
    requires Numbered(a, b, path, list, m) && m >= 0
    ensures Numbered(a, b[m + |list| + 1 := ChunkRow(path, c)], path, list + [c], m)
  {
    var u, all := b[m + |list| + 1 := ChunkRow(path, c)], list + [c];
    assert IsMaxRowid(u, m + |all|);
    forall r | m < r <= m + |all|
      ensures r in u && u[r] == ChunkRow(path, all[r - m - 1])
    {
      assert r <= m + |list| ==> all[r - m - 1] == list[r - m - 1];
    }
  }

  /** The call clears the index, removes the document of the row or replaces it successfully. */
  ghost predicate DropsRow(t: Tables, op: Op, r: Rowid)
    requires r in t.chunks
  {
    || op.Clear?
    || (op.Remove? && op.path == t.chunks[r].path)
    || (op.Replace? && op.path == t.chunks[r].path && DistinctOrds(op.list))
  }

  predicate StandsAt(list: seq<Chunk>, c: Chunk, i: int) {
    0 <= i < |list| && list[i] == c
  }

  /** The chunk stands in the new list at the place that gets its old rowid. */
  ghost predicate Reissued(t: Tables, ftsOn: bool, op: Op, r: Rowid)
    requires r in t.chunks
  {
    op.Replace? && StandsAt(op.list, t.chunks[r].chunk, r - NextRowid(WithoutChunks(t, ftsOn, op.path).chunks))
  }

  ghost predicate Names(t: Tables, r: Rowid, row: ChunkRow) {
    r in t.chunks && t.chunks[r] == row
  }

  /** A rowid names the same chunk after a call exactly when the call is not a clearing, a removal of
      its document or a successful replacement of it, or when that replacement puts the same chunk at
      the same rowid again. */
  lemma StepKeepsRowIff(t: Tables, ftsOn: bool, op: Op, r: Rowid)
    requires Consistent(t, ftsOn) && r in t.chunks
    ensures Names(Step(t, ftsOn, op), r, t.chunks[r]) <==> !DropsRow(t, op, r) || Reissued(t, ftsOn, op, r)
  {
    if op.Replace? {
      ReplaceKeepsRowIff(t, ftsOn, op.path, op.doc, op.list, r);
    }
    hide InsertAll, NextRowid;
  }

  lemma ReplaceKeepsRowIff(t: Tables, ftsOn: bool, path: Path, doc: Doc, list: seq<Chunk>, r: Rowid)
    requires Consistent(t, ftsOn) && r in t.chunks
    ensures var op := Replace(path, doc, list);
            Names(Step(t, ftsOn, op), r, t.chunks[r]) <==> !DropsRow(t, op, r) || Reissued(t, ftsOn, op, r)
  {
    hide Step, InsertAll, WithoutChunks, Consistent, DistinctOrds, NextRowid, Numbered, IsMaxRowid, StandsAt;
    if DistinctOrds(list) {
      var m := ReplacedRows(t, ftsOn, path, doc, list);
      var u := Step(t, ftsOn, Replace(path, doc, list));
      RowAfterInsertion(t.chunks, WithoutChunks(t, ftsOn, path).chunks, u.chunks, path, list, m, r);
    } else {
      ReplaceEffect(t, ftsOn, path, doc, list);
    }
  }

  /** A replacement keeps the rows of the other documents and numbers its chunks from above them. */
  lemma ReplacedRows(t: Tables, ftsOn: bool, path: Path, doc: Doc, list: seq<Chunk>) returns (m: Rowid)
    requires Consistent(t, ftsOn) && DistinctOrds(list)
    ensures var a := WithoutChunks(t, ftsOn, path).chunks;
            var b := Step(t, ftsOn, Replace(path, doc, list)).chunks;
            && IsMaxRowid(a, m) && m + 1 == NextRowid(a) && Numbered(a, b, path, list, m)
            && (forall q :: q in a <==> q in t.chunks && t.chunks[q].path != path)
            && (forall q :: q in a ==> q in t.chunks && q in b && a[q] == t.chunks[q] && b[q] == a[q])
  {
    ReplaceEffect(t, ftsOn, path, doc, list);
    WithoutChunksMeans(t, ftsOn, path);
    hide Consistent, DistinctOrds, Step, InsertAll;
    var cleared := WithoutChunks(t, ftsOn, path);
    var a := cleared.(docs := cleared.docs[path := DocRow(doc, |list|)]);
    hide WithoutChunks;
    InsertAllMeans(a, ftsOn, path, list);
    m := NextRowid(a.chunks) - 1;
    InsertsConsecutively(a, ftsOn, path, list, m);
  }

  lemma RowAfterInsertion(s: map<Rowid, ChunkRow>, a: map<Rowid, ChunkRow>, b: map<Rowid, ChunkRow>,
                          path: Path, list: seq<Chunk>, m: Rowid, r: Rowid)
    requires r in s && IsMaxRowid(a, m) && Numbered(a, b, path, list, m)
    requires forall q :: q in a <==> q in s && s[q].path != path
    requires forall q :: q in a ==> q in s && q in b && a[q] == s[q] && b[q] == a[q]
    ensures (r in b && b[r] == s[r]) <==> s[r].path != path || StandsAt(list, s[r].chunk, r - (m + 1))
  {
  }

  /** The run neither clears the index nor removes the document nor replaces it successfully. */
  ghost predicate SparesDoc(ops: seq<Op>, path: Path) {
    forall op :: op in ops ==>
      !op.Clear? && !(op.Remove? && op.path == path) && !(op.Replace? && op.path == path && DistinctOrds(op.list))
  }

  /** Through such a run every rowid of the document keeps its chunk. */
  lemma {:induction false} RunKeepsRow(t: Tables, ftsOn: bool, ops: seq<Op>, r: Rowid)
    requires Consistent(t, ftsOn) && r in t.chunks && SparesDoc(ops, t.chunks[r].path)
    ensures Names(Run(t, ftsOn, ops), r, t.chunks[r])
    decreases |ops|
  {
    if ops != [] {
      assert ops[|ops| - 1] in ops;
      RunKeepsRow(t, ftsOn, ops[..|ops| - 1], r);
      RunRefines(t, ftsOn, ops[..|ops| - 1]);
      StepKeepsRowIff(Run(t, ftsOn, ops[..|ops| - 1]), ftsOn, ops[|ops| - 1], r);
      hide Step, Consistent, DistinctOrds, Reissued;
    }
  }

  /** A rowid is not a handle to keep: after its document is removed, the next document indexed can
      get the same rowid. */
  lemma RowidComesBack(ftsOn: bool, p: Path, q: Path, d: Doc, c: Chunk, e: Chunk)
    requires p != q
    ensures var empty := Tables(map[], map[], map[]);
            && Run(empty, ftsOn, [Replace(p, d, [c])]).chunks == map[1 := ChunkRow(p, c)]
            && Run(empty, ftsOn, [Replace(p, d, [c]), Remove(p), Replace(q, d, [e])]).chunks == map[1 := ChunkRow(q, e)]
  {
    var empty := Tables(map[], map[], map[]);
    var first, second, third := Replace(p, d, [c]), Remove(p), Replace(q, d, [e]);
    ReplaceInEmpty(empty, ftsOn, p, d, c);
    var one := Step(empty, ftsOn, first);
    var two := Step(one, ftsOn, second);
    RemoveLast(one, ftsOn, p, c);
    ReplaceInEmpty(two, ftsOn, q, d, e);
    assert [first][..0] == [] && [first, second][..1] == [first] && [first, second, third][..2] == [first, second];
    assert Run(empty, ftsOn, []) == empty;
    assert Run(empty, ftsOn, [first]) == one;
    assert Run(empty, ftsOn, [first, second]) == two;
  }

  lemma ReplaceInEmpty(t: Tables, ftsOn: bool, p: Path, d: Doc, c: Chunk)
    requires t.chunks == map[] && t.fts == map[]
    ensures var u := Step(t, ftsOn, Replace(p, d, [c]));
            u.chunks == map[1 := ChunkRow(p, c)] && u.fts == if ftsOn then map[1 := c.tokens] else map[]
  {
    var cleared := WithoutChunks(t, ftsOn, p);
    var a := cleared.(docs := cleared.docs[p := DocRow(d, 1)]);
    assert InsertAll(a, ftsOn, p, [c][..0]) == Some(a);
    assert NextRowid(a.chunks) == 1;
  }

  lemma RemoveLast(t: Tables, ftsOn: bool, p: Path, c: Chunk)
    requires t.chunks == map[1 := ChunkRow(p, c)] && t.fts == if ftsOn then map[1 := c.tokens] else map[]
    ensures Step(t, ftsOn, Remove(p)).chunks == map[] && Step(t, ftsOn, Remove(p)).fts == map[]
  {
    assert forall r :: r !in Step(t, ftsOn, Remove(p)).chunks && r !in Step(t, ftsOn, Remove(p)).fts;
  }

  // ---- Counting ----

  ghost function SomeDoc(docs: map<Path, DocRow>): (p: Path)
    requires docs != map[]
    ensures p in docs
  {
    var p :| p in docs;
    p
  }

  ghost function TotalChunks(docs: map<Path, DocRow>): nat
    decreases docs.Keys
  {
    if docs == map[] then 0
    else
      var p := SomeDoc(docs);
      docs[p].chunkCount + TotalChunks(docs - {p})
  }

  /** The chunk count of the whole index is the sum of the counts stored with the documents. */
  lemma {:induction false} TotalIsExact(docs: map<Path, DocRow>, chunks: map<Rowid, ChunkRow>)
    requires forall r :: r in chunks ==> chunks[r].path in docs
    requires forall p :: p in docs ==> docs[p].chunkCount == |RowsOf(chunks, p)|
    ensures |chunks.Keys| == TotalChunks(docs)
    decreases docs.Keys
  {
    if docs == map[] {
      var none: set<Rowid> := {};
      assert forall r: Rowid :: r in chunks.Keys <==> r in none;
      assert chunks.Keys == none;
    } else {
      var p := SomeDoc(docs);
      var rest := map r | r in chunks && chunks[r].path != p :: chunks[r];
      forall q | q in docs && q != p
        ensures RowsOf(rest, q) == RowsOf(chunks, q)
      {
        SameElsewhere(chunks, rest, p, q);
      }
      SplitByPath(chunks, p, rest);
      hide RowsOf;
      TotalIsExact(docs - {p}, rest);
    }
  }

  lemma SplitByPath(chunks: map<Rowid, ChunkRow>, p: Path, rest: map<Rowid, ChunkRow>)
    requires rest == map r | r in chunks && chunks[r].path != p :: chunks[r]
    ensures |chunks.Keys| == |rest.Keys| + |RowsOf(chunks, p)|
  {
    assert chunks.Keys == rest.Keys + RowsOf(chunks, p);
    assert rest.Keys !! RowsOf(chunks, p);
  }

  // ---- The store ----

  class Index {
    const ftsEnabled: bool
    var docs: map<Path, DocRow>
    var chunks: map<Rowid, ChunkRow>
    var fts: map<Rowid, string>
    /** The connection's last inserted rowid. */
    var lastRowid: Rowid

    ghost function Rows(): Tables
      reads this
    {
      Tables(docs, chunks, fts)
    }

    ghost predicate Valid()
      reads this
    {
      Consistent(Rows(), ftsEnabled)
    }

    constructor (ftsEnabled: bool)
      ensures this.ftsEnabled == ftsEnabled
      ensures Valid() && Content(Rows()) == map[]
    {
      this.ftsEnabled := ftsEnabled;
      docs, chunks, fts, lastRowid := map[], map[], map[], 0;
    }

    /** One INSERT into each of the two tables; false when a constraint fails. */
    method InsertChunk(path: Path, c: Chunk) returns (ok: bool)
      modifies this
      ensures docs == old(docs)
      ensures ok <==> InsertOne(old(Rows()), ftsEnabled, path, c).Some?
      ensures ok ==> Rows() == InsertOne(old(Rows()), ftsEnabled, path, c).value
    {
      if HoldsOrd(chunks, path, c.ord) {
        return false;
      }
      var max := 0;
      var rest := chunks.Keys;
      while exists r :: r in rest
        invariant rest <= chunks.Keys && chunks == old(chunks) && fts == old(fts) && docs == old(docs)
        invariant max >= 0 && (max == 0 || max in chunks)
        invariant forall r :: r in chunks && r !in rest ==> r <= max
        decreases |rest|
      {
        var r :| r in rest;
        rest := rest - {r};
        if max < r {
          max := r;
        }
      }
      assert IsMaxRowid(chunks, max);
      lastRowid := max + 1;
      chunks := chunks[lastRowid := ChunkRow(path, c)];
      if ftsEnabled {
        if lastRowid in fts {
          return false;
        }
        fts := fts[lastRowid := c.tokens];
      }
      return true;
    }

    method DeleteDocChunks(path: Path)
      modifies this
      ensures Rows() == WithoutChunks(old(Rows()), ftsEnabled, path)
    {
      if ftsEnabled {
        fts := map r | r in fts && !(r in chunks && chunks[r].path == path) :: fts[r];
      }
      chunks := map r | r in chunks && chunks[r].path != path :: chunks[r];
    }

    /** The insertion loop of replaceDoc, which stops at the first row refused. */
    method InsertChunks(path: Path, list: seq<Chunk>) returns (ok: bool)
      modifies this
      ensures ok <==> InsertAll(old(Rows()), ftsEnabled, path, list).Some?
      ensures ok ==> Rows() == InsertAll(old(Rows()), ftsEnabled, path, list).value
    {
      ok := true;
      for i := 0 to |list|
        invariant ok && InsertAll(old(Rows()), ftsEnabled, path, list[..i]) == Some(Rows())
      {
        assert list[..i + 1][..i] == list[..i];
        hide InsertOne;
        ok := InsertChunk(path, list[i]);
        if !ok {
          InsertPrefixFails(old(Rows()), ftsEnabled, path, list, i + 1);
          return;
        }
      }
      assert list[..|list|] == list;
    }

    /** Replaces a document and its chunks; a repeated `ord` throws and rolls everything back. */
    method ReplaceDoc(path: Path, doc: Doc, list: seq<Chunk>) returns (ok: bool)
      requires Valid()
      modifies this
      ensures Valid() && Rows() == Step(old(Rows()), ftsEnabled, Replace(path, doc, list))
      ensures ok <==> DistinctOrds(list)
      ensures !ok ==> Rows() == old(Rows())
      ensures Content(Rows()) == Meant(old(Content(Rows())), Replace(path, doc, list))
    {
      hide InsertAll, WithoutChunks, Inserted, Consistent;
      ReplaceEffect(Rows(), ftsEnabled, path, doc, list);
      ReplaceRefines(Rows(), ftsEnabled, path, doc, list);
      var docsBefore, chunksBefore, ftsBefore := docs, chunks, fts;
      DeleteDocChunks(path);
      docs := docs[path := DocRow(doc, |list|)];
      ok := InsertChunks(path, list);
      if !ok {
        docs, chunks, fts := docsBefore, chunksBefore, ftsBefore;
      }
    }

    method RemoveDoc(path: Path)
      requires Valid()
      modifies this
      ensures Valid() && Rows() == Step(old(Rows()), ftsEnabled, Remove(path))
      ensures Content(Rows()) == old(Content(Rows())) - {path}
    {
      StepRefines(Rows(), ftsEnabled, Remove(path));
      DeleteDocChunks(path);
      docs := docs - {path};
    }

    method ClearAll()
      requires Valid()
      modifies this
      ensures Valid() && Rows() == Step(old(Rows()), ftsEnabled, Clear)
      ensures Content(Rows()) == map[]
    {
      if ftsEnabled {
        fts := map[];
      }
      chunks, docs := map[], map[];
    }

    method TouchDoc(path: Path, size: int, mtime: int, sha256: string)
      requires Valid()
      modifies this
      ensures Valid() && Rows() == Step(old(Rows()), ftsEnabled, Touch(path, size, mtime, sha256))
      ensures Content(Rows()) == Meant(old(Content(Rows())), Touch(path, size, mtime, sha256))
    {
      StepRefines(Rows(), ftsEnabled, Touch(path, size, mtime, sha256));
      if path in docs {
        docs := docs[path := docs[path].(doc := docs[path].doc.(size := size, mtime := mtime, sha256 := sha256))];
      }
    }

    method Counts() returns (docCount: nat, chunkCount: nat)
      requires Valid()
      ensures docCount == |Content(Rows()).Keys| && chunkCount == TotalChunks(docs)
    {
      TotalIsExact(docs, chunks);
      assert Content(Rows()).Keys == docs.Keys;
      return |docs.Keys|, |chunks.Keys|;
    }

    method GetChunksByRowids(rowids: seq<Rowid>) returns (hits: seq<Hit>)
      ensures hits == Fetched(chunks, rowids)
    {
      var byRowid := map r | r in chunks && r in rowids :: chunks[r];
      hits := [];
      for i := 0 to |rowids|
        invariant hits == Fetched(chunks, rowids[..i])
      {
        assert rowids[..i + 1][..i] == rowids[..i];
        if rowids[i] in byRowid {
          hits := hits + [Hit(rowids[i], byRowid[rowids[i]])];
        }
      }
      assert rowids[..|rowids|] == rowids;
    }
  }

  lemma ReplaceEffect(t: Tables, ftsOn: bool, path: Path, doc: Doc, list: seq<Chunk>)
    requires Consistent(t, ftsOn)
    ensures var cleared := WithoutChunks(t, ftsOn, path);
            var inserted := InsertAll(cleared.(docs := cleared.docs[path := DocRow(doc, |list|)]), ftsOn, path, list);
            && (inserted.Some? <==> DistinctOrds(list))
            && Step(t, ftsOn, Replace(path, doc, list)) == if inserted.None? then t else inserted.value
  {
    WithoutChunksMeans(t, ftsOn, path);
    var cleared := WithoutChunks(t, ftsOn, path);
    hide InsertAll, WithoutChunks, Inserted;
    InsertAllMeans(cleared.(docs := cleared.docs[path := DocRow(doc, |list|)]), ftsOn, path, list);
  }

  lemma {:induction false} InsertPrefixFails(t: Tables, ftsOn: bool, path: Path, list: seq<Chunk>, n: nat)
    requires n <= |list| && InsertAll(t, ftsOn, path, list[..n]).None?
    ensures InsertAll(t, ftsOn, path, list).None?
    decreases |list|
  {
    if n == |list| {
      assert list[..n] == list;
    } else {
      var init := list[..|list| - 1];
      assert init[..n] == list[..n];
      InsertPrefixFails(t, ftsOn, path, init, n);
    }
  }
}
