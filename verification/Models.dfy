/** The model store: manifest rows keyed by model name, and blobs kept under their SHA-256 digest.

    The digest is any function of the content. A file or download arrives as a list of reads, any
    of which may fail. Rows and blobs change under one write lock, so an operation is one step. */
module Models {
  import opened Prelude
  import Gguf

  type Bytes = seq<Byte>
  type Digest = string
  type ModelId = (string, string)

  datatype Manifest = Manifest(sha256: Digest, size: nat, contextLength: Option<nat>)

  datatype Error = ReadFailed | Taken | NotFound | BlobMissing | BadDigest

  /** One call of `read`: some bytes (none at the end of the input), or an error. */
  datatype ReadResult = Data(bytes: Bytes) | Failure

  datatype Store = Store(rows: map<ModelId, Manifest>, blobs: map<Digest, Bytes>)

  const EMPTY := Store(map[], map[])

  // ---- specification ----

  /** Everything the reader delivers from read `i` on, unless a read fails first. */
  function Content(input: seq<ReadResult>, i: nat): Option<Bytes>
    requires i <= |input|
    decreases |input| - i
  {
    if i == |input| || input[i] == Data([]) then Some([])
    else if input[i].Failure? then None
    else
      match Content(input, i + 1)
      case None => None
      case Some(rest) => Some(input[i].bytes + rest)
  }

  // ---- what the reads deliver, byte by byte ----

  /** Bytes of the first `i` reads. */
  function Offset(input: seq<ReadResult>, i: nat): nat
    requires i <= |input|
  {
    if i == 0 then 0 else Offset(input, i - 1) + if input[i - 1].Data? then |input[i - 1].bytes| else 0
  }

  /** A read fails before any comes back empty. */
  ghost predicate Fails(input: seq<ReadResult>) {
    exists i :: 0 <= i < |input| && input[i].Failure? && forall j :: 0 <= j < i ==> input[j] != Data([])
  }

  /** The first `n` reads succeed, and none of them is empty. */
  ghost predicate GoesTo(input: seq<ReadResult>, n: nat) {
    n <= |input| && forall i :: 0 <= i < n ==> input[i].Data? && input[i] != Data([])
  }

  /** Byte `j` of read `i` is where the bytes before it end. */
  ghost predicate InPlace(input: seq<ReadResult>, content: Bytes, i: nat, j: nat)
    requires i < |input| && input[i].Data? && j < |input[i].bytes|
  {
    Offset(input, i) + j < |content| && content[Offset(input, i) + j] == input[i].bytes[j]
  }

  /** The content is that of the first `n` reads, in order. */
  ghost predicate Joins(input: seq<ReadResult>, content: Bytes, n: nat) {
    && GoesTo(input, n) && |content| == Offset(input, n)
    && forall i, j :: 0 <= i < n && 0 <= j < |input[i].bytes| ==> InPlace(input, content, i, j)
  }

  /** It is that of all reads before the first empty one. */
  ghost predicate Delivers(input: seq<ReadResult>, content: Bytes) {
    exists n: nat :: Joins(input, content, n) && (n == |input| || input[n] == Data([]))
  }

  lemma Regroup(done: Bytes, block: Bytes, rest: Option<Bytes>)
    ensures rest.Some? ==> done + (block + rest.value) == (done + block) + rest.value
  {
  }

  lemma JoinsMore(input: seq<ReadResult>, done: Bytes, i: nat)
    requires Joins(input, done, i) && i < |input| && input[i].Data? && input[i] != Data([])
    ensures Joins(input, done + input[i].bytes, i + 1)
  {
    var content := done + input[i].bytes;
    forall k, j | 0 <= k < i + 1 && 0 <= j < |input[k].bytes|
      ensures InPlace(input, content, k, j)
    {
      assert k < i ==> InPlace(input, done, k, j);
    }
  }

  /** The content so far and the rest of the reads together. */
  lemma {:induction false} ContentFrom(input: seq<ReadResult>, i: nat, done: Bytes)
    requires i <= |input| && Joins(input, done, i)
    ensures var rest := Content(input, i);
      if rest.None? then Fails(input) else !Fails(input) && Delivers(input, done + rest.value)
    decreases |input| - i
  {
    if i == |input| || input[i] == Data([]) {
      assert done + [] == done;
    } else if input[i].Data? {
      var block, rest := input[i].bytes, Content(input, i + 1);
      JoinsMore(input, done, i);
      ContentFrom(input, i + 1, done + block);
      Regroup(done, block, rest);
    }
  }

  /** Reading fails exactly when a read fails before the first empty one; otherwise the content is that
      of the reads in order, byte for byte. */
  lemma ContentMeaning(input: seq<ReadResult>)
    ensures var content := Content(input, 0);
      if Fails(input) then content.None? else content.Some? && Delivers(input, content.value)
  {
    ContentFrom(input, 0, []);
    var content := Content(input, 0);
    assert content.Some? ==> [] + content.value == content.value;
  }

  lemma GoesNoFurther(input: seq<ReadResult>, n: nat, m: nat)
    requires n <= |input| && (n == |input| || input[n] == Data([])) && GoesTo(input, m)
    ensures m <= n
  {
  }

  /** There is only one such content. */
  lemma DeliversOnce(input: seq<ReadResult>, x: Bytes, y: Bytes)
    requires Delivers(input, x) && Delivers(input, y)
    ensures x == y
  {
    var n: nat :| Joins(input, x, n) && (n == |input| || input[n] == Data([]));
    var m: nat :| Joins(input, y, m) && (m == |input| || input[m] == Data([]));
    GoesNoFurther(input, n, m);
    GoesNoFurther(input, m, n);
    forall k | 0 <= k < |x|
      ensures x[k] == y[k]
    {
      var i := ReadOf(input, n, k);
      assert InPlace(input, x, i, k - Offset(input, i)) && InPlace(input, y, i, k - Offset(input, i));
    }
  }

  /** The read that byte `k` comes from. */
  lemma {:induction false} ReadOf(input: seq<ReadResult>, n: nat, k: nat) returns (i: nat)
    requires n <= |input| && k < Offset(input, n)
    ensures i < n && input[i].Data? && Offset(input, i) <= k < Offset(input, i) + |input[i].bytes|
  {
    i := n - 1;
    if k < Offset(input, n - 1) {
      i := ReadOf(input, n - 1, k);
    }
  }

  /** A blob that is already there is kept. */
  function WithBlob(blobs: map<Digest, Bytes>, digest: Digest, content: Bytes): map<Digest, Bytes> {
    if digest in blobs then blobs else blobs[digest := content]
  }

  function ContextLengthOf(content: Bytes): Option<nat> {
    match Gguf.ContextLength(content)
    case Ok(length) => length
    case Err(_) => None
  }

  /** The row for a stored blob; `size` is what the caller measured. */
  function RowFor(blobs: map<Digest, Bytes>, digest: Digest, size: nat): Manifest
    requires digest in blobs
  {
    Manifest(digest, size, ContextLengthOf(blobs[digest]))
  }

  /** Importing or pulling: the blob is stored first, then the row is inserted if the name is free.
      A pull measures the stored blob, an import what it read. */
  function Added(s: Store, hash: Bytes -> Digest, id: ModelId, content: Bytes, pull: bool): Store {
    var digest := hash(content);
    var blobs := WithBlob(s.blobs, digest, content);
    if id in s.rows then Store(s.rows, blobs)
    else Store(s.rows[id := RowFor(blobs, digest, if pull then |blobs[digest]| else |content|)], blobs)
  }

  ghost predicate Named(rows: map<ModelId, Manifest>, digest: Digest) {
    exists id :: id in rows && rows[id].sha256 == digest
  }

  /** Removing a row deletes its blob when no other row names it and the deletion succeeds. */
  ghost function Removed(s: Store, id: ModelId, deleteOk: bool): Store {
    if id !in s.rows then s
    else
      var rows, digest := s.rows - {id}, s.rows[id].sha256;
      Store(rows, if Named(rows, digest) || !deleteOk then s.blobs else s.blobs - {digest})
  }

  /** The path of a model's blob can be handed out: it exists and its content has its digest. */
  function Verified(s: Store, hash: Bytes -> Digest, id: ModelId): Result<Digest, Error> {
    if id !in s.rows then Err(NotFound)
    else
      var digest := s.rows[id].sha256;
      if digest !in s.blobs then Err(BlobMissing)
      else if hash(s.blobs[digest]) != digest then Err(BadDigest)
      else Ok(digest)
  }

  lemma OthersMeansNamed(rows: map<ModelId, Manifest>, digest: Digest, others: set<ModelId>)
    requires others == set k | k in rows && rows[k].sha256 == digest
    ensures Named(rows, digest) <==> others != {}
  {
    if Named(rows, digest) {
      var k :| k in rows && rows[k].sha256 == digest;
      assert k in others;
    }
    if others != {} {
      var k :| k in others;
      assert k in rows && rows[k].sha256 == digest;
    }
  }

  // ---- the shared object ----

  class ModelStore {
    const hash: Bytes -> Digest
    var rows: map<ModelId, Manifest>
    var blobs: map<Digest, Bytes>

    function View(): Store
      reads this
    {
      Store(rows, blobs)
    }

    constructor (hash: Bytes -> Digest)
      ensures this.hash == hash && View() == EMPTY
    {
      this.hash, rows, blobs := hash, map[], map[];
    }

    /** Copy the input to a temporary file while hashing it, then put it in place. On a failed read
        the temporary file is dropped. */
    method ImportBlob(input: seq<ReadResult>) returns (r: Result<(Digest, nat), Error>)
      modifies this`blobs
      ensures match Content(input, 0)
        case None => r == Err(ReadFailed) && blobs == old(blobs)
        case Some(content) =>
          r == Ok((hash(content), |content|)) && blobs == WithBlob(old(blobs), hash(content), content)
      ensures r.Err? <==> Fails(input)
      ensures r.Ok? ==>
                exists content :: Delivers(input, content) && r.value == (hash(content), |content|)
                  && blobs == if r.value.0 in old(blobs) then old(blobs) else old(blobs)[r.value.0 := content]
    {
      ContentMeaning(input);
      var hashed: Bytes, file: Bytes, total := [], [], 0;
      ghost var whole := Content(input, 0);
      assert whole.Some? ==> [] + whole.value == whole.value;
      for i := 0 to |input|
        invariant hashed == file && total == |file| && blobs == old(blobs)
        invariant whole == match Content(input, i)
          case None => None
          case Some(rest) => Some(file + rest)
      {
        if input[i].Failure? {
          return Err(ReadFailed);
        }
        var block := input[i].bytes;
        if |block| == 0 {
          break;
        }
        Regroup(file, block, Content(input, i + 1));
        hashed := hashed + block;
        file := file + block;
        total := total + |block|;
      }
      assert whole == Some(file + []) && file + [] == file;
      var digest := hash(hashed);
      if digest !in blobs {
        blobs := blobs[digest := file];
      }
      r := Ok((digest, total));
    }

    method ImportFromFile(id: ModelId, input: seq<ReadResult>) returns (r: Result<Manifest, Error>)
      modifies this
      ensures match Content(input, 0)
        case None => r == Err(ReadFailed) && View() == old(View())
        case Some(content) =>
          && View() == Added(old(View()), hash, id, content, false)
          && r == if id in old(rows) then Err(Taken) else Ok(rows[id])
      ensures r == Err(ReadFailed) <==> Fails(input)
      ensures r.Ok? ==>
                exists content :: Delivers(input, content) && r.value.sha256 == hash(content)
                  && hash(content) in blobs && r.value.size == |content|
                  && (hash(content) !in old(blobs) ==> blobs[hash(content)] == content)
    {
      ContentMeaning(input);
      var blob := ImportBlob(input);
      if blob.Err? {
        return Err(blob.error);
      }
      var (digest, size) := blob.value;
      r := InsertRow(id, RowFor(blobs, digest, size));
    }

    /** A download takes the same way; its size is read off the stored blob. */
    method PullFromUrl(id: ModelId, input: seq<ReadResult>) returns (r: Result<Manifest, Error>)
      modifies this
      ensures match Content(input, 0)
        case None => r == Err(ReadFailed) && View() == old(View())
        case Some(content) =>
          && View() == Added(old(View()), hash, id, content, true)
          && r == if id in old(rows) then Err(Taken) else Ok(rows[id])
      ensures r == Err(ReadFailed) <==> Fails(input)
      ensures r.Ok? ==>
                exists content :: Delivers(input, content) && r.value.sha256 == hash(content)
                  && hash(content) in blobs && r.value.size == |blobs[hash(content)]|
                  && (hash(content) !in old(blobs) ==> blobs[hash(content)] == content)
    {
      ContentMeaning(input);
      var blob := ImportBlob(input);
      if blob.Err? {
        return Err(blob.error);
      }
      var digest := blob.value.0;
      r := InsertRow(id, RowFor(blobs, digest, |blobs[digest]|));
    }

    /** Names are unique. */
    method InsertRow(id: ModelId, m: Manifest) returns (r: Result<Manifest, Error>)
      modifies this`rows
      ensures r == if id in old(rows) then Err(Taken) else Ok(m)
      ensures rows == if id in old(rows) then old(rows) else old(rows)[id := m]
    {
      if id in rows {
        return Err(Taken);
      }
      rows := rows[id := m];
      r := Ok(m);
    }

    /** `deleteOk` says whether the file system lets the blob go; a failure is only logged. */
    method Remove(id: ModelId, deleteOk: bool) returns (removed: bool)
      modifies this
      ensures removed <==> id in old(rows)
      ensures View() == Removed(old(View()), id, deleteOk)
    {
      if id !in rows {
        return false;
      }
      var digest := rows[id].sha256;
      rows := rows - {id};
      var others := set k | k in rows && rows[k].sha256 == digest;
      OthersMeansNamed(rows, digest, others);
      if others == {} && deleteOk {
        blobs := blobs - {digest};
      }
      removed := true;
    }

    method BlobPathVerified(id: ModelId) returns (r: Result<Digest, Error>)
      ensures r == Verified(View(), hash, id)
      ensures r.Ok? <==> id in rows && rows[id].sha256 in blobs && hash(blobs[rows[id].sha256]) == rows[id].sha256
      ensures r.Ok? ==> r.value == rows[id].sha256
    {
      if id !in rows {
        return Err(NotFound);
      }
      var digest := rows[id].sha256;
      if digest !in blobs {
        return Err(BlobMissing);
      }
      if hash(blobs[digest]) != digest {
        return Err(BadDigest);
      }
      r := Ok(digest);
    }
  }

  // ---- runs ----

  datatype Op =
    | Import(id: ModelId, input: seq<ReadResult>)
    | Pull(id: ModelId, input: seq<ReadResult>)
    | Remove(id: ModelId, deleteOk: bool)

  /** The store, and for every row what was imported under its name. */
  datatype World = World(store: Store, imported: map<ModelId, Bytes>)

  const START := World(EMPTY, map[])

  ghost function Step(w: World, hash: Bytes -> Digest, op: Op): World {
    match op
    case Remove(id, deleteOk) => World(Removed(w.store, id, deleteOk), w.imported - {id})
    case _ =>
      match Content(op.input, 0)
      case None => w
      case Some(content) =>
        World(Added(w.store, hash, op.id, content, op.Pull?),
              if op.id in w.store.rows then w.imported else w.imported[op.id := content])
  }

  ghost function Run(w: World, hash: Bytes -> Digest, ops: seq<Op>): World
    decreases |ops|
  {
    if ops == [] then w else Run(Step(w, hash, ops[0]), hash, ops[1..])
  }

  /** Every blob lies under its own digest, every row names a stored blob, and the row's digest is
      that of what was imported. */
  ghost predicate Inv(w: World, hash: Bytes -> Digest) {
    && (forall d :: d in w.store.blobs ==> hash(w.store.blobs[d]) == d)
    && (forall id :: id in w.store.rows ==> w.store.rows[id].sha256 in w.store.blobs)
    && (forall id :: id in w.store.rows <==> id in w.imported)
    && (forall id :: id in w.store.rows ==> w.store.rows[id].sha256 == hash(w.imported[id]))
  }

  lemma StepKeepsInv(w: World, hash: Bytes -> Digest, op: Op)
    requires Inv(w, hash)
    ensures Inv(Step(w, hash, op), hash)
  {
    if op.Remove? && op.id in w.store.rows {
      var rows := w.store.rows - {op.id};
      forall id | id in rows
        ensures Named(rows, rows[id].sha256)
      {
      }
    }
  }

  lemma {:induction false} RunKeepsInv(w: World, hash: Bytes -> Digest, ops: seq<Op>)
    requires Inv(w, hash)
    ensures Inv(Run(w, hash, ops), hash)
    decreases |ops|
  {
    if ops != [] {
      StepKeepsInv(w, hash, ops[0]);
      RunKeepsInv(Step(w, hash, ops[0]), hash, ops[1..]);
    }
  }

  /** No two of these contents have the same digest. */
  ghost predicate NoCollision(hash: Bytes -> Digest) {
    forall x, y :: hash(x) == hash(y) ==> x == y
  }

  /** After every run of imports, failed imports, pulls and removals, each model verifies, and
      without digest collisions its blob is what was imported under its name, whichever other
      models share it or came and went. */
  lemma EveryModelVerifies(hash: Bytes -> Digest, ops: seq<Op>, id: ModelId)
    requires id in Run(START, hash, ops).store.rows
    ensures var w := Run(START, hash, ops);
      && id in w.imported
      && Verified(w.store, hash, id) == Ok(hash(w.imported[id]))
      && (NoCollision(hash) ==> w.store.blobs[w.store.rows[id].sha256] == w.imported[id])
  {
    RunKeepsInv(START, hash, ops);
  }

  /** The operation imports or pulls this content under the name. */
  ghost predicate Brings(op: Op, id: ModelId, content: Bytes) {
    !op.Remove? && op.id == id && Delivers(op.input, content)
  }

  /** What is held as imported was brought by one of these operations. */
  ghost predicate Sourced(w: World, ops: seq<Op>) {
    forall id :: id in w.imported ==> exists op :: op in ops && Brings(op, id, w.imported[id])
  }

  lemma StepSourced(w: World, hash: Bytes -> Digest, ops: seq<Op>, op: Op)
    requires Sourced(w, ops)
    ensures Sourced(Step(w, hash, op), ops + [op])
  {
    if !op.Remove? {
      ContentMeaning(op.input);
    }
    var next := Step(w, hash, op);
    forall id | id in next.imported
      ensures exists o :: o in ops + [op] && Brings(o, id, next.imported[id])
    {
      if id in w.imported && next.imported[id] == w.imported[id] {
        var o :| o in ops && Brings(o, id, w.imported[id]);
        assert o in ops + [op];
      } else {
        assert op in ops + [op] && Brings(op, id, next.imported[id]);
      }
    }
  }

  /** A row tells the size of its content, and the context length that the reader finds in its blob. */
  ghost predicate Describes(w: World) {
    forall id :: id in w.store.rows && w.store.rows[id].sha256 in w.store.blobs && id in w.imported ==>
      var m := w.store.rows[id];
      var blob := w.store.blobs[m.sha256];
      && (m.size == |blob| || m.size == |w.imported[id]|)
      && m.contextLength == (if Gguf.ContextLength(blob).Ok? then Gguf.ContextLength(blob).value else None)
  }

  lemma StepDescribes(w: World, hash: Bytes -> Digest, op: Op)
    requires Inv(w, hash) && Describes(w)
    ensures Describes(Step(w, hash, op))
  {
  }

  lemma {:induction false} RunDescribes(w: World, hash: Bytes -> Digest, before: seq<Op>, ops: seq<Op>)
    requires Inv(w, hash) && Describes(w) && Sourced(w, before)
    ensures Describes(Run(w, hash, ops)) && Sourced(Run(w, hash, ops), before + ops)
    decreases |ops|
  {
    if ops == [] {
      assert before + ops == before;
    } else {
      StepKeepsInv(w, hash, ops[0]);
      StepDescribes(w, hash, ops[0]);
      StepSourced(w, hash, before, ops[0]);
      RunDescribes(Step(w, hash, ops[0]), hash, before + [ops[0]], ops[1..]);
      assert (before + [ops[0]]) + ops[1..] == before + ops;
    }
  }

  /** After every run, what a model's row names was brought by an import or pull of the run under its name,
      and without digest collisions its blob is that content, its size is the length of it, and its
      context length is what the reader finds in it. */
  lemma RowDescribesContent(hash: Bytes -> Digest, ops: seq<Op>, id: ModelId)
    requires NoCollision(hash) && id in Run(START, hash, ops).store.rows
    ensures var s := Run(START, hash, ops).store;
      exists content ::
        && (exists op :: op in ops && Brings(op, id, content))
        && s.rows[id].sha256 == hash(content) && hash(content) in s.blobs && s.blobs[hash(content)] == content
        && s.rows[id].size == |content|
        && s.rows[id].contextLength ==
           (if Gguf.ContextLength(content).Ok? then Gguf.ContextLength(content).value else None)
  {
    var w := Run(START, hash, ops);
    assert Inv(w, hash) by {
      RunKeepsInv(START, hash, ops);
    }
    assert Describes(w) && Sourced(w, ops) by {
      RunDescribes(START, hash, [], ops);
      assert [] + ops == ops;
    }
    var content := w.imported[id];
    assert w.store.rows[id].sha256 == hash(content) && w.store.blobs[hash(content)] == content;
  }

  /** Two models share a blob exactly when what was imported has the same digest. */
  lemma SharedBlob(hash: Bytes -> Digest, ops: seq<Op>, x: ModelId, y: ModelId)
    requires x in Run(START, hash, ops).store.rows && y in Run(START, hash, ops).store.rows
    ensures var w := Run(START, hash, ops);
      && x in w.imported && y in w.imported
      && (w.store.rows[x].sha256 == w.store.rows[y].sha256 <==> hash(w.imported[x]) == hash(w.imported[y]))
      && (w.imported[x] == w.imported[y] ==> w.store.rows[x].sha256 == w.store.rows[y].sha256)
  {
    RunKeepsInv(START, hash, ops);
  }

  /** Removing one model changes no other model's row, blob or verification; the blob goes exactly
      when no other row names it and the deletion succeeds. */
  lemma RemoveBreaksNoOther(w: World, hash: Bytes -> Digest, id: ModelId, deleteOk: bool, other: ModelId)
    requires Inv(w, hash) && other != id && other in w.store.rows
    ensures var s := Removed(w.store, id, deleteOk);
      && other in s.rows && s.rows[other] == w.store.rows[other]
      && s.rows[other].sha256 in s.blobs
      && s.blobs[s.rows[other].sha256] == w.store.blobs[w.store.rows[other].sha256]
      && Verified(s, hash, other) == Verified(w.store, hash, other) == Ok(w.store.rows[other].sha256)
    ensures id in w.store.rows ==>
      (w.store.rows[id].sha256 !in Removed(w.store, id, deleteOk).blobs <==>
         deleteOk && forall k :: k in w.store.rows && w.store.rows[k].sha256 == w.store.rows[id].sha256 ==> k == id)
  {
    if id in w.store.rows {
      var rows, digest := w.store.rows - {id}, w.store.rows[id].sha256;
      assert other in rows;
      assert rows[other].sha256 == digest ==> Named(rows, digest);
      forall k | k in w.store.rows && k != id && w.store.rows[k].sha256 == digest
        ensures Named(rows, digest)
      {
        assert k in rows;
      }
    }
  }

  // ---- blobs that no row names ----

  ghost predicate NoOrphans(s: Store) {
    forall d :: d in s.blobs ==> Named(s.rows, d)
  }

  /** An import leaves an orphan exactly when its name is taken and its blob is new. */
  lemma AddedOrphanIff(s: Store, hash: Bytes -> Digest, id: ModelId, content: Bytes, pull: bool)
    requires NoOrphans(s) && forall k :: k in s.rows ==> s.rows[k].sha256 in s.blobs
    ensures NoOrphans(Added(s, hash, id, content, pull)) <==> id !in s.rows || hash(content) in s.blobs
  {
    var r, digest := Added(s, hash, id, content, pull), hash(content);
    if id in s.rows {
      if digest !in s.blobs {
        assert digest in r.blobs && !Named(r.rows, digest);
      }
    } else {
      forall d | d in r.blobs
        ensures Named(r.rows, d)
      {
        if d == digest {
          assert id in r.rows && r.rows[id].sha256 == d;
        } else {
          var k :| k in s.rows && s.rows[k].sha256 == d;
          assert k in r.rows && r.rows[k].sha256 == d;
        }
      }
    }
  }

  /** Removing a row leaves an orphan exactly when no other row names its blob and the deletion fails. */
  lemma RemovedOrphanIff(s: Store, id: ModelId, deleteOk: bool)
    requires NoOrphans(s) && forall k :: k in s.rows ==> s.rows[k].sha256 in s.blobs
    ensures NoOrphans(Removed(s, id, deleteOk)) <==>
            deleteOk || id !in s.rows || Named(s.rows - {id}, s.rows[id].sha256)
  {
    if id in s.rows {
      var rows, digest, r := s.rows - {id}, s.rows[id].sha256, Removed(s, id, deleteOk);
      forall d | d in s.blobs && d != digest
        ensures Named(rows, d)
      {
        var k :| k in s.rows && s.rows[k].sha256 == d;
        assert k in rows && rows[k].sha256 == d;
      }
      assert !deleteOk && !Named(rows, digest) ==> digest in r.blobs && !Named(r.rows, digest);
    }
  }

  /** The operation leaves a blob behind: an import of new content under a taken name, or a failed
      deletion of a blob that no other row names. */
  ghost predicate Leaves(s: Store, hash: Bytes -> Digest, op: Op) {
    match op
    case Remove(id, deleteOk) => !deleteOk && id in s.rows && !Named(s.rows - {id}, s.rows[id].sha256)
    case _ =>
      var content := Content(op.input, 0);
      content.Some? && op.id in s.rows && hash(content.value) !in s.blobs
  }

  ghost predicate Careful(w: World, hash: Bytes -> Digest, ops: seq<Op>)
    decreases |ops|
  {
    ops == [] || (!Leaves(w.store, hash, ops[0]) && Careful(Step(w, hash, ops[0]), hash, ops[1..]))
  }

  ghost predicate AlwaysTidy(w: World, hash: Bytes -> Digest, ops: seq<Op>)
    decreases |ops|
  {
    NoOrphans(w.store) && (ops == [] || AlwaysTidy(Step(w, hash, ops[0]), hash, ops[1..]))
  }

  lemma StepTidyIff(w: World, hash: Bytes -> Digest, op: Op)
    requires Inv(w, hash) && NoOrphans(w.store)
    ensures NoOrphans(Step(w, hash, op).store) <==> !Leaves(w.store, hash, op)
  {
    match op {
      case Remove(id, deleteOk) => RemovedOrphanIff(w.store, id, deleteOk);
      case _ =>
        var content := Content(op.input, 0);
        if content.Some? {
          AddedOrphanIff(w.store, hash, op.id, content.value, op.Pull?);
        }
    }
  }

  /** All along a run every blob has a row exactly when no import of new content meets a taken name
      and no deletion of a blob that lost its last row fails. */
  lemma {:induction false} RunTidyIff(w: World, hash: Bytes -> Digest, ops: seq<Op>)
    requires Inv(w, hash) && NoOrphans(w.store)
    ensures AlwaysTidy(w, hash, ops) <==> Careful(w, hash, ops)
    decreases |ops|
  {
    if ops != [] {
      StepTidyIff(w, hash, ops[0]);
      if !Leaves(w.store, hash, ops[0]) {
        StepKeepsInv(w, hash, ops[0]);
        RunTidyIff(Step(w, hash, ops[0]), hash, ops[1..]);
      }
    }
  }

  /** A blob without a row is never deleted: it stays until an import of its content under a free name
      adopts it. */
  lemma OrphanStays(w: World, hash: Bytes -> Digest, op: Op, d: Digest)
    requires Inv(w, hash) && d in w.store.blobs && !Named(w.store.rows, d)
    ensures var r := Step(w, hash, op).store;
      && d in r.blobs && r.blobs[d] == w.store.blobs[d]
      && (Named(r.rows, d) <==>
            (!op.Remove? && Content(op.input, 0).Some? && op.id !in w.store.rows
             && hash(Content(op.input, 0).value) == d))
  {
    var r := Step(w, hash, op).store;
    if op.Remove? {
      if op.id in w.store.rows {
        assert w.store.rows[op.id].sha256 != d;
      }
    } else if Content(op.input, 0).Some? && op.id !in w.store.rows {
      assert op.id in r.rows && r.rows[op.id].sha256 == hash(Content(op.input, 0).value);
      forall k | k in r.rows && k != op.id
        ensures r.rows[k].sha256 != d
      {
        assert k in w.store.rows;
      }
    }
  }

  /** Reachable orphans: an import of new content under a taken name. */
  lemma TakenNameLeavesOrphan(hash: Bytes -> Digest, id: ModelId, x: Bytes, y: Bytes)
    requires hash(x) != hash(y)
    ensures !NoOrphans(Run(START, hash, [Import(id, [Data(x)]), Import(id, [Data(y)])]).store)
  {
    var one := Step(START, hash, Import(id, [Data(x)]));
    ContentOfOne(x);
    ContentOfOne(y);
    RunTwo(hash, Import(id, [Data(x)]), Import(id, [Data(y)]));
    var s := Step(one, hash, Import(id, [Data(y)])).store;
    assert s.rows == one.store.rows == map[id := RowFor(one.store.blobs, hash(x), |x|)];
    assert hash(y) in s.blobs && !Named(s.rows, hash(y));
  }

  /** A deletion that fails. */
  lemma FailedDeletionLeavesOrphan(hash: Bytes -> Digest, id: ModelId, x: Bytes)
    ensures !NoOrphans(Run(START, hash, [Import(id, [Data(x)]), Remove(id, false)]).store)
  {
    var one := Step(START, hash, Import(id, [Data(x)]));
    ContentOfOne(x);
    RunTwo(hash, Import(id, [Data(x)]), Remove(id, false));
    var s := Step(one, hash, Remove(id, false)).store;
    assert one.store.rows - {id} == map[];
    assert hash(x) in s.blobs && !Named(s.rows, hash(x));
  }

  lemma ContentOfOne(x: Bytes)
    ensures Content([Data(x)], 0) == Some(x)
  {
    assert x + [] == x;
  }

  lemma RunTwo(hash: Bytes -> Digest, a: Op, b: Op)
    ensures Run(START, hash, [a, b]) == Step(Step(START, hash, a), hash, b)
  {
    var one := Step(START, hash, a);
    assert [a, b][1..] == [b] && [b][1..] == [];
    assert Run(one, hash, [b]) == Run(Step(one, hash, b), hash, []);
  }
}
