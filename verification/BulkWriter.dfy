/** Writing many documents: the batching loop, and the write context that collects operations and
    executes them in bulk. */
module BulkWriter {
  import opened Wrappers

  type Size = n: nat | n > 0 witness 1

  /** A document: what the database stores of it, the size of that, and the binary data beside it. */
  datatype Document = Document(body: int, size: Size, binary: seq<int>)

  /** A stored document refers to its binary data, if it has any, by the place among the blobs. */
  datatype Record = Record(body: int, size: Size, blob: Option<nat>)

  /** What a reader finds: the record with its binary data, if the reference leads somewhere. */
  function Read(r: Record, blobs: seq<seq<int>>): (d: Option<Document>) {
    if r.blob.None? then Some(Document(r.body, r.size, []))
    else if r.blob.value < |blobs| then Some(Document(r.body, r.size, blobs[r.blob.value]))
    else None
  }

  ghost predicate Reads(rs: seq<Record>, blobs: seq<seq<int>>, ds: seq<Document>) {
    |rs| == |ds| && forall i :: 0 <= i < |rs| ==> Read(rs[i], blobs) == Some(ds[i])
  }

  /** Move binary data out of a document. */
  method Detach(d: Document, blobs: seq<seq<int>>) returns (r: Record, blobs': seq<seq<int>>)
    ensures blobs' == (if d.binary == [] then blobs else blobs + [d.binary]) && (r.blob.Some? <==> d.binary != [])
    ensures Read(r, blobs') == Some(d) && r.size == d.size
  {
    if |d.binary| > 0 {
      r, blobs' := Record(d.body, d.size, Some(|blobs|)), blobs + [d.binary];
    } else {
      r, blobs' := Record(d.body, d.size, None), blobs;
    }
  }

  // ----- inserting many documents

  const MAX_PARALLEL: nat := 10000

  function Concat<T>(batches: seq<seq<T>>): (r: seq<T>) {
    if batches == [] then [] else Concat(batches[..|batches| - 1]) + batches[|batches| - 1]
  }

  /** Every batch is full, except perhaps the last, which is not empty. */
  ghost predicate FullBatches<T>(batches: seq<seq<T>>) {
    forall i :: 0 <= i < |batches| ==>
      0 < |batches[i]| <= MAX_PARALLEL && (i < |batches| - 1 ==> |batches[i]| == MAX_PARALLEL)
  }

  lemma ReadsLater(rs: seq<Record>, blobs: seq<seq<int>>, ds: seq<Document>, blobs': seq<seq<int>>)
    requires Reads(rs, blobs, ds) && blobs <= blobs'
    ensures Reads(rs, blobs', ds)
  {
    forall i | 0 <= i < |rs| ensures Read(rs[i], blobs') == Some(ds[i]) {
      assert Read(rs[i], blobs) == Some(ds[i]);
    }
  }

  lemma ReadsConcat(rs: seq<Record>, more: seq<Record>, blobs: seq<seq<int>>, ds: seq<Document>, es: seq<Document>)
    requires Reads(rs, blobs, ds) && Reads(more, blobs, es)
    ensures Reads(rs + more, blobs, ds + es)
  {
  }

  /** Fill one batch from the documents `first` up to `last`. */
  method FillBatch(objs: seq<Document>, first: nat, last: nat, blobs: seq<seq<int>>)
    returns (toCommit: seq<Record>, blobs': seq<seq<int>>)
    requires first < last <= |objs|
    ensures blobs <= blobs' && Reads(toCommit, blobs', objs[first..last])
  {
    toCommit, blobs' := [], blobs;
    var it := first;
    while it != last
      invariant first <= it <= last && blobs <= blobs' && Reads(toCommit, blobs', objs[first..it])
      decreases last - it
    {
      var r, more := Detach(objs[it], blobs');
      ReadsLater(toCommit, blobs', objs[first..it], more);
      ReadsConcat(toCommit, [r], more, objs[first..it], [objs[it]]);
      assert objs[first..it + 1] == objs[first..it] + [objs[it]];
      toCommit, blobs' := toCommit + [r], more;
      it := it + 1;
    }
  }

  /** The batches, one after the other, hold the documents in order, and each document can be read back
      with its binary data. */
  method InsertManyDocuments(objs: seq<Document>, blobs: seq<seq<int>>)
    returns (batches: seq<seq<Record>>, blobs': seq<seq<int>>)
    ensures blobs <= blobs' && Reads(Concat(batches), blobs', objs)
    ensures FullBatches(batches)
    ensures |batches| == (|objs| + 9999) / 10000
  {
    batches, blobs' := [], blobs;
    var i := 0;
    while i < |objs|
      invariant i == |batches| * MAX_PARALLEL
      invariant blobs <= blobs' && FullBatches(batches)
      invariant var done := if i < |objs| then i else |objs|; Reads(Concat(batches), blobs', objs[..done])
      invariant i <= |objs| ==> forall k :: 0 <= k < |batches| ==> |batches[k]| == MAX_PARALLEL
      invariant i < |objs| + MAX_PARALLEL
    {
      var last := if i + MAX_PARALLEL >= |objs| then |objs| else i + MAX_PARALLEL;
      var batch, more := FillBatch(objs, i, last, blobs');
      ReadsLater(Concat(batches), blobs', objs[..i], more);
      ReadsConcat(Concat(batches), batch, more, objs[..i], objs[i..last]);
      assert objs[..last] == objs[..i] + objs[i..last];
      assert (batches + [batch])[..|batches|] == batches;
      batches, blobs' := batches + [batch], more;
      i := i + MAX_PARALLEL;
    }
    assert objs[..|objs|] == objs;
  }

  // ----- the write context

  /** Adds parents to a document: the filter and the update are two documents with sizes. */
  datatype AddParent = AddParent(id: int, parents: set<int>, filterSize: Size, updateSize: Size)

  datatype Operation = Insert(record: Record) | Update(u: AddParent)

  function Bytes(op: Operation): (n: nat)
    ensures n > 0
  {
    match op
    case Insert(record) => record.size
    case Update(u) => u.filterSize + u.updateSize
  }

  function TotalBytes(ops: seq<Operation>): (n: nat)
    ensures n == 0 <==> ops == []
  {
    if ops == [] then 0 else TotalBytes(ops[..|ops| - 1]) + Bytes(ops[|ops| - 1])
  }

  const BULK_LIMIT: nat := 16 * 1024 * 1024

  /** A bulk that was executed: it was within the limit before its last operation. */
  ghost predicate ProperBulk(bulk: seq<Operation>) {
    bulk != [] && TotalBytes(bulk[..|bulk| - 1]) <= BULK_LIMIT
  }

  datatype Command = InsertDocument(d: Document) | UpdateDocument(u: AddParent) | Flush

  /** The documents and updates that commands submit; inserted documents with their binary data. */
  datatype Submission = Inserted(d: Document) | Updated(u: AddParent)

  ghost function Submitted(cmds: seq<Command>): (r: seq<Submission>) {
    if cmds == [] then []
    else
      var before := Submitted(cmds[..|cmds| - 1]);
      match cmds[|cmds| - 1]
      case InsertDocument(d) => before + [Inserted(d)]
      case UpdateDocument(u) => before + [Updated(u)]
      case Flush => before
  }

  /** An operation carries out a submission: an insertion can be read back as the document. */
  ghost predicate CarriesOut(op: Operation, blobs: seq<seq<int>>, s: Submission) {
    match s
    case Inserted(d) => op.Insert? && Read(op.record, blobs) == Some(d)
    case Updated(u) => op == Update(u)
  }

  ghost predicate CarryOut(ops: seq<Operation>, blobs: seq<seq<int>>, ss: seq<Submission>) {
    |ops| == |ss| && forall i :: 0 <= i < |ops| ==> CarriesOut(ops[i], blobs, ss[i])
  }

  lemma CarryOutOneMore(
    ops: seq<Operation>, blobs: seq<seq<int>>, ss: seq<Submission>, op: Operation, blobs': seq<seq<int>>,
    s: Submission)
    requires CarryOut(ops, blobs, ss) && blobs <= blobs' && CarriesOut(op, blobs', s)
    ensures CarryOut(ops + [op], blobs', ss + [s])
  {
    forall i | 0 <= i < |ops| ensures CarriesOut(ops[i], blobs', ss[i]) {
      assert CarriesOut(ops[i], blobs, ss[i]);
    }
  }

  class MongoWriteContext {
    var bulk: seq<Operation>
    var bulkSize: nat
    var executed: seq<seq<Operation>>  // the bulks that the database has executed
    var blobs: seq<seq<int>>

    ghost predicate Valid()
      reads this
    {
      && bulkSize == TotalBytes(bulk) <= BULK_LIMIT
      && forall i :: 0 <= i < |executed| ==> ProperBulk(executed[i])
    }

    /** All operations, executed and pending, in order. */
    ghost function Log(): (r: seq<Operation>)
      reads this
    {
      Concat(executed) + bulk
    }

    constructor (blobs: seq<seq<int>>)
      ensures Valid() && Log() == [] && this.blobs == blobs
    {
      bulk, bulkSize, executed := [], 0, [];
      this.blobs := blobs;
    }

    /** An operation of so many bytes is pending, or has made the bulk exceed 16 MiB and is executed with it. */
    twostate predicate Counted(op: Operation, bytes: nat)
      reads this
    {
      if old(bulkSize) + bytes > 16_777_216
      then bulk == [] && executed == old(executed) + [old(bulk) + [op]]
      else bulk == old(bulk) + [op] && executed == old(executed) && bulkSize == old(bulkSize) + bytes
    }

    method Append(op: Operation)
      requires Valid()
      modifies this`bulk, this`bulkSize, this`executed
      ensures Valid() && Log() == old(Log()) + [op]
      ensures Counted(op, Bytes(op))
    {
      bulk := bulk + [op];
      bulkSize := bulkSize + Bytes(op);
      assert bulk[..|bulk| - 1] == old(bulk);
      CheckBulkWrite();
    }

    method InsertDocument(d: Document)
      requires Valid()
      modifies this
      ensures Valid() && old(blobs) <= blobs
      ensures exists r: Record ::
                Log() == old(Log()) + [Insert(r)] && Read(r, blobs) == Some(d) && Counted(Insert(r), d.size)
    {
      var r, more := Detach(d, blobs);
      blobs := more;
      Append(Insert(r));
    }

    /** Both documents of an update count. */
    method UpdateDocument(u: AddParent)
      requires Valid()
      modifies this`bulk, this`bulkSize, this`executed
      ensures Valid() && Log() == old(Log()) + [Update(u)]
      ensures Counted(Update(u), u.filterSize + u.updateSize)
    {
      Append(Update(u));
    }

    method CheckBulkWrite()
      requires bulkSize == TotalBytes(bulk) && (bulk != [] ==> ProperBulk(bulk))
      requires forall i :: 0 <= i < |executed| ==> ProperBulk(executed[i])
      modifies this`bulk, this`bulkSize, this`executed
      ensures Valid() && Log() == old(Log())
      ensures if old(bulkSize) > 16_777_216 then bulk == [] && executed == old(executed) + [old(bulk)]
              else bulk == old(bulk) && bulkSize == old(bulkSize) && executed == old(executed)
    {
      if bulkSize > BULK_LIMIT {
        ExecuteBulkWrite();
      }
    }

    /** The guard skips only an empty bulk. */
    method ExecuteBulkWrite()
      requires bulkSize == TotalBytes(bulk) && (bulk != [] ==> ProperBulk(bulk))
      requires forall i :: 0 <= i < |executed| ==> ProperBulk(executed[i])
      modifies this`bulk, this`bulkSize, this`executed
      ensures Valid() && Log() == old(Log()) && bulk == []
      ensures Concat(executed) == old(Log())
      ensures executed == old(executed) + if old(bulk) == [] then [] else [old(bulk)]
    {
      if bulkSize != 0 {
        executed := executed + [bulk];
        assert executed[..|executed| - 1] == old(executed);
      }
      bulk, bulkSize := [], 0;
    }

    /** Nothing is pending afterwards. */
    method Flush()
      requires Valid()
      modifies this`bulk, this`bulkSize, this`executed
      ensures Valid() && Log() == old(Log()) && bulk == [] && Concat(executed) == old(Log())
    {
      PrefixWithinLimit(bulk);
      ExecuteBulkWrite();
    }

    /** Any run of commands: what was executed, followed by what is pending, carries out what was
        submitted, in order; after a final flush everything has been executed. */
    method Run(cmds: seq<Command>)
      requires Valid() && Log() == []
      modifies this
      ensures Valid() && CarryOut(Log(), blobs, Submitted(cmds))
      ensures cmds != [] && cmds[|cmds| - 1].Flush? ==> bulk == [] && CarryOut(Concat(executed), blobs, Submitted(cmds))
    {
      var i := 0;
      while i < |cmds|
        invariant i <= |cmds| && Valid() && CarryOut(Log(), blobs, Submitted(cmds[..i]))
        invariant i > 0 && cmds[i - 1].Flush? ==> bulk == []
      {
        ghost var log, was, ss := Log(), blobs, Submitted(cmds[..i]);
        assert cmds[..i + 1][..i] == cmds[..i];
        match cmds[i] {
          case InsertDocument(d) =>
            InsertDocument(d);
            ghost var r: Record :| Log() == log + [Insert(r)] && Read(r, blobs) == Some(d);
            CarryOutOneMore(log, was, ss, Insert(r), blobs, Inserted(d));
          case UpdateDocument(u) =>
            UpdateDocument(u);
            CarryOutOneMore(log, was, ss, Update(u), blobs, Updated(u));
          case Flush =>
            Flush();
        }
        i := i + 1;
      }
      assert cmds[..|cmds|] == cmds;
      assert bulk == [] ==> Log() == Concat(executed);
    }
  }

  lemma {:induction false} PrefixWithinLimit(bulk: seq<Operation>)
    requires TotalBytes(bulk) <= BULK_LIMIT
    ensures bulk != [] ==> ProperBulk(bulk)
  {
  }
}
