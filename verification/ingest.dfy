/** The document batching loop of `create_vector_store` and the `main` that
    runs it after loading the table.

    The vector store is outside the model. Each `add_documents` call is a
    flush attempt; `ok(k)` says whether the k-th attempt of the run (counting
    from 0) returns or raises. Since the run is deterministic, every
    behaviour of the store is some such `ok`. */
module Ingest {
  import opened Exceptions
  import opened Decimal
  import opened Table
  import opened Documents

  /** Documents accumulate until the buffer holds this many, then are flushed. */
  const BatchSize: nat := 100

  type FlushOracle = nat -> bool

  /** One `add_documents(documents=..., ids=...)` call and whether it returned. */
  datatype Attempt = Attempt(documents: seq<Document>, ids: seq<string>, ok: bool)

  datatype Option<+T> = None | Some(value: T)

  /** The flushes of one run: those made inside the row loop, and the final
      flush of whatever is left (absent when nothing is left). */
  datatype Run = Run(inLoop: seq<Attempt>, final: Option<Attempt>) {

    /** The final flush raised; `create_vector_store` does not catch that. */
    predicate Raised() {
      final.Some? && !final.value.ok
    }

    function Log(): seq<Attempt> {
      inLoop + (if final.Some? then [final.value] else [])
    }
  }

  /** The parallel `ids` list matches the documents entry for entry, and
      every document carries its own id in its metadata. */
  ghost predicate Lockstep(documents: seq<Document>, ids: seq<string>) {
    && |documents| == |ids|
    && forall i | 0 <= i < |documents| :: ids[i] == documents[i].id && WellFormed(documents[i])
  }

  /** The documents the store accepted, in the order it accepted them. */
  ghost function Flushed(log: seq<Attempt>): seq<Document>
    decreases |log|
  {
    if |log| == 0 then []
    else Flushed(log[..|log| - 1]) + (if log[|log| - 1].ok then log[|log| - 1].documents else [])
  }

  predicate AllOk(log: seq<Attempt>) {
    forall j | 0 <= j < |log| :: log[j].ok
  }

  /** The shape of the in-loop flushes: a flush happens once the buffer
      reaches 100 documents, so after a flush that returned (or at the start)
      the next one carries exactly 100; a flush that raised leaves its
      documents in the buffer, so the next one resends them plus the one
      document built since. */
  ghost predicate LoopShape(log: seq<Attempt>) {
    && (forall j | 0 <= j < |log| :: |log[j].documents| >= BatchSize)
    && (|log| > 0 ==> |log[0].documents| == BatchSize)
    && (forall j | 0 <= j < |log| - 1 :: Follows(log[j], log[j + 1]))
  }

  /** How the flush after `prev` relates to it. */
  ghost predicate Follows(prev: Attempt, next: Attempt) {
    && (prev.ok ==> |next.documents| == BatchSize)
    && (!prev.ok ==> prev.documents <= next.documents && |next.documents| == |prev.documents| + 1)
  }

  lemma AppendAssoc<T>(x: seq<T>, y: seq<T>, z: seq<T>)
    ensures (x + y) + z == x + (y + z)
  {
  }

  lemma FlushedAppend(log: seq<Attempt>, a: Attempt)
    ensures Flushed(log + [a]) == Flushed(log) + (if a.ok then a.documents else [])
  {
    assert (log + [a])[..|log|] == log;
  }

  ghost predicate AllLockstep(log: seq<Attempt>) {
    forall j | 0 <= j < |log| :: Lockstep(log[j].documents, log[j].ids)
  }

  /** The k-th flush attempt got the oracle's k-th answer. */
  ghost predicate Answers(log: seq<Attempt>, ok: FlushOracle) {
    forall j | 0 <= j < |log| :: log[j].ok == ok(j)
  }

  lemma LogExtend(log: seq<Attempt>, a: Attempt, ok: FlushOracle)
    requires AllLockstep(log) && Answers(log, ok)
    requires Lockstep(a.documents, a.ids) && a.ok == ok(|log|)
    ensures AllLockstep(log + [a]) && Answers(log + [a], ok)
  {
    var log' := log + [a];
    forall j | 0 <= j < |log'|
      ensures log'[j].ok == ok(j) && Lockstep(log'[j].documents, log'[j].ids)
    {
      if j < |log| {
        assert log'[j] == log[j];
      } else {
        assert log'[j] == a;
      }
    }
  }

  /** The loop's local state: the `documents` and `ids` buffers, and the
      flushes made so far. */
  datatype Buffer = Buffer(documents: seq<Document>, ids: seq<string>, inLoop: seq<Attempt>)

  ghost predicate LastFailed(log: seq<Attempt>) {
    |log| > 0 && !log[|log| - 1].ok
  }

  /** What holds after each row, where `built` is the documents of the rows
      seen so far: the buffer is whatever the store has not accepted yet; it
      is below a batch unless the last flush raised, in which case it is that
      flush's batch. */
  ghost predicate Consistent(b: Buffer, built: seq<Document>, ok: FlushOracle) {
    && Flushed(b.inLoop) + b.documents == built
    && Lockstep(b.documents, b.ids)
    && AllLockstep(b.inLoop)
    && Answers(b.inLoop, ok)
    && LoopShape(b.inLoop)
    && (!LastFailed(b.inLoop) ==> |b.documents| < BatchSize)
    && (LastFailed(b.inLoop) ==>
          b.documents == b.inLoop[|b.inLoop| - 1].documents && b.ids == b.inLoop[|b.inLoop| - 1].ids)
  }

  /** One iteration of the row loop: build the row's document (a row that
      raises is skipped), append it and its id, and flush once the buffer
      holds a batch. A flush that raises is caught by the same `try`, so the
      buffer is kept for the next row. */
  function ProcessRow(b: Buffer, row: IndexedRow, ok: FlushOracle): (b': Buffer)
    // a skipped row changes nothing
    ensures Build(row).Throws? ==> b' == b
    // a row adds at most one flush attempt, and that one gets the oracle's next answer
    ensures b.inLoop <= b'.inLoop && |b'.inLoop| <= |b.inLoop| + 1
    ensures |b'.inLoop| == |b.inLoop| + 1 ==>
              |b'.inLoop[|b.inLoop|].documents| >= BatchSize && b'.inLoop[|b.inLoop|].ok == ok(|b.inLoop|)
    // without a flush the buffer grows by the row's document; a returned flush empties it
    ensures Build(row).Returns? && |b'.inLoop| == |b.inLoop| ==>
              b'.documents == b.documents + [Build(row).value] && |b'.documents| < BatchSize
    ensures |b'.inLoop| == |b.inLoop| + 1 && ok(|b.inLoop|) ==> b'.documents == [] && b'.ids == []
  {
    match Build(row)
    case Throws => b
    case Returns(doc) =>
      var documents := b.documents + [doc];
      var ids := b.ids + [NatToString(row.idx)];
      if |documents| >= BatchSize then
        var returned := ok(|b.inLoop|);
        var inLoop := b.inLoop + [Attempt(documents, ids, returned)];
        if returned then Buffer([], [], inLoop) else Buffer(documents, ids, inLoop)
      else
        Buffer(documents, ids, b.inLoop)
  }

  /** The buffer after the rows of `df`, one `ProcessRow` each, in order. */
  function RowLoop(df: seq<IndexedRow>, ok: FlushOracle): Buffer
    decreases |df|
  {
    if |df| == 0 then Buffer([], [], [])
    else ProcessRow(RowLoop(df[..|df| - 1], ok), df[|df| - 1], ok)
  }

  /** A flush that follows the loop's pattern extends it. */
  lemma ShapeExtend(log: seq<Attempt>, a: Attempt)
    requires LoopShape(log)
    requires |a.documents| >= BatchSize
    requires |log| == 0 ==> |a.documents| == BatchSize
    requires |log| > 0 ==> Follows(log[|log| - 1], a)
    ensures LoopShape(log + [a])
  {
    var log' := log + [a];
    assert forall j | 0 <= j < |log| :: log'[j] == log[j];
    forall j | 0 <= j < |log'| - 1
      ensures Follows(log'[j], log'[j + 1])
    {
      if j + 1 < |log| {
        assert Follows(log[j], log[j + 1]);
      }
    }
  }

  /** A row whose document does not fill the buffer only appends to it. */
  lemma AppendConsistent(b: Buffer, built: seq<Document>, doc: Document, id: string, ok: FlushOracle)
    requires Consistent(b, built, ok)
    requires id == doc.id && WellFormed(doc)
    requires |b.documents| + 1 < BatchSize
    ensures Consistent(Buffer(b.documents + [doc], b.ids + [id], b.inLoop), built + [doc], ok)
  {
    assert !LastFailed(b.inLoop);
    assert Flushed(b.inLoop) + (b.documents + [doc]) == built + [doc];
  }

  /** A row whose document fills the buffer triggers a flush: if it returns
      the store gains the buffer and the buffer empties; if it raises the
      store gains nothing and the buffer, new document included, stays. */
  lemma FlushConsistent(b: Buffer, built: seq<Document>, doc: Document, id: string, ok: FlushOracle)
    requires Consistent(b, built, ok)
    requires id == doc.id && WellFormed(doc)
    requires |b.documents| + 1 >= BatchSize
    ensures var documents := b.documents + [doc];
            var ids := b.ids + [id];
            var a := Attempt(documents, ids, ok(|b.inLoop|));
            Consistent(if a.ok then Buffer([], [], b.inLoop + [a]) else Buffer(documents, ids, b.inLoop + [a]),
                       built + [doc], ok)
  {
    var documents := b.documents + [doc];
    var ids := b.ids + [id];
    assert Lockstep(documents, ids);
    var a := Attempt(documents, ids, ok(|b.inLoop|));
    FlushedAppend(b.inLoop, a);
    ShapeExtend(b.inLoop, a);
    LogExtend(b.inLoop, a, ok);
    AppendAssoc(Flushed(b.inLoop), b.documents, [doc]);
    var inLoop := b.inLoop + [a];
    if a.ok {
      var nb := Buffer([], [], inLoop);
      assert Flushed(nb.inLoop) + nb.documents == built + [doc];
      assert !LastFailed(inLoop);
    } else {
      var nb := Buffer(documents, ids, inLoop);
      assert Flushed(b.inLoop) + [] == Flushed(b.inLoop);
      assert Flushed(nb.inLoop) + nb.documents == built + [doc];
      assert LastFailed(inLoop) && inLoop[|inLoop| - 1] == a;
    }
  }

  /** Each row keeps the loop state consistent with the documents built so far. */
  lemma ProcessRowConsistent(b: Buffer, built: seq<Document>, row: IndexedRow, ok: FlushOracle)
    requires Consistent(b, built, ok)
    ensures Consistent(ProcessRow(b, row, ok),
                       built + (if Build(row).Returns? then [Build(row).value] else []), ok)
  {
    if Build(row).Returns? {
      var doc := Build(row).value;
      if |b.documents| + 1 >= BatchSize {
        FlushConsistent(b, built, doc, NatToString(row.idx), ok);
      } else {
        AppendConsistent(b, built, doc, NatToString(row.idx), ok);
      }
    } else {
      assert built + [] == built;
    }
  }

  /** After any number of rows the loop state is consistent with the
      documents built from them. */
  lemma {:induction false} RowLoopConsistent(df: seq<IndexedRow>, ok: FlushOracle)
    ensures Consistent(RowLoop(df, ok), Built(df), ok)
    decreases |df|
  {
    if |df| > 0 {
      var front := df[..|df| - 1];
      RowLoopConsistent(front, ok);
      ProcessRowConsistent(RowLoop(front, ok), Built(front), df[|df| - 1], ok);
    }
  }

  /** With every flush returning, each in-loop flush carried exactly one batch. */
  lemma AllOkFullBatches(log: seq<Attempt>)
    requires LoopShape(log) && AllOk(log)
    ensures forall j | 0 <= j < |log| :: |log[j].documents| == BatchSize
  {
    forall j | 0 <= j < |log|
      ensures |log[j].documents| == BatchSize
    {
      if j > 0 {
        assert Follows(log[j - 1], log[j - 1 + 1]);
      }
    }
  }

  lemma {:induction false} FlushedFullBatches(log: seq<Attempt>)
    requires AllOk(log)
    requires forall j | 0 <= j < |log| :: |log[j].documents| == BatchSize
    ensures |Flushed(log)| == BatchSize * |log|
    decreases |log|
  {
    if |log| > 0 {
      var front := log[..|log| - 1];
      assert forall j | 0 <= j < |front| :: front[j] == log[j];
      FlushedFullBatches(front);
    }
  }

  lemma DivideBatches(k: nat, rest: nat)
    requires rest < BatchSize
    ensures (BatchSize * k + rest) / BatchSize == k
    ensures (BatchSize * k + rest) % BatchSize == rest
  {
  }

  lemma PrefixDistinct(p: seq<Document>, s: seq<Document>)
    requires p <= s && DistinctIds(s)
    ensures DistinctIds(p)
  {
    assert forall j | 0 <= j < |p| :: p[j] == s[j];
  }

  /** The flush after the loop: whatever is left in the buffer is sent in
      one last call, outside the per-row `try`; nothing is sent when the
      buffer is empty. */
  function FinalFlush(b: Buffer, ok: FlushOracle): (run: Run)
    ensures run.inLoop == b.inLoop
    ensures run.final.Some? <==> |b.documents| > 0
    ensures run.final.Some? ==>
              && run.final.value.documents == b.documents && run.final.value.ids == b.ids
              && (run.Raised() <==> !ok(|b.inLoop|))
  {
    if |b.documents| > 0 then Run(b.inLoop, Some(Attempt(b.documents, b.ids, ok(|b.inLoop|))))
    else Run(b.inLoop, None)
  }

  /** After the loop, the final flush completes the delivery of `built`: ids
      in lockstep, each attempt with the oracle's answer, and unless it
      raises the store has accepted exactly `built`, in order. */
  lemma FinalFlushDelivers(b: Buffer, built: seq<Document>, ok: FlushOracle)
    requires Consistent(b, built, ok)
    ensures var run := FinalFlush(b, ok);
            && AllLockstep(run.Log())
            && Answers(run.Log(), ok)
            && (!run.Raised() ==> Flushed(run.Log()) == built)
            && (run.Raised() ==> Flushed(run.inLoop) + run.final.value.documents == built)
  {
    if |b.documents| > 0 {
      var last := Attempt(b.documents, b.ids, ok(|b.inLoop|));
      FlushedAppend(b.inLoop, last);
      LogExtend(b.inLoop, last, ok);
      assert FinalFlush(b, ok).Log() == b.inLoop + [last];
    } else {
      assert FinalFlush(b, ok).Log() == b.inLoop;
    }
  }

  /** The final flush happens exactly when documents are left over: below a
      batch after a returned flush, the kept batch after a raised one. */
  lemma FinalFlushShape(b: Buffer, built: seq<Document>, ok: FlushOracle)
    requires Consistent(b, built, ok)
    ensures var run := FinalFlush(b, ok);
            && run.inLoop == b.inLoop
            && (run.final.Some? ==> |run.final.value.documents| > 0)
            && (run.final.Some? && !LastFailed(run.inLoop) ==> |run.final.value.documents| < BatchSize)
            && (LastFailed(run.inLoop) ==>
                  run.final.Some? && run.final.value.documents == run.inLoop[|run.inLoop| - 1].documents)
  {
    if LastFailed(b.inLoop) {
      assert |b.inLoop[|b.inLoop| - 1].documents| >= BatchSize;
    }
  }

  /** With no in-loop flush failing, the m documents of `built` take m div 100
      full in-loop flushes, and a final flush exactly when m mod 100 is not 0. */
  lemma FinalFlushCounts(b: Buffer, built: seq<Document>, ok: FlushOracle)
    requires Consistent(b, built, ok)
    requires AllOk(b.inLoop)
    ensures forall j | 0 <= j < |b.inLoop| :: |b.inLoop[j].documents| == BatchSize
    ensures |b.inLoop| == |built| / BatchSize
    ensures FinalFlush(b, ok).final.Some? <==> |built| % BatchSize != 0
  {
    AllOkFullBatches(b.inLoop);
    FlushedFullBatches(b.inLoop);
    assert !LastFailed(b.inLoop);
    DivideBatches(|b.inLoop|, |b.documents|);
  }

  /** Whatever the store accepts is a prefix of `built`, so distinct ids there
      stay distinct. */
  lemma FinalFlushDistinct(b: Buffer, built: seq<Document>, ok: FlushOracle)
    requires Consistent(b, built, ok)
    requires DistinctIds(built)
    ensures DistinctIds(Flushed(FinalFlush(b, ok).Log()))
  {
    FinalFlushDelivers(b, built, ok);
    var run := FinalFlush(b, ok);
    if run.Raised() {
      PrefixDistinct(Flushed(run.inLoop), built);
      FlushedAppend(run.inLoop, run.final.value);
      assert Flushed(run.Log()) == Flushed(run.inLoop);
    } else {
      PrefixDistinct(Flushed(run.Log()), built);
    }
  }

  /** `create_vector_store` from the moment the store exists: the row loop
      with its per-row `try`, then the final flush outside it. */
  method CreateVectorStore(df: seq<IndexedRow>, ok: FlushOracle) returns (run: Run)
    // every call passes ids in lockstep with documents, each id the row's str(idx)
    ensures AllLockstep(run.Log())
    // coverage and order: unless the final flush raised, this run delivered to the store
    // exactly the documents of the good rows, in row order, each once
    ensures !run.Raised() ==> Flushed(run.Log()) == Built(df)
    ensures run.Raised() ==> Flushed(run.inLoop) + run.final.value.documents == Built(df)
    ensures LoopShape(run.inLoop)
    // the final flush happens exactly when documents are left over
    ensures run.final.Some? ==> |run.final.value.documents| > 0
    ensures run.final.Some? && !LastFailed(run.inLoop) ==> |run.final.value.documents| < BatchSize
    ensures LastFailed(run.inLoop) ==>
              run.final.Some? && run.final.value.documents == run.inLoop[|run.inLoop| - 1].documents
    // the k-th flush attempt gets the oracle's k-th answer
    ensures Answers(run.Log(), ok)
    // with no in-loop flush failing: full batches, and m div 100 (+1) flushes
    ensures AllOk(run.inLoop) ==> forall j | 0 <= j < |run.inLoop| :: |run.inLoop[j].documents| == BatchSize
    ensures AllOk(run.inLoop) ==>
              && |run.inLoop| == |Built(df)| / BatchSize
              && (run.final.Some? <==> |Built(df)| % BatchSize != 0)
    // distinct rows give distinct ids among everything the store accepted
    ensures DistinctIndices(df) ==> DistinctIds(Flushed(run.Log()))
  {
    var b := Buffer([], [], []);
    var i := 0;
    while i < |df|
      invariant 0 <= i <= |df|
      invariant b == RowLoop(df[..i], ok)
    {
      assert df[..i + 1][..i] == df[..i];
      b := ProcessRow(b, df[i], ok);
      i := i + 1;
    }
    assert df[..|df|] == df;
    RowLoopConsistent(df, ok);
    var built := Built(df);
    run := FinalFlush(b, ok);
    FinalFlushDelivers(b, built, ok);
    FinalFlushShape(b, built, ok);
    if AllOk(b.inLoop) {
      FinalFlushCounts(b, built, ok);
    }
    if DistinctIndices(df) {
      BuiltIdsDistinct(df);
      FinalFlushDistinct(b, built, ok);
    }
  }

  /** How a run of the vectorization script ends. `main` logs and re-raises
      any exception, so a failed load and a raised final flush both end the
      script with an exception. */
  datatype Vectorization = LoadFailed | IngestRaised(run: Run) | Completed(run: Run)

  /** `main`: load the table, then populate the store from it. */
  method Vectorize(read: Reader, ok: FlushOracle) returns (v: Vectorization)
    ensures v.LoadFailed? <==> !AllReadable(ParquetFiles, read)
    ensures v.IngestRaised? ==> v.run.Raised()
    ensures v.Completed? ==> !v.run.Raised()
    // once loaded, the run follows the flush oracle and the loop's flush pattern
    ensures !v.LoadFailed? ==>
              && LoadParquetFiles(read).Returns?
              && Answers(v.run.Log(), ok)
              && AllLockstep(v.run.Log())
              && LoopShape(v.run.inLoop)
    ensures !v.LoadFailed? && v.run.final.Some? ==> |v.run.final.value.documents| > 0
    ensures !v.LoadFailed? && v.run.final.Some? && !LastFailed(v.run.inLoop) ==>
              |v.run.final.value.documents| < BatchSize
    ensures !v.LoadFailed? && LastFailed(v.run.inLoop) ==>
              v.run.final.Some? && v.run.final.value.documents == v.run.inLoop[|v.run.inLoop| - 1].documents
    // a raised final flush ends the script with an exception, its batch being
    // the documents the store has not accepted
    ensures v.IngestRaised? ==>
              && LoadParquetFiles(read).Returns?
              && Flushed(v.run.inLoop) + v.run.final.value.documents == Built(LoadParquetFiles(read).value)
    // a completed run delivers to the store one document per good row of the
    // combined table, in table order, with id str(position) and no id twice
    ensures v.Completed? ==>
              && LoadParquetFiles(read).Returns?
              && Flushed(v.run.Log()) == Built(LoadParquetFiles(read).value)
              && DistinctIds(Flushed(v.run.Log()))
              && forall j | 0 <= j < |Flushed(v.run.Log())| ::
                   Flushed(v.run.Log())[j].id == NatToString(GoodPositions(LoadParquetFiles(read).value)[j])
  {
    LoadSpec(read);
    var loaded := LoadParquetFiles(read);
    if loaded.Throws? {
      return LoadFailed;
    }
    var table := loaded.value;
    NumberedDistinct(table);
    BuiltDocumentsFromRows(table);
    var run := CreateVectorStore(table, ok);
    if run.Raised() {
      v := IngestRaised(run);
    } else {
      v := Completed(run);
    }
  }
}
