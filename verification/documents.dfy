/** Turning a table row into a document (the body of the per-row `try` in
    `create_vector_store`), and the documents a whole table yields. */
module Documents {
  import opened Exceptions
  import opened Decimal
  import opened Table

  /** A LangChain `Document`: page content, metadata and id. */
  datatype Document = Document(pageContent: string, metadata: map<string, string>, id: string)

  /** The shape every built document has: its metadata is exactly `{"id": id}`. */
  predicate WellFormed(d: Document) {
    d.metadata == map["id" := d.id]
  }

  /** Builds the document for one row. Looking up the "input" column raises
      when the row has none, and the document constructor raises when the
      value is not a string; either way the row yields no document. */
  function Build(r: IndexedRow): (d: Fallible<Document>)
    ensures d.Throws? <==> "input" !in r.row || r.row["input"].NonStr?
    ensures d.Returns? ==>
              && d.value.pageContent == r.row["input"].s
              && d.value.id == NatToString(r.idx)
              && d.value.metadata == map["id" := d.value.id]
  {
    if "input" in r.row && r.row["input"].Str? then
      var id := NatToString(r.idx);
      Returns(Document(r.row["input"].s, map["id" := id], id))
    else
      Throws
  }

  /** The documents of every row whose construction does not raise, in row order. */
  function Built(df: seq<IndexedRow>): (built: seq<Document>)
    ensures |built| <= |df|
    ensures forall j | 0 <= j < |built| :: built[j].metadata == map["id" := built[j].id]
    decreases |df|
  {
    if |df| == 0 then []
    else
      var front := Built(df[..|df| - 1]);
      match Build(df[|df| - 1])
      case Throws => front
      case Returns(d) => front + [d]
  }

  predicate StrictlyIncreasing(p: seq<nat>) {
    forall j, j' | 0 <= j < j' < |p| :: p[j] < p[j']
  }

  /** The positions of the rows that do yield a document: one per built
      document, each a position of the table, in increasing order. */
  function GoodPositions(df: seq<IndexedRow>): (p: seq<nat>)
    ensures |p| == |Built(df)|
    ensures forall j | 0 <= j < |p| :: p[j] < |df|
    ensures StrictlyIncreasing(p)
    decreases |df|
  {
    if |df| == 0 then []
    else if Build(df[|df| - 1]).Throws? then GoodPositions(df[..|df| - 1])
    else GoodPositions(df[..|df| - 1]) + [|df| - 1]
  }

  /** The j-th built document is the document of the j-th good row. */
  lemma {:induction false} BuiltFromGoodRows(df: seq<IndexedRow>)
    ensures forall j | 0 <= j < |Built(df)| ::
              Build(df[GoodPositions(df)[j]]) == Returns(Built(df)[j])
    decreases |df|
  {
    if |df| > 0 {
      var front := df[..|df| - 1];
      BuiltFromGoodRows(front);
      assert forall k | 0 <= k < |front| :: df[k] == front[k];
    }
  }

  /** The good rows are exactly the rows whose construction does not raise:
      a row that raises is skipped, and every other row is kept. */
  lemma {:induction false} GoodPositionsExact(df: seq<IndexedRow>)
    ensures forall k | 0 <= k < |df| :: Build(df[k]).Returns? <==> k in GoodPositions(df)
    decreases |df|
  {
    if |df| > 0 {
      var front := df[..|df| - 1];
      GoodPositionsExact(front);
      assert forall k | 0 <= k < |front| :: df[k] == front[k];
    }
  }

  /** Every built document has `id == metadata["id"] == str(idx)` of its row. */
  lemma BuiltDocumentsFromRows(df: seq<IndexedRow>)
    ensures forall j | 0 <= j < |Built(df)| ::
              && WellFormed(Built(df)[j])
              && Built(df)[j].id == NatToString(df[GoodPositions(df)[j]].idx)
  {
    BuiltFromGoodRows(df);
  }

  predicate DistinctIndices(df: seq<IndexedRow>) {
    forall i, i' | 0 <= i < i' < |df| :: df[i].idx != df[i'].idx
  }

  predicate DistinctIds(docs: seq<Document>) {
    forall j, j' | 0 <= j < j' < |docs| :: docs[j].id != docs[j'].id
  }

  /** Rows with distinct indices yield documents with pairwise distinct ids. */
  lemma BuiltIdsDistinct(df: seq<IndexedRow>)
    requires DistinctIndices(df)
    ensures DistinctIds(Built(df))
  {
    BuiltFromGoodRows(df);
    var p := GoodPositions(df);
    forall j, j' | 0 <= j < j' < |Built(df)|
      ensures Built(df)[j].id != Built(df)[j'].id
    {
      NatToStringInjective(df[p[j]].idx, df[p[j']].idx);
    }
  }

  /** A numbered table (labels 0..n-1) has distinct indices. */
  lemma NumberedDistinct(df: seq<IndexedRow>)
    requires Numbered(df)
    ensures DistinctIndices(df)
  {
  }
}
