/**
 * `prepare`: the enrichment of the HTE table, phase by phase. Ids are assigned
 * first, then the per-row text columns, then (reading the finished `signature`
 * and `trmid` columns) the broader concept of every row, then the cleaned label.
 */
module Prepare {
  import opened Text
  import opened Fields
  import opened Ids
  import opened Parent

  /** One row of the prepared table, with the columns `convert` reads. */
  datatype Concept = Concept(
    trmid: string,
    concat: string,
    hteUrl: Option<string>,
    signature: string,
    broader: Option<string>,
    prefLabel: string)

  /** `df.apply(f, axis=1)`: a column holding `f` of every row, in row order. */
  function Apply<T>(rows: seq<RawRow>, f: RawRow -> T): (r: seq<T>)
    // Spelled out element by element so callers need not unfold the comprehension.
    ensures |r| == |rows| && forall i :: 0 <= i < |rows| ==> r[i] == f(rows[i])
  {
    seq(|rows|, i requires 0 <= i < |rows| => f(rows[i]))
  }

  /** The prepared table from its columns, row by row. */
  function Assemble(trmid: seq<string>, concat: seq<string>, hteUrl: seq<Option<string>>,
                    signature: seq<string>, broader: seq<Option<string>>, prefLabel: seq<string>): (r: seq<Concept>)
    requires |concat| == |hteUrl| == |signature| == |broader| == |prefLabel| == |trmid|
    // Spelled out element by element so callers need not unfold the comprehension.
    ensures |r| == |trmid|
    ensures forall i :: 0 <= i < |trmid| ==>
      r[i] == Concept(trmid[i], concat[i], hteUrl[i], signature[i], broader[i], prefLabel[i])
  {
    seq(|trmid|, i requires 0 <= i < |trmid| =>
      Concept(trmid[i], concat[i], hteUrl[i], signature[i], broader[i], prefLabel[i]))
  }

  /** The `signature` and `trmid` columns side by side: what parent resolution searches. */
  function Index(signatures: seq<string>, ids: seq<string>): (r: seq<Entry>)
    requires |signatures| == |ids|
    // Spelled out element by element so callers need not unfold the comprehension.
    ensures |r| == |ids| && forall j :: 0 <= j < |ids| ==> r[j] == Entry(signatures[j], ids[j])
  {
    seq(|ids|, j requires 0 <= j < |ids| => Entry(signatures[j], ids[j]))
  }

  /** The index of the prepared table of `rows`. */
  function Entries(rows: seq<RawRow>): seq<Entry>
  {
    Index(Apply(rows, Signature), IdColumn(rows))
  }

  /** The warnings logged while resolving the parents of the first `n` rows against `entries`, in row order. */
  function LogOf(entries: seq<Entry>, rows: seq<RawRow>, n: nat): seq<Warning>
    requires n <= |rows|
  {
    if n == 0 then [] else LogOf(entries, rows, n - 1) + Resolve(entries, rows[n - 1].tc).warnings
  }

  /** `table` holds, row for row, the columns `prepare` derives from `rows`. */
  predicate PreparedFrom(rows: seq<RawRow>, table: seq<Concept>)
  {
    |table| == |rows| &&
    forall i :: 0 <= i < |rows| ==>
      && table[i].trmid == IdFor(rows, i)
      && table[i].concat == HtePath(rows[i])
      && table[i].hteUrl == BuildHteUrl(rows[i])
      && table[i].signature == Signature(rows[i])
      && table[i].broader == Resolve(Entries(rows), rows[i].tc).parent
      && table[i].prefLabel == PrefLabel(rows[i])
  }

  /**
   * In a prepared table the `broader` value of row `i`, when there is one, names
   * a row of the same table whose signature is a prefix of row `i`'s signature.
   */
  lemma BroaderIsTableRow(rows: seq<RawRow>, table: seq<Concept>, i: nat)
    requires PreparedFrom(rows, table) && i < |table| && table[i].broader.Some?
    ensures exists j :: 0 <= j < |table| && table[i].broader.value == ConceptUri(table[j].trmid) &&
                        table[j].signature <= table[i].signature
  {
    var entries := Entries(rows);
    var tc := rows[i].tc;
    assert Resolve(entries, tc).parent == table[i].broader;
    ParentIsAncestorRow(entries, tc);
    var j, k :| && 0 <= j < |entries| && 1 <= k < |Present(tc)|
                && Resolve(entries, tc).parent.value == ConceptUri(entries[j].trmid)
                && entries[j].signature == Candidate(Present(tc), k)
                && entries[j].signature <= Concat(Present(tc));
    assert entries[j] == Entry(Signature(rows[j]), IdFor(rows, j));
    assert table[j].trmid == entries[j].trmid;
    assert table[j].signature == entries[j].signature;
    assert table[i].signature == Concat(Present(tc));
  }

  /** The `broader` column (`df.apply(lambda row: determine_parent(df, row), axis=1)`), row by row. */
  method ResolveParents(entries: seq<Entry>, rows: seq<RawRow>) returns (broader: seq<Option<string>>, log: seq<Warning>)
    ensures |broader| == |rows|
    ensures forall k :: 0 <= k < |rows| ==> broader[k] == Resolve(entries, rows[k].tc).parent
    ensures log == LogOf(entries, rows, |rows|)
  {
    broader := [];
    log := [];
    var i := 0;
    while i < |rows|
      invariant 0 <= i <= |rows|
      invariant |broader| == i
      invariant forall k :: 0 <= k < i ==> broader[k] == Resolve(entries, rows[k].tc).parent
      invariant log == LogOf(entries, rows, i)
    {
      var found, warnings := DetermineParent(entries, rows[i].tc);
      assert Resolution(found, warnings) == Resolve(entries, rows[i].tc);
      assert LogOf(entries, rows, i + 1) == log + warnings;
      broader := broader + [found];
      log := log + warnings;
      i := i + 1;
    }
  }

  /**
   * `prepare(df)`: the prepared table and the warnings logged on the way. Every
   * column is the per-row function of the raw row, except that `trmid` draws on
   * the shared id counter and `broader` searches the whole table.
   */
  method Prepare(rows: seq<RawRow>) returns (table: seq<Concept>, log: seq<Warning>)
    ensures PreparedFrom(rows, table)
    ensures log == LogOf(Entries(rows), rows, |rows|)
  {
    // Phase 1: identifiers.
    var ids := AssignIds(rows);
    // Phase 2: the derived per-row columns.
    var concat := Apply(rows, HtePath);
    var hteUrl := Apply(rows, BuildHteUrl);
    var signature := Apply(rows, Signature);
    // Phase 3: parents, each row searching the finished signature and id columns.
    var broader;
    broader, log := ResolveParents(Index(signature, ids), rows);
    // Phase 4: the cleaned label.
    var prefLabel := Apply(rows, PrefLabel);
    table := Assemble(ids, concat, hteUrl, signature, broader, prefLabel);
  }
}
