/**
 * The HTE spreadsheet row and the per-row derived text fields of the converter:
 * the path signature (`build_sig`), the concept URI template
 * (`build_concept_uri`) and the HTE category URL (`build_hte_url`).
 */
module Fields {
  import opened Text

  const UriPrefix: string := "https://w3id.org/TRM/"
  const ConceptPrefix: string := UriPrefix + "concepts/"
  const ConceptSchemeUri: string := UriPrefix + "conceptSchemes/TRMBase"
  const HteUrlPrefix: string := "https://ht.ac.uk/category/?id="

  /**
   * One row of the HTE spreadsheet, every cell read as text.
   * `hte` holds the columns t1..t7 (the row's path in the full HTE hierarchy),
   * `tc` the columns AS1, S2..S5 (its path in the Thematic Categories),
   * `heading` the `SAMUELS heading` label.
   */
  datatype RawRow = RawRow(
    catid: Option<string>,
    hte: seq<Option<string>>,
    pos: Option<string>,
    tc: seq<Option<string>>,
    heading: string)

  /** The optional trailing field of `build_sig`: none, or the cell to append verbatim. */
  datatype Suffix = NoSuffix | Suffix(cell: Option<string>)

  /** The non-missing cells, in their column order (`r[r.notnull()]`). */
  function Present(cells: seq<Option<string>>): (r: seq<string>)
    ensures |r| <= |cells|
    ensures (forall i :: 0 <= i < |cells| ==> cells[i].None?) ==> r == []
  {
    if cells == [] then []
    else
      var last := cells[|cells| - 1];
      assert cells == cells[..|cells| - 1] + [last];
      Present(cells[..|cells| - 1]) + (if last.Some? then [last.value] else [])
  }

  /** Taking the present cells commutes with splitting the row: order is kept. */
  lemma {:induction false} PresentAppend(a: seq<Option<string>>, b: seq<Option<string>>)
    ensures Present(a + b) == Present(a) + Present(b)
    decreases |b|
  {
    if b == [] {
      assert a + b == a;
    } else {
      var n := |b| - 1;
      assert (a + b)[..|a + b| - 1] == a + b[..n];
      PresentAppend(a, b[..n]);
    }
  }

  /** When every cell is filled, the present cells are exactly the cell values. */
  lemma {:induction false} PresentAllFilled(cells: seq<Option<string>>)
    requires forall i :: 0 <= i < |cells| ==> cells[i].Some?
    ensures |Present(cells)| == |cells|
    ensures forall i :: 0 <= i < |cells| ==> Present(cells)[i] == cells[i].value
  {
    if cells != [] {
      var n := |cells| - 1;
      var p := cells[..n];
      PresentAllFilled(p);
      assert Present(cells) == Present(p) + [cells[n].value];
    }
  }

  /** Appending one more part to a join adds the separator only if something came before. */
  lemma {:induction false} JoinSnoc(xs: seq<string>, x: string, sep: string)
    ensures Join(xs + [x], sep) == if xs == [] then x else Join(xs, sep) + sep + x
  {
    if |xs| == 1 {
      assert xs + [x] == [xs[0], x];
      assert (xs + [x])[1..] == [x];
    } else if |xs| > 1 {
      assert (xs + [x])[1..] == xs[1..] + [x];
      JoinSnoc(xs[1..], x, sep);
    } else {
      assert xs + [x] == [x];
    }
  }

  /** `build_sig(row, fields, sep, end)`: the present cells joined by `sep`, then the `end` cell as formatted text. */
  function BuildSig(cells: seq<Option<string>>, sep: string, end: Suffix): (r: string)
    ensures end.NoSuffix? && (forall i :: 0 <= i < |cells| ==> cells[i].None?) ==> r == ""
    ensures end.Suffix? ==> |Render(end.cell)| <= |r| && r[|r| - |Render(end.cell)|..] == Render(end.cell)
  {
    var body := Join(Present(cells), sep);
    match end
    case NoSuffix => body
    case Suffix(c) => body + Render(c)
  }

  /** A missing cell contributes nothing, a present one is added after a separator (unless it is the first). */
  lemma BuildSigSnoc(cells: seq<Option<string>>, cell: Option<string>, sep: string)
    ensures BuildSig(cells + [cell], sep, NoSuffix) ==
      match cell
      case None => BuildSig(cells, sep, NoSuffix)
      case Some(x) => if Present(cells) == [] then x else BuildSig(cells, sep, NoSuffix) + sep + x
  {
    PresentAppend(cells, [cell]);
    assert [cell][..0] == [];
    if cell.Some? {
      JoinSnoc(Present(cells), cell.value, sep);
    } else {
      assert Present(cells) + [] == Present(cells);
    }
  }

  /** With the default arguments (no separator, no trailing field) the signature is the plain concatenation of the present path cells. */
  lemma DefaultSigIsConcat(cells: seq<Option<string>>)
    ensures BuildSig(cells, "", NoSuffix) == Concat(Present(cells))
  {
    JoinEmptySeparator(Present(cells));
  }

  /** The row's own key: the Thematic Categories path cells concatenated (`build_sig(row)`). */
  function Signature(row: RawRow): (r: string)
    ensures r == Concat(Present(row.tc))
  {
    DefaultSigIsConcat(row.tc);
    BuildSig(row.tc, "", NoSuffix)
  }

  /** The regenerated `concat` column: t1..t7 joined by '.', followed by the `pos` cell. */
  function HtePath(row: RawRow): (r: string)
    ensures r == Join(Present(row.hte), ".") + Render(row.pos)
  {
    BuildSig(row.hte, ".", Suffix(row.pos))
  }

  /** `build_concept_uri(catid)`: the id between the concept prefix and a closing slash. */
  function ConceptUri(trmid: string): (r: string)
    ensures |r| == |ConceptPrefix| + |trmid| + 1
    ensures r[..|ConceptPrefix|] == ConceptPrefix && r[|r| - 1] == '/'
    ensures r[|ConceptPrefix|..|r| - 1] == trmid
  {
    ConceptPrefix + trmid + "/"
  }

  /** Reads the id back out of a concept URI; `None` for anything that is not one. */
  function TrmIdOfUri(uri: string): (r: Option<string>)
    ensures r.Some? ==> ConceptUri(r.value) == uri
  {
    if |uri| > |ConceptPrefix| && uri[..|ConceptPrefix|] == ConceptPrefix && uri[|uri| - 1] == '/'
    then
      var id := uri[|ConceptPrefix|..|uri| - 1];
      assert uri == uri[..|ConceptPrefix|] + id + [uri[|uri| - 1]];
      Some(id)
    else None
  }

  /** The id can be read back from its concept URI, so distinct ids give distinct concepts. */
  lemma ConceptUriRoundTrip(trmid: string)
    ensures TrmIdOfUri(ConceptUri(trmid)) == Some(trmid)
  {
  }

  /** Two ids name the same concept only when they are the same id. */
  lemma ConceptUriInjective(a: string, b: string)
    requires ConceptUri(a) == ConceptUri(b)
    ensures a == b
  {
    ConceptUriRoundTrip(a);
    ConceptUriRoundTrip(b);
  }

  /** `build_hte_url(row)`: the HTE category page of the row's own `catid`, when it has a non-empty one. */
  function BuildHteUrl(row: RawRow): (r: Option<string>)
    ensures r.Some? <==> row.catid.Some? && row.catid.value != ""
    ensures r.Some? ==> |r.value| == |HteUrlPrefix| + |row.catid.value| &&
                        r.value[..|HteUrlPrefix|] == HteUrlPrefix &&
                        r.value[|HteUrlPrefix|..] == row.catid.value
  {
    if row.catid.Some? && row.catid.value != "" then Some(HteUrlPrefix + row.catid.value) else None
  }

  /** `prefLabel`: the heading without surrounding whitespace. */
  function PrefLabel(row: RawRow): (r: string)
    ensures Strip(r) == r
  {
    StripIdempotent(row.heading);
    Strip(row.heading)
  }
}
