/**
 * `convert`: the prepared table expressed as SKOS statements. The graph is a
 * set of (subject, predicate, object) triples, as an RDF graph is: adding a
 * triple that is already there changes nothing.
 */
module Skos {
  import opened Text
  import opened Fields
  import opened Prepare

  /** The RDF and SKOS properties the converter uses. */
  datatype Property = Type | PrefLabel | AltLabel | Notation | Broader

  /** The full IRI of each property. */
  function PropertyIri(p: Property): string
  {
    match p
    case Type => "http://www.w3.org/1999/02/22-rdf-syntax-ns#type"
    case PrefLabel => SkosNs + "prefLabel"
    case AltLabel => SkosNs + "altLabel"
    case Notation => SkosNs + "notation"
    case Broader => SkosNs + "broader"
  }

  /** Reads the property back from its IRI; `None` for an IRI the converter never uses. */
  function PropertyOfIri(iri: string): (r: Option<Property>)
    ensures r.Some? ==> PropertyIri(r.value) == iri
  {
    if iri == PropertyIri(Type) then Some(Type)
    else if iri == PropertyIri(PrefLabel) then Some(PrefLabel)
    else if iri == PropertyIri(AltLabel) then Some(AltLabel)
    else if iri == PropertyIri(Notation) then Some(Notation)
    else if iri == PropertyIri(Broader) then Some(Broader)
    else None
  }

  /** The enumeration loses nothing: every property is read back from its IRI, so distinct properties have distinct IRIs. */
  lemma PropertyIriRoundTrip(p: Property)
    ensures PropertyOfIri(PropertyIri(p)) == Some(p)
  {
    match p
    case Type =>
    case PrefLabel =>
    case AltLabel =>
    case Notation =>
      assert PropertyIri(AltLabel)[|SkosNs|] != PropertyIri(Notation)[|SkosNs|];
    case Broader =>
  }

  /** The datatypes of the two notations: a Thematic Categories path and an HTE path. */
  datatype PathType = TcPath | HtePath

  function PathTypeIri(d: PathType): string
  {
    match d
    case TcPath => UriPrefix + "TCPath"
    case HtePath => UriPrefix + "HTEPath"
  }

  /** The two notation datatypes have distinct IRIs. */
  lemma PathTypeIriInjective(d: PathType, e: PathType)
    requires PathTypeIri(d) == PathTypeIri(e)
    ensures d == e
  {
  }

  /** How a literal is tagged: with a language (`lang='en'`) or with a notation datatype. */
  datatype LiteralTag = Lang(code: string) | Typed(pathType: PathType)

  /** An RDF object: an IRI or a tagged literal. */
  datatype Term = Iri(iri: string) | Literal(lexical: string, tag: LiteralTag)

  /** An RDF statement; its subject is an IRI. */
  datatype Triple = Triple(subject: string, property: Property, obj: Term)

  const SkosNs: string := "http://www.w3.org/2004/02/skos/core#"
  const SkosConceptScheme: string := SkosNs + "ConceptScheme"
  const SkosConcept: string := SkosNs + "Concept"
  const English: LiteralTag := Lang("en")

  /** The three statements describing the concept scheme itself. */
  function SchemeTriples(): set<Triple>
  {
    {Triple(ConceptSchemeUri, Type, Iri(SkosConceptScheme)),
     Triple(ConceptSchemeUri, PrefLabel, Literal("Thesaurus of Religious Metaphors", English)),
     Triple(ConceptSchemeUri, AltLabel, Literal("TRM", English))}
  }

  /** A row gets an HTE-path notation only when its `concat` is non-empty and not the text `nan`. */
  predicate HasHteNotation(c: Concept)
  {
    c.concat != "" && c.concat != "nan"
  }

  /** A row gets a broader statement only when its `broader` value is present and non-empty. */
  predicate HasBroader(c: Concept)
  {
    c.broader.Some? && c.broader.value != ""
  }

  /** The statements every row contributes: its type, its label and its signature notation. */
  function CoreTriples(c: Concept): set<Triple>
  {
    var s := ConceptUri(c.trmid);
    {Triple(s, Type, Iri(SkosConcept)),
     Triple(s, PrefLabel, Literal(c.prefLabel, English)),
     Triple(s, Notation, Literal(c.signature, Typed(TcPath)))}
  }

  /** The HTE-path notation of a row, when it has one. */
  function HteTriples(c: Concept): set<Triple>
  {
    if HasHteNotation(c) then {Triple(ConceptUri(c.trmid), Notation, Literal(c.concat, Typed(HtePath)))} else {}
  }

  /** The broader statement of a row, when it has one. */
  function BroaderTriples(c: Concept): set<Triple>
  {
    if HasBroader(c) then {Triple(ConceptUri(c.trmid), Broader, Iri(c.broader.value))} else {}
  }

  /** The statements one row contributes, all about its concept URI. */
  function ConceptTriples(c: Concept): (r: set<Triple>)
    ensures forall t :: t in r ==> t.subject == ConceptUri(c.trmid)
  {
    CoreTriples(c) + HteTriples(c) + BroaderTriples(c)
  }

  /** The statements of all rows. */
  function RowsTriples(table: seq<Concept>): set<Triple>
  {
    if table == [] then {} else RowsTriples(table[..|table| - 1]) + ConceptTriples(table[|table| - 1])
  }

  /** The graph `convert` builds from the prepared table. */
  function Graph(table: seq<Concept>): set<Triple>
  {
    SchemeTriples() + RowsTriples(table)
  }

  /** The loop body of `convert`: adds one row's statements to the graph, one `g.add` at a time. */
  method AddConcept(graph: set<Triple>, row: Concept) returns (g: set<Triple>)
    ensures g == graph + ConceptTriples(row)
  {
    var concept := ConceptUri(row.trmid);
    g := graph + {Triple(concept, Type, Iri(SkosConcept))};
    g := g + {Triple(concept, PrefLabel, Literal(row.prefLabel, English))};
    g := g + {Triple(concept, Notation, Literal(row.signature, Typed(TcPath)))};
    assert g == graph + CoreTriples(row);
    ghost var core := g;
    if row.concat != "" && row.concat != "nan" {
      g := g + {Triple(concept, Notation, Literal(row.concat, Typed(HtePath)))};
    }
    assert g == core + HteTriples(row);
    ghost var withHte := g;
    if row.broader.Some? && row.broader.value != "" {
      g := g + {Triple(concept, Broader, Iri(row.broader.value))};
    }
    assert g == withHte + BroaderTriples(row);
  }

  /**
   * `convert(df)`: starts from the scheme's statements, then adds the statements
   * of each row in table order.
   */
  method Convert(table: seq<Concept>) returns (graph: set<Triple>)
    ensures graph == Graph(table)
    ensures forall i :: 0 <= i < |table| ==> ConceptTriples(table[i]) <= graph
  {
    graph := {};
    graph := graph + {Triple(ConceptSchemeUri, Type, Iri(SkosConceptScheme))};
    graph := graph + {Triple(ConceptSchemeUri, PrefLabel, Literal("Thesaurus of Religious Metaphors", English))};
    graph := graph + {Triple(ConceptSchemeUri, AltLabel, Literal("TRM", English))};
    assert graph == SchemeTriples() + RowsTriples(table[..0]);
    var i := 0;
    while i < |table|
      invariant 0 <= i <= |table|
      invariant graph == SchemeTriples() + RowsTriples(table[..i])
    {
      graph := AddConcept(graph, table[i]);
      RowsTriplesSnoc(table, i);
      i := i + 1;
    }
    assert table[..|table|] == table;
    forall i | 0 <= i < |table|
      ensures ConceptTriples(table[i]) <= graph
    {
      RowsTriplesMember(table, i);
    }
  }

  // ---------------------------------------------------------------------------
  // What the graph says
  // ---------------------------------------------------------------------------

  /** The statements of one more row are added to those of the rows before it. */
  lemma RowsTriplesSnoc(table: seq<Concept>, i: nat)
    requires i < |table|
    ensures RowsTriples(table[..i + 1]) == RowsTriples(table[..i]) + ConceptTriples(table[i])
  {
    assert table[..i + 1][..i] == table[..i];
  }

  /** Every row's statements are in the rows' statements. */
  lemma {:induction false} RowsTriplesMember(table: seq<Concept>, i: nat)
    requires i < |table|
    ensures ConceptTriples(table[i]) <= RowsTriples(table)
    decreases |table|
  {
    if i < |table| - 1 {
      RowsTriplesMember(table[..|table| - 1], i);
    }
  }

  /** Every statement of the rows comes from some row. */
  lemma {:induction false} RowsTriplesSource(table: seq<Concept>, t: Triple)
    requires t in RowsTriples(table)
    ensures exists i :: 0 <= i < |table| && t in ConceptTriples(table[i])
    decreases |table|
  {
    var n := |table| - 1;
    if t !in ConceptTriples(table[n]) {
      RowsTriplesSource(table[..n], t);
      var i :| 0 <= i < n && t in ConceptTriples(table[..n][i]);
      assert table[..n][i] == table[i];
    }
  }

  /** The statements of a row are its type, label and signature notation, and its HTE notation and broader link when it has them. */
  lemma ConceptTriplesCases(c: Concept, t: Triple)
    requires t in ConceptTriples(c)
    ensures t.subject == ConceptUri(c.trmid)
    ensures || (t.property == Type && t.obj == Iri(SkosConcept))
            || (t.property == PrefLabel && t.obj == Literal(c.prefLabel, English))
            || (t.property == Notation && t.obj == Literal(c.signature, Typed(TcPath)))
            || (t.property == Notation && t.obj == Literal(c.concat, Typed(HtePath)) && HasHteNotation(c))
            || (t.property == Broader && HasBroader(c) && t.obj == Iri(c.broader.value))
  {
  }

  /** No concept URI is the scheme URI: concept URIs end in '/', the scheme URI does not. */
  lemma ConceptIsNotScheme(trmid: string)
    ensures ConceptUri(trmid) != ConceptSchemeUri
  {
    var u := ConceptUri(trmid);
    assert u[|u| - 1] == '/';
    assert ConceptSchemeUri[|ConceptSchemeUri| - 1] == 'e';
  }

  /**
   * The scheme is described by exactly its three statements (type, preferred
   * label, alternative label), whatever the rows are.
   */
  lemma SchemeHasThreeTriples(table: seq<Concept>)
    ensures (set t | t in Graph(table) && t.subject == ConceptSchemeUri) == SchemeTriples()
    ensures |SchemeTriples()| == 3
  {
    forall t | t in RowsTriples(table)
      ensures t.subject != ConceptSchemeUri
    {
      RowsTriplesSource(table, t);
      var i :| 0 <= i < |table| && t in ConceptTriples(table[i]);
      ConceptIsNotScheme(table[i].trmid);
    }
    var a := Triple(ConceptSchemeUri, Type, Iri(SkosConceptScheme));
    var b := Triple(ConceptSchemeUri, PrefLabel, Literal("Thesaurus of Religious Metaphors", English));
    var c := Triple(ConceptSchemeUri, AltLabel, Literal("TRM", English));
    assert SchemeTriples() == {a, b, c};
    assert |{a, b, c}| == 3;
  }

  /** Every row's concept is typed as a concept and carries its label and its signature notation. */
  lemma ConceptCoreTriples(table: seq<Concept>, i: nat)
    requires i < |table|
    ensures Triple(ConceptUri(table[i].trmid), Type, Iri(SkosConcept)) in Graph(table)
    ensures Triple(ConceptUri(table[i].trmid), PrefLabel, Literal(table[i].prefLabel, English)) in Graph(table)
    ensures Triple(ConceptUri(table[i].trmid), Notation, Literal(table[i].signature, Typed(TcPath))) in Graph(table)
  {
    RowsTriplesMember(table, i);
  }

  /**
   * A concept carries an HTE-path notation exactly when some row with that
   * concept URI has a non-empty `concat` other than `nan`, and the notation is
   * that `concat`.
   */
  lemma HteNotationIff(table: seq<Concept>, s: string, x: string)
    ensures Triple(s, Notation, Literal(x, Typed(HtePath))) in Graph(table) <==>
      exists i :: 0 <= i < |table| && s == ConceptUri(table[i].trmid) && table[i].concat == x &&
                  HasHteNotation(table[i])
  {
    var t := Triple(s, Notation, Literal(x, Typed(HtePath)));
    if t in Graph(table) {
      assert t in RowsTriples(table);
      RowsTriplesSource(table, t);
      var i :| 0 <= i < |table| && t in ConceptTriples(table[i]);
      ConceptTriplesCases(table[i], t);
      assert s == ConceptUri(table[i].trmid) && table[i].concat == x && HasHteNotation(table[i]);
    }
    forall i | 0 <= i < |table| && s == ConceptUri(table[i].trmid) && table[i].concat == x && HasHteNotation(table[i])
      ensures t in Graph(table)
    {
      RowsTriplesMember(table, i);
    }
  }

  /**
   * A concept has a broader statement to `o` exactly when some row with that
   * concept URI has `o` as its non-empty `broader` value.
   */
  lemma BroaderIff(table: seq<Concept>, s: string, o: string)
    ensures Triple(s, Broader, Iri(o)) in Graph(table) <==>
      exists i :: 0 <= i < |table| && s == ConceptUri(table[i].trmid) && table[i].broader == Some(o) && o != ""
  {
    var t := Triple(s, Broader, Iri(o));
    if t in Graph(table) {
      assert t in RowsTriples(table);
      RowsTriplesSource(table, t);
      var i :| 0 <= i < |table| && t in ConceptTriples(table[i]);
      ConceptTriplesCases(table[i], t);
      assert s == ConceptUri(table[i].trmid) && table[i].broader == Some(o) && o != "";
    }
    forall i | 0 <= i < |table| && s == ConceptUri(table[i].trmid) && table[i].broader == Some(o) && o != ""
      ensures t in Graph(table)
    {
      RowsTriplesMember(table, i);
    }
  }
}
