# hte2skos in Dafny

A verified model of the core of `hte2skos.py`, the converter that turns the
Historical Thesaurus of English (HTE) spreadsheet behind the Thesaurus of
Religious Metaphors (TRM) into SKOS statements. The spreadsheet is a sequence
of rows whose cells are optional strings. The converter runs in two stages:

- **`prepare`** enriches every row, phase by phase:
  - an identifier `trmid`: a fixed override, else the row's own `catid`, else a
    fresh number from a counter seeded at 500000;
  - the HTE path `concat`;
  - the HTE category URL;
  - the Thematic Categories `signature`;
  - the `broader` concept: the deepest proper prefix of the row's path that is
    some row's signature. Every prefix tried in vain is reported as a warning;
  - the stripped label.
- **`convert`** emits, per row, a small set of SKOS triples into a graph,
  together with three triples describing the concept scheme.

Modules, one per part of the program:

| file | module | models |
|---|---|---|
| `text.dfy` | `Text` | Python's `str.strip`, `str.join`, `str(int)`/`int(str)`; the optional cell |
| `fields.dfy` | `Fields` | the row, `build_sig`, `build_concept_uri`, `build_hte_url`, the label |
| `ids.dfy` | `Ids` | `FIXTURES`, `_generate_new_trmid` as a class, identifier assignment |
| `parent.dfy` | `Parent` | `determine_parent`: a `while` loop proved against a declarative specification |
| `prepare.dfy` | `Prepare` | `prepare`, phase by phase |
| `skos.dfy` | `Skos` | `convert`: triples as a datatype, the graph as a set |

Modelling decisions:

- **Missing cells.** A missing cell (pandas' NaN) is `None`. The `pos` cell
  that `build_sig` appends with an f-string renders as the text `nan` when
  missing, which is why `convert` tests `concat != 'nan'` (`Text.Render`).
- **Parent resolution is a second phase.** It searches only the `signature`
  and `trmid` columns, and both are finished before it starts. So it is
  modelled over a fixed sequence of `Parent.Entry` values, not over the
  changing frame.
- **The id counter is a class.** `Ids.TrmIdGenerator` has a mutable `maxid`
  field and a ghost history of the ids issued so far. `Ids.AssignIds` shares
  one generator across all rows, as `prepare` does.
- **Every loop is proved against a function.** `Parent.DetermineParent`,
  `Ids.AssignIds`, `Prepare.ResolveParents` and `Skos.Convert` are methods
  with loops. Each is proved equal to a function: `Parent.Resolve`,
  `Ids.IdColumn`, `Parent.Resolve` per row, and `Skos.Graph` respectively.
  The lemmas then state the program's promises about those functions.
- **The graph is a set.** An rdflib graph is a set of triples: adding one
  that is already there changes nothing. So the graph is modelled as
  `set<Skos.Triple>`.

Facts about the program that the model records as they are:

- **Fresh ids are not checked against existing `catid`s.** The counter is
  seeded at 500000 (`HTE/hte2skos.py:54`) and never looks at the `catid`s
  already present.
  - Fresh ids are above the floor, strictly increasing and pairwise distinct
    (`Ids.FreshIdsIncrease`).
  - A fresh id can repeat an existing `catid`. `Ids.FreshIdCanRepeatCatid`
    exhibits two rows that end up with the same id `500001`.
- **A non-numeric `catid` cannot break id assignment.** `astype(int)` on the
  `catid` column is only reached in the unseeded branch of the counter
  (`:181`), which is left out (see below).
- **The prepared table cannot be prepared again.** `prepare` drops its source
  columns (`:68`, `:88`), so its output lacks the columns `prepare` reads.

## Model

| member | source | states |
|---|---|---|
| Ids.GeneratedIncreasing | HTE/hte2skos.py:176-184 | the counter seeded at `s` yields the decimal text of numbers above `s`, strictly increasing in the order drawn |
| Ids.TrmIdGenerator.constructor | HTE/hte2skos.py:178-179 | a generator seeded at `starting` has counter `starting` and has issued nothing |
| Ids.TrmIdGenerator.Next | HTE/hte2skos.py:182-184 | the counter goes up by one; the id yielded is its decimal text and parses back to the new counter value, above the seed; the issued history grows by exactly that id |
| Ids.IdColumn | HTE/hte2skos.py:55-62 | the `trmid` column has one entry per row: row `i`'s override, else its own non-empty `catid`, else the next drawn id |
| Ids.DrawnIdParses | HTE/hte2skos.py:58-59 | a row without an override and without a `catid` gets `str(500001 + k)`, where `k` counts the earlier rows that drew |
| Ids.IdNonEmpty | HTE/hte2skos.py:55-60 | every row's identifier is non-empty: an override, a non-empty `catid` or a decimal number |
| Ids.FreshIdCanRepeatCatid | HTE/hte2skos.py:54-62 | a row whose `catid` is `500001`, followed by a row without one, gives two rows the same identifier |
| Ids.FreshIdsIncrease | HTE/hte2skos.py:54-62 | of two rows that draw, the later gets a strictly larger number, both above 500000, so the two ids differ |
| Ids.AssignIds | HTE/hte2skos.py:53-62 | computed row by row with one shared generator, the column equals `IdColumn`: overrides win whatever the `catid`, a present non-empty `catid` is kept, a missing or empty one gets the drawn number |
| Fields.Present | HTE/hte2skos.py:95-96 | keeping the non-null cells never lengthens the row, and an all-null row keeps nothing |
| Fields.PresentAppend | HTE/hte2skos.py:96 | taking the non-null cells keeps column order: it distributes over splitting the row |
| Fields.PresentAllFilled | HTE/hte2skos.py:96 | when every cell is filled, the kept cells are exactly the cell values, in order |
| Fields.BuildSig | HTE/hte2skos.py:93-99 | with no `end` an all-null row gives the empty string; with `end`, the result ends with that cell's formatted text (`nan` when missing) |
| Fields.BuildSigSnoc | HTE/hte2skos.py:93-96 | one more column adds nothing if it is null; otherwise it adds the separator (unless nothing came before) and then its value |
| Fields.DefaultSigIsConcat | HTE/hte2skos.py:93-96 | with the default arguments the signature is the plain concatenation of the non-null AS1..S5 cells |
| Fields.Signature | HTE/hte2skos.py:74 | a row's `signature` is the concatenation of its non-null path cells |
| Fields.HtePath | HTE/hte2skos.py:65 | `concat` is the non-null t1..t7 cells joined by `.`, followed by the `pos` cell's text |
| Fields.ConceptUri | HTE/hte2skos.py:102-104 | the concept URI is the concept prefix, then the id, then `/` |
| Fields.ConceptUriRoundTrip | HTE/hte2skos.py:102-104 | the id can be read back out of its concept URI |
| Fields.ConceptUriInjective | HTE/hte2skos.py:102-104 | distinct ids give distinct concept URIs |
| Fields.BuildHteUrl | HTE/hte2skos.py:107-111 | a URL exists exactly when `catid` is present and non-empty, and it is the HTE category prefix followed by that `catid` |
| Fields.PrefLabel | HTE/hte2skos.py:85 | the stored label is already stripped: stripping it again changes nothing |
| Text.Strip | HTE/hte2skos.py:85 | the stripped text is a piece of the input with only whitespace around it, and neither starts nor ends with whitespace |
| Text.StripIdempotent | HTE/hte2skos.py:85 | stripping twice is stripping once |
| Text.Join | HTE/hte2skos.py:96 | `sep.join` of nothing is empty; otherwise its length is the parts' total length plus one separator between each two parts, and it starts with the first part |
| Text.JoinEmptySeparator | HTE/hte2skos.py:164 | `''.join(path)` is the plain concatenation of the segments |
| Text.ConcatAppend | HTE/hte2skos.py:164 | concatenating segments splits at any segment boundary |
| Text.ConcatPrefix | HTE/hte2skos.py:163-164 | the concatenation of a path's first `k` segments is a prefix of the concatenation of the whole path |
| Text.NatToString | HTE/hte2skos.py:184 | `str(maxid)` is a non-empty digit string without a leading zero |
| Text.ParseNat | HTE/hte2skos.py:184 | a string reads as a number exactly when it is a non-empty string of digits |
| Text.ParseNatToString | HTE/hte2skos.py:184 | reading back `str(n)` gives `n` |
| Text.NatToStringInjective | HTE/hte2skos.py:184 | distinct counter values give distinct ids |
| Text.NatToStringParse | HTE/hte2skos.py:184 | a canonical digit string is exactly what `str` prints for its value |
| Parent.FirstIndex | HTE/hte2skos.py:165-171 | the lookup finds the first row, in table order, whose signature is the candidate; it finds nothing exactly when no row has that signature |
| Parent.MissedAbove | HTE/hte2skos.py:167-169 | the warnings for the failed candidates, deepest first: one per depth, naming the candidate and the dropped segment |
| Parent.SearchFromMissed | HTE/hte2skos.py:162-169 | running through failed candidates from depth `n` down to `k+1` keeps the outcome and logs their warnings in order |
| Parent.ResolveDeepest | HTE/hte2skos.py:162-172 | when depth `k` is the deepest matching proper prefix, the parent is the first row with that signature, after one warning for each deeper candidate |
| Parent.ResolveNoAncestor | HTE/hte2skos.py:161-173 | when no proper prefix matches, there is no parent and every candidate is warned about, deepest first |
| Parent.DeepestExists | HTE/hte2skos.py:162-172 | if some proper prefix matches, there is a deepest one |
| Parent.ResolveNoneIff | HTE/hte2skos.py:161-173 | resolution finds no parent exactly when no proper prefix of the path is any row's signature |
| Parent.WarningsAreMissing | HTE/hte2skos.py:165-169 | every warning names a candidate signature that no row has |
| Parent.DetermineParent | HTE/hte2skos.py:149-173 | the loop computes `Resolve`. A path with at most one segment gives no parent and no warnings. No parent exactly when no proper prefix matches. Otherwise the result is the first row at the deepest matching depth, after the warnings for the deeper candidates |
| Parent.ParentIsAncestorRow | HTE/hte2skos.py:163-171 | a resolved parent is some row's concept URI, and that row's signature is the concatenation of a proper prefix of the path, so a prefix of the child's signature |
| Prepare.ResolveParents | HTE/hte2skos.py:79 | the `broader` column holds each row's resolved parent, and the log is every row's warnings in row order |
| Prepare.BroaderIsTableRow | HTE/hte2skos.py:74-79 | in a prepared table, a `broader` value is the concept URI of a row of the same table whose signature is a prefix of the child's signature |
| Prepare.Prepare | HTE/hte2skos.py:51-90 | every column of the prepared table is the column derived from the raw rows (ids, `concat`, HTE URL, signature, parent, stripped label), and the log is every row's warnings in row order |
| Skos.PropertyIriRoundTrip | HTE/hte2skos.py:129-144 | each of the five properties the converter uses (`rdf:type`, `skos:prefLabel`, `skos:altLabel`, `skos:notation`, `skos:broader`) is read back from its IRI, so modelling them as an enumeration merges none |
| Skos.PathTypeIriInjective | HTE/hte2skos.py:138-141 | the `TCPath` and `HTEPath` datatype IRIs differ |
| Skos.ConceptTriples | HTE/hte2skos.py:135-144 | every statement of a row is about that row's concept URI |
| Skos.ConceptTriplesCases | HTE/hte2skos.py:136-144 | a row's statements are its `skos:Concept` type, its English label and its `TCPath` signature notation; an HTE notation only when `concat` is neither empty nor `nan`; a broader link only when `broader` is present and non-empty |
| Skos.AddConcept | HTE/hte2skos.py:135-144 | one pass of the row loop adds exactly the row's statements to the graph |
| Skos.Convert | HTE/hte2skos.py:114-146 | the graph built is the scheme's three statements plus every row's statements, and it holds every row's statements |
| Skos.RowsTriplesSnoc | HTE/hte2skos.py:134 | one more row adds exactly its statements |
| Skos.RowsTriplesMember | HTE/hte2skos.py:134-144 | every row's statements are in the graph |
| Skos.RowsTriplesSource | HTE/hte2skos.py:134-144 | every row statement in the graph comes from some row |
| Skos.ConceptIsNotScheme | HTE/hte2skos.py:26-27 | no concept URI equals the scheme URI |
| Skos.SchemeHasThreeTriples | HTE/hte2skos.py:128-131 | whatever the rows, the statements about the scheme are exactly its three: type, preferred label, alternative label |
| Skos.ConceptCoreTriples | HTE/hte2skos.py:135-138 | every row's concept is typed `skos:Concept` and carries its label and its `TCPath` notation |
| Skos.HteNotationIff | HTE/hte2skos.py:140-141 | a concept carries an `HTEPath` notation exactly when a row with that URI has a `concat` that is neither empty nor `nan`, and the notation is that `concat` |
| Skos.BroaderIff | HTE/hte2skos.py:143-144 | a concept has a broader link to `o` exactly when a row with that URI has `o` as its non-empty `broader` value |

## Left out

- Spreadsheet reading (`read`, `HTE/hte2skos.py:45-48`), writing the prepared
  table and serialising the graph to Turtle (`:187-194`). These are file I/O.
- `main` and the command line (`:197-221`). They only wire up I/O.
- `skosify` is imported but never called.
- The unseeded branch of `_generate_new_trmid` (`:181`). It seeds the counter
  from the largest existing `catid`. `prepare` always passes
  `starting=500000`, so this branch never runs.
- pandas' NaN identity checks (`:58`, `:109`, `:143`). They are modelled as the
  `None` case of a cell.
- Column drops and the rename (`:68`, `:82`, `:88`). They remove or rename
  columns and compute nothing. `Prepare.Concept` holds the six columns
  `prepare` derives (`trmid`, `concat`, `hte_url`, `signature`, `broader`,
  `prefLabel`). It leaves out the columns the prepared table carries over
  unchanged from the spreadsheet, such as `catid`.
- `df.apply` evaluates its function once per row, in row order. The model
  relies on this for the shared counter and does not model pandas calling the
  first row an extra time.
- The label cell (`SAMUELS heading`) is modelled as always present. A missing
  label would reach `str.strip` as NaN and pass through unchanged.
- Logging is modelled as the returned sequence of `Parent.Warning` values
  (candidate and dropped segment), not as the formatted message.
- rdflib terms are modelled as datatype values:
  - IRIs are plain strings;
  - the five properties used are an enumeration;
  - a literal carries either the tag `en` or one of the two notation
    datatypes, `TCPath` and `HTEPath`.
  
  rdflib's own term normalisation is not modelled.
