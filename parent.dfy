/**
 * Parent resolution (`determine_parent`): the broader concept of a row is the
 * first row, in table order, whose signature equals the concatenation of the
 * longest proper prefix of the row's Thematic Categories path that some row
 * has as its signature. Every shorter-than-full prefix tried in vain on the
 * way down is reported as a missing-ancestor warning.
 */
module Parent {
  import opened Text
  import opened Fields

  /** The two columns of the prepared table that resolution reads: `signature` and `trmid`. */
  datatype Entry = Entry(signature: string, trmid: string)

  /**
   * A missing-ancestor warning: `missing` is the candidate parent signature no
   * row has, `leaf` the path segment dropped to form it (the logged message
   * names the path `missing + leaf`).
   */
  datatype Warning = Warning(missing: string, leaf: string)

  /** The outcome of resolving one row: the broader concept's URI, if any, and the warnings, in the order logged. */
  datatype Resolution = Resolution(parent: Option<string>, warnings: seq<Warning>)

  /** Some row of the table has signature `sig`. */
  predicate HasSignature(table: seq<Entry>, sig: string)
  {
    exists j :: 0 <= j < |table| && table[j].signature == sig
  }

  /** The position of the first row whose signature is `sig` (`df.loc[df['signature'] == sig]`, first hit). */
  function FirstIndex(table: seq<Entry>, sig: string): (r: Option<nat>)
    ensures r.Some? ==> r.value < |table| && table[r.value].signature == sig
    ensures r.Some? ==> forall i :: 0 <= i < r.value ==> table[i].signature != sig
    ensures r.None? <==> !HasSignature(table, sig)
  {
    if table == [] then None
    else if table[0].signature == sig then Some(0)
    else
      match FirstIndex(table[1..], sig)
      case None =>
        assert forall j :: 1 <= j < |table| ==> table[j] == table[1..][j - 1];
        None
      case Some(j) => Some(j + 1)
  }

  /** The candidate parent signature at depth `k`: the first `k` segments concatenated. */
  function Candidate(path: seq<string>, k: nat): string
    requires k <= |path|
  {
    Concat(path[..k])
  }

  /** The URI of the first row whose signature is the depth-`k` candidate. */
  function UriAt(table: seq<Entry>, path: seq<string>, k: nat): string
    requires k <= |path| && HasSignature(table, Candidate(path, k))
  {
    ConceptUri(table[FirstIndex(table, Candidate(path, k)).value].trmid)
  }

  /**
   * The resolution loop's meaning while `n` path segments remain: the candidates
   * of depth n-1, n-2, ... 1 are tried in turn until one is some row's signature.
   */
  function SearchFrom(table: seq<Entry>, path: seq<string>, n: nat): (r: Resolution)
    requires n <= |path|
    decreases n
  {
    if n <= 1 then Resolution(None, [])
    else if HasSignature(table, Candidate(path, n - 1)) then
      Resolution(Some(UriAt(table, path, n - 1)), [])
    else
      var rest := SearchFrom(table, path, n - 1);
      Resolution(rest.parent, [Warning(Candidate(path, n - 1), path[n - 1])] + rest.warnings)
  }

  /** `determine_parent(df, row)` as a value: resolution over the row's present path cells. */
  function Resolve(table: seq<Entry>, tc: seq<Option<string>>): Resolution
  {
    var path := Present(tc);
    SearchFrom(table, path, |path|)
  }

  // ---------------------------------------------------------------------------
  // The declarative specification: the deepest matching proper prefix
  // ---------------------------------------------------------------------------

  /** `k` is the deepest proper-prefix depth whose candidate is some row's signature. */
  predicate IsDeepestMatch(table: seq<Entry>, path: seq<string>, k: nat)
  {
    1 <= k < |path| && HasSignature(table, Candidate(path, k)) &&
    forall d :: k < d < |path| ==> !HasSignature(table, Candidate(path, d))
  }

  /** No proper prefix of the path (of depth 1 or more) is any row's signature. */
  predicate NoAncestor(table: seq<Entry>, path: seq<string>)
  {
    forall d :: 1 <= d < |path| ==> !HasSignature(table, Candidate(path, d))
  }

  /** The warnings for the failed candidates of depth |path|-1 down to `k`+1, deepest first. */
  function MissedAbove(path: seq<string>, k: nat): (r: seq<Warning>)
    ensures |path| <= k + 1 ==> r == []
    ensures |path| > k + 1 ==> |r| == |path| - 1 - k
    ensures forall i :: 0 <= i < |r| ==>
      r[i] == Warning(Candidate(path, |path| - 1 - i), path[|path| - 1 - i])
  {
    if |path| <= k + 1 then []
    else seq(|path| - 1 - k, i requires 0 <= i < |path| - 1 - k =>
               Warning(Candidate(path, |path| - 1 - i), path[|path| - 1 - i]))
  }

  /** Unfolding one failed step of the search from depth `n`. */
  lemma {:induction false} SearchFromMissed(table: seq<Entry>, path: seq<string>, n: nat, k: nat)
    requires k < n <= |path|
    requires forall d :: k < d < n ==> !HasSignature(table, Candidate(path, d))
    ensures SearchFrom(table, path, n).parent == SearchFrom(table, path, k + 1).parent
    ensures SearchFrom(table, path, n).warnings ==
      MissedAbove(path[..n], k) + SearchFrom(table, path, k + 1).warnings
    decreases n
  {
    var pre := path[..n];
    if n == k + 1 {
      assert MissedAbove(pre, k) == [];
    } else {
      SearchFromMissed(table, path, n - 1, k);
      MissedAboveSnoc(path, n, k);
      var w := Warning(Candidate(path, n - 1), path[n - 1]);
      var rest := SearchFrom(table, path, n - 1);
      assert !HasSignature(table, Candidate(path, n - 1));
      assert SearchFrom(table, path, n) == Resolution(rest.parent, [w] + rest.warnings);
      AppendAssoc([w], MissedAbove(path[..n - 1], k), SearchFrom(table, path, k + 1).warnings);
    }
  }

  /** Dropping the deepest segment drops the first (deepest) warning. */
  lemma MissedAboveSnoc(path: seq<string>, n: nat, k: nat)
    requires k + 1 < n <= |path|
    ensures MissedAbove(path[..n], k) ==
      [Warning(Candidate(path, n - 1), path[n - 1])] + MissedAbove(path[..n - 1], k)
  {
    var pre := path[..n];
    var w := Warning(Candidate(path, n - 1), path[n - 1]);
    var a := MissedAbove(path[..n - 1], k);
    var b := MissedAbove(pre, k);
    assert |b| == |a| + 1;
    forall i | 0 <= i < |b|
      ensures b[i] == ([w] + a)[i]
    {
      assert pre[..|pre| - 1 - i] == path[..n - 1 - i];
      if i > 0 {
        assert path[..n - 1][..n - 1 - i] == path[..n - 1 - i];
      }
    }
  }

  /**
   * When depth `k` is the deepest match, the parent is the first row (in table
   * order) with the depth-`k` signature, after one warning per deeper candidate.
   */
  lemma ResolveDeepest(table: seq<Entry>, path: seq<string>, k: nat)
    requires IsDeepestMatch(table, path, k)
    ensures SearchFrom(table, path, |path|) ==
      Resolution(Some(UriAt(table, path, k)), MissedAbove(path, k))
  {
    SearchFromMissed(table, path, |path|, k);
    assert path[..|path|] == path;
  }

  /** When no proper prefix matches, there is no parent and every candidate, deepest first, was warned about. */
  lemma ResolveNoAncestor(table: seq<Entry>, path: seq<string>)
    requires NoAncestor(table, path)
    ensures SearchFrom(table, path, |path|) == Resolution(None, MissedAbove(path, 0))
  {
    if |path| >= 1 {
      SearchFromMissed(table, path, |path|, 0);
      assert path[..|path|] == path;
    }
  }

  /** A path with some matching proper prefix has a deepest matching one. */
  lemma {:induction false} DeepestExists(table: seq<Entry>, path: seq<string>, d: nat)
    requires 1 <= d < |path| && HasSignature(table, Candidate(path, d))
    ensures exists k :: IsDeepestMatch(table, path, k)
    decreases |path| - d
  {
    if !IsDeepestMatch(table, path, d) {
      var e :| d < e < |path| && HasSignature(table, Candidate(path, e));
      DeepestExists(table, path, e);
    }
  }

  /** The search finds no parent exactly when no proper prefix of the path is any row's signature. */
  lemma ResolveNoneIff(table: seq<Entry>, path: seq<string>)
    ensures SearchFrom(table, path, |path|).parent.None? <==> NoAncestor(table, path)
  {
    if NoAncestor(table, path) {
      ResolveNoAncestor(table, path);
    } else {
      var d :| 1 <= d < |path| && HasSignature(table, Candidate(path, d));
      DeepestExists(table, path, d);
      var k :| IsDeepestMatch(table, path, k);
      ResolveDeepest(table, path, k);
    }
  }

  /** No warned-about signature belongs to any row: a warning is only ever issued for a missing ancestor. */
  lemma WarningsAreMissing(table: seq<Entry>, path: seq<string>)
    ensures forall w :: w in SearchFrom(table, path, |path|).warnings ==> !HasSignature(table, w.missing)
  {
    if NoAncestor(table, path) {
      ResolveNoAncestor(table, path);
    } else {
      var d :| 1 <= d < |path| && HasSignature(table, Candidate(path, d));
      DeepestExists(table, path, d);
      var k :| IsDeepestMatch(table, path, k);
      ResolveDeepest(table, path, k);
    }
  }

  // ---------------------------------------------------------------------------
  // The loop itself
  // ---------------------------------------------------------------------------

  /**
   * `determine_parent`: shrinks the path one segment at a time, joining what is
   * left with no separator, and stops at the first candidate some row carries as
   * its signature.
   */
  method DetermineParent(table: seq<Entry>, tc: seq<Option<string>>) returns (found: Option<string>, warnings: seq<Warning>)
    ensures Resolution(found, warnings) == Resolve(table, tc)
    ensures |Present(tc)| <= 1 ==> found == None && warnings == []
    ensures found.None? <==> NoAncestor(table, Present(tc))
    ensures forall k :: IsDeepestMatch(table, Present(tc), k) ==>
      found == Some(UriAt(table, Present(tc), k)) && warnings == MissedAbove(Present(tc), k)
    ensures found.None? ==> warnings == MissedAbove(Present(tc), 0)
  {
    var path := Present(tc);
    ghost var full := path;
    found := None;
    warnings := [];
    while |path| > 1
      invariant |path| <= |full| && path == full[..|path|]
      invariant found.None?
      invariant SearchFrom(table, full, |full|) ==
        Resolution(SearchFrom(table, full, |path|).parent, warnings + SearchFrom(table, full, |path|).warnings)
    {
      var leaf := path[|path| - 1];
      path := path[..|path| - 1];
      var sig := Join(path, "");
      JoinEmptySeparator(path);
      assert path == full[..|path|];
      assert sig == Candidate(full, |path|);
      var idx := FirstIndex(table, sig);
      if idx.None? {
        warnings := warnings + [Warning(sig, leaf)];
      } else {
        found := Some(ConceptUri(table[idx.value].trmid));
        break;
      }
    }
    assert full[..|full|] == full;
    ResolveNoneIff(table, full);
    if NoAncestor(table, full) {
      ResolveNoAncestor(table, full);
    }
    forall k | IsDeepestMatch(table, full, k)
      ensures found == Some(UriAt(table, full, k)) && warnings == MissedAbove(full, k)
    {
      ResolveDeepest(table, full, k);
    }
  }

  /**
   * A resolved parent is a row of the table whose signature is the
   * concatenation of a proper prefix of the child's path, hence a prefix of the
   * child's own signature.
   */
  lemma ParentIsAncestorRow(table: seq<Entry>, tc: seq<Option<string>>)
    requires Resolve(table, tc).parent.Some?
    ensures exists j, k ::
              && 0 <= j < |table| && 1 <= k < |Present(tc)|
              && Resolve(table, tc).parent.value == ConceptUri(table[j].trmid)
              && table[j].signature == Candidate(Present(tc), k)
              && table[j].signature <= Concat(Present(tc))
  {
    var path := Present(tc);
    ResolveNoneIff(table, path);
    var d :| 1 <= d < |path| && HasSignature(table, Candidate(path, d));
    DeepestExists(table, path, d);
    var k :| IsDeepestMatch(table, path, k);
    ResolveDeepest(table, path, k);
    var j := FirstIndex(table, Candidate(path, k)).value;
    ConcatPrefix(path, k);
    assert table[j].signature == Candidate(path, k);
  }
}
