/**
 * Identifier assignment of `prepare` (the `trmid` column): a fixed override
 * table first, then the row's own `catid`, then a fresh number drawn from a
 * counter seeded at a fixed floor (`_generate_new_trmid`).
 */
module Ids {
  import opened Text
  import opened Fields

  /** The floor `prepare` seeds the fresh-id counter with. */
  const StartingId: nat := 500000

  /** Known ids for rows (by table position) whose `catid` is missing in the HTE data. */
  const Fixtures: map<nat, string> :=
    map[50 := "238078", 777 := "238074", 1175 := "238077", 1986 := "238071"]

  /** A `catid` cell that is empty or missing asks for a generated id. */
  predicate Missing(catid: Option<string>)
  {
    catid.None? || catid.value == ""
  }

  /** The first `n` ids a counter seeded at `start` yields: `str(start + 1)`, `str(start + 2)`, ... */
  function Generated(start: nat, n: nat): (r: seq<string>)
    ensures |r| == n
  {
    seq(n, k requires 0 <= k => NatToString(start + 1 + k))
  }

  /** The generated ids read back as numbers strictly above the floor, in strictly increasing order. */
  lemma GeneratedIncreasing(start: nat, n: nat)
    ensures forall k :: 0 <= k < n ==>
      ParseNat(Generated(start, n)[k]).Some? && ParseNat(Generated(start, n)[k]).value > start
    ensures forall i, j :: 0 <= i < j < n ==>
      ParseNat(Generated(start, n)[i]).value < ParseNat(Generated(start, n)[j]).value
  {
    forall k | 0 <= k < n
      ensures ParseNat(Generated(start, n)[k]) == Some(start + 1 + k)
    {
      ParseNatToString(start + 1 + k);
    }
  }

  /**
   * The fresh-id generator: a counter that starts at the floor and, on each
   * draw, is incremented and yields its new value in decimal.
   */
  class TrmIdGenerator {
    const start: nat
    var maxid: nat
    /** The ids yielded so far, oldest first. */
    ghost var Issued: seq<string>

    ghost predicate Valid()
      reads this
    {
      start <= maxid && Issued == Generated(start, maxid - start)
    }

    constructor (starting: nat)
      ensures Valid() && start == starting && maxid == starting && Issued == []
    {
      start := starting;
      maxid := starting;
      Issued := [];
    }

    /** `next(gen)`: increments the counter and yields it; the new id extends the issued ones. */
    method Next() returns (id: string)
      requires Valid()
      modifies this
      ensures Valid()
      ensures maxid == old(maxid) + 1 && id == NatToString(maxid)
      ensures Issued == old(Issued) + [id]
      ensures ParseNat(id) == Some(maxid) && maxid > start
    {
      maxid := maxid + 1;
      id := NatToString(maxid);
      Issued := Issued + [id];
      ParseNatToString(maxid);
    }
  }

  /** Whether row `i` draws a fresh id: it is not in the override table and its `catid` is missing. */
  predicate Draws(rows: seq<RawRow>, i: nat)
    requires i < |rows|
  {
    i !in Fixtures && Missing(rows[i].catid)
  }

  /** How many of the rows before `i` draw a fresh id. */
  function DrawsBefore(rows: seq<RawRow>, i: nat): (r: nat)
    requires i <= |rows|
    ensures r <= i
  {
    if i == 0 then 0 else DrawsBefore(rows, i - 1) + (if Draws(rows, i - 1) then 1 else 0)
  }

  /** The `trmid` of row `i`: the override, else the row's own `catid`, else the next generated id. */
  function IdFor(rows: seq<RawRow>, i: nat): string
    requires i < |rows|
  {
    if i in Fixtures then Fixtures[i]
    else if Missing(rows[i].catid) then NatToString(StartingId + 1 + DrawsBefore(rows, i))
    else rows[i].catid.value
  }

  /** The whole `trmid` column. */
  function IdColumn(rows: seq<RawRow>): (r: seq<string>)
    ensures |r| == |rows| && forall i :: 0 <= i < |rows| ==> r[i] == IdFor(rows, i)
  {
    seq(|rows|, i requires 0 <= i < |rows| => IdFor(rows, i))
  }

  /** A drawing row's id is the decimal text of the counter value it drew. */
  lemma DrawnIdParses(rows: seq<RawRow>, i: nat)
    requires i < |rows| && Draws(rows, i)
    ensures ParseNat(IdFor(rows, i)) == Some(StartingId + 1 + DrawsBefore(rows, i))
  {
    ParseNatToString(StartingId + 1 + DrawsBefore(rows, i));
  }

  /** Every row gets a non-empty identifier. */
  lemma IdNonEmpty(rows: seq<RawRow>, i: nat)
    requires i < |rows|
    ensures IdFor(rows, i) != ""
  {
  }

  /**
   * The counter does not look at the `catid`s already present: a row whose
   * `catid` is `500001`, followed by a row without one, gives both rows the
   * identifier `500001`.
   */
  lemma FreshIdCanRepeatCatid()
    ensures var rows := [RawRow(Some("500001"), [], None, [], ""), RawRow(None, [], None, [], "")];
            IdFor(rows, 0) == IdFor(rows, 1) == "500001"
  {
    var rows := [RawRow(Some("500001"), [], None, [], ""), RawRow(None, [], None, [], "")];
    assert DrawsBefore(rows, 1) == 0;
    assert NatToString(5) == "5";
    assert NatToString(50) == "50";
    assert NatToString(500) == "500";
    assert NatToString(5000) == "5000";
    assert NatToString(50000) == "50000";
    assert NatToString(500001) == "500001";
  }

  /** Every drawing row after `i` has counted the draws up to and including row `i`. */
  lemma {:induction false} DrawsBeforeGrows(rows: seq<RawRow>, i: nat, j: nat)
    requires i < j <= |rows|
    ensures DrawsBefore(rows, i) + (if Draws(rows, i) then 1 else 0) <= DrawsBefore(rows, j)
    decreases j
  {
    if j > i + 1 {
      DrawsBeforeGrows(rows, i, j - 1);
    }
  }

  /**
   * The fresh ids go to the drawing rows in table order: each reads back as a
   * number above the floor, and a later drawing row gets a strictly larger one,
   * so no two rows draw the same id.
   */
  lemma FreshIdsIncrease(rows: seq<RawRow>, i: nat, j: nat)
    requires i < j < |rows| && Draws(rows, i) && Draws(rows, j)
    ensures ParseNat(IdFor(rows, i)).Some? && ParseNat(IdFor(rows, j)).Some?
    ensures StartingId < ParseNat(IdFor(rows, i)).value < ParseNat(IdFor(rows, j)).value
    ensures IdFor(rows, i) != IdFor(rows, j)
  {
    DrawsBeforeGrows(rows, i, j);
    ParseNatToString(StartingId + 1 + DrawsBefore(rows, i));
    ParseNatToString(StartingId + 1 + DrawsBefore(rows, j));
  }

  /**
   * The `trmid` column (`df.apply(new_id, axis=1)`), computed row by row in table
   * order with one generator shared by all rows.
   */
  method AssignIds(rows: seq<RawRow>) returns (ids: seq<string>)
    ensures |ids| == |rows|
    ensures ids == IdColumn(rows)
    ensures forall i :: 0 <= i < |rows| && i in Fixtures ==> ids[i] == Fixtures[i]
    ensures forall i :: 0 <= i < |rows| && i !in Fixtures && !Missing(rows[i].catid) ==>
      ids[i] == rows[i].catid.value
    ensures forall i :: 0 <= i < |rows| && Draws(rows, i) ==>
      ParseNat(ids[i]).Some? && ParseNat(ids[i]).value == StartingId + 1 + DrawsBefore(rows, i)
  {
    var gen := new TrmIdGenerator(StartingId);
    ids := [];
    var i := 0;
    while i < |rows|
      invariant 0 <= i <= |rows|
      invariant fresh(gen) && gen.Valid() && gen.start == StartingId
      invariant gen.maxid == StartingId + DrawsBefore(rows, i)
      invariant |ids| == i
      invariant forall k :: 0 <= k < i ==> ids[k] == IdFor(rows, k)
    {
      var id: string;
      if i in Fixtures {
        id := Fixtures[i];
      } else if Missing(rows[i].catid) {
        id := gen.Next();
      } else {
        id := rows[i].catid.value;
      }
      ids := ids + [id];
      i := i + 1;
    }
    forall k | 0 <= k < |rows| && Draws(rows, k)
      ensures ParseNat(ids[k]) == Some(StartingId + 1 + DrawsBefore(rows, k))
    {
      DrawnIdParses(rows, k);
    }
  }
}
