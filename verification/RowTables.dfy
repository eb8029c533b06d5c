/**
 Two ways of writing child rows for a list of parents, and exactly when they leave the same table:
 clearing each parent's rows before writing them, or writing over whatever is there.
 */
module RowTables {
  import opened Outcomes

  // ---------------------------------------------------------------- child rows keyed by (parent, index)

  type Parts<V> = map<(nat, nat), V>

  /** The list of child values that goes with one parent. */
  datatype Family<V> = Family(parent: nat, values: seq<V>)

  function DeleteParts<V>(t: Parts<V>, parent: nat): Parts<V> {
    map k | k in t && k.0 != parent :: t[k]
  }

  function InsertParts<V>(t: Parts<V>, parent: nat, values: seq<V>): Parts<V> {
    if values == [] then t
    else InsertParts(t, parent, values[..|values| - 1])[(parent, |values| - 1) := values[|values| - 1]]
  }

  /** Row by row: delete the parent's rows, then insert. */
  function ReplaceAll<V>(t: Parts<V>, families: seq<Family<V>>): Parts<V> {
    if families == [] then t
    else
      var f := families[|families| - 1];
      InsertParts(DeleteParts(ReplaceAll(t, families[..|families| - 1]), f.parent), f.parent, f.values)
  }

  lemma ReplaceAllSnoc<V>(t: Parts<V>, families: seq<Family<V>>, f: Family<V>)
    ensures ReplaceAll(t, families + [f])
         == InsertParts(DeleteParts(ReplaceAll(t, families), f.parent), f.parent, f.values)
  {
    assert (families + [f])[..|families|] == families;
  }

  /** In bulk: insert or replace every row. */
  function MergeAll<V>(t: Parts<V>, families: seq<Family<V>>): Parts<V> {
    if families == [] then t
    else
      var f := families[|families| - 1];
      InsertParts(MergeAll(t, families[..|families| - 1]), f.parent, f.values)
  }

  /** The values of the last family of a parent. */
  function LastOf<V>(families: seq<Family<V>>, parent: nat): Option<seq<V>> {
    if families == [] then None
    else if families[|families| - 1].parent == parent then Some(families[|families| - 1].values)
    else LastOf(families[..|families| - 1], parent)
  }

  /** The length of the longest family of a parent. */
  function LongestOf<V>(families: seq<Family<V>>, parent: nat): nat {
    if families == [] then 0
    else
      var n := LongestOf(families[..|families| - 1], parent);
      var f := families[|families| - 1];
      if f.parent == parent && n < |f.values| then |f.values| else n
  }

  lemma {:induction false} InsertPartsAt<V>(t: Parts<V>, parent: nat, values: seq<V>)
    ensures forall k: (nat, nat) :: k in InsertParts(t, parent, values) <==> k in t || (k.0 == parent && k.1 < |values|)
    ensures forall k: (nat, nat) :: k in InsertParts(t, parent, values) ==>
              InsertParts(t, parent, values)[k] == if k.0 == parent && k.1 < |values| then values[k.1] else t[k]
  {
    if values != [] {
      InsertPartsAt(t, parent, values[..|values| - 1]);
    }
  }

  /** Row by row, a parent keeps exactly the values of its last family. */
  lemma {:induction false} ReplaceAllAt<V>(t: Parts<V>, families: seq<Family<V>>, k: (nat, nat))
    ensures var r := ReplaceAll(t, families);
            match LastOf(families, k.0)
            case None => (k in r <==> k in t) && (k in r ==> r[k] == t[k])
            case Some(values) => (k in r <==> k.1 < |values|) && (k in r ==> r[k] == values[k.1])
  {
    if families != [] {
      var init, f := families[..|families| - 1], families[|families| - 1];
      ReplaceAllAt(t, init, k);
      InsertPartsAt(DeleteParts(ReplaceAll(t, init), f.parent), f.parent, f.values);
    }
  }

  /** In bulk, a parent also keeps what its last family is too short to overwrite. */
  lemma {:induction false} MergeAllAt<V>(t: Parts<V>, families: seq<Family<V>>, k: (nat, nat))
    ensures var r := MergeAll(t, families);
            k in r <==> k in t || k.1 < LongestOf(families, k.0)
    ensures var r := MergeAll(t, families);
            match LastOf(families, k.0)
            case None => k in t ==> r[k] == t[k]
            case Some(values) => k.1 < |values| ==> k in r && r[k] == values[k.1]
  {
    if families != [] {
      var init, f := families[..|families| - 1], families[|families| - 1];
      MergeAllAt(t, init, k);
      InsertPartsAt(MergeAll(t, init), f.parent, f.values);
    }
  }

  lemma {:induction false} LongestBounds<V>(families: seq<Family<V>>, parent: nat)
    ensures match LastOf(families, parent)
            case None => LongestOf(families, parent) == 0
            case Some(values) => |values| <= LongestOf(families, parent)
  {
    if families != [] {
      LongestBounds(families[..|families| - 1], parent);
    }
  }

  /** Every written parent's last family is its longest and reaches past the rows the parent already had. */
  ghost predicate LastOverwritesAll<V>(t: Parts<V>, families: seq<Family<V>>) {
    forall k: (nat, nat) :: LastOf(families, k.0).Some? && (k in t || k.1 < LongestOf(families, k.0)) ==>
      k.1 < |LastOf(families, k.0).value|
  }

  /** The two ways leave the same rows just when nothing stale can stay behind. */
  lemma ReplaceIsMergeIff<V>(t: Parts<V>, families: seq<Family<V>>)
    ensures ReplaceAll(t, families) == MergeAll(t, families) <==> LastOverwritesAll(t, families)
  {
    var r, m := ReplaceAll(t, families), MergeAll(t, families);
    forall k: (nat, nat)
      ensures LastOf(families, k.0).None? || LastOverwritesAll(t, families)
              ==> (k in r <==> k in m) && (k in r ==> r[k] == m[k])
      ensures r == m && LastOf(families, k.0).Some? && (k in t || k.1 < LongestOf(families, k.0))
              ==> k.1 < |LastOf(families, k.0).value|
    {
      ReplaceAllAt(t, families, k);
      MergeAllAt(t, families, k);
      LongestBounds(families, k.0);
    }
    if LastOverwritesAll(t, families) {
      assert forall k: (nat, nat) :: k in r ==> k in m && r[k] == m[k];
      assert forall k: (nat, nat) :: k in m ==> k in r;
    }
  }

  // ---------------------------------------------------------------- rows kept as a bag under a parent

  datatype Range = Range(parent: nat, start: int, end: int, createdMs: int)

  function DeleteRanges(rows: seq<Range>, parent: nat): seq<Range> {
    if rows == [] then []
    else
      var row := rows[|rows| - 1];
      if row.parent == parent then DeleteRanges(rows[..|rows| - 1], parent)
      else DeleteRanges(rows[..|rows| - 1], parent) + [row]
  }

  /** Row by row: each new range replaces the ranges of its parent. */
  function ReplaceRanges(rows: seq<Range>, added: seq<Range>): seq<Range> {
    if added == [] then rows
    else
      var row := added[|added| - 1];
      DeleteRanges(ReplaceRanges(rows, added[..|added| - 1]), row.parent) + [row]
  }

  lemma ReplaceRangesSnoc(rows: seq<Range>, added: seq<Range>, row: Range)
    ensures ReplaceRanges(rows, added + [row]) == DeleteRanges(ReplaceRanges(rows, added), row.parent) + [row]
  {
    assert (added + [row])[..|added|] == added;
  }

  predicate HasParent(rows: seq<Range>, parent: nat) {
    exists i :: 0 <= i < |rows| && rows[i].parent == parent
  }

  lemma {:induction false} DeleteRangesAt(rows: seq<Range>, parent: nat)
    ensures forall r :: r in DeleteRanges(rows, parent) <==> r in rows && r.parent != parent
    ensures |DeleteRanges(rows, parent)| <= |rows|
    ensures HasParent(rows, parent) <==> |DeleteRanges(rows, parent)| < |rows|
    ensures !HasParent(rows, parent) ==> DeleteRanges(rows, parent) == rows
  {
    if rows != [] {
      var init := rows[..|rows| - 1];
      DeleteRangesAt(init, parent);
      assert rows == init + [rows[|rows| - 1]];
      assert HasParent(init, parent) ==> HasParent(rows, parent);
    }
  }

  /** The last range added for a parent. */
  function LastRange(added: seq<Range>, parent: nat): Option<Range> {
    if added == [] then None
    else if added[|added| - 1].parent == parent then Some(added[|added| - 1])
    else LastRange(added[..|added| - 1], parent)
  }

  lemma {:induction false} LastRangeIsAdded(added: seq<Range>, parent: nat)
    ensures match LastRange(added, parent)
            case None => forall r :: r in added ==> r.parent != parent
            case Some(r) => r in added && r.parent == parent
  {
    if added != [] {
      LastRangeIsAdded(added[..|added| - 1], parent);
      assert added == added[..|added| - 1] + [added[|added| - 1]];
    }
  }

  /** Row by row, a written parent keeps only its last range. */
  lemma {:induction false} ReplaceRangesAt(rows: seq<Range>, added: seq<Range>, r: Range)
    ensures r in ReplaceRanges(rows, added) <==>
            match LastRange(added, r.parent)
            case None => r in rows
            case Some(last) => r == last
  {
    if added != [] {
      var init := added[..|added| - 1];
      ReplaceRangesAt(rows, init, r);
      DeleteRangesAt(ReplaceRanges(rows, init), added[|added| - 1].parent);
    }
  }

  function RowSet(rows: seq<Range>): set<Range> {
    set r | r in rows
  }

  /** Every range a written parent has, or is given, is the last one it is given. */
  ghost predicate RangesAgree(rows: seq<Range>, added: seq<Range>) {
    forall r :: r in rows + added && LastRange(added, r.parent).Some? ==> LastRange(added, r.parent).value == r
  }

  /** As sets, replacing and appending leave the same ranges just when no parent has two different ones. */
  lemma ReplaceRangesIsAppendIff(rows: seq<Range>, added: seq<Range>)
    ensures RowSet(ReplaceRanges(rows, added)) == RowSet(rows + added) <==> RangesAgree(rows, added)
  {
    var r, a := RowSet(ReplaceRanges(rows, added)), RowSet(rows + added);
    forall x: Range
      ensures x in r <==> match LastRange(added, x.parent) case None => x in rows case Some(last) => x == last
      ensures LastRange(added, x.parent).None? ==> x !in added
      ensures LastRange(added, x.parent) == Some(x) ==> x in added
    {
      ReplaceRangesAt(rows, added, x);
      LastRangeIsAdded(added, x.parent);
    }
    if RangesAgree(rows, added) {
      assert forall x :: x in r <==> x in a;
    } else {
      var x :| x in rows + added && LastRange(added, x.parent).Some? && LastRange(added, x.parent).value != x;
      assert x in a && x !in r;
    }
  }

  /** No parent of an added range has any other range. */
  predicate ParentsAreNew(rows: seq<Range>, added: seq<Range>) {
    forall i :: 0 <= i < |added| ==> !HasParent(rows, added[i].parent) && !HasParent(added[..i], added[i].parent)
  }

  lemma ParentsAreNewSnoc(rows: seq<Range>, init: seq<Range>, row: Range)
    ensures ParentsAreNew(rows, init + [row]) <==>
            ParentsAreNew(rows, init) && !HasParent(rows, row.parent) && !HasParent(init, row.parent)
  {
    var added, n := init + [row], |init|;
    assert added[..n] == init && added[n] == row;
    assert forall i :: 0 <= i < n ==> added[..i] == init[..i] && added[i] == init[i];
  }

  /**
   As bags, the two leave the same ranges just when every added parent is new: otherwise appending leaves more rows.
   */
  lemma {:induction false} SameRangesIffNew(rows: seq<Range>, added: seq<Range>)
    ensures |ReplaceRanges(rows, added)| <= |rows + added|
    ensures |ReplaceRanges(rows, added)| == |rows + added| <==> ParentsAreNew(rows, added)
    ensures ParentsAreNew(rows, added) ==> ReplaceRanges(rows, added) == rows + added
  {
    hide HasParent, ParentsAreNew, DeleteRanges;
    if added == [] {
      assert rows + added == rows;
      NoParents(rows);
    } else {
      var n := |added| - 1;
      var init, row := added[..n], added[n];
      SameRangesIffNew(rows, init);
      DeleteRangesAt(ReplaceRanges(rows, init), row.parent);
      ParentsAreNewSnoc(rows, init, row);
      assert init + [row] == added;
      HasParentConcat(rows, init, row.parent);
      assert rows + added == rows + init + [row];
    }
  }

  lemma NoParents(rows: seq<Range>)
    ensures ParentsAreNew(rows, [])
  {
  }

  lemma HasParentConcat(a: seq<Range>, b: seq<Range>, parent: nat)
    ensures HasParent(a + b, parent) <==> HasParent(a, parent) || HasParent(b, parent)
  {
    if HasParent(b, parent) {
      var i :| 0 <= i < |b| && b[i].parent == parent;
      assert (a + b)[|a| + i].parent == parent;
    }
    if HasParent(a, parent) {
      var i :| 0 <= i < |a| && a[i].parent == parent;
      assert (a + b)[i].parent == parent;
    }
  }
}
