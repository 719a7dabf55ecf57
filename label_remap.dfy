/**
  The label remap inside `labelme_to_mask`: an all-zero mask the shape of the
  rasterised label grid is rewritten by six masked assignments
  `mask[lbl == src] = dst`, and the result is tested for the sentinel value 5.
*/
module LabelRemap {

  import ColorMask

  /** The class names passed to the rasteriser and the index each one gets. */
  const ClassNameToId: map<string, int> :=
    map["gum" := 0, "0" := 1, "2" := 2, "3" := 3, "4" := 4, "5" := 5]

  /** The index the rasteriser leaves on pixels that no shape covers. */
  const Background: int := 0

  /** The remapped value whose presence decides whether a file is exported. */
  const Sentinel: int := 5

  /** The six masked assignments `(src, dst)`, in the order they are executed. */
  const RemapTable: seq<(int, int)> := [(0, 2), (1, 0), (2, 4), (3, 3), (4, 1), (5, 5)]

  /**
    The output value of one label index under `0->2, 1->0, 2->4, 3->3, 4->1,
    5->5`; any other index keeps the 0 the mask starts with.
  */
  function RemapValue(v: int): (r: int)
    ensures 0 <= r < 6
    ensures r == Sentinel <==> v == Sentinel
    ensures (v < 0 || 5 < v) ==> r == 0
  {
    if v == 0 then 2
    else if v == 1 then 0
    else if v == 2 then 4
    else if v == 3 then 3
    else if v == 4 then 1
    else if v == 5 then 5
    else 0
  }

  // ---------------------------------------------------------------------------
  // The six assignments seen on one cell

  /**
    The value of one mask cell that starts as `cur` after the masked
    assignments `pairs` have run, in order, over a cell whose label is `v`.
  */
  function Assigned(cur: int, v: int, pairs: seq<(int, int)>): int
    decreases |pairs|
  {
    if pairs == [] then cur
    else Assigned(if v == pairs[0].0 then pairs[0].1 else cur, v, pairs[1..])
  }

  /** No two assignments test the same label index. */
  predicate DistinctSources(pairs: seq<(int, int)>) {
    forall i, j :: 0 <= i < j < |pairs| ==> pairs[i].0 != pairs[j].0
  }

  /**
    With distinct sources, a cell ends with the target of the one assignment
    that tests its label, or keeps its start value when none does.
  */
  lemma {:induction false} AssignedFindsEntry(cur: int, v: int, pairs: seq<(int, int)>)
    requires DistinctSources(pairs)
    ensures (forall k :: 0 <= k < |pairs| ==> pairs[k].0 != v) ==> Assigned(cur, v, pairs) == cur
    ensures forall k :: 0 <= k < |pairs| && pairs[k].0 == v ==> Assigned(cur, v, pairs) == pairs[k].1
    decreases |pairs|
  {
    if pairs != [] {
      var cur' := if v == pairs[0].0 then pairs[0].1 else cur;
      assert DistinctSources(pairs[1..]);
      AssignedFindsEntry(cur', v, pairs[1..]);
      forall k | 0 <= k < |pairs| && pairs[k].0 == v ensures Assigned(cur, v, pairs) == pairs[k].1 {
        if k > 0 {
          assert pairs[1..][k - 1] == pairs[k];
        } else {
          assert forall m :: 0 <= m < |pairs[1..]| ==> pairs[1..][m].0 != v by {
            forall m | 0 <= m < |pairs[1..]| ensures pairs[1..][m].0 != v {
              assert pairs[1..][m] == pairs[m + 1];
            }
          }
        }
      }
      if forall k :: 0 <= k < |pairs| ==> pairs[k].0 != v {
        assert forall m :: 0 <= m < |pairs[1..]| ==> pairs[1..][m].0 != v by {
          forall m | 0 <= m < |pairs[1..]| ensures pairs[1..][m].0 != v {
            assert pairs[1..][m] == pairs[m + 1];
          }
        }
      }
    }
  }

  /** The six assignments, run in source order over a zero cell, give `RemapValue`. */
  lemma AssignmentsMatchTable(v: int)
    ensures Assigned(0, v, RemapTable) == RemapValue(v)
  {
  }

  /** An element listed twice is counted at least twice. */
  lemma CountRepeated<T>(s: seq<T>, i: nat, j: nat)
    requires i < j < |s| && s[i] == s[j]
    ensures multiset(s)[s[i]] >= 2
  {
    assert s == s[..j] + s[j..];
    assert s[i] in s[..j];
    assert s[j] == s[j..][0];
  }

  /** The table lists each source index 0..5 once, with its remapped value. */
  lemma TableMultiset()
    ensures multiset(RemapTable) ==
      multiset{(0, 2), (1, 0), (2, 4), (3, 3), (4, 1), (5, 5)}
  {
  }

  /** Every entry of the table is determined by its source index. */
  lemma TableEntries()
    ensures forall e :: e in multiset(RemapTable) ==> 0 <= e.0 <= 5 && e == (e.0, RemapValue(e.0))
    ensures forall e :: e in multiset(RemapTable) ==> multiset(RemapTable)[e] == 1
    ensures forall v :: 0 <= v <= 5 ==> (v, RemapValue(v)) in multiset(RemapTable)
  {
    TableMultiset();
  }

  /**
    The remap reads only the label grid, so the order of the six masked
    assignments does not matter: any reordering of the table, run over a zero
    cell, gives `RemapValue`.
  */
  lemma RemapOrderIndependent(pairs: seq<(int, int)>, v: int)
    requires multiset(pairs) == multiset(RemapTable)
    ensures Assigned(0, v, pairs) == RemapValue(v)
  {
    TableEntries();
    assert DistinctSources(pairs) by {
      forall i, j | 0 <= i < j < |pairs| ensures pairs[i].0 != pairs[j].0 {
        assert pairs[i] in multiset(pairs) && pairs[j] in multiset(pairs);
        if pairs[i].0 == pairs[j].0 {
          CountRepeated(pairs, i, j);
        }
      }
    }
    AssignedFindsEntry(0, v, pairs);
    if 0 <= v <= 5 {
      assert (v, RemapValue(v)) in multiset(pairs);
      var k :| 0 <= k < |pairs| && pairs[k] == (v, RemapValue(v));
    } else {
      forall k | 0 <= k < |pairs| ensures pairs[k].0 != v {
        assert pairs[k] in multiset(pairs);
      }
    }
  }

  /** `'gum'` shapes and unlabelled pixels end as the same value, 2. */
  lemma GumLooksLikeBackground()
    ensures RemapValue(ClassNameToId["gum"]) == RemapValue(Background) == 2
  {
  }

  /** Only the class named `"5"` produces the sentinel value. */
  lemma OnlyClassFiveIsSentinel(name: string)
    requires name in ClassNameToId
    ensures RemapValue(ClassNameToId[name]) == Sentinel <==> name == "5"
  {
  }

  // ---------------------------------------------------------------------------
  // Grids

  predicate IsRect(g: seq<seq<int>>) {
    forall i :: 0 <= i < |g| ==> |g[i]| == |g[0]|
  }

  /** A two-dimensional integer grid, as NumPy holds it: every row equally long. */
  type Grid = g: seq<seq<int>> | IsRect(g)

  function Width(g: Grid): nat {
    if g == [] then 0 else |g[0]|
  }

  /** Some cell of `g` holds `v` (`v in mask`). */
  predicate Contains(g: seq<seq<int>>, v: int) {
    exists i, j :: 0 <= i < |g| && 0 <= j < |g[i]| && g[i][j] == v
  }

  /** The remapped grid: every cell passed through `RemapValue`. */
  function RemapGrid(lbl: Grid): (m: Grid)
    ensures |m| == |lbl| && Width(m) == Width(lbl)
  {
    seq(|lbl|, i requires 0 <= i < |lbl| =>
      seq(Width(lbl), j requires 0 <= j < Width(lbl) => RemapValue(lbl[i][j])))
  }

  /** The remapped grid contains the sentinel exactly when the label grid does. */
  lemma {:induction false} SentinelGate(lbl: Grid)
    ensures Contains(RemapGrid(lbl), Sentinel) <==> Contains(lbl, Sentinel)
  {
    var m := RemapGrid(lbl);
    if Contains(lbl, Sentinel) {
      var i, j :| 0 <= i < |lbl| && 0 <= j < |lbl[i]| && lbl[i][j] == Sentinel;
      assert m[i][j] == Sentinel;
    }
    if Contains(m, Sentinel) {
      var i, j :| 0 <= i < |m| && 0 <= j < |m[i]| && m[i][j] == Sentinel;
      assert RemapValue(lbl[i][j]) == Sentinel;
    }
  }

  /**
    Every remapped value is a valid palette index, so colouring the remapped
    grid never fails and gives each pixel the palette row of its remapped label.
  */
  lemma RemapThenColor(lbl: Grid)
    ensures ColorMask.GrayToColorMask(RemapGrid(lbl)).Some?
    ensures forall i, j :: 0 <= i < |lbl| && 0 <= j < |lbl[i]| ==>
              ColorMask.GrayToColorMask(RemapGrid(lbl)).value[i][j] ==
              ColorMask.Colormap[RemapValue(lbl[i][j])]
    ensures forall i, j :: 0 <= i < |lbl| && 0 <= j < |lbl[i]| && lbl[i][j] == Sentinel ==>
              ColorMask.GrayToColorMask(RemapGrid(lbl)).value[i][j] == ColorMask.Bgr(255, 129, 64)
  {
    ColorMask.ColorOfInRangeMask(RemapGrid(lbl));
  }

  // ---------------------------------------------------------------------------
  // The arrays the source mutates

  /** The cells of an array, row by row. */
  function Rows(a: array2<int>): (g: Grid)
    reads a
    ensures |g| == a.Length0 && Width(g) == (if a.Length0 == 0 then 0 else a.Length1)
    ensures forall i, j :: 0 <= i < a.Length0 && 0 <= j < a.Length1 ==> g[i][j] == a[i, j]
  {
    seq(a.Length0, i requires 0 <= i < a.Length0 reads a =>
      seq(a.Length1, j requires 0 <= j < a.Length1 reads a => a[i, j]))
  }

  /** The label array the rasteriser returns, holding the cells of `g`. */
  method NewLabelArray(g: Grid) returns (a: array2<int>)
    ensures fresh(a)
    ensures a.Length0 == |g| && a.Length1 == Width(g)
    ensures forall i, j :: 0 <= i < |g| && 0 <= j < Width(g) ==> a[i, j] == g[i][j]
  {
    a := new int[|g|, Width(g)]((i, j) requires 0 <= i < |g| && 0 <= j < Width(g) => g[i][j]);
  }

  /** `mask[lbl == src] = dst`: every cell whose label is `src` is set to `dst`. */
  method MaskedAssign(mask: array2<int>, lbl: array2<int>, src: int, dst: int)
    requires mask != lbl
    requires mask.Length0 == lbl.Length0 && mask.Length1 == lbl.Length1
    modifies mask
    ensures forall i, j :: 0 <= i < mask.Length0 && 0 <= j < mask.Length1 ==>
              mask[i, j] == if lbl[i, j] == src then dst else old(mask[i, j])
  {
    forall i, j | 0 <= i < mask.Length0 && 0 <= j < mask.Length1 && lbl[i, j] == src {
      mask[i, j] := dst;
    }
  }

  /**
    `mask = np.zeros_like(lbl)` followed by the six masked assignments in
    source order: a new array of the same shape whose every cell is the
    remapped label.
  */
  method RemapLabels(lbl: array2<int>) returns (mask: array2<int>)
    ensures fresh(mask)
    ensures mask.Length0 == lbl.Length0 && mask.Length1 == lbl.Length1
    ensures forall i, j :: 0 <= i < mask.Length0 && 0 <= j < mask.Length1 ==>
              mask[i, j] == Assigned(0, lbl[i, j], RemapTable) == RemapValue(lbl[i, j])
  {
    mask := new int[lbl.Length0, lbl.Length1]((i, j) => 0);
    MaskedAssign(mask, lbl, 0, 2);
    MaskedAssign(mask, lbl, 1, 0);
    MaskedAssign(mask, lbl, 2, 4);
    MaskedAssign(mask, lbl, 3, 3);
    MaskedAssign(mask, lbl, 4, 1);
    MaskedAssign(mask, lbl, 5, 5);
  }
}
