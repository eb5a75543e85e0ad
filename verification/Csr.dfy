/** Compressed sparse rows. `keys[p]` is the row of entry p; offsets delimit the
    rows, and the transpose lists the entries of row 0, then row 1, and so on. */
module Csr {

  predicate Bounded(keys: seq<nat>, rows: nat) { forall p | 0 <= p < |keys| :: keys[p] < rows }

  predicate Grouped(keys: seq<nat>) { forall p | 0 < p < |keys| :: keys[p - 1] <= keys[p] }

  /** Number of entries in rows before `row`. */
  function Below(keys: seq<nat>, row: nat): (count: nat)
    ensures count <= |keys|
  {
    if keys == [] then 0
    else Below(keys[..|keys| - 1], row) + (if keys[|keys| - 1] < row then 1 else 0)
  }

  /** The entries of one row, in increasing position. */
  function Positions(keys: seq<nat>, row: nat): (ps: seq<nat>)
    ensures forall i :: 0 <= i < |ps| ==> ps[i] < |keys|
  {
    if keys == [] then []
    else
      var rest := Positions(keys[..|keys| - 1], row);
      if keys[|keys| - 1] == row then rest + [|keys| - 1] else rest
  }

  /** Positions lists exactly the entries of the row, each once, in order. */
  lemma {:induction false} PositionsExact(keys: seq<nat>, row: nat)
    ensures forall i :: 0 <= i < |Positions(keys, row)| ==> keys[Positions(keys, row)[i]] == row
    ensures forall i, j :: 0 <= i < j < |Positions(keys, row)| ==> Positions(keys, row)[i] < Positions(keys, row)[j]
    ensures forall p :: 0 <= p < |keys| && keys[p] == row ==> p in Positions(keys, row)
  {
    if keys != [] { PositionsExact(keys[..|keys| - 1], row); }
  }

  function Offsets(keys: seq<nat>, rows: nat): (offsets: seq<nat>)
    ensures |offsets| == rows + 1
    ensures forall i :: 0 <= i <= rows ==> offsets[i] == Below(keys, i)
  {
    seq(rows + 1, i requires 0 <= i => Below(keys, i))
  }

  function Transpose(keys: seq<nat>, rows: nat): seq<nat> {
    if rows == 0 then [] else Transpose(keys, rows - 1) + Positions(keys, rows - 1)
  }

  function Range(n: nat): (r: seq<nat>)
    ensures |r| == n && forall i :: 0 <= i < n ==> r[i] == i
  {
    seq(n, i => i)
  }

  lemma {:induction false} BelowEnds(keys: seq<nat>, rows: nat)
    requires Bounded(keys, rows)
    ensures Below(keys, 0) == 0 && Below(keys, rows) == |keys|
  {
    if keys != [] { BelowEnds(keys[..|keys| - 1], rows); }
  }

  lemma {:induction false} BelowStep(keys: seq<nat>, row: nat)
    ensures Below(keys, row + 1) == Below(keys, row) + |Positions(keys, row)|
  {
    if keys != [] { BelowStep(keys[..|keys| - 1], row); }
  }

  lemma {:induction false} BelowMonotone(keys: seq<nat>, i: nat, j: nat)
    requires i <= j
    ensures Below(keys, i) <= Below(keys, j)
  {
    if keys != [] { BelowMonotone(keys[..|keys| - 1], i, j); }
  }

  /** When entries are grouped by row, the offsets delimit exactly the rows. */
  lemma {:induction false} GroupedRow(keys: seq<nat>, row: nat, p: nat)
    requires Grouped(keys) && p < |keys|
    ensures Below(keys, row) <= p < Below(keys, row + 1) <==> keys[p] == row
  {
    GroupedPrefix(keys, row, p);
    GroupedPrefix(keys, row + 1, p);
  }

  lemma {:induction false} GroupedPrefix(keys: seq<nat>, row: nat, p: nat)
    requires Grouped(keys) && p < |keys|
    ensures p < Below(keys, row) <==> keys[p] < row
  {
    var n := |keys| - 1;
    if p < n {
      GroupedPrefix(keys[..n], row, p);
      if Below(keys[..n], row) <= p { assert keys[p] <= keys[n] by { GroupedOrder(keys, p, n); } }
    } else if keys[n] < row {
      assert Bounded(keys[..n], row) by {
        forall q | 0 <= q < n ensures keys[q] < row { GroupedOrder(keys, q, n); }
      }
      BelowEnds(keys[..n], row);
    }
  }

  lemma {:induction false} GroupedOrder(keys: seq<nat>, p: nat, q: nat)
    requires Grouped(keys) && p <= q < |keys|
    ensures keys[p] <= keys[q]
    decreases q
  {
    if p < q { GroupedOrder(keys, p, q - 1); }
  }

  function Smaller(a: nat, b: nat): nat { if a <= b then a else b }

  /** Offsets are determined by what they delimit. */
  lemma {:induction false} OffsetsUnique(keys: seq<nat>, rows: nat, offsets: seq<nat>)
    requires Bounded(keys, rows) && Grouped(keys)
    requires |offsets| == rows + 1 && offsets[0] == 0 && offsets[rows] == |keys|
    requires forall i, j :: 0 <= i <= j <= rows ==> offsets[i] <= offsets[j]
    requires forall i, p :: 0 <= i < rows && offsets[i] <= p < offsets[i + 1] ==> keys[p] == i
    ensures offsets == Offsets(keys, rows)
  {
    forall i | 0 <= i <= rows ensures offsets[i] == Below(keys, i) {
      if offsets[i] < |keys| {
        var r := RowAt(offsets, offsets[i]);
        assert offsets[Smaller(r + 1, i)] <= offsets[i];
        assert r >= i;
        assert !(keys[offsets[i]] < i);
        GroupedPrefix(keys, i, offsets[i]);
      }
      if 0 < offsets[i] {
        var q := offsets[i] - 1;
        assert q < |keys| by { assert offsets[i] <= offsets[rows]; }
        var r := RowAt(offsets, q);
        assert offsets[Smaller(i, r)] <= offsets[r];
        assert r < i;
        GroupedPrefix(keys, i, q);
      }
    }
  }

  /** The row that owns position p. */
  lemma {:induction false} RowAt(offsets: seq<nat>, p: nat) returns (row: nat)
    requires |offsets| > 0 && offsets[0] <= p < offsets[|offsets| - 1]
    ensures row < |offsets| - 1 && offsets[row] <= p < offsets[row + 1]
    decreases |offsets|
  {
    var n := |offsets| - 1;
    if offsets[n - 1] <= p { row := n - 1; } else { row := RowAt(offsets[..n], p); }
  }

  lemma {:induction false} TransposeLength(keys: seq<nat>, rows: nat)
    ensures |Transpose(keys, rows)| == Below(keys, rows)
  {
    hide Below, Positions;
    if rows == 0 {
      BelowZero(keys);
    } else {
      TransposeLength(keys, rows - 1);
      BelowStep(keys, rows - 1);
    }
  }

  lemma {:induction false} BelowZero(keys: seq<nat>)
    ensures Below(keys, 0) == 0
  {
    if keys != [] { BelowZero(keys[..|keys| - 1]); }
  }

  /** Row `row` of the transpose is the list of that row's entries. */
  lemma {:induction false} TransposeRow(keys: seq<nat>, rows: nat, row: nat)
    requires row < rows
    ensures Below(keys, row) <= Below(keys, row + 1) <= |Transpose(keys, rows)|
    ensures Transpose(keys, rows)[Below(keys, row)..Below(keys, row + 1)] == Positions(keys, row)
  {
    TransposeLength(keys, rows);
    TransposeLength(keys, rows - 1);
    BelowMonotone(keys, row, row + 1);
    BelowMonotone(keys, row + 1, rows);
    BelowStep(keys, row);
    var before, last := Transpose(keys, rows - 1), Positions(keys, rows - 1);
    if row < rows - 1 {
      TransposeRow(keys, rows - 1, row);
      BelowMonotone(keys, row + 1, rows - 1);
      assert (before + last)[Below(keys, row)..Below(keys, row + 1)] == before[Below(keys, row)..Below(keys, row + 1)];
    } else {
      assert (before + last)[|before|..] == last;
    }
  }

  /** The transpose lists every entry exactly once. */
  lemma {:induction false} TransposePermutes(keys: seq<nat>, rows: nat)
    requires Bounded(keys, rows)
    ensures multiset(Transpose(keys, rows)) == multiset(Range(|keys|))
  {
    hide Transpose;
    if keys == [] {
      TransposeLength(keys, rows);
      assert Transpose(keys, rows) == [] && Range(0) == [];
    } else {
      var n := |keys| - 1;
      TransposePermutes(keys[..n], rows);
      TransposeGrows(keys, rows);
      assert Range(|keys|) == Range(n) + [n];
    }
  }

  lemma {:induction false} TransposeGrows(keys: seq<nat>, rows: nat)
    requires |keys| > 0
    ensures multiset(Transpose(keys, rows))
         == multiset(Transpose(keys[..|keys| - 1], rows))
          + (if keys[|keys| - 1] < rows then multiset{|keys| - 1} else multiset{})
  {
    if rows > 0 { TransposeGrows(keys, rows - 1); }
  }

  lemma PositionsSnoc(keys: seq<nat>, key: nat, row: nat)
    ensures Positions(keys + [key], row) == Positions(keys, row) + (if key == row then [|keys|] else [])
  {
    assert (keys + [key])[..|keys|] == keys;
  }
}
