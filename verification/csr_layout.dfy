/** Value-level model of the compressed-sparse-row (CSR) layout kept by
    `SparseArray<T>`: a snapshot of its dimensions and its three coupled
    arrays, the invariant every operation keeps, the logical matrix the
    arrays stand for, and the effect of one `set` as a function. */
module CsrLayout {

  datatype Option<T> = None | Some(value: T)

  /** The dimensions and the three backing arrays of a sparse array:
      `rowPtr` (length rows+1), `colInd` and `values` (length nnz). */
  datatype Csr<T> = Csr(rows: int, cols: int, rowPtr: seq<int>, colInd: seq<int>, values: seq<T>)

  /** (row, col) names one of the rows*cols logical cells. */
  predicate InBounds(rows: int, cols: int, row: int, col: int) {
    0 <= row < rows && 0 <= col < cols
  }

  /** Shape part of the invariant: one offset per row plus one, starting at 0,
      never decreasing, ending at the common length of `colInd` and `values`. */
  predicate WellShaped<T>(s: Csr<T>) {
    && s.rows >= 0 && s.cols >= 0
    && |s.rowPtr| == s.rows + 1
    && s.rowPtr[0] == 0
    && (forall i, j :: 0 <= i <= j <= s.rows ==> s.rowPtr[i] <= s.rowPtr[j])
    && s.rowPtr[s.rows] == |s.colInd| == |s.values|
  }

  /** The entries of row `r`, as (column, value) pairs in storage order. */
  function Row<T>(s: Csr<T>, r: int): seq<(int, T)>
    requires WellShaped(s) && 0 <= r < s.rows
  {
    var lo, hi := s.rowPtr[r], s.rowPtr[r + 1];
    seq(hi - lo, k requires 0 <= k < hi - lo => (s.colInd[lo + k], s.values[lo + k]))
  }

  /** No column occurs twice among the entries of one row. */
  predicate DistinctColumns<T>(entries: seq<(int, T)>) {
    forall i, j :: 0 <= i < j < |entries| ==> entries[i].0 != entries[j].0
  }

  /** The full CSR invariant: well shaped, every stored column in [0, cols),
      no column twice within a row, and no stored value equal to `zero`. */
  predicate ValidCsr<T(==)>(s: Csr<T>, zero: T) {
    && WellShaped(s)
    && (forall k :: 0 <= k < |s.colInd| ==> 0 <= s.colInd[k] < s.cols)
    && (forall k :: 0 <= k < |s.values| ==> s.values[k] != zero)
    && (forall r :: 0 <= r < s.rows ==> DistinctColumns(Row(s, r)))
  }

  /** A freshly constructed array: rows+1 zero offsets, nothing stored. */
  function Empty<T>(rows: nat, cols: nat): (s: Csr<T>)
    ensures WellShaped(s) && |s.values| == 0
  {
    Csr(rows, cols, seq(rows + 1, _ => 0), [], [])
  }

  /** Position of the first entry of `entries` whose column is `c`: the
      forward scan over one row segment. */
  function Find<T>(entries: seq<(int, T)>, c: int): (r: Option<nat>)
    ensures r.Some? ==> r.value < |entries| && entries[r.value].0 == c
    ensures r.Some? ==> forall k :: 0 <= k < r.value ==> entries[k].0 != c
    ensures r.None? <==> forall k :: 0 <= k < |entries| ==> entries[k].0 != c
  {
    if entries == [] then None
    else if entries[0].0 == c then Some(0)
    else match Find(entries[1..], c)
      case None => None
      case Some(k) => Some(k + 1)
  }

  /** The value a row holds in column `c`: the paired value of the first
      entry for `c`, or `zero` when there is none. */
  function Value<T>(entries: seq<(int, T)>, c: int, zero: T): T {
    match Find(entries, c)
    case Some(k) => entries[k].1
    case None => zero
  }

  /** The logical matrix: what `get(r, c)` returns for an in-bounds cell. */
  function Lookup<T>(s: Csr<T>, r: int, c: int, zero: T): T
    requires WellShaped(s) && 0 <= r < s.rows
  {
    Value(Row(s, r), c, zero)
  }

  function Erase<X>(s: seq<X>, i: int): (t: seq<X>)
    requires 0 <= i < |s|
    ensures |t| == |s| - 1
    ensures forall k :: 0 <= k < i ==> t[k] == s[k]
    ensures forall k :: i <= k < |t| ==> t[k] == s[k + 1]
  {
    s[..i] + s[i + 1..]
  }

  function Insert<X>(s: seq<X>, i: int, x: X): (t: seq<X>)
    requires 0 <= i <= |s|
    ensures |t| == |s| + 1 && t[i] == x
    ensures forall k :: 0 <= k < i ==> t[k] == s[k]
    ensures forall k :: i < k < |t| ==> t[k] == s[k - 1]
  {
    s[..i] + [x] + s[i..]
  }

  /** The offsets after adding `d` to every entry from index `from` on. */
  function Shifted(p: seq<int>, from: int, d: int): seq<int> {
    seq(|p|, k requires 0 <= k < |p| => if k >= from then p[k] + d else p[k])
  }

  /** The effect of `set(row, col, value)` on the three arrays: overwrite the
      entry for `col` in place, erase it when `value` is zero, leave the
      arrays alone for a zero written to an absent column, or insert the new
      entry at the end of the row's segment; every offset after `row` moves
      by the change in nnz. */
  function Assigned<T(==)>(s: Csr<T>, row: int, col: int, value: T, zero: T): Csr<T>
    requires WellShaped(s) && InBounds(s.rows, s.cols, row, col)
  {
    var lo := s.rowPtr[row];
    match Find(Row(s, row), col)
    case Some(k) =>
      if value == zero then
        s.(rowPtr := Shifted(s.rowPtr, row + 1, -1),
           colInd := Erase(s.colInd, lo + k),
           values := Erase(s.values, lo + k))
      else
        s.(values := s.values[lo + k := value])
    case None =>
      if value == zero then s
      else
        var pos := s.rowPtr[row + 1];
        s.(rowPtr := Shifted(s.rowPtr, row + 1, 1),
           colInd := Insert(s.colInd, pos, col),
           values := Insert(s.values, pos, value))
  }

  /** The effect of the same `set` on the one row it touches. */
  function AssignedRow<T(==)>(entries: seq<(int, T)>, col: int, value: T, zero: T): seq<(int, T)> {
    match Find(entries, col)
    case Some(k) => if value == zero then Erase(entries, k) else entries[k := (col, value)]
    case None => if value == zero then entries else entries + [(col, value)]
  }

  // ---------------------------------------------------------------------------
  // The logical reading of the arrays
  // ---------------------------------------------------------------------------

  /** Under the invariant, a stored entry for column `c` in row `r` is what
      `get(r, c)` returns, wherever in the segment it sits. */
  lemma LookupAt<T>(s: Csr<T>, r: int, c: int, zero: T, i: int)
    requires ValidCsr(s, zero) && 0 <= r < s.rows
    requires s.rowPtr[r] <= i < s.rowPtr[r + 1] && s.colInd[i] == c
    ensures Lookup(s, r, c, zero) == s.values[i]
  {
    var entries := Row(s, r);
    var k := i - s.rowPtr[r];
    assert entries[k] == (c, s.values[i]);
    match Find(entries, c)
    case None =>
    case Some(j) =>
      assert j == k;
  }

  /** With no entry for column `c` in row `r`, `get(r, c)` returns zero. */
  lemma LookupAbsent<T>(s: Csr<T>, r: int, c: int, zero: T)
    requires WellShaped(s) && 0 <= r < s.rows
    requires forall i :: s.rowPtr[r] <= i < s.rowPtr[r + 1] ==> s.colInd[i] != c
    ensures Lookup(s, r, c, zero) == zero
  {
    var entries := Row(s, r);
    forall k | 0 <= k < |entries| ensures entries[k].0 != c {
      assert entries[k].0 == s.colInd[s.rowPtr[r] + k];
    }
  }

  /** Under the invariant, a cell reads nonzero exactly when the row stores
      an entry for its column (the no-zero rule). */
  lemma LookupNonzeroIffStored<T>(s: Csr<T>, r: int, c: int, zero: T)
    requires ValidCsr(s, zero) && 0 <= r < s.rows
    ensures Lookup(s, r, c, zero) != zero <==> Find(Row(s, r), c).Some?
  {
    var entries := Row(s, r);
    match Find(entries, c)
    case None =>
    case Some(k) =>
      assert entries[k].1 == s.values[s.rowPtr[r] + k];
  }

  /** A freshly constructed array satisfies the invariant and reads zero
      in every cell. */
  lemma EmptyReadsZero<T>(rows: nat, cols: nat, zero: T)
    ensures ValidCsr(Empty<T>(rows, cols), zero)
    ensures forall r, c :: InBounds(rows, cols, r, c) ==> Lookup(Empty<T>(rows, cols), r, c, zero) == zero
  {
    var s := Empty<T>(rows, cols);
    forall r | 0 <= r < rows ensures Row(s, r) == [] {
      assert s.rowPtr[r] == s.rowPtr[r + 1] == 0;
    }
  }

  // ---------------------------------------------------------------------------
  // One `set` seen on a single row
  // ---------------------------------------------------------------------------

  /** The scan stops at the first entry for `c`. */
  lemma FindAt<T>(entries: seq<(int, T)>, c: int, k: int)
    requires 0 <= k < |entries| && entries[k].0 == c
    requires forall m :: 0 <= m < k ==> entries[m].0 != c
    ensures Find(entries, c) == Some(k)
  {
  }

  /** Erasing an entry for another column leaves the value of `c` alone. */
  lemma {:induction false} ValueErase<T>(entries: seq<(int, T)>, k: int, c: int, zero: T)
    requires 0 <= k < |entries| && entries[k].0 != c
    ensures Value(Erase(entries, k), c, zero) == Value(entries, c, zero)
  {
    if k > 0 {
      var rest := Erase(entries, k);
      assert rest[0] == entries[0];
      if entries[0].0 != c {
        assert rest[1..] == Erase(entries[1..], k - 1);
        ValueErase(entries[1..], k - 1, c, zero);
      }
    } else {
      assert Erase(entries, k) == entries[1..];
    }
  }

  /** The write lands in the row, and every other column of the row reads
      as before. */
  lemma AssignedRowValue<T>(entries: seq<(int, T)>, col: int, value: T, zero: T, c: int)
    requires DistinctColumns(entries)
    ensures Value(AssignedRow(entries, col, value, zero), c, zero)
            == if c == col then value else Value(entries, c, zero)
  {
    var after := AssignedRow(entries, col, value, zero);
    match Find(entries, col)
    case Some(k) =>
      if value == zero {
        if c == col {
          forall j | 0 <= j < |after| ensures after[j].0 != col {
            if j < k { assert entries[j].0 != entries[k].0; }
            else { assert entries[j + 1].0 != entries[k].0; }
          }
        } else {
          ValueErase(entries, k, c, zero);
        }
      } else if c != col {
        assert forall m :: 0 <= m < |after| ==> after[m].0 == entries[m].0;
        match Find(entries, c)
        case None =>
          assert Find(after, c) == None;
        case Some(j) =>
          assert after[j] == entries[j];
          assert Find(after, c) == Some(j);
      } else {
        FindAt(after, c, k);
      }
    case None =>
      if value != zero {
        if c == col {
          FindAt(after, c, |entries|);
        } else {
          match Find(entries, c)
          case None =>
            assert forall m :: 0 <= m < |after| ==> after[m].0 != c;
          case Some(j) =>
            FindAt(after, c, j);
        }
      }
  }

  /** The touched row keeps its columns distinct. */
  lemma AssignedRowDistinct<T>(entries: seq<(int, T)>, col: int, value: T, zero: T)
    requires DistinctColumns(entries)
    ensures DistinctColumns(AssignedRow(entries, col, value, zero))
  {
    var after := AssignedRow(entries, col, value, zero);
    match Find(entries, col)
    case Some(k) =>
      if value == zero {
        forall i, j | 0 <= i < j < |after| ensures after[i].0 != after[j].0 {
          var i' := if i < k then i else i + 1;
          var j' := if j < k then j else j + 1;
          assert after[i] == entries[i'] && after[j] == entries[j'];
        }
      }
    case None =>
  }

  // ---------------------------------------------------------------------------
  // One `set` seen on the whole layout
  // ---------------------------------------------------------------------------

  /** Overwriting in place: offsets and columns unchanged, every row but
      `row` keeps its entries, and `row` gets the updated pair. */
  lemma RowsAfterOverwrite<T>(s: Csr<T>, row: int, col: int, value: T, zero: T, k: int)
    requires WellShaped(s) && InBounds(s.rows, s.cols, row, col)
    requires Find(Row(s, row), col) == Some(k) && value != zero
    ensures var t := Assigned(s, row, col, value, zero);
      && WellShaped(t)
      && (forall r :: 0 <= r < s.rows && r != row ==> Row(t, r) == Row(s, r))
      && Row(t, row) == AssignedRow(Row(s, row), col, value, zero)
  {
    var t := Assigned(s, row, col, value, zero);
    var i := s.rowPtr[row] + k;
    assert t == s.(values := s.values[i := value]);
    forall r | 0 <= r < s.rows && r != row ensures Row(t, r) == Row(s, r) {
      OverwriteOtherRow(s, t, row, i, value, r);
    }
    var before, after := Row(s, row), Row(t, row);
    assert before[k].0 == col;
    forall m | 0 <= m < |after| ensures after[m] == before[k := (col, value)][m] {
    }
  }

  /** A row other than the overwritten one keeps its entries. */
  lemma OverwriteOtherRow<T>(s: Csr<T>, t: Csr<T>, row: int, i: int, v: T, r: int)
    requires WellShaped(s) && 0 <= row < s.rows && s.rowPtr[row] <= i < s.rowPtr[row + 1]
    requires t == s.(values := s.values[i := v])
    requires 0 <= r < s.rows && r != row
    ensures WellShaped(t) && Row(t, r) == Row(s, r)
  {
    if r < row {
      assert s.rowPtr[r + 1] <= s.rowPtr[row];
    } else {
      assert s.rowPtr[row + 1] <= s.rowPtr[r];
    }
  }

  /** Erasing keeps the layout well shaped: the erased index lies in the
      segment of `row`, so lowering the later offsets keeps them monotone. */
  lemma EraseWellShaped<T>(s: Csr<T>, row: int, col: int, zero: T, k: int)
    requires WellShaped(s) && InBounds(s.rows, s.cols, row, col)
    requires Find(Row(s, row), col) == Some(k)
    ensures WellShaped(Assigned(s, row, col, zero, zero))
    ensures Assigned(s, row, col, zero, zero).rowPtr == Shifted(s.rowPtr, row + 1, -1)
    ensures Assigned(s, row, col, zero, zero).colInd == Erase(s.colInd, s.rowPtr[row] + k)
    ensures Assigned(s, row, col, zero, zero).values == Erase(s.values, s.rowPtr[row] + k)
  {
    var t := Assigned(s, row, col, zero, zero);
    var p, q := s.rowPtr, t.rowPtr;
    assert p[row] + k < p[row + 1];
    forall a, b | 0 <= a <= b <= s.rows ensures q[a] <= q[b] {
      if a <= row < b {
        assert p[a] <= p[row] && p[row + 1] <= p[b];
      }
    }
  }

  /** Erasing: offsets after `row` drop by one, every row but `row` keeps its
      entries, and `row` loses exactly the entry for `col`. */
  lemma RowsAfterErase<T>(s: Csr<T>, row: int, col: int, zero: T, k: int)
    requires WellShaped(s) && InBounds(s.rows, s.cols, row, col)
    requires Find(Row(s, row), col) == Some(k)
    ensures var t := Assigned(s, row, col, zero, zero);
      && WellShaped(t)
      && (forall r :: 0 <= r < s.rows && r != row ==> Row(t, r) == Row(s, r))
      && Row(t, row) == AssignedRow(Row(s, row), col, zero, zero)
  {
    EraseWellShaped(s, row, col, zero, k);
    var t := Assigned(s, row, col, zero, zero);
    forall r | 0 <= r < s.rows && r != row ensures Row(t, r) == Row(s, r) {
      EraseOtherRow(s, t, row, s.rowPtr[row] + k, r);
    }
    EraseSameRow(s, t, row, k);
  }

  /** The erased row loses exactly its k-th entry. */
  lemma EraseSameRow<T>(s: Csr<T>, t: Csr<T>, row: int, k: int)
    requires WellShaped(s) && WellShaped(t) && t.rows == s.rows
    requires 0 <= row < s.rows && 0 <= k < s.rowPtr[row + 1] - s.rowPtr[row]
    requires t.rowPtr == Shifted(s.rowPtr, row + 1, -1)
    requires t.colInd == Erase(s.colInd, s.rowPtr[row] + k)
    requires t.values == Erase(s.values, s.rowPtr[row] + k)
    ensures Row(t, row) == Erase(Row(s, row), k)
  {
    var p, q := s.rowPtr, t.rowPtr;
    var before, after := Row(s, row), Row(t, row);
    assert q[row] == p[row] && q[row + 1] == p[row + 1] - 1;
    forall m | 0 <= m < |after| ensures after[m] == Erase(before, k)[m] {
      if m >= k {
        assert t.colInd[q[row] + m] == s.colInd[p[row] + m + 1];
        assert t.values[q[row] + m] == s.values[p[row] + m + 1];
      }
    }
  }

  /** A row other than the erased one keeps its entries. */
  lemma EraseOtherRow<T>(s: Csr<T>, t: Csr<T>, row: int, i: int, r: int)
    requires WellShaped(s) && WellShaped(t) && t.rows == s.rows
    requires 0 <= row < s.rows && s.rowPtr[row] <= i < s.rowPtr[row + 1]
    requires t.rowPtr == Shifted(s.rowPtr, row + 1, -1)
    requires t.colInd == Erase(s.colInd, i) && t.values == Erase(s.values, i)
    requires 0 <= r < s.rows && r != row
    ensures Row(t, r) == Row(s, r)
  {
    var p, q := s.rowPtr, t.rowPtr;
    if r < row {
      assert p[r + 1] <= p[row];
      assert q[r] == p[r] && q[r + 1] == p[r + 1];
    } else {
      assert p[row + 1] <= p[r];
      assert q[r] == p[r] - 1 && q[r + 1] == p[r + 1] - 1;
      forall m | 0 <= m < q[r + 1] - q[r] ensures Row(t, r)[m] == Row(s, r)[m] {
        assert t.colInd[q[r] + m] == s.colInd[p[r] + m];
        assert t.values[q[r] + m] == s.values[p[r] + m];
      }
    }
  }

  /** Inserting: offsets after `row` grow by one, every row but `row` keeps
      its entries, and `row` gains (col, value) at its end. */
  lemma RowsAfterInsert<T>(s: Csr<T>, row: int, col: int, value: T, zero: T)
    requires WellShaped(s) && InBounds(s.rows, s.cols, row, col)
    requires Find(Row(s, row), col) == None && value != zero
    ensures var t := Assigned(s, row, col, value, zero);
      && WellShaped(t)
      && (forall r :: 0 <= r < s.rows && r != row ==> Row(t, r) == Row(s, r))
      && Row(t, row) == AssignedRow(Row(s, row), col, value, zero)
  {
    var t := Assigned(s, row, col, value, zero);
    var p, q := s.rowPtr, t.rowPtr;
    assert q == Shifted(p, row + 1, 1);
    forall a, b | 0 <= a <= b <= s.rows ensures q[a] <= q[b] {
    }
    assert WellShaped(t);
    forall r | 0 <= r < s.rows && r != row ensures Row(t, r) == Row(s, r) {
      InsertOtherRow(s, t, row, col, value, r);
    }
    var before, after := Row(s, row), Row(t, row);
    assert q[row] == p[row] && q[row + 1] == p[row + 1] + 1;
    forall m | 0 <= m < |after| ensures after[m] == (before + [(col, value)])[m] {
    }
  }

  /** A row other than the one that gains an entry keeps its entries. */
  lemma InsertOtherRow<T>(s: Csr<T>, t: Csr<T>, row: int, col: int, value: T, r: int)
    requires WellShaped(s) && WellShaped(t) && t.rows == s.rows && 0 <= row < s.rows
    requires t.rowPtr == Shifted(s.rowPtr, row + 1, 1)
    requires t.colInd == Insert(s.colInd, s.rowPtr[row + 1], col)
    requires t.values == Insert(s.values, s.rowPtr[row + 1], value)
    requires 0 <= r < s.rows && r != row
    ensures Row(t, r) == Row(s, r)
  {
    var p, q := s.rowPtr, t.rowPtr;
    if r < row {
      assert p[r + 1] <= p[row];
      assert q[r] == p[r] && q[r + 1] == p[r + 1];
    } else {
      assert p[row + 1] <= p[r];
      assert q[r] == p[r] + 1 && q[r + 1] == p[r + 1] + 1;
      forall m | 0 <= m < q[r + 1] - q[r] ensures Row(t, r)[m] == Row(s, r)[m] {
        assert t.colInd[q[r] + m] == s.colInd[p[r] + m];
        assert t.values[q[r] + m] == s.values[p[r] + m];
      }
    }
  }

  /** Whatever case applies, `set` leaves every other row's entries as they
      were and applies AssignedRow to the row it writes. */
  lemma RowsAfterAssign<T>(s: Csr<T>, row: int, col: int, value: T, zero: T)
    requires WellShaped(s) && InBounds(s.rows, s.cols, row, col)
    ensures var t := Assigned(s, row, col, value, zero);
      && WellShaped(t) && t.rows == s.rows && t.cols == s.cols
      && (forall r :: 0 <= r < s.rows && r != row ==> Row(t, r) == Row(s, r))
      && Row(t, row) == AssignedRow(Row(s, row), col, value, zero)
  {
    match Find(Row(s, row), col)
    case Some(k) =>
      if value == zero {
        RowsAfterErase(s, row, col, zero, k);
      } else {
        RowsAfterOverwrite(s, row, col, value, zero, k);
      }
    case None =>
      if value != zero {
        RowsAfterInsert(s, row, col, value, zero);
      }
  }

  /** `set` preserves the CSR invariant. */
  lemma AssignedValid<T>(s: Csr<T>, row: int, col: int, value: T, zero: T)
    requires ValidCsr(s, zero) && InBounds(s.rows, s.cols, row, col)
    ensures ValidCsr(Assigned(s, row, col, value, zero), zero)
  {
    var t := Assigned(s, row, col, value, zero);
    RowsAfterAssign(s, row, col, value, zero);
    AssignedEntries(s, row, col, value, zero);
    forall r | 0 <= r < t.rows ensures DistinctColumns(Row(t, r)) {
      if r == row {
        AssignedRowDistinct(Row(s, row), col, value, zero);
      }
    }
  }

  /** Every stored column stays in range and no stored value becomes zero. */
  lemma AssignedEntries<T>(s: Csr<T>, row: int, col: int, value: T, zero: T)
    requires ValidCsr(s, zero) && InBounds(s.rows, s.cols, row, col)
    ensures var t := Assigned(s, row, col, value, zero);
      && (forall k :: 0 <= k < |t.colInd| ==> 0 <= t.colInd[k] < t.cols)
      && (forall k :: 0 <= k < |t.values| ==> t.values[k] != zero)
  {
    var t := Assigned(s, row, col, value, zero);
    var lo := s.rowPtr[row];
    match Find(Row(s, row), col)
    case Some(k) =>
      if value == zero {
        assert t.colInd == Erase(s.colInd, lo + k) && t.values == Erase(s.values, lo + k);
      } else {
        assert t.colInd == s.colInd && t.values == s.values[lo + k := value];
      }
    case None =>
      if value != zero {
        var pos := s.rowPtr[row + 1];
        assert t.colInd == Insert(s.colInd, pos, col) && t.values == Insert(s.values, pos, value);
      }
  }

  /** Write-then-read: after `set(row, col, value)`, `get(row, col)` returns
      `value`, and every other in-bounds cell reads what it read before. */
  lemma AssignedLookup<T>(s: Csr<T>, row: int, col: int, value: T, zero: T)
    requires ValidCsr(s, zero) && InBounds(s.rows, s.cols, row, col)
    ensures WellShaped(Assigned(s, row, col, value, zero))
    ensures Lookup(Assigned(s, row, col, value, zero), row, col, zero) == value
    ensures forall r, c :: InBounds(s.rows, s.cols, r, c) && (r != row || c != col) ==>
              Lookup(Assigned(s, row, col, value, zero), r, c, zero) == Lookup(s, r, c, zero)
  {
    AssignedLookupAt(s, row, col, value, zero, row, col);
    forall r, c | InBounds(s.rows, s.cols, r, c) && (r != row || c != col)
      ensures Lookup(Assigned(s, row, col, value, zero), r, c, zero) == Lookup(s, r, c, zero)
    {
      AssignedLookupAt(s, row, col, value, zero, r, c);
    }
  }

  /** AssignedLookup for one cell. */
  lemma AssignedLookupAt<T>(s: Csr<T>, row: int, col: int, value: T, zero: T, r: int, c: int)
    requires ValidCsr(s, zero) && InBounds(s.rows, s.cols, row, col) && 0 <= r < s.rows
    ensures WellShaped(Assigned(s, row, col, value, zero))
    ensures Lookup(Assigned(s, row, col, value, zero), r, c, zero)
            == if r == row && c == col then value else Lookup(s, r, c, zero)
  {
    RowsAfterAssign(s, row, col, value, zero);
    if r == row {
      AssignedRowValue(Row(s, row), col, value, zero, c);
    }
  }

  /** The bookkeeping of one `set`: nnz moves by +1 (a new nonzero), -1 (a
      nonzero cleared) or 0, offsets up to `row` stay, offsets after it move
      by the same amount; overwriting keeps offsets and columns, and only
      the entry for (row, col) changes value. */
  lemma AssignedCounts<T>(s: Csr<T>, row: int, col: int, value: T, zero: T)
    requires ValidCsr(s, zero) && InBounds(s.rows, s.cols, row, col)
    ensures var t := Assigned(s, row, col, value, zero);
      var before := Lookup(s, row, col, zero);
      var d := if before == zero && value != zero then 1
               else if before != zero && value == zero then -1
               else 0;
      && |t.rowPtr| == |s.rowPtr|
      && |t.values| == |t.colInd| == |s.values| + d
      && (forall r :: 0 <= r <= s.rows ==> t.rowPtr[r] == s.rowPtr[r] + (if r > row then d else 0))
      && (d == 0 ==> t.colInd == s.colInd)
      && (d == 0 ==> forall k :: 0 <= k < |s.values| && t.values[k] != s.values[k] ==>
            s.rowPtr[row] <= k < s.rowPtr[row + 1] && s.colInd[k] == col)
  {
    LookupNonzeroIffStored(s, row, col, zero);
    match Find(Row(s, row), col)
    case Some(k) =>
      assert Row(s, row)[k].0 == s.colInd[s.rowPtr[row] + k];
    case None =>
  }

  /** Writing the value a cell already reads changes nothing: a zero written
      to an absent column, or a nonzero equal to the stored one. */
  lemma AssignedSameValue<T>(s: Csr<T>, row: int, col: int, value: T, zero: T)
    requires ValidCsr(s, zero) && InBounds(s.rows, s.cols, row, col)
    requires Lookup(s, row, col, zero) == value
    ensures Assigned(s, row, col, value, zero) == s
  {
    LookupNonzeroIffStored(s, row, col, zero);
    match Find(Row(s, row), col)
    case Some(k) =>
      var i := s.rowPtr[row] + k;
      assert Row(s, row)[k].1 == s.values[i];
      assert s.values[i := value] == s.values;
    case None =>
  }

  /** Repeating a `set` is harmless; in particular a second delete of the
      same cell is the no-op of a zero written to an absent column. */
  lemma AssignedIdempotent<T>(s: Csr<T>, row: int, col: int, value: T, zero: T)
    requires ValidCsr(s, zero) && InBounds(s.rows, s.cols, row, col)
    ensures ValidCsr(Assigned(s, row, col, value, zero), zero)
    ensures Assigned(Assigned(s, row, col, value, zero), row, col, value, zero)
            == Assigned(s, row, col, value, zero)
  {
    var t := Assigned(s, row, col, value, zero);
    AssignedValid(s, row, col, value, zero);
    AssignedLookup(s, row, col, value, zero);
    AssignedSameValue(t, row, col, value, zero);
  }

  /** The scan of `set` found `col` at `idx`: the write overwrites or
      erases that entry. */
  lemma AssignedWhenFound<T>(s: Csr<T>, row: int, col: int, value: T, zero: T, idx: int)
    requires WellShaped(s) && InBounds(s.rows, s.cols, row, col)
    requires s.rowPtr[row] <= idx < s.rowPtr[row + 1] && s.colInd[idx] == col
    requires forall m :: s.rowPtr[row] <= m < idx ==> s.colInd[m] != col
    ensures Assigned(s, row, col, value, zero) ==
              if value == zero then
                s.(rowPtr := Shifted(s.rowPtr, row + 1, -1), colInd := Erase(s.colInd, idx), values := Erase(s.values, idx))
              else
                s.(values := s.values[idx := value])
  {
    var entries := Row(s, row);
    forall m | 0 <= m < idx - s.rowPtr[row] ensures entries[m].0 != col {
      assert entries[m].0 == s.colInd[s.rowPtr[row] + m];
    }
    FindAt(entries, col, idx - s.rowPtr[row]);
  }

  /** The scan of `set` found no entry for `col`: the write is a no-op for
      zero and an insertion at the end of the row otherwise. */
  lemma AssignedWhenMissing<T>(s: Csr<T>, row: int, col: int, value: T, zero: T)
    requires WellShaped(s) && InBounds(s.rows, s.cols, row, col)
    requires forall m :: s.rowPtr[row] <= m < s.rowPtr[row + 1] ==> s.colInd[m] != col
    ensures Assigned(s, row, col, value, zero) ==
              if value == zero then s
              else
                var pos := s.rowPtr[row + 1];
                s.(rowPtr := Shifted(s.rowPtr, row + 1, 1), colInd := Insert(s.colInd, pos, col),
                   values := Insert(s.values, pos, value))
  {
    var entries := Row(s, row);
    forall m | 0 <= m < |entries| ensures entries[m].0 != col {
      assert entries[m].0 == s.colInd[s.rowPtr[row] + m];
    }
  }

  /** Equality of layouts is structural: two nonzeros written into absent
      cells of one row in either order give the same logical matrix but
      different arrays, since each lands at the end of the row's segment. */
  lemma InsertionOrderMatters<T>(s: Csr<T>, row: int, c1: int, v1: T, c2: int, v2: T, zero: T)
    requires ValidCsr(s, zero) && InBounds(s.rows, s.cols, row, c1) && InBounds(s.rows, s.cols, row, c2)
    requires c1 != c2 && v1 != zero && v2 != zero
    requires Lookup(s, row, c1, zero) == zero && Lookup(s, row, c2, zero) == zero
    ensures ValidCsr(Assigned(s, row, c1, v1, zero), zero) && ValidCsr(Assigned(s, row, c2, v2, zero), zero)
    ensures var a := Assigned(Assigned(s, row, c1, v1, zero), row, c2, v2, zero);
      var b := Assigned(Assigned(s, row, c2, v2, zero), row, c1, v1, zero);
      && WellShaped(a) && WellShaped(b)
      && (forall r, c :: InBounds(s.rows, s.cols, r, c) ==> Lookup(a, r, c, zero) == Lookup(b, r, c, zero))
      && a != b
  {
    var a1 := Assigned(s, row, c1, v1, zero);
    var b1 := Assigned(s, row, c2, v2, zero);
    AppendTwice(s, row, c1, v1, c2, v2, zero);
    AppendTwice(s, row, c2, v2, c1, v1, zero);
    var a := Assigned(a1, row, c2, v2, zero);
    var b := Assigned(b1, row, c1, v1, zero);
    forall r, c | InBounds(s.rows, s.cols, r, c) ensures Lookup(a, r, c, zero) == Lookup(b, r, c, zero) {
      AssignedLookupAt(s, row, c1, v1, zero, r, c);
      AssignedLookupAt(s, row, c2, v2, zero, r, c);
      AssignedLookupAt(a1, row, c2, v2, zero, r, c);
      AssignedLookupAt(b1, row, c1, v1, zero, r, c);
    }
    var n := |Row(s, row)|;
    assert Row(a, row)[n] != Row(b, row)[n];
  }

  /** Two nonzeros written into absent cells of one row end up, in write
      order, after the row's existing entries. */
  lemma AppendTwice<T>(s: Csr<T>, row: int, c1: int, v1: T, c2: int, v2: T, zero: T)
    requires ValidCsr(s, zero) && InBounds(s.rows, s.cols, row, c1) && InBounds(s.rows, s.cols, row, c2)
    requires c1 != c2 && v1 != zero && v2 != zero
    requires Lookup(s, row, c1, zero) == zero && Lookup(s, row, c2, zero) == zero
    ensures ValidCsr(Assigned(s, row, c1, v1, zero), zero)
    ensures WellShaped(Assigned(Assigned(s, row, c1, v1, zero), row, c2, v2, zero))
    ensures Row(Assigned(Assigned(s, row, c1, v1, zero), row, c2, v2, zero), row)
            == Row(s, row) + [(c1, v1), (c2, v2)]
  {
    var a1 := Assigned(s, row, c1, v1, zero);
    AssignedValid(s, row, c1, v1, zero);
    AssignedLookup(s, row, c1, v1, zero);
    LookupNonzeroIffStored(s, row, c1, zero);
    LookupNonzeroIffStored(a1, row, c2, zero);
    RowsAfterAssign(s, row, c1, v1, zero);
    RowsAfterAssign(a1, row, c2, v2, zero);
  }
}
