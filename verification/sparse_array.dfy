/** `SparseArray<T>`: a fixed-size two-dimensional sparse array stored in
    compressed-sparse-row form, with the element type's zero value given at
    construction. Its reads and writes are proved against the value-level
    model in CsrLayout. */
module SparseArrays {
  import opened CsrLayout

  /** The exceptions the array raises: out_of_range from the bounds check,
      invalid_argument for negative dimensions, and the length error the
      row-offset vector raises when asked for a negative size. */
  datatype Error = OutOfRange | InvalidArgument | LengthError

  datatype Result<R> = Ok(value: R) | Err(error: Error)

  datatype Outcome = Pass | Fail(error: Error)

  class SparseArray<T(==)> {
    const rows: int
    const cols: int
    /** The element type's default value, `T{}`. */
    const zero: T
    /** Row offsets, rows+1 of them; updated in place by `Set`. */
    const rowPtr: array<int>
    /** Column of each stored nonzero. */
    var colInd: seq<int>
    /** Each stored nonzero, paired by position with `colInd`. */
    var values: seq<T>

    /** The dimensions and the three arrays as one value. */
    function State(): Csr<T>
      reads this, rowPtr
    {
      Csr(rows, cols, rowPtr[..], colInd, values)
    }

    ghost predicate Valid()
      reads this, rowPtr
    {
      ValidCsr(State(), zero)
    }

    /** Builds the array for non-negative dimensions: every offset zero,
        nothing stored. */
    constructor (rows: int, cols: int, zero: T)
      requires rows >= 0 && cols >= 0
      ensures Valid() && fresh(rowPtr)
      ensures this.rows == rows && this.cols == cols && this.zero == zero
      ensures State() == Empty(rows, cols)
    {
      this.rows, this.cols, this.zero := rows, cols, zero;
      rowPtr := new int[rows + 1](_ => 0);
      colInd, values := [], [];
      new;
      assert rowPtr[..] == seq(rows + 1, _ => 0);
      EmptyReadsZero<T>(rows, cols, zero);
    }

    /** The constructor as the caller sees it, failures included: the
        row-offset vector of rows+1 entries is sized before the dimensions
        are checked, so rows <= -2 fails with a length error and only
        rows == -1 or a negative `cols` reach invalid_argument. */
    static method Create(rows: int, cols: int, zero: T) returns (r: Result<SparseArray<T>>)
      ensures r.Err? <==> rows < 0 || cols < 0
      ensures r.Err? ==> r.error == if rows + 1 < 0 then LengthError else InvalidArgument
      ensures r.Ok? ==> fresh(r.value) && fresh(r.value.rowPtr) && r.value.Valid()
      ensures r.Ok? ==> r.value.State() == Empty(rows, cols) && r.value.zero == zero
    {
      if rows + 1 < 0 {
        return Err(LengthError);
      }
      if rows < 0 || cols < 0 {
        return Err(InvalidArgument);
      }
      var a := new SparseArray(rows, cols, zero);
      return Ok(a);
    }

    /** Fails with out_of_range unless (row, col) is one of the cells. */
    function BoundsCheck(row: int, col: int): (o: Outcome)
      ensures o == Pass <==> InBounds(rows, cols, row, col)
      ensures o.Fail? ==> o.error == OutOfRange
    {
      if row < 0 || row >= rows || col < 0 || col >= cols then Fail(OutOfRange) else Pass
    }

    /** Reads one cell by scanning its row's segment; an absent column reads
        as zero. Never changes the array. */
    method Get(row: int, col: int) returns (r: Result<T>)
      requires Valid()
      ensures r == if InBounds(rows, cols, row, col) then Ok(Lookup(State(), row, col, zero)) else Err(OutOfRange)
    {
      var check := BoundsCheck(row, col);
      if check.Fail? {
        return Err(check.error);
      }
      ghost var s := State();
      var idx := rowPtr[row];
      while idx < rowPtr[row + 1]
        invariant s.rowPtr[row] <= idx <= s.rowPtr[row + 1]
        invariant forall m :: s.rowPtr[row] <= m < idx ==> colInd[m] != col
      {
        if colInd[idx] == col {
          LookupAt(s, row, col, zero, idx);
          return Ok(values[idx]);
        }
        idx := idx + 1;
      }
      LookupAbsent(s, row, col, zero);
      return Ok(zero);
    }

    /** Writes one cell: overwrites an existing entry, erases it when the
        new value is zero, does nothing for a zero written to an absent
        column, and otherwise inserts the entry at the end of the row's
        segment; the offsets after `row` follow the change in nnz. */
    method Set(row: int, col: int, value: T) returns (o: Outcome)
      requires Valid()
      modifies this, rowPtr
      ensures Valid()
      ensures o == if InBounds(rows, cols, row, col) then Pass else Fail(OutOfRange)
      ensures o.Fail? ==> State() == old(State())
      ensures o.Pass? ==> State() == Assigned(old(State()), row, col, value, zero)
      ensures o.Pass? ==> Lookup(State(), row, col, zero) == value
      ensures forall r, c :: InBounds(rows, cols, r, c) && (r != row || c != col) ==>
                Lookup(State(), r, c, zero) == old(Lookup(State(), r, c, zero))
    {
      o := BoundsCheck(row, col);
      if o.Fail? {
        return;
      }
      ghost var s := State();
      var idx := rowPtr[row];
      while idx < rowPtr[row + 1]
        invariant s.rowPtr[row] <= idx <= s.rowPtr[row + 1]
        invariant forall m :: s.rowPtr[row] <= m < idx ==> colInd[m] != col
        invariant State() == s
      {
        if colInd[idx] == col {
          AssignedWhenFound(s, row, col, value, zero, idx);
          if value == zero {
            values := Erase(values, idx);
            colInd := Erase(colInd, idx);
            ShiftOffsets(row + 1, -1);
          } else {
            values := values[idx := value];
          }
          SetMeaning(s, row, col, value);
          return;
        }
        idx := idx + 1;
      }
      AssignedWhenMissing(s, row, col, value, zero);
      if value == zero {
        SetMeaning(s, row, col, value);
        return;
      }
      var pos := rowPtr[row + 1];
      colInd := Insert(colInd, pos, col);
      values := Insert(values, pos, value);
      ShiftOffsets(row + 1, 1);
      SetMeaning(s, row, col, value);
    }

    /** A successful `Set` keeps the invariant and changes only the written
        cell of the logical matrix. */
    lemma SetMeaning(s: Csr<T>, row: int, col: int, value: T)
      requires ValidCsr(s, zero) && InBounds(s.rows, s.cols, row, col)
      requires State() == Assigned(s, row, col, value, zero)
      ensures Valid()
      ensures Lookup(State(), row, col, zero) == value
      ensures forall r, c :: InBounds(s.rows, s.cols, r, c) && (r != row || c != col) ==>
                Lookup(State(), r, c, zero) == Lookup(s, r, c, zero)
    {
      AssignedValid(s, row, col, value, zero);
      AssignedLookup(s, row, col, value, zero);
    }

    /** Adds `d` to the offsets of rows `from` to `rows`. */
    method ShiftOffsets(from: int, d: int)
      requires rowPtr.Length == rows + 1 && 1 <= from
      modifies rowPtr
      ensures rowPtr[..] == Shifted(old(rowPtr[..]), from, d)
    {
      var r := from;
      while r <= rows
        invariant from <= r
        invariant forall k :: 0 <= k < rowPtr.Length ==>
                    rowPtr[k] == if from <= k < r then old(rowPtr[k]) + d else old(rowPtr[k])
      {
        rowPtr[r] := rowPtr[r] + d;
        r := r + 1;
      }
    }

    /** Structural equality: same dimensions and element-wise identical
        offsets, columns and values. */
    function Equals(other: SparseArray<T>): (b: bool)
      reads this, rowPtr, other, other.rowPtr
      ensures b <==> State() == other.State()
    {
      && rows == other.rows && cols == other.cols
      && rowPtr[..] == other.rowPtr[..]
      && colInd == other.colInd
      && values == other.values
    }

    /** The negation of `Equals`. */
    function NotEquals(other: SparseArray<T>): (b: bool)
      reads this, rowPtr, other, other.rowPtr
      ensures b <==> State() != other.State()
    {
      !Equals(other)
    }
  }

  /** A 3x3 array of reals driven through the reads and writes of the
      library's basic-functionality scenario, followed by two out-of-range
      accesses. */
  method BasicFunctionality() {
    var created := SparseArray<real>.Create(3, 3, 0.0);
    var arr := created.value;
    EmptyReadsZero<real>(3, 3, 0.0);
    var g := arr.Get(0, 0);
    assert g == Ok(0.0);
    g := arr.Get(1, 1);
    assert g == Ok(0.0);
    g := arr.Get(2, 2);
    assert g == Ok(0.0);

    var o := arr.Set(0, 1, 1.5);
    o := arr.Set(1, 2, -2.5);
    o := arr.Set(2, 0, 3.0);
    g := arr.Get(0, 1);
    assert g == Ok(1.5);
    g := arr.Get(1, 2);
    assert g == Ok(-2.5);
    g := arr.Get(2, 0);
    assert g == Ok(3.0);
    g := arr.Get(0, 0);
    assert g == Ok(0.0);
    g := arr.Get(1, 1);
    assert g == Ok(0.0);
    g := arr.Get(2, 2);
    assert g == Ok(0.0);

    o := arr.Set(1, 2, -3.5);
    g := arr.Get(1, 2);
    assert g == Ok(-3.5);

    o := arr.Set(0, 1, 0.0);
    g := arr.Get(0, 1);
    assert g == Ok(0.0);

    o := arr.Set(3, 0, 1.0);
    assert o == Fail(OutOfRange);
    g := arr.Get(0, -1);
    assert g == Err(OutOfRange);
  }
}
