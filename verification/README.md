# SparseArray<T> — a verified model of JumSparse's CSR sparse array

JumSparse's `SparseArray<T>` is a two-dimensional array of fixed size.
It stores only its nonzero entries, in compressed-sparse-row (CSR) form.
It keeps three coupled arrays:

- `_row_ptr`: `rows + 1` offsets.
- `_col_ind`: the column of each stored nonzero.
- `_values`: the stored nonzeros, paired by position with `_col_ind`.

The entries of row `r` sit at positions `[_row_ptr[r], _row_ptr[r+1])`.
Inside a row they are kept in the order they were written, not sorted by column.

The array has four operations:

- `get(row, col)` scans the row's segment. It returns the stored value, or `T{}` when there is none.
- `set(row, col, value)` has four cases:
  - it overwrites an existing entry;
  - it erases an existing entry when `value` is zero;
  - it does nothing when a zero is written to an absent column;
  - otherwise it inserts the entry at the end of the row's segment.

  Every offset after `row` then moves by the change in the number of stored nonzeros (nnz).
- `==` compares the dimensions and the three arrays element by element.
- `!=` is its negation.

The model has two modules.

- `CsrLayout` (`csr_layout.dfy`) works on values.
  - `Csr` is a snapshot of the dimensions and the three arrays.
  - `ValidCsr` is the invariant. The offsets start at 0, never decrease, and end at the common length of the two entry arrays. Every column lies in `[0, cols)`. No column occurs twice within a row. No stored value equals zero.
  - `Row` gives a row's entries as (column, value) pairs.
  - `Lookup` is the logical matrix: the value `get` returns.
  - `Assigned` is the effect of one `set` on the three arrays.
  - The lemmas prove what `set` promises about `Assigned`.
- `SparseArrays` (`sparse_array.dfy`) holds the class `SparseArray`.
  - `rows`, `cols` and the element type's zero are constants.
  - `rowPtr` is an `array<int>` of fixed length. It is updated in place.
  - `colInd` and `values` are sequences that `Set` reassigns, as the vectors grow and shrink.
  - `Get` and `Set` are loops like the C++ ones. Their postconditions tie the result and the new state to `Lookup` and `Assigned`.

`T{}` is the `zero` given when the array is built.
The C++ exceptions are values:

- `get` and `set` return `Err(OutOfRange)` / `Fail(OutOfRange)` when the bounds check fails.
- `Create` returns `Err(InvalidArgument)` or `Err(LengthError)` for negative dimensions.

`BasicFunctionality` in `sparse_array.dfy` replays the 3×3 scenario of `test/utils/test_array.cpp` as a client of the class. It uses reals as the element type. Every read the scenario expects is stated as an assertion and proved. It then adds two out-of-range accesses.

For negative dimensions, `_row_ptr(rows + 1, 0)` is built before the sign check. So for `rows <= -2` the vector constructor raises a length error first. Only `rows == -1`, or a negative `cols`, reaches `invalid_argument`.

## Model

| member | source | states |
|---|---|---|
| `SparseArrays.SparseArray.constructor` | include/jumsparse/array.hpp:33-38 | For non-negative dimensions: the invariant holds, `rowPtr` is a fresh array of `rows+1` zeros, and nothing is stored (`State() == Empty(rows, cols)`). |
| `SparseArrays.SparseArray.Create` | include/jumsparse/array.hpp:33-38 | Fails exactly when `rows < 0` or `cols < 0`. The error is a length error when `rows + 1 < 0`, because the offset vector is sized first, and invalid_argument otherwise. On success the new array is valid and empty. |
| `CsrLayout.EmptyReadsZero` | include/jumsparse/array.hpp:33-38 | A freshly built layout satisfies the CSR invariant, and every in-bounds cell reads zero. |
| `SparseArrays.SparseArray.BoundsCheck` | include/jumsparse/array.hpp:21-24 | Passes exactly for `0 <= row < rows` and `0 <= col < cols`; otherwise fails with out_of_range. |
| `SparseArrays.SparseArray.Get` | include/jumsparse/array.hpp:44-51 | Out of bounds gives out_of_range. Otherwise it returns `Ok(Lookup(State(), row, col, zero))`: the value paired with `col` in the row's segment, or zero. It modifies nothing. |
| `CsrLayout.Find` | include/jumsparse/array.hpp:46-49 | The forward scan of a row segment. When it returns an index, that entry has column `c` and no earlier entry does. It returns none exactly when no entry has column `c`. |
| `CsrLayout.LookupAt` | include/jumsparse/array.hpp:46-48 | Under the invariant, any stored entry for `(r, c)` is what `get(r, c)` returns, wherever it sits in the segment. |
| `CsrLayout.LookupAbsent` | include/jumsparse/array.hpp:49-50 | When no entry of row `r` has column `c`, `get(r, c)` returns zero. |
| `CsrLayout.LookupNonzeroIffStored` | include/jumsparse/array.hpp:59-74 | Under the invariant, a cell reads nonzero exactly when its row stores an entry for its column. This is the no-stored-zero rule. |
| `SparseArrays.SparseArray.Set` | include/jumsparse/array.hpp:54-81 | Out of bounds gives out_of_range with the state unchanged. Otherwise the new state is `Assigned(old state, row, col, value, zero)`. The invariant is kept, `get(row, col)` now reads `value`, and every other cell reads what it did before. |
| `SparseArrays.SparseArray.ShiftOffsets` | include/jumsparse/array.hpp:63-64 | Adds `d` to the offsets of rows `from` to `rows` in place and leaves the others alone. The same loop increments at lines 79-80. |
| `CsrLayout.Erase` | include/jumsparse/array.hpp:61-62 | vector::erase: one element shorter, elements before `i` kept, elements after `i` moved one place left. |
| `CsrLayout.Insert` | include/jumsparse/array.hpp:77-78 | vector::insert: one element longer, `x` at `i`, elements before `i` kept, elements from `i` on moved one place right. |
| `CsrLayout.AssignedWhenFound` | include/jumsparse/array.hpp:57-69 | When the scan first meets `col` at `idx`, a zero write erases position `idx` from both entry arrays and lowers the later offsets by one. A nonzero write replaces only `values[idx]`. |
| `CsrLayout.AssignedWhenMissing` | include/jumsparse/array.hpp:72-80 | When no entry of the row has column `col`, a zero write changes nothing. A nonzero write inserts `(col, value)` at `rowPtr[row+1]` and raises the later offsets by one. |
| `CsrLayout.RowsAfterAssign` | include/jumsparse/array.hpp:54-81 | A `set` leaves the layout well shaped and the entries of every other row unchanged. It applies `AssignedRow` to the written row: update in place, erase, no-op, or append at the end of the segment. |
| `CsrLayout.AssignedRowDistinct` | include/jumsparse/array.hpp:57-78 | Overwrite, erase and append-of-an-absent-column keep a row free of repeated columns. |
| `CsrLayout.AssignedRowValue` | include/jumsparse/array.hpp:57-78 | After the row-level write, column `col` reads `value` and every other column of the row reads as before. |
| `CsrLayout.AssignedValid` | include/jumsparse/array.hpp:54-81 | `set` preserves the whole CSR invariant: offsets, lengths, column range, no repeated column per row, no stored zero. |
| `CsrLayout.AssignedEntries` | include/jumsparse/array.hpp:72-80 | After a `set`, every stored column is still in `[0, cols)` and no stored value is zero. A zero write never inserts. |
| `CsrLayout.AssignedLookup` | include/jumsparse/array.hpp:54-81 | Write-then-read: afterwards `get(row, col) == value`, and every other in-bounds cell reads exactly what it did before. |
| `CsrLayout.AssignedCounts` | include/jumsparse/array.hpp:59-80 | nnz moves by +1 (zero→nonzero), -1 (nonzero→zero) or 0. Offsets up to `row` are unchanged, and every offset after `row` moves by the same amount. When nnz is unchanged, the columns are unchanged and only the entry for `(row, col)` can change value. |
| `CsrLayout.AssignedSameValue` | include/jumsparse/array.hpp:72-74 | Writing the value a cell already reads leaves all three arrays unchanged. This covers a zero written to an absent column. |
| `CsrLayout.AssignedIdempotent` | include/jumsparse/array.hpp:57-74 | Repeating a `set` changes nothing. In particular, a second delete of the same cell is the no-op case. |
| `CsrLayout.InsertionOrderMatters` | include/jumsparse/array.hpp:76-78 | Two nonzeros written into absent cells of one row in either order give the same logical matrix but different arrays. So structural equality can tell them apart. |
| `CsrLayout.AppendTwice` | include/jumsparse/array.hpp:76-80 | Two nonzeros written into absent cells of one row end up after the row's existing entries, in write order. |
| `SparseArrays.SparseArray.Equals` | include/jumsparse/array.hpp:84-90 | True exactly when the two snapshots are identical: same dimensions and element-wise equal offsets, columns and values. |
| `SparseArrays.SparseArray.NotEquals` | include/jumsparse/array.hpp:91-93 | True exactly when the two snapshots differ. |

## Left out

- `_dims_check` (include/jumsparse/array.hpp:26-29) is never called, so it is not modelled.
- `int` width: `rows + 1`, the offsets and nnz are unbounded integers. The model does not capture overflow of the C++ `int`.
- Element type: `T` is any type with equality plus a designated `zero`. Floating-point behaviour is not modelled: the code only compares exactly against `T{}`.
- Memory: allocation failure (`bad_alloc`) in vector growth is not modelled.
- Vector operations: `vector::erase` and `vector::insert` are modelled as sequence operations (`Erase`, `Insert`), not as element-by-element moves.
- SparseArrays.SparseArray.ShiftOffsets: one helper with `d = -1` or `d = +1` stands for the two inline loops of `set`. It states the same update.
- SparseArrays.SparseArray.Equals: does not compare `zero`. In C++, `T{}` is fixed by the type, so two arrays of the same `T` always agree on it.
- Exceptions become `Result`/`Outcome` values. Their propagation through callers is not modelled.
- SparseArrays.SparseArray.Get: requires the class invariant `Valid()`, which every constructor and `Set` establish. The C++ type keeps this invariant private.
- SparseArrays.SparseArray.Set: requires the class invariant `Valid()`, which every constructor and `Set` establish. The C++ type keeps this invariant private.
