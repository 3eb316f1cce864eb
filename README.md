# Phase-space matrices of the Gaussian backends

This project models the integer-valued phase-space matrix builders of
Strawberry Fields' shared backend operations
(`strawberryfields/backends/shared_ops.py`) and proves their algebraic
properties in Dafny.

- `sympmat(n)` builds the symplectic form of order n, the 2n-by-2n block
  matrix [[0, I], [-I, 0]], by concatenating copies of the n-by-n identity.
  It is modelled as the pure function `SharedOps.Sympmat`, built from the
  same blocks in the same way (`0 * idm`, `idm`, `-idm`, side-by-side, then
  top-to-bottom).
- `changebasis(n)` builds the permutation matrix that takes a phase-space
  vector or covariance matrix from the grouped ordering
  (x_1, ..., x_n, p_1, ..., p_n) to the interleaved ordering
  (x_1, p_1, ..., x_n, p_n). The source allocates a zero matrix and sets two
  entries per mode in a loop. It is modelled as the method
  `SharedOps.ChangeBasis`, which fills an `array2<int>` in a `for` loop. The
  method is proved against the specification function
  `SharedOps.ChangeBasisMatrix`, and the properties are proved about that
  function.

Module `Matrices` (`matrices.dfy`) holds the array operations the builders
use, over `seq<seq<int>>`: identity, scaling, negation, horizontal and vertical
concatenation. It also holds transpose, matrix product and matrix-vector
product, which state the properties. Module `SharedOps` (`shared_ops.dfy`)
models the source file.

The index maps `GroupedIndex` and `InterleavedIndex` name the reordering that
the docstring describes. Interleaved position 2k holds grouped coordinate k
(x_k), and interleaved position 2k + 1 holds grouped coordinate n + k (p_k).

## Model

| member | source | states |
|---|---|---|
| `SharedOps.Sympmat` | strawberryfields/backends/shared_ops.py:39-52 | The result has 2n rows of length 2n and is empty for n = 0. Entry (i, j) is 1 when i < n and j = i + n, -1 when i >= n and j = i - n, and 0 otherwise, so the diagonal blocks are zero. |
| `SharedOps.SympmatSkewSymmetric` | strawberryfields/backends/shared_ops.py:48-51 | The transpose of the symplectic form equals its entrywise negation. |
| `SharedOps.SympmatSquaresToMinusIdentity` | strawberryfields/backends/shared_ops.py:40-51 | The symplectic form times itself is minus the 2n-by-2n identity. |
| `SharedOps.SympSquareEntry` | strawberryfields/backends/shared_ops.py:48-51 | For any matrix with the symplectic entries, entry (i, j) of its square is -1 when i = j and 0 otherwise. |
| `SharedOps.SympmatOrderOne` | strawberryfields/backends/shared_ops.py:48-51 | The symplectic form of order 1 is [[0, 1], [-1, 0]]. |
| `SharedOps.ChangeBasisMatrix` | strawberryfields/backends/shared_ops.py:67-70 | The matrix is 2n by 2n and empty for n = 0. For every mode i < n, entries (2i, i) and (2i + 1, i + n) are 1, and every nonzero entry is one of these. |
| `SharedOps.ChangeBasis` | strawberryfields/backends/shared_ops.py:56-71 | The allocated array is 2n by 2n and agrees entry by entry with `ChangeBasisMatrix(n)`. The loop invariant: after i modes, rows below 2i hold their final values and all later rows are still zero. |
| `SharedOps.IndexMapsInverse` | strawberryfields/backends/shared_ops.py:59-60 | The grouped-to-interleaved index maps are inverse bijections of [0, 2n). |
| `SharedOps.ChangeBasisColumn` | strawberryfields/backends/shared_ops.py:67-70 | In a matrix with the change-of-basis rows, column g has a single 1, in row `InterleavedIndex(n, g)`, and zeros elsewhere. |
| `SharedOps.ChangeBasisRowsPermutation` | strawberryfields/backends/shared_ops.py:67-70 | A matrix whose rows are the change-of-basis unit rows is a permutation matrix. |
| `SharedOps.ChangeBasisIsPermutation` | strawberryfields/backends/shared_ops.py:67-70 | Every row and every column of the change-of-basis matrix holds exactly one 1 and is zero elsewhere. |
| `SharedOps.ChangeBasisOrthogonal` | strawberryfields/backends/shared_ops.py:67-70 | The change-of-basis matrix times its transpose is the identity. |
| `SharedOps.ChangeBasisRowsLeftInverse` | strawberryfields/backends/shared_ops.py:67-70 | For any matrix with the change-of-basis rows, its transpose times the matrix is the identity. |
| `SharedOps.ChangeBasisTransposeInverts` | strawberryfields/backends/shared_ops.py:59-70 | The transpose of the change-of-basis matrix times the matrix is the identity, so the transpose converts interleaved order back to grouped order. |
| `SharedOps.InterleaveAt` | strawberryfields/backends/shared_ops.py:59-60 | In the interleaving of xs and ps, even position 2k holds xs[k] and odd position 2k + 1 holds ps[k]. |
| `SharedOps.ChangeBasisRowsInterleave` | strawberryfields/backends/shared_ops.py:59-70 | A matrix with the change-of-basis rows maps xs ++ ps to the interleaving of xs and ps, entry by entry. |
| `SharedOps.ChangeBasisInterleaves` | strawberryfields/backends/shared_ops.py:59-70 | Applied to a vector laid out as xs ++ ps, the change-of-basis matrix yields a vector of length 2n equal, entry by entry, to the interleaving [xs[0], ps[0], xs[1], ps[1], ...]. |
| `SharedOps.ChangeBasisRowsReorder` | strawberryfields/backends/shared_ops.py:59-70 | Conjugating a covariance matrix by a matrix with the change-of-basis rows moves entry (GroupedIndex(r), GroupedIndex(s)) to (r, s). |
| `SharedOps.ChangeBasisReordersCovariance` | strawberryfields/backends/shared_ops.py:59-70 | M V M^T reorders both the rows and the columns of a 2n-by-2n covariance matrix V from grouped to interleaved order. |
| `SharedOps.SympEntryInterleaved` | strawberryfields/backends/shared_ops.py:48-51 | The symplectic entry formula at interleaved positions (r, s) is 1 at (2k, 2k + 1), -1 at (2k + 1, 2k), and 0 otherwise. |
| `SharedOps.SympEntriesInterleaved` | strawberryfields/backends/shared_ops.py:48-70 | Reordering any matrix with the symplectic entries to interleaved order gives one [[0, 1], [-1, 0]] block per mode on the diagonal. |
| `SharedOps.SympmatInInterleavedOrder` | strawberryfields/backends/shared_ops.py:48-70 | M omega M^T, where M is the change of basis and omega the symplectic form, is block diagonal with one [[0, 1], [-1, 0]] block per mode. |
| `SharedOps.ChangeBasisOrderTwo` | strawberryfields/backends/shared_ops.py:67-70 | For two modes the 1s sit at (0, 0), (1, 2), (2, 1) and (3, 3). |

## Left out

- `rotation_matrix(phi)` (strawberryfields/backends/shared_ops.py:25-35) is left out. It consists only of floating-point `cos` and `sin`, so nothing about it is exact.
- The `functools.lru_cache()` memoization on all three builders is left out. With no arguments it keeps the 128 most recently used n per builder. While an entry is cached, every call with that n returns the same mutable NumPy array. The model builds a new matrix on every call instead. So it does not capture that one caller's writes into a cached array are seen by later callers with the same n.
- `SharedOps.ChangeBasis` does not promise a freshly allocated array. While n is in its cache, the cached Python function returns the same array object to every caller, so callers cannot rely on freshness. Aliasing between such callers is not modelled.
- NumPy's float64 entries are modelled as `int`. Every entry the builders produce is -1, 0 or 1, and the `-0.0` entries that `-idm` produces are modelled as 0.
- The covariance matrices and vectors used in the reordering lemmas have `int` entries rather than floats. The reordering is exact, because each product term is a single entry times 1 or times 0.
- Negative n is excluded by the type `nat`. The source does not check n itself. For negative n, `np.identity(n)` (strawberryfields/backends/shared_ops.py:48) and `np.zeros((2 * n, 2 * n))` (strawberryfields/backends/shared_ops.py:67) raise `ValueError` for negative dimensions, and this error path is not modelled.
