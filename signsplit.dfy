/**
  Sign splitting of array.py: `positive` keeps the positive entries of an
  array and `negative` the negated negative ones. A dense array is filtered
  entry by entry (`a * (a > 0)`); a CSR or CSC matrix is rebuilt from its
  filtered `data` with the same `indices` and `indptr`, after which
  `eliminate_zeros` removes the stored zeros in place. Also `spdiag` with
  k = 0, which builds a CSC diagonal matrix directly from its three arrays.
*/
module SignSplit {
  import opened Matrices

  // ---------------------------------------------------------------------
  // Dense values

  /** A boolean mask entry used as a number, as `a > 0` is in `a * (a > 0)`. */
  function Mask(b: bool): real {
    if b then 1.0 else 0.0
  }

  /** `x * (x > 0)`. */
  function PositivePart(x: real): (r: real)
    ensures r >= 0.0
    ensures x > 0.0 ==> r == x
    ensures x <= 0.0 ==> r == 0.0
  {
    x * Mask(x > 0.0)
  }

  /** `- x * (x < 0)`. */
  function NegativePart(x: real): (r: real)
    ensures r >= 0.0
    ensures x < 0.0 ==> r == -x
    ensures x >= 0.0 ==> r == 0.0
  {
    -x * Mask(x < 0.0)
  }

  /** `positive(a)` for a dense one-dimensional array. */
  function Positive(a: Vector): (r: Vector)
    ensures |r| == |a|
    ensures forall i :: 0 <= i < |a| ==> r[i] == if a[i] > 0.0 then a[i] else 0.0
  {
    seq(|a|, i requires 0 <= i < |a| => PositivePart(a[i]))
  }

  /** `negative(a)` for a dense one-dimensional array. */
  function Negative(a: Vector): (r: Vector)
    ensures |r| == |a|
    ensures forall i :: 0 <= i < |a| ==> r[i] == if a[i] < 0.0 then -a[i] else 0.0
  {
    seq(|a|, i requires 0 <= i < |a| => NegativePart(a[i]))
  }

  /**
    The two halves are non-negative, never both non-zero at one entry, and
    `positive(a) - negative(a) == a`.
  */
  lemma SignSplitRecombines(a: Vector)
    ensures forall i :: 0 <= i < |a| ==> Positive(a)[i] >= 0.0 && Negative(a)[i] >= 0.0
    ensures forall i :: 0 <= i < |a| ==> Positive(a)[i] == 0.0 || Negative(a)[i] == 0.0
    ensures forall i :: 0 <= i < |a| ==> Positive(a)[i] - Negative(a)[i] == a[i]
  {
  }

  /** `positive(m)` for a dense two-dimensional array. */
  function PositiveDense(m: Matrix): (r: Matrix)
    ensures |r| == |m|
    ensures forall i :: 0 <= i < |m| ==> r[i] == Positive(m[i])
  {
    seq(|m|, i requires 0 <= i < |m| => Positive(m[i]))
  }

  /** `negative(m)` for a dense two-dimensional array. */
  function NegativeDense(m: Matrix): (r: Matrix)
    ensures |r| == |m|
    ensures forall i :: 0 <= i < |m| ==> r[i] == Negative(m[i])
  {
    seq(|m|, i requires 0 <= i < |m| => Negative(m[i]))
  }

  /** The dense split keeps the shape and recombines entry by entry. */
  lemma SignSplitDense(m: Matrix, rows: nat, cols: nat)
    requires IsMatrix(m, rows, cols)
    ensures IsMatrix(PositiveDense(m), rows, cols) && IsMatrix(NegativeDense(m), rows, cols)
    ensures forall i, j :: 0 <= i < rows && 0 <= j < cols ==>
      PositiveDense(m)[i][j] - NegativeDense(m)[i][j] == m[i][j]
  {
  }

  /** `positive([[-1, 2], [3, -4]]) == [[0, 2], [3, 0]]` and `negative` of it is `[[1, 0], [0, 4]]`. */
  lemma SignSplitExample()
    ensures PositiveDense([[-1.0, 2.0], [3.0, -4.0]]) == [[0.0, 2.0], [3.0, 0.0]]
    ensures NegativeDense([[-1.0, 2.0], [3.0, -4.0]]) == [[1.0, 0.0], [0.0, 4.0]]
  {
    assert Positive([-1.0, 2.0]) == [0.0, 2.0] && Positive([3.0, -4.0]) == [3.0, 0.0];
    assert Negative([-1.0, 2.0]) == [1.0, 0.0] && Negative([3.0, -4.0]) == [0.0, 4.0];
  }

  // ---------------------------------------------------------------------
  // Compressed sparse matrices

  datatype Format = Csr | Csc

  /**
    A scipy `csr_matrix` or `csc_matrix`: slice `s` (row `s` for CSR, column
    `s` for CSC) stores `data[indptr[s]..indptr[s+1]]` at the minor
    positions `indices[indptr[s]..indptr[s+1]]`.
  */
  datatype Compressed = Compressed(format: Format, rows: nat, cols: nat,
                                   data: seq<real>, indices: seq<int>, indptr: seq<int>)
  {
    /** The number of slices: rows for CSR, columns for CSC. */
    function Major(): nat {
      if format == Csr then rows else cols
    }

    /** The length of a slice: columns for CSR, rows for CSC. */
    function Minor(): nat {
      if format == Csr then cols else rows
    }
  }

  /** The structural invariants scipy checks for a compressed matrix. */
  predicate WellFormed(c: Compressed) {
    && |c.indptr| == c.Major() + 1
    && c.indptr[0] == 0
    && c.indptr[c.Major()] == |c.data|
    && |c.indices| == |c.data|
    && (forall s, t :: 0 <= s <= t <= c.Major() ==> c.indptr[s] <= c.indptr[t])
    && (forall k :: 0 <= k < |c.indices| ==> 0 <= c.indices[k] < c.Minor())
  }

  function SliceData(c: Compressed, s: nat): seq<real>
    requires WellFormed(c) && s < c.Major()
  {
    c.data[c.indptr[s]..c.indptr[s + 1]]
  }

  function SliceIndices(c: Compressed, s: nat): (ix: seq<int>)
    requires WellFormed(c) && s < c.Major()
    ensures |ix| == |SliceData(c, s)|
  {
    c.indices[c.indptr[s]..c.indptr[s + 1]]
  }

  /** The sum of the stored values at minor position `j` (scipy adds duplicates). */
  function SumAt(d: seq<real>, ix: seq<int>, j: int): real
    requires |d| == |ix|
  {
    if |d| == 0 then 0.0
    else SumAt(d[..|d| - 1], ix[..|ix| - 1], j) + (if ix[|ix| - 1] == j then d[|d| - 1] else 0.0)
  }

  /** The value the matrix holds at row `i` and column `j`. */
  function Entry(c: Compressed, i: nat, j: nat): real
    requires WellFormed(c) && i < c.rows && j < c.cols
  {
    if c.format == Csr then SumAt(SliceData(c, i), SliceIndices(c, i), j)
    else SumAt(SliceData(c, j), SliceIndices(c, j), i)
  }

  /** The dense matrix a compressed matrix represents. */
  function ToDense(c: Compressed): (m: Matrix)
    requires WellFormed(c)
    ensures IsMatrix(m, c.rows, c.cols)
    ensures forall i, j :: 0 <= i < c.rows && 0 <= j < c.cols ==> m[i][j] == Entry(c, i, j)
  {
    seq(c.rows, i requires 0 <= i < c.rows => seq(c.cols, j requires 0 <= j < c.cols => Entry(c, i, j)))
  }

  // ---------------------------------------------------------------------
  // eliminate_zeros

  /** The stored entries of one slice whose value is not zero, in their order. */
  function DropZeros(d: seq<real>, ix: seq<int>): (r: (seq<real>, seq<int>))
    requires |d| == |ix|
    ensures |r.0| == |r.1| <= |d|
    ensures forall k :: 0 <= k < |r.0| ==> r.0[k] != 0.0 && r.0[k] in d
    ensures forall k :: 0 <= k < |r.1| ==> r.1[k] in ix
    decreases |d|
  {
    if |d| == 0 then ([], [])
    else
      var p := DropZeros(d[..|d| - 1], ix[..|ix| - 1]);
      if d[|d| - 1] == 0.0 then p else (p.0 + [d[|d| - 1]], p.1 + [ix[|ix| - 1]])
  }

  /** Extending a slice prefix by one entry keeps that entry exactly when it is not zero. */
  lemma DropZerosSnoc(d: seq<real>, ix: seq<int>, k: nat)
    requires |d| == |ix| && k < |d|
    ensures DropZeros(d[..k + 1], ix[..k + 1]) ==
      var p := DropZeros(d[..k], ix[..k]);
      if d[k] == 0.0 then p else (p.0 + [d[k]], p.1 + [ix[k]])
  {
    assert d[..k + 1][..k] == d[..k];
    assert ix[..k + 1][..k] == ix[..k];
  }

  /** Dropping stored zeros leaves every sum unchanged. */
  lemma {:induction false} DropZerosSum(d: seq<real>, ix: seq<int>, j: int)
    requires |d| == |ix|
    ensures SumAt(DropZeros(d, ix).0, DropZeros(d, ix).1, j) == SumAt(d, ix, j)
    decreases |d|
  {
    if |d| > 0 {
      var k := |d| - 1;
      var p := DropZeros(d[..k], ix[..k]);
      DropZerosSum(d[..k], ix[..k], j);
      if d[k] != 0.0 {
        assert (p.0 + [d[k]])[..|p.0|] == p.0;
        assert (p.1 + [ix[k]])[..|p.1|] == p.1;
      }
    }
  }

  /** The `data`, `indices` and `indptr` arrays of a compressed matrix under construction. */
  datatype Arrays = Arrays(data: seq<real>, indices: seq<int>, indptr: seq<int>)

  /** The three arrays `eliminate_zeros` produces for the first `s` slices. */
  function Compact(c: Compressed, s: nat): (r: Arrays)
    requires WellFormed(c) && s <= c.Major()
    ensures |r.indptr| == s + 1 && r.indptr[0] == 0 && r.indptr[s] == |r.data| == |r.indices|
    ensures forall a, b :: 0 <= a <= b <= s ==> r.indptr[a] <= r.indptr[b]
    ensures forall k :: 0 <= k < |r.data| ==> r.data[k] != 0.0 && r.data[k] in c.data
    ensures forall k :: 0 <= k < |r.indices| ==> 0 <= r.indices[k] < c.Minor()
    ensures forall t :: 0 <= t < s ==>
      r.data[r.indptr[t]..r.indptr[t + 1]] == DropZeros(SliceData(c, t), SliceIndices(c, t)).0 &&
      r.indices[r.indptr[t]..r.indptr[t + 1]] == DropZeros(SliceData(c, t), SliceIndices(c, t)).1
    decreases s
  {
    if s == 0 then Arrays([], [], [0])
    else
      var p := Compact(c, s - 1);
      var q := DropZeros(SliceData(c, s - 1), SliceIndices(c, s - 1));
      var r := Arrays(p.data + q.0, p.indices + q.1, p.indptr + [|p.data| + |q.0|]);
      CompactStep(c, s, p, q, r);
      r
  }

  /** `Compact` over one more slice appends that slice's non-zero entries and its new end. */
  lemma CompactNext(c: Compressed, s: nat)
    requires WellFormed(c) && s < c.Major()
    ensures var p, q := Compact(c, s), DropZeros(SliceData(c, s), SliceIndices(c, s));
      Compact(c, s + 1) == Arrays(p.data + q.0, p.indices + q.1, p.indptr + [|p.data| + |q.0|])
  {
  }

  /** One more slice appended to the compacted arrays keeps every invariant of `Compact`. */
  lemma CompactStep(c: Compressed, s: nat, p: Arrays,
                    q: (seq<real>, seq<int>), r: Arrays)
    requires WellFormed(c) && 0 < s <= c.Major()
    requires |p.indptr| == s && p.indptr[0] == 0 && p.indptr[s - 1] == |p.data| == |p.indices|
    requires forall a, b :: 0 <= a <= b < s ==> p.indptr[a] <= p.indptr[b]
    requires forall k :: 0 <= k < |p.data| ==> p.data[k] != 0.0 && p.data[k] in c.data
    requires forall k :: 0 <= k < |p.indices| ==> 0 <= p.indices[k] < c.Minor()
    requires forall t :: 0 <= t < s - 1 ==>
      p.data[p.indptr[t]..p.indptr[t + 1]] == DropZeros(SliceData(c, t), SliceIndices(c, t)).0 &&
      p.indices[p.indptr[t]..p.indptr[t + 1]] == DropZeros(SliceData(c, t), SliceIndices(c, t)).1
    requires q == DropZeros(SliceData(c, s - 1), SliceIndices(c, s - 1))
    requires r == Arrays(p.data + q.0, p.indices + q.1, p.indptr + [|p.data| + |q.0|])
    ensures |r.indptr| == s + 1 && r.indptr[0] == 0 && r.indptr[s] == |r.data| == |r.indices|
    ensures forall a, b :: 0 <= a <= b <= s ==> r.indptr[a] <= r.indptr[b]
    ensures forall k :: 0 <= k < |r.data| ==> r.data[k] != 0.0 && r.data[k] in c.data
    ensures forall k :: 0 <= k < |r.indices| ==> 0 <= r.indices[k] < c.Minor()
    ensures forall t :: 0 <= t < s ==>
      r.data[r.indptr[t]..r.indptr[t + 1]] == DropZeros(SliceData(c, t), SliceIndices(c, t)).0 &&
      r.indices[r.indptr[t]..r.indptr[t + 1]] == DropZeros(SliceData(c, t), SliceIndices(c, t)).1
  {
    SliceEntriesFromInput(c, s - 1, q);
    forall t | 0 <= t < s
      ensures r.data[r.indptr[t]..r.indptr[t + 1]] == DropZeros(SliceData(c, t), SliceIndices(c, t)).0
      ensures r.indices[r.indptr[t]..r.indptr[t + 1]] == DropZeros(SliceData(c, t), SliceIndices(c, t)).1
    {
      if t < s - 1 {
        AppendSlice(p.data, q.0, p.indptr[t], p.indptr[t + 1]);
        AppendSlice(p.indices, q.1, p.indptr[t], p.indptr[t + 1]);
      } else {
        AppendTail(p.data, q.0);
        AppendTail(p.indices, q.1);
      }
    }
  }

  /** The entries `DropZeros` keeps from slice `s` are stored values and valid positions of `c`. */
  lemma SliceEntriesFromInput(c: Compressed, s: nat, q: (seq<real>, seq<int>))
    requires WellFormed(c) && s < c.Major()
    requires q == DropZeros(SliceData(c, s), SliceIndices(c, s))
    ensures forall k :: 0 <= k < |q.0| ==> q.0[k] in c.data
    ensures forall k :: 0 <= k < |q.1| ==> 0 <= q.1[k] < c.Minor()
  {
    var lo, hi := c.indptr[s], c.indptr[s + 1];
    forall k | 0 <= k < |q.0| ensures q.0[k] in c.data {
      InSlice(c.data, lo, hi, q.0[k]);
    }
    forall k | 0 <= k < |q.1| ensures 0 <= q.1[k] < c.Minor() {
      InSlice(c.indices, lo, hi, q.1[k]);
    }
  }

  lemma InSlice<T>(s: seq<T>, lo: int, hi: int, x: T)
    requires 0 <= lo <= hi <= |s| && x in s[lo..hi]
    ensures x in s
  {
    var w :| lo <= w < hi && s[w] == x;
  }

  lemma AppendSlice<T>(a: seq<T>, b: seq<T>, lo: int, hi: int)
    requires 0 <= lo <= hi <= |a|
    ensures (a + b)[lo..hi] == a[lo..hi]
  {
  }

  lemma AppendTail<T>(a: seq<T>, b: seq<T>)
    ensures (a + b)[|a|..|a| + |b|] == b
  {
  }

  /** What `eliminate_zeros` leaves: a well-formed matrix of the same shape storing no zero. */
  function ZerosEliminated(c: Compressed): (r: Compressed)
    requires WellFormed(c)
    ensures WellFormed(r)
    ensures r.format == c.format && r.rows == c.rows && r.cols == c.cols
    ensures forall k :: 0 <= k < |r.data| ==> r.data[k] != 0.0 && r.data[k] in c.data
  {
    var p := Compact(c, c.Major());
    Compressed(c.format, c.rows, c.cols, p.data, p.indices, p.indptr)
  }

  /** Every slice keeps exactly its non-zero entries, in their order. */
  lemma ZerosEliminatedSlices(c: Compressed)
    requires WellFormed(c)
    ensures forall s :: 0 <= s < c.Major() ==>
      SliceData(ZerosEliminated(c), s) == DropZeros(SliceData(c, s), SliceIndices(c, s)).0 &&
      SliceIndices(ZerosEliminated(c), s) == DropZeros(SliceData(c, s), SliceIndices(c, s)).1
  {
  }

  /** Eliminating stored zeros does not change the matrix represented. */
  lemma ZerosEliminatedSameMatrix(c: Compressed)
    requires WellFormed(c)
    ensures ToDense(ZerosEliminated(c)) == ToDense(c)
  {
    var r := ZerosEliminated(c);
    ZerosEliminatedSlices(c);
    forall i | 0 <= i < c.rows ensures ToDense(r)[i] == ToDense(c)[i] {
      forall j | 0 <= j < c.cols ensures Entry(r, i, j) == Entry(c, i, j) {
        if c.format == Csr {
          DropZerosSum(SliceData(c, i), SliceIndices(c, i), j);
        } else {
          DropZerosSum(SliceData(c, j), SliceIndices(c, j), i);
        }
      }
    }
  }

  /** The inner loop of `eliminate_zeros` over one slice: copy each non-zero entry forward. */
  method KeepNonZero(d: seq<real>, ix: seq<int>) returns (kd: seq<real>, kix: seq<int>)
    requires |d| == |ix|
    ensures (kd, kix) == DropZeros(d, ix)
  {
    kd, kix := [], [];
    for k := 0 to |d|
      invariant (kd, kix) == DropZeros(d[..k], ix[..k])
    {
      DropZerosSnoc(d, ix, k);
      if d[k] != 0.0 {
        kd, kix := kd + [d[k]], kix + [ix[k]];
      }
    }
    assert d[..|d|] == d && ix[..|ix|] == ix;
  }

  /**
    An object of scipy's compressed matrix class: the three arrays are
    fields, and `eliminate_zeros` rewrites them in place.
  */
  class CsMatrix {
    var format: Format
    var rows: nat
    var cols: nat
    var data: seq<real>
    var indices: seq<int>
    var indptr: seq<int>

    function Value(): Compressed
      reads this
    {
      Compressed(format, rows, cols, data, indices, indptr)
    }

    /** `cls((data, indices, indptr), shape=(rows, cols))`. */
    constructor (c: Compressed)
      ensures Value() == c
    {
      format, rows, cols := c.format, c.rows, c.cols;
      data, indices, indptr := c.data, c.indices, c.indptr;
    }

    /**
      `m.eliminate_zeros()`: walk the slices in order, keep each non-zero
      entry, and record where every slice now ends.
    */
    method EliminateZeros()
      requires WellFormed(Value())
      modifies this
      ensures Value() == ZerosEliminated(old(Value()))
    {
      ghost var c := Value();
      var major := if format == Csr then rows else cols;
      var oldData, oldIndices, oldIndptr := data, indices, indptr;
      var newData: seq<real> := [];
      var newIndices: seq<int> := [];
      var newIndptr: seq<int> := [0];
      for s := 0 to major
        invariant Value() == c
        invariant Arrays(newData, newIndices, newIndptr) == Compact(c, s)
      {
        var lo, hi := oldIndptr[s], oldIndptr[s + 1];
        var keptData, keptIndices := KeepNonZero(oldData[lo..hi], oldIndices[lo..hi]);
        CompactNext(c, s);
        newData, newIndices := newData + keptData, newIndices + keptIndices;
        newIndptr := newIndptr + [|newData|];
      }
      assert major == c.Major();
      data, indices, indptr := newData, newIndices, newIndptr;
    }
  }

  // ---------------------------------------------------------------------
  // positive, negative on compressed matrices

  /** The matrix `positive` builds: filtered `data`, the same `indices` and `indptr`, stored zeros eliminated. */
  function PositiveCompressed(c: Compressed): (r: Compressed)
    requires WellFormed(c)
    ensures WellFormed(r)
    ensures r.format == c.format && r.rows == c.rows && r.cols == c.cols
    ensures forall k :: 0 <= k < |r.data| ==> r.data[k] > 0.0
  {
    ZerosEliminated(c.(data := Positive(c.data)))
  }

  /** The matrix `negative` builds, likewise from the negated negative values. */
  function NegativeCompressed(c: Compressed): (r: Compressed)
    requires WellFormed(c)
    ensures WellFormed(r)
    ensures r.format == c.format && r.rows == c.rows && r.cols == c.cols
    ensures forall k :: 0 <= k < |r.data| ==> r.data[k] > 0.0
  {
    ZerosEliminated(c.(data := Negative(c.data)))
  }

  /** The sparse branch of `positive(a)`. */
  method PositiveSparse(a: CsMatrix) returns (m: CsMatrix)
    requires WellFormed(a.Value())
    ensures fresh(m)
    ensures m.Value() == PositiveCompressed(a.Value())
  {
    m := new CsMatrix(Compressed(a.format, a.rows, a.cols, Positive(a.data), a.indices, a.indptr));
    m.EliminateZeros();
  }

  /** The sparse branch of `negative(a)`. */
  method NegativeSparse(a: CsMatrix) returns (m: CsMatrix)
    requires WellFormed(a.Value())
    ensures fresh(m)
    ensures m.Value() == NegativeCompressed(a.Value())
  {
    m := new CsMatrix(Compressed(a.format, a.rows, a.cols, Negative(a.data), a.indices, a.indptr));
    m.EliminateZeros();
  }

  /** Sums commute with splitting the stored values by sign. */
  lemma {:induction false} SumAtSignSplit(d: seq<real>, ix: seq<int>, j: int)
    requires |d| == |ix|
    ensures SumAt(Positive(d), ix, j) - SumAt(Negative(d), ix, j) == SumAt(d, ix, j)
    decreases |d|
  {
    if |d| > 0 {
      var k := |d| - 1;
      assert Positive(d)[..k] == Positive(d[..k]);
      assert Negative(d)[..k] == Negative(d[..k]);
      SumAtSignSplit(d[..k], ix[..k], j);
    }
  }

  /** Splitting the stored values and rebuilding is the same as splitting then slicing. */
  lemma SliceOfSplit(c: Compressed, s: nat)
    requires WellFormed(c) && s < c.Major()
    ensures SliceData(c.(data := Positive(c.data)), s) == Positive(SliceData(c, s))
    ensures SliceData(c.(data := Negative(c.data)), s) == Negative(SliceData(c, s))
  {
  }

  /**
    For every compressed matrix, duplicates included, the matrices
    `positive` and `negative` return recombine to the input:
    `positive(a) - negative(a) == a`.
  */
  lemma SignSplitCompressed(c: Compressed)
    requires WellFormed(c)
    ensures forall i, j :: 0 <= i < c.rows && 0 <= j < c.cols ==>
      ToDense(PositiveCompressed(c))[i][j] - ToDense(NegativeCompressed(c))[i][j] == ToDense(c)[i][j]
  {
    ZerosEliminatedSameMatrix(c.(data := Positive(c.data)));
    ZerosEliminatedSameMatrix(c.(data := Negative(c.data)));
    SplitDense(c);
  }

  /** Before eliminating zeros, the filtered matrices recombine to the input. */
  lemma SplitDense(c: Compressed)
    requires WellFormed(c)
    ensures forall i, j :: 0 <= i < c.rows && 0 <= j < c.cols ==>
      ToDense(c.(data := Positive(c.data)))[i][j] - ToDense(c.(data := Negative(c.data)))[i][j] == ToDense(c)[i][j]
  {
    forall i, j | 0 <= i < c.rows && 0 <= j < c.cols
      ensures ToDense(c.(data := Positive(c.data)))[i][j] - ToDense(c.(data := Negative(c.data)))[i][j] == ToDense(c)[i][j]
    {
      SplitEntry(c, i, j);
    }
  }

  /** Entry by entry, the filtered stored values recombine to the input's entry. */
  lemma SplitEntry(c: Compressed, i: nat, j: nat)
    requires WellFormed(c) && i < c.rows && j < c.cols
    ensures Entry(c.(data := Positive(c.data)), i, j) - Entry(c.(data := Negative(c.data)), i, j) == Entry(c, i, j)
  {
    var s := if c.format == Csr then i else j;
    SliceOfSplit(c, s);
    SumAtSignSplit(SliceData(c, s), SliceIndices(c, s), if c.format == Csr then j else i);
  }

  // ---------------------------------------------------------------------
  // Without duplicates: the split of the represented matrix

  predicate Distinct(ix: seq<int>) {
    forall a, b :: 0 <= a < b < |ix| ==> ix[a] != ix[b]
  }

  /** No slice stores two entries at the same position (scipy's canonical format). */
  predicate NoDuplicates(c: Compressed)
    requires WellFormed(c)
  {
    forall s :: 0 <= s < c.Major() ==> Distinct(SliceIndices(c, s))
  }

  /** A position the slice does not store sums to zero. */
  lemma {:induction false} SumAtAbsent(d: seq<real>, ix: seq<int>, j: int)
    requires |d| == |ix| && j !in ix
    ensures SumAt(d, ix, j) == 0.0
    decreases |d|
  {
    if |d| > 0 {
      SumAtAbsent(d[..|d| - 1], ix[..|ix| - 1], j);
    }
  }

  /** With distinct positions, filtering the stored values filters the sum. */
  lemma {:induction false} SumAtDistinct(d: seq<real>, ix: seq<int>, j: int)
    requires |d| == |ix| && Distinct(ix)
    ensures SumAt(Positive(d), ix, j) == PositivePart(SumAt(d, ix, j))
    ensures SumAt(Negative(d), ix, j) == NegativePart(SumAt(d, ix, j))
    decreases |d|
  {
    if |d| > 0 {
      var k := |d| - 1;
      assert Positive(d)[..k] == Positive(d[..k]);
      assert Negative(d)[..k] == Negative(d[..k]);
      if ix[k] == j {
        assert j !in ix[..k];
        SumAtAbsent(d[..k], ix[..k], j);
        SumAtAbsent(Positive(d[..k]), ix[..k], j);
        SumAtAbsent(Negative(d[..k]), ix[..k], j);
      } else {
        SumAtDistinct(d[..k], ix[..k], j);
      }
    }
  }

  /**
    For a matrix without duplicate entries, the sparse `positive` and
    `negative` represent the dense split of the matrix the input represents.
  */
  lemma SparseSplitIsDenseSplit(c: Compressed)
    requires WellFormed(c) && NoDuplicates(c)
    ensures ToDense(PositiveCompressed(c)) == PositiveDense(ToDense(c))
    ensures ToDense(NegativeCompressed(c)) == NegativeDense(ToDense(c))
  {
    ZerosEliminatedSameMatrix(c.(data := Positive(c.data)));
    ZerosEliminatedSameMatrix(c.(data := Negative(c.data)));
    SplitDenseDistinct(c);
  }

  /** Before eliminating zeros, filtering the stored values filters the dense matrix. */
  lemma SplitDenseDistinct(c: Compressed)
    requires WellFormed(c) && NoDuplicates(c)
    ensures ToDense(c.(data := Positive(c.data))) == PositiveDense(ToDense(c))
    ensures ToDense(c.(data := Negative(c.data))) == NegativeDense(ToDense(c))
  {
    forall i | 0 <= i < c.rows
      ensures ToDense(c.(data := Positive(c.data)))[i] == PositiveDense(ToDense(c))[i]
      ensures ToDense(c.(data := Negative(c.data)))[i] == NegativeDense(ToDense(c))[i]
    {
      SplitRowDistinct(c, i);
    }
  }

  lemma SplitRowDistinct(c: Compressed, i: nat)
    requires WellFormed(c) && NoDuplicates(c) && i < c.rows
    ensures ToDense(c.(data := Positive(c.data)))[i] == Positive(ToDense(c)[i])
    ensures ToDense(c.(data := Negative(c.data)))[i] == Negative(ToDense(c)[i])
  {
    forall j | 0 <= j < c.cols
      ensures ToDense(c.(data := Positive(c.data)))[i][j] == Positive(ToDense(c)[i])[j]
      ensures ToDense(c.(data := Negative(c.data)))[i][j] == Negative(ToDense(c)[i])[j]
    {
      SplitEntryDistinct(c, i, j);
    }
  }

  /** Without duplicates, each entry of the filtered matrix is the filtered entry. */
  lemma SplitEntryDistinct(c: Compressed, i: nat, j: nat)
    requires WellFormed(c) && NoDuplicates(c) && i < c.rows && j < c.cols
    ensures Entry(c.(data := Positive(c.data)), i, j) == PositivePart(Entry(c, i, j))
    ensures Entry(c.(data := Negative(c.data)), i, j) == NegativePart(Entry(c, i, j))
  {
    var s := if c.format == Csr then i else j;
    SliceOfSplit(c, s);
    assert Distinct(SliceIndices(c, s));
    SumAtDistinct(SliceData(c, s), SliceIndices(c, s), if c.format == Csr then j else i);
  }

  /** A 1×1 CSR matrix storing 2 and -1 at the same position. */
  function DuplicateExample(): (c: Compressed)
    ensures WellFormed(c) && !NoDuplicates(c)
  {
    var c := Compressed(Csr, 1, 1, [2.0, -1.0], [0, 0], [0, 2]);
    assert SliceIndices(c, 0) == [0, 0];
    assert SliceIndices(c, 0)[0] == SliceIndices(c, 0)[1];
    c
  }

  /** A 1×1 CSR matrix storing `a` and `b`, both at the origin, represents `a + b`. */
  lemma TwoStoredAtOrigin(a: real, b: real)
    ensures WellFormed(Compressed(Csr, 1, 1, [a, b], [0, 0], [0, 2]))
    ensures ToDense(Compressed(Csr, 1, 1, [a, b], [0, 0], [0, 2])) == [[a + b]]
  {
    var c := Compressed(Csr, 1, 1, [a, b], [0, 0], [0, 2]);
    assert WellFormed(c);
    assert SliceData(c, 0) == [a, b] && SliceIndices(c, 0) == [0, 0];
    assert [a, b][..1] == [a] && [0, 0][..1] == [0];
    assert [a][..0] == [] && [0][..0] == [];
    assert SumAt([a], [0], 0) == a;
    assert ToDense(c)[0][0] == Entry(c, 0, 0) == a + b;
    assert ToDense(c)[0] == [a + b];
  }

  /** `positive` of that matrix stores the positive parts of `a` and `b` at the origin; they add up. */
  lemma TwoStoredPositive(a: real, b: real)
    ensures ToDense(PositiveCompressed(Compressed(Csr, 1, 1, [a, b], [0, 0], [0, 2]))) ==
      [[PositivePart(a) + PositivePart(b)]]
  {
    var c := Compressed(Csr, 1, 1, [a, b], [0, 0], [0, 2]);
    assert Positive([a, b]) == [PositivePart(a), PositivePart(b)];
    TwoStoredAtOrigin(PositivePart(a), PositivePart(b));
    ZerosEliminatedSameMatrix(c.(data := Positive(c.data)));
  }

  /**
    With duplicates the correspondence fails: the example matrix represents
    1, whose positive part is 1, while `positive` keeps the stored 2 and
    drops the -1.
  */
  lemma DuplicateEntriesBreakSplit()
    ensures ToDense(PositiveCompressed(DuplicateExample())) != PositiveDense(ToDense(DuplicateExample()))
  {
    TwoStoredAtOrigin(2.0, -1.0);
    TwoStoredPositive(2.0, -1.0);
    assert PositiveDense([[1.0]])[0][0] == 1.0;
  }

  // ---------------------------------------------------------------------
  // spdiag with k = 0

  /** `np.arange(count)`. */
  function Range(count: nat): (r: seq<int>)
    ensures |r| == count
    ensures forall k :: 0 <= k < count ==> r[k] == k
  {
    seq(count, k => k)
  }

  /** `csc_matrix((v, inds[:-1], inds), (N, N))` with `inds = arange(N + 1)`. */
  function Spdiag(v: Vector): (r: Compressed)
    ensures WellFormed(r)
    ensures r.format == Csc && r.rows == |v| && r.cols == |v|
    ensures r.data == v
    ensures forall k :: 0 <= k <= |v| ==> r.indptr[k] == k
    ensures forall k :: 0 <= k < |v| ==> r.indices[k] == k
  {
    var inds := Range(|v| + 1);
    Compressed(Csc, |v|, |v|, v, inds[..|v|], inds)
  }

  /** The dense diagonal matrix with `v` on its diagonal. */
  function Diagonal(v: Vector): (m: Matrix)
    ensures IsMatrix(m, |v|, |v|)
    ensures forall i, j :: 0 <= i < |v| && 0 <= j < |v| ==> m[i][j] == if i == j then v[i] else 0.0
  {
    seq(|v|, i requires 0 <= i < |v| => seq(|v|, j requires 0 <= j < |v| => if i == j then v[i] else 0.0))
  }

  /** Column `j` of `spdiag(v)` stores exactly `v[j]` at row `j`: it is the diagonal matrix of `v`. */
  lemma SpdiagIsDiagonal(v: Vector)
    ensures ToDense(Spdiag(v)) == Diagonal(v)
  {
    var c := Spdiag(v);
    forall i | 0 <= i < |v| ensures ToDense(c)[i] == Diagonal(v)[i] {
      forall j | 0 <= j < |v| ensures Entry(c, i, j) == Diagonal(v)[i][j] {
        assert SliceData(c, j) == [v[j]] && SliceIndices(c, j) == [j];
        assert [v[j]][..0] == [] && [j][..0] == [];
        assert SumAt([v[j]], [j], i) == if i == j then v[j] else 0.0;
      }
    }
  }
}
