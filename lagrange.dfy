/** Lagrange coefficients over Zr as `TE::LagrangeCoeffs` computes them.

    For the first t indexes x_0 .. x_{t-1} the routine forms
      P   = x_0 * ... * x_{t-1}                       (first loop)
      v_i = x_i * prod_{j != i} (x_j - x_i)            (inner loop, per row)
    and then multiplies a running value w (initially P) by v_i^-1 and stores
    it as coefficient i. Because w is never reset, coefficient 0 is the
    textbook Lagrange coefficient at zero but coefficient i is
    P * v_0^-1 * ... * v_i^-1. */
module Lagrange {
  import opened Zr
  import opened Results

  /** The C `int` the indexes are held in. */
  newtype Int32 = x: int | -0x8000_0000 <= x < 0x8000_0000

  datatype Failure = NotEnoughParticipants | DuplicateIndexes

  /** x_0 * ... * x_{k-1}. */
  function Prod(idx: seq<Int32>, k: nat): int
    requires k <= |idx|
  {
    if k == 0 then 1 else Prod(idx, k - 1) * (idx[k - 1] as int)
  }

  /** The product of x_m for m < k, m != i. */
  function ProdExcept(idx: seq<Int32>, i: nat, k: nat): int
    requires k <= |idx|
  {
    if k == 0 then 1
    else if k - 1 == i then ProdExcept(idx, i, k - 1)
    else ProdExcept(idx, i, k - 1) * (idx[k - 1] as int)
  }

  /** The product of (x_m - x_i) for m < k, m != i. */
  function DiffProd(idx: seq<Int32>, i: nat, k: nat): int
    requires i < |idx| && k <= |idx|
  {
    if k == 0 then 1
    else if k - 1 == i then DiffProd(idx, i, k - 1)
    else DiffProd(idx, i, k - 1) * ((idx[k - 1] as int) - (idx[i] as int))
  }

  /** Two of the first t indexes are equal. */
  predicate HasDuplicate(idx: seq<Int32>, t: nat)
    requires t <= |idx|
  {
    exists a, b :: 0 <= a < t && 0 <= b < t && a != b && idx[a] == idx[b]
  }

  /** The denominator v_i of row i, reduced into Zr. */
  function Denom(idx: seq<Int32>, t: nat, R: int, i: nat): int
    requires i < t <= |idx| && R > 1
  {
    ((idx[i] as int) * DiffProd(idx, i, t)) % R
  }

  /** Coefficient i as the source computes it: the running w after row i. */
  function Coefficient(idx: seq<Int32>, t: nat, R: int, i: nat): int
    requires i < t <= |idx| && R > 1
  {
    var w := if i == 0 then Prod(idx, t) % R else Coefficient(idx, t, R, i - 1);
    (w * Inv(Denom(idx, t, R, i), R)) % R
  }

  /** What `TE::LagrangeCoeffs` returns or throws for the index list idx. */
  function Coeffs(idx: seq<Int32>, t: nat, R: int): (r: Result<seq<int>, Failure>)
    requires R > 1
    ensures r == Err(NotEnoughParticipants) <==> |idx| < t
    ensures |idx| >= t ==> (r == Err(DuplicateIndexes) <==> HasDuplicate(idx, t))
    ensures r.Ok? ==> |r.value| == t && forall k :: 0 <= k < t ==> 0 <= r.value[k] < R
  {
    if |idx| < t then Err(NotEnoughParticipants)
    else if HasDuplicate(idx, t) then Err(DuplicateIndexes)
    else Ok(seq(t, k requires 0 <= k < t => Coefficient(idx, t, R, k)))
  }

  lemma ProdStep(idx: seq<Int32>, i: nat, R: int, w: int)
    requires i < |idx| && R > 1 && w == Prod(idx, i) % R
    ensures (w * idx[i] as int) % R == Prod(idx, i + 1) % R
  {
    ModMulLeft(Prod(idx, i), idx[i] as int, R);
  }

  /** The first loop: w = x_0 * ... * x_{t-1} in Zr. */
  method IndexProduct(idx: seq<Int32>, t: nat, R: int) returns (w: int)
    requires t <= |idx| && R > 1
    ensures w == Prod(idx, t) % R
  {
    w := 1;
    var i := 0;
    while i < t
      invariant i <= t
      invariant w == Prod(idx, i) % R
    {
      ProdStep(idx, i, R, w);
      w := (w * idx[i] as int) % R;
      i := i + 1;
    }
  }

  lemma DenominatorStep(idx: seq<Int32>, R: int, i: nat, j: nat)
    requires i < |idx| && j < |idx| && j != i && R > 1
    ensures var x := idx[i] as int;
      ((x * DiffProd(idx, i, j)) % R * (((idx[j] as int) - x) % R)) % R
      == (x * DiffProd(idx, i, j + 1)) % R
  {
    var x, D, d := idx[i] as int, DiffProd(idx, i, j), (idx[j] as int) - (idx[i] as int);
    assert DiffProd(idx, i, j + 1) == D * d;
    ModMul(x * D, d, R);
    assert (x * D) * d == x * (D * d);
  }

  /** The inner loop for row i: v_i, or the duplicate-index error when x_i
      occurs again among the first t indexes. */
  method Denominator(idx: seq<Int32>, t: nat, R: int, i: nat) returns (v: Result<int, Failure>)
    requires i < t <= |idx| && R > 1
    ensures v.Err? <==> exists j :: 0 <= j < t && j != i && idx[j] == idx[i]
    ensures v.Err? ==> v.error == DuplicateIndexes
    ensures v.Ok? ==> v.value == Denom(idx, t, R, i)
  {
    var x := idx[i] as int;
    var acc := x % R;
    assert acc == (x * DiffProd(idx, i, 0)) % R;
    var j := 0;
    while j < t
      invariant j <= t
      invariant acc == (x * DiffProd(idx, i, j)) % R
      invariant forall m :: 0 <= m < j && m != i ==> idx[m] != idx[i]
    {
      if j != i {
        if idx[i] == idx[j] {
          return Err(DuplicateIndexes);
        }
        var u := ((idx[j] as int) - x) % R;
        DenominatorStep(idx, R, i, j);
        acc := (acc * u) % R;
      }
      j := j + 1;
    }
    return Ok(acc);
  }

  lemma CoefficientStep(idx: seq<Int32>, t: nat, R: int, i: nat, w: int)
    requires i < t <= |idx| && R > 1
    requires w == if i == 0 then Prod(idx, t) % R else Coefficient(idx, t, R, i - 1)
    ensures (w * Inv(Denom(idx, t, R, i), R)) % R == Coefficient(idx, t, R, i)
  {
  }

  /** Rows 0 .. i-1 have each been checked against all t indexes. */
  predicate RowsDistinct(idx: seq<Int32>, t: nat, i: nat)
    requires i <= t <= |idx|
  {
    forall a, b :: 0 <= a < i && 0 <= b < t && a != b ==> idx[a] != idx[b]
  }

  lemma RowsDistinctStep(idx: seq<Int32>, t: nat, i: nat)
    requires i < t <= |idx| && RowsDistinct(idx, t, i)
    requires !exists j :: 0 <= j < t && j != i && idx[j] == idx[i]
    ensures RowsDistinct(idx, t, i + 1)
  {
  }

  lemma CoeffsOfDuplicateRow(idx: seq<Int32>, t: nat, R: int, i: nat)
    requires i < t <= |idx| && R > 1
    requires exists j :: 0 <= j < t && j != i && idx[j] == idx[i]
    ensures Coeffs(idx, t, R) == Err(DuplicateIndexes)
  {
    var j :| 0 <= j < t && j != i && idx[j] == idx[i];
    assert idx[i] == idx[j];
    assert HasDuplicate(idx, t);
  }

  lemma CoeffsOfDistinctRows(idx: seq<Int32>, t: nat, R: int, c: seq<int>)
    requires t <= |idx| && R > 1 && RowsDistinct(idx, t, t)
    requires c == seq(t, k requires 0 <= k < t => Coefficient(idx, t, R, k))
    ensures Coeffs(idx, t, R) == Ok(c)
  {
    assert !HasDuplicate(idx, t);
  }

  /** One pass of the outer loop: the inner loop for row i, then the running
      value w multiplied by v_i^-1. */
  method CoefficientRow(idx: seq<Int32>, t: nat, R: int, i: nat, w: int) returns (r: Result<int, Failure>)
    requires i < t <= |idx| && R > 1
    requires w == if i == 0 then Prod(idx, t) % R else Coefficient(idx, t, R, i - 1)
    ensures r.Err? <==> exists j :: 0 <= j < t && j != i && idx[j] == idx[i]
    ensures r.Err? ==> r.error == DuplicateIndexes
    ensures r.Ok? ==> r.value == Coefficient(idx, t, R, i)
  {
    var v := Denominator(idx, t, R, i);
    if v.Err? {
      return Err(DuplicateIndexes);
    }
    CoefficientStep(idx, t, R, i, w);
    r := Ok((w * Inv(v.value, R)) % R);
  }

  /** `TE::LagrangeCoeffs`: the error cases, then t coefficients filled into
      a vector of size t. */
  method LagrangeCoeffs(idx: seq<Int32>, t: nat, R: int) returns (res: Result<seq<int>, Failure>)
    requires R > 1
    ensures res == Coeffs(idx, t, R)
  {
    if |idx| < t {
      return Err(NotEnoughParticipants);
    }
    var coeffs := new int[t];
    var w := IndexProduct(idx, t, R);
    var i := 0;
    while i < t
      invariant i <= t
      invariant RowsDistinct(idx, t, i)
      invariant w == if i == 0 then Prod(idx, t) % R else Coefficient(idx, t, R, i - 1)
      invariant coeffs[..i] == seq(i, k requires 0 <= k < i => Coefficient(idx, t, R, k))
    {
      var row := CoefficientRow(idx, t, R, i, w);
      if row.Err? {
        CoeffsOfDuplicateRow(idx, t, R, i);
        return Err(DuplicateIndexes);
      }
      RowsDistinctStep(idx, t, i);
      w := row.value;
      coeffs[i] := w;
      assert coeffs[..i + 1] == coeffs[..i] + [w];
      i := i + 1;
    }
    assert coeffs[..] == coeffs[..t];
    CoeffsOfDistinctRows(idx, t, R, coeffs[..]);
    res := Ok(coeffs[..]);
  }

  // ---------------------------------------------------------------------
  // Only the first t indexes matter

  lemma {:induction false} ProdPrefix(idx1: seq<Int32>, idx2: seq<Int32>, k: nat)
    requires k <= |idx1| && k <= |idx2| && idx1[..k] == idx2[..k]
    ensures Prod(idx1, k) == Prod(idx2, k)
  {
    if k > 0 {
      assert idx1[..k - 1] == idx1[..k][..k - 1];
      assert idx2[..k - 1] == idx2[..k][..k - 1];
      assert idx1[k - 1] == idx1[..k][k - 1];
      assert idx2[k - 1] == idx2[..k][k - 1];
      ProdPrefix(idx1, idx2, k - 1);
    }
  }

  lemma {:induction false} DiffProdPrefix(idx1: seq<Int32>, idx2: seq<Int32>, i: nat, k: nat, t: nat)
    requires i < t && k <= t && t <= |idx1| && t <= |idx2| && idx1[..t] == idx2[..t]
    ensures DiffProd(idx1, i, k) == DiffProd(idx2, i, k)
  {
    assert idx1[i] == idx1[..t][i] && idx2[i] == idx2[..t][i];
    if k > 0 {
      assert idx1[k - 1] == idx1[..t][k - 1] && idx2[k - 1] == idx2[..t][k - 1];
      DiffProdPrefix(idx1, idx2, i, k - 1, t);
    }
  }

  lemma {:induction false} CoefficientPrefix(idx1: seq<Int32>, idx2: seq<Int32>, t: nat, R: int, i: nat)
    requires i < t <= |idx1| && t <= |idx2| && idx1[..t] == idx2[..t] && R > 1
    ensures Coefficient(idx1, t, R, i) == Coefficient(idx2, t, R, i)
  {
    assert idx1[i] == idx1[..t][i] && idx2[i] == idx2[..t][i];
    DiffProdPrefix(idx1, idx2, i, t, t);
    assert Denom(idx1, t, R, i) == Denom(idx2, t, R, i);
    if i == 0 {
      ProdPrefix(idx1, idx2, t);
    } else {
      CoefficientPrefix(idx1, idx2, t, R, i - 1);
    }
  }

  /** `LagrangeCoeffs` reads only idx[0..t): lists that agree there get the
      same coefficients or the same error, whatever follows. */
  lemma CoeffsReadPrefixOnly(idx1: seq<Int32>, idx2: seq<Int32>, t: nat, R: int)
    requires t <= |idx1| && t <= |idx2| && idx1[..t] == idx2[..t] && R > 1
    ensures Coeffs(idx1, t, R) == Coeffs(idx2, t, R)
  {
    forall a | 0 <= a < t
      ensures idx1[a] == idx2[a]
    {
      assert idx1[a] == idx1[..t][a] && idx2[a] == idx2[..t][a];
    }
    assert HasDuplicate(idx1, t) == HasDuplicate(idx2, t);
    if !HasDuplicate(idx1, t) {
      forall k | 0 <= k < t
        ensures Coefficient(idx1, t, R, k) == Coefficient(idx2, t, R, k)
      {
        CoefficientPrefix(idx1, idx2, t, R, k);
      }
      assert Coeffs(idx1, t, R).value == Coeffs(idx2, t, R).value;
    }
  }

  // ---------------------------------------------------------------------
  // The accumulated coefficients

  /** Inv(v_0) * ... * Inv(v_i). */
  function InvProd(idx: seq<Int32>, t: nat, R: int, i: nat): int
    requires i < t <= |idx| && R > 1
  {
    (if i == 0 then 1 else InvProd(idx, t, R, i - 1)) * Inv(Denom(idx, t, R, i), R)
  }

  /** Coefficient i is P * v_0^-1 * ... * v_i^-1 in Zr: the running value w
      is carried from row to row instead of restarting from P. */
  lemma {:induction false} CoefficientIsAccumulatedProduct(idx: seq<Int32>, t: nat, R: int, i: nat)
    requires i < t <= |idx| && R > 1
    ensures Coefficient(idx, t, R, i) == (Prod(idx, t) * InvProd(idx, t, R, i)) % R
  {
    var P, iv := Prod(idx, t), Inv(Denom(idx, t, R, i), R);
    if i == 0 {
      ModMulLeft(P, iv, R);
      assert InvProd(idx, t, R, i) == iv;
    } else {
      var ip := InvProd(idx, t, R, i - 1);
      CoefficientIsAccumulatedProduct(idx, t, R, i - 1);
      ModMulAssoc(P, ip, iv, R);
    }
  }

  lemma ModMulAssoc(p: int, a: int, b: int, R: int)
    requires R > 1
    ensures (((p * a) % R) * b) % R == (p * (a * b)) % R
  {
    ModMulLeft(p * a, b, R);
    assert (p * a) * b == p * (a * b);
  }

  // ---------------------------------------------------------------------
  // Agreement with the textbook coefficient

  /** The first t indexes can be interpolated over Zr: R is prime and the
      indexes are nonzero and pairwise distinct modulo R. */
  ghost predicate Interpolable(idx: seq<Int32>, t: nat, R: int)
    requires t <= |idx|
  {
    IsPrime(R)
    && (forall a :: 0 <= a < t ==> (idx[a] as int) % R != 0)
    && (forall a, b :: 0 <= a < t && 0 <= b < t && a != b ==> ((idx[a] as int) - (idx[b] as int)) % R != 0)
  }

  lemma {:induction false} ProdSplit(idx: seq<Int32>, i: nat, k: nat)
    requires i < k <= |idx|
    ensures Prod(idx, k) == (idx[i] as int) * ProdExcept(idx, i, k)
  {
    if k - 1 == i {
      ProdWithout(idx, i, k - 1);
    } else {
      ProdSplit(idx, i, k - 1);
      var x, q, y := idx[i] as int, ProdExcept(idx, i, k - 1), idx[k - 1] as int;
      assert (x * q) * y == x * (q * y);
    }
  }

  lemma {:induction false} ProdWithout(idx: seq<Int32>, i: nat, k: nat)
    requires k <= i && k <= |idx|
    ensures Prod(idx, k) == ProdExcept(idx, i, k)
  {
    if k > 0 {
      ProdWithout(idx, i, k - 1);
    }
  }

  lemma {:induction false} DiffProdNonzero(idx: seq<Int32>, t: nat, R: int, i: nat, k: nat)
    requires i < t && k <= t <= |idx| && Interpolable(idx, t, R)
    ensures DiffProd(idx, i, k) % R != 0
  {
    if k == 0 {
      assert 1 % R == 1;
    } else {
      DiffProdNonzero(idx, t, R, i, k - 1);
      if k - 1 != i {
        NonzeroProduct(DiffProd(idx, i, k - 1), (idx[k - 1] as int) - (idx[i] as int), R);
      }
    }
  }

  lemma InvOfMod(a: int, R: int)
    requires R > 1
    ensures Inv(a % R, R) == Inv(a, R)
  {
    ModMod(a, R);
  }

  /** With a prime R and nonzero distinct indexes, P * v_i^-1 is the textbook
      coefficient lambda_i = prod_{j != i} x_j / (x_j - x_i): multiplied by the
      product of the differences it gives the product of the other indexes. */
  lemma {:induction false} TextbookRow(idx: seq<Int32>, t: nat, R: int, i: nat)
    requires i < t <= |idx| && Interpolable(idx, t, R)
    ensures ((Prod(idx, t) % R * Inv(Denom(idx, t, R, i), R)) % R * DiffProd(idx, i, t)) % R
            == ProdExcept(idx, i, t) % R
  {
    var x, D, Q := idx[i] as int, DiffProd(idx, i, t), ProdExcept(idx, i, t);
    var P := Prod(idx, t);
    ProdSplit(idx, i, t);
    DiffProdNonzero(idx, t, R, i, t);
    NonzeroProduct(x, D, R);
    InvOfMod(x * D, R);
    var iv := Inv(x * D, R);
    assert Inv(Denom(idx, t, R, i), R) == iv;
    InvCorrect(x * D, R);
    ModMulLeft(P, iv, R);
    ModMulLeft(P * iv, D, R);
    assert (P * iv) * D == Q * ((x * D) * iv) by {
      assert P == x * Q;
      Rearrange4(x, Q, iv, D);
    }
    ModMulLeft((x * D) * iv, Q, R);
    assert ((x * D) * iv) * Q == Q * ((x * D) * iv);
  }

  lemma Rearrange4(x: int, q: int, iv: int, d: int)
    ensures ((x * q) * iv) * d == q * ((x * d) * iv)
  {
  }

  lemma {:induction false} InterpolableDistinct(idx: seq<Int32>, t: nat, R: int)
    requires t <= |idx| && Interpolable(idx, t, R)
    ensures !HasDuplicate(idx, t)
  {
    forall a, b | 0 <= a < t && 0 <= b < t && a != b
      ensures idx[a] != idx[b]
    {
      var d := (idx[a] as int) - (idx[b] as int);
      assert d % R != 0;
      assert 0 % R == 0;
      assert d != 0;
    }
  }

  /** Coefficient 0 returned by `LagrangeCoeffs` is the textbook lambda_0. */
  lemma FirstCoefficientIsLagrange(idx: seq<Int32>, t: nat, R: int)
    requires 1 <= t <= |idx| && Interpolable(idx, t, R)
    ensures Coeffs(idx, t, R).Ok?
    ensures (Coeffs(idx, t, R).value[0] * DiffProd(idx, 0, t)) % R == ProdExcept(idx, 0, t) % R
  {
    InterpolableDistinct(idx, t, R);
    TextbookRow(idx, t, R, 0);
  }

  /** The coefficients the routine evidently intends: w restarts from P in
      every row, so coefficient i is P * v_i^-1. */
  function TextbookCoeffs(idx: seq<Int32>, t: nat, R: int): (r: Result<seq<int>, Failure>)
    requires R > 1
    ensures r.Err? <==> Coeffs(idx, t, R).Err?
    ensures r.Err? ==> r == Coeffs(idx, t, R)
    ensures r.Ok? ==> |r.value| == t
  {
    if |idx| < t then Err(NotEnoughParticipants)
    else if HasDuplicate(idx, t) then Err(DuplicateIndexes)
    else Ok(seq(t, k requires 0 <= k < t => ((Prod(idx, t) % R) * Inv(Denom(idx, t, R, k), R)) % R))
  }

  /** Every textbook coefficient satisfies lambda_i * prod_{j != i}(x_j - x_i)
      == prod_{j != i} x_j, and coefficient 0 agrees with `LagrangeCoeffs`. */
  lemma TextbookCoeffsCorrect(idx: seq<Int32>, t: nat, R: int)
    requires t <= |idx| && Interpolable(idx, t, R)
    ensures TextbookCoeffs(idx, t, R).Ok?
    ensures forall i :: 0 <= i < t ==>
      (TextbookCoeffs(idx, t, R).value[i] * DiffProd(idx, i, t)) % R == ProdExcept(idx, i, t) % R
    ensures t >= 1 ==> TextbookCoeffs(idx, t, R).value[0] == Coeffs(idx, t, R).value[0]
  {
    InterpolableDistinct(idx, t, R);
    forall i | 0 <= i < t
      ensures (TextbookCoeffs(idx, t, R).value[i] * DiffProd(idx, i, t)) % R == ProdExcept(idx, i, t) % R
    {
      TextbookRow(idx, t, R, i);
    }
  }

  /** A single index nonzero in Zr gets the coefficient 1: with t = 1 the
      routine interpolates correctly. */
  lemma SingleCoefficient(idx: seq<Int32>, R: int)
    requires |idx| == 1 && IsPrime(R) && (idx[0] as int) % R != 0
    ensures Coeffs(idx, 1, R) == Ok([1])
  {
    var x := idx[0] as int;
    assert !HasDuplicate(idx, 1);
    assert Prod(idx, 1) == x;
    assert DiffProd(idx, 0, 1) == 1;
    assert Denom(idx, 1, R, 0) == x % R;
    InvOfMod(x, R);
    InvCorrect(x, R);
    ModMulLeft(x, Inv(x, R), R);
    assert Coefficient(idx, 1, R, 0) == 1;
    assert Coeffs(idx, 1, R).value == [1];
  }

  lemma SevenIsPrime()
    ensures IsPrime(7)
  {
    forall d | 1 < d < 7
      ensures !Divides(d, 7)
    {
      assert d == 2 || d == 3 || d == 4 || d == 5 || d == 6;
    }
  }

  lemma InvTwoModSeven()
    ensures Inv(2, 7) == 4
  {
    assert ExtGcd(1, 0) == (1, 1, 0);
    assert ExtGcd(2, 1) == (1, 0, 1);
    assert ExtGcd(7, 2) == (1, 1, -3);
    assert ExtGcd(2, 7) == (1, -3, 1);
  }

  lemma InvFourModSeven()
    ensures Inv(4, 7) == 2
  {
    assert ExtGcd(1, 0) == (1, 1, 0);
    assert ExtGcd(3, 1) == (1, 0, 1);
    assert ExtGcd(4, 3) == (1, 1, -1);
    assert ExtGcd(7, 4) == (1, -1, 2);
    assert ExtGcd(4, 7) == (1, 2, -1);
  }

  /** For R = 7, t = 2 and indexes [2, 3] (valid for interpolation) the
      second coefficient is 6 where the Lagrange coefficient is 5: it fails
      lambda_1 * (x_0 - x_1) == x_0, and the coefficients sum to 2, so even
      shares of a constant polynomial are not reconstructed (the Lagrange
      coefficients always sum to 1). */
  lemma AccumulatedCoefficientCounterexample()
    ensures Interpolable([2, 3], 2, 7)
    ensures Coeffs([2, 3], 2, 7) == Ok([3, 6])
    ensures TextbookCoeffs([2, 3], 2, 7) == Ok([3, 5])
    ensures (6 * DiffProd([2, 3], 1, 2)) % 7 != ProdExcept([2, 3], 1, 2) % 7
    ensures (Coeffs([2, 3], 2, 7).value[0] + Coeffs([2, 3], 2, 7).value[1]) % 7 == 2
    ensures (TextbookCoeffs([2, 3], 2, 7).value[0] + TextbookCoeffs([2, 3], 2, 7).value[1]) % 7 == 1
  {
    var idx: seq<Int32> := [2, 3];
    ResiduesModSeven();
    CounterexampleInterpolable();
    assert !HasDuplicate(idx, 2);
    CounterexampleRows();
    assert Coeffs(idx, 2, 7).value == [3, 6];
    assert TextbookCoeffs(idx, 2, 7).value == [3, 5];
  }

  lemma ResiduesModSeven()
    ensures 9 % 7 == 2 && 8 % 7 == 1 && -6 % 7 == 1 && 2 % 7 == 2
    ensures 6 % 7 == 6 && 12 % 7 == 5 && 24 % 7 == 3
  {
    DivModUnique(6, 7, 0, 6);
    DivModUnique(12, 7, 1, 5);
    DivModUnique(24, 7, 3, 3);
    DivModUnique(9, 7, 1, 2);
    DivModUnique(8, 7, 1, 1);
    DivModUnique(-6, 7, -1, 1);
    DivModUnique(2, 7, 0, 2);
  }

  lemma CounterexampleInterpolable()
    ensures Interpolable([2, 3], 2, 7)
  {
    SevenIsPrime();
  }

  /** The intermediate values of `LagrangeCoeffs` for R = 7 and indexes [2, 3]. */
  lemma CounterexampleRows()
    ensures Prod([2, 3], 2) == 6 && ProdExcept([2, 3], 1, 2) == 2
    ensures DiffProd([2, 3], 1, 2) == -1
    ensures Denom([2, 3], 2, 7, 0) == 2 && Denom([2, 3], 2, 7, 1) == 4
    ensures Coefficient([2, 3], 2, 7, 0) == 3 && Coefficient([2, 3], 2, 7, 1) == 6
  {
    var idx: seq<Int32> := [2, 3];
    assert Prod(idx, 2) == 6;
    assert ProdExcept(idx, 1, 2) == 2;
    assert DiffProd(idx, 0, 2) == 1;
    assert DiffProd(idx, 1, 2) == -1;
    assert Denom(idx, 2, 7, 0) == 2;
    assert Denom(idx, 2, 7, 1) == 4;
    InvTwoModSeven();
    InvFourModSeven();
    assert Coefficient(idx, 2, 7, 0) == 3;
  }
}
