/** 4x4 matrices in exact arithmetic: product, determinant, inverse and point transforms. */
module Matrices {
  import opened Wrappers

  datatype Vec3 = Vec3(x: real, y: real, z: real)

  datatype Row = Row(x: real, y: real, z: real, w: real)

  /** Row a holds coefficients 0 to 3, row d coefficients 12 to 15. */
  datatype Matrix = Matrix(a: Row, b: Row, c: Row, d: Row)

  const IDENTITY := Matrix(E1, E2, E3, E4)

  const ZERO := Matrix(ZERO_ROW, ZERO_ROW, ZERO_ROW, ZERO_ROW)

  const E1 := Row(1.0, 0.0, 0.0, 0.0)
  const E2 := Row(0.0, 1.0, 0.0, 0.0)
  const E3 := Row(0.0, 0.0, 1.0, 0.0)
  const E4 := Row(0.0, 0.0, 0.0, 1.0)
  const ZERO_ROW := Row(0.0, 0.0, 0.0, 0.0)

  function Diagonal(f: real): (r: Matrix) {
    Matrix(Row(f, 0.0, 0.0, 0.0), Row(0.0, f, 0.0, 0.0), Row(0.0, 0.0, f, 0.0), Row(0.0, 0.0, 0.0, f))
  }

  function Translate(t: Vec3): (r: Matrix) {
    Matrix(Row(1.0, 0.0, 0.0, t.x), Row(0.0, 1.0, 0.0, t.y), Row(0.0, 0.0, 1.0, t.z), E4)
  }

  function Transpose(m: Matrix): (r: Matrix) {
    Matrix(
      Row(m.a.x, m.b.x, m.c.x, m.d.x),
      Row(m.a.y, m.b.y, m.c.y, m.d.y),
      Row(m.a.z, m.b.z, m.c.z, m.d.z),
      Row(m.a.w, m.b.w, m.c.w, m.d.w))
  }

  // ----- row arithmetic

  function Add(p: Row, q: Row): (r: Row) {
    Row(p.x + q.x, p.y + q.y, p.z + q.z, p.w + q.w)
  }

  function Times(f: real, p: Row): (r: Row) {
    Row(f * p.x, f * p.y, f * p.z, f * p.w)
  }

  function Negate(p: Row): (r: Row) {
    Row(-p.x, -p.y, -p.z, -p.w)
  }

  function Dot(p: Row, q: Row): (r: real) {
    p.x * q.x + p.y * q.y + p.z * q.z + p.w * q.w
  }

  lemma Distribute(f: real, g: real, h: real)
    ensures f * (g + h) == f * g + f * h && (g + h) * f == g * f + h * f
  {
  }

  lemma Regroup(f: real, g: real, fg: real, h: real)
    requires fg == f * g
    ensures f * (g * h) == fg * h
  {
  }

  lemma Replace(f: real, g: real, h: real)
    requires g == h
    ensures f * g == f * h
  {
  }

  lemma TimesOfAdd(f: real, p: Row, q: Row)
    ensures Times(f, Add(p, q)) == Add(Times(f, p), Times(f, q))
  {
    Distribute(f, p.x, q.x);
    Distribute(f, p.y, q.y);
    Distribute(f, p.z, q.z);
    Distribute(f, p.w, q.w);
  }

  lemma TimesOfSum(f: real, g: real, p: Row)
    ensures Times(f + g, p) == Add(Times(f, p), Times(g, p))
  {
    Distribute(p.x, f, g);
    Distribute(p.y, f, g);
    Distribute(p.z, f, g);
    Distribute(p.w, f, g);
  }

  lemma TimesOfTimes(f: real, g: real, fg: real, p: Row)
    requires fg == f * g
    ensures Times(f, Times(g, p)) == Times(fg, p)
  {
    Regroup(f, g, fg, p.x);
    Regroup(f, g, fg, p.y);
    Regroup(f, g, fg, p.z);
    Regroup(f, g, fg, p.w);
  }

  lemma DotAdd(p: Row, q: Row, s: Row)
    ensures Dot(Add(p, q), s) == Dot(p, s) + Dot(q, s)
  {
    Distribute(s.x, p.x, q.x);
    Distribute(s.y, p.y, q.y);
    Distribute(s.z, p.z, q.z);
    Distribute(s.w, p.w, q.w);
  }

  lemma DotTimes(f: real, p: Row, s: Row)
    ensures Dot(Times(f, p), s) == f * Dot(p, s)
  {
    var t := Times(f, p);
    Regroup(f, p.x, t.x, s.x);
    Regroup(f, p.y, t.y, s.y);
    Regroup(f, p.z, t.z, s.z);
    Regroup(f, p.w, t.w, s.w);
    Distribute(f, p.x * s.x, p.y * s.y);
    Distribute(f, p.x * s.x + p.y * s.y, p.z * s.z);
    Distribute(f, p.x * s.x + p.y * s.y + p.z * s.z, p.w * s.w);
  }

  lemma DotNegate(s: Row, p: Row)
    ensures Dot(s, Negate(p)) == -Dot(s, p)
  {
  }

  // ----- product

  /** A row times a matrix: the linear combination of the matrix's rows. */
  function Combine(r: Row, n: Matrix): (s: Row) {
    Add(Add(Times(r.x, n.a), Times(r.y, n.b)), Add(Times(r.z, n.c), Times(r.w, n.d)))
  }

  function Mul(m: Matrix, n: Matrix): (r: Matrix) {
    Matrix(Combine(m.a, n), Combine(m.b, n), Combine(m.c, n), Combine(m.d, n))
  }

  lemma CombineAdd(p: Row, q: Row, n: Matrix)
    ensures Combine(Add(p, q), n) == Add(Combine(p, n), Combine(q, n))
  {
    TimesOfSum(p.x, q.x, n.a);
    TimesOfSum(p.y, q.y, n.b);
    TimesOfSum(p.z, q.z, n.c);
    TimesOfSum(p.w, q.w, n.d);
  }

  lemma CombineTimes(f: real, p: Row, n: Matrix)
    ensures Combine(Times(f, p), n) == Times(f, Combine(p, n))
  {
    CombineMultiple(f, p, Times(f, p), n);
  }

  lemma CombineMultiple(f: real, p: Row, t: Row, n: Matrix)
    requires t.x == f * p.x && t.y == f * p.y && t.z == f * p.z && t.w == f * p.w
    ensures Combine(t, n) == Times(f, Combine(p, n))
  {
    TimesOfTimes(f, p.x, t.x, n.a);
    TimesOfTimes(f, p.y, t.y, n.b);
    TimesOfTimes(f, p.z, t.z, n.c);
    TimesOfTimes(f, p.w, t.w, n.d);
    TimesOfSums(f, Times(p.x, n.a), Times(p.y, n.b), Times(p.z, n.c), Times(p.w, n.d));
  }

  lemma TimesOfSums(f: real, a: Row, b: Row, c: Row, d: Row)
    ensures Times(f, Add(Add(a, b), Add(c, d)))
         == Add(Add(Times(f, a), Times(f, b)), Add(Times(f, c), Times(f, d)))
  {
    TimesOfAdd(f, a, b);
    TimesOfAdd(f, c, d);
    TimesOfAdd(f, Add(a, b), Add(c, d));
  }

  lemma CombineAssociative(r: Row, n: Matrix, o: Matrix)
    ensures Combine(Combine(r, n), o) == Combine(r, Mul(n, o))
  {
    var a, b, c, d := Times(r.x, n.a), Times(r.y, n.b), Times(r.z, n.c), Times(r.w, n.d);
    CombineAdd(Add(a, b), Add(c, d), o);
    CombineAdd(a, b, o);
    CombineAdd(c, d, o);
    CombineTimes(r.x, n.a, o);
    CombineTimes(r.y, n.b, o);
    CombineTimes(r.z, n.c, o);
    CombineTimes(r.w, n.d, o);
  }

  lemma MulAssociative(m: Matrix, n: Matrix, o: Matrix)
    ensures Mul(Mul(m, n), o) == Mul(m, Mul(n, o))
  {
    CombineAssociative(m.a, n, o);
    CombineAssociative(m.b, n, o);
    CombineAssociative(m.c, n, o);
    CombineAssociative(m.d, n, o);
  }

  lemma TimesUnit(f: real)
    ensures Times(f, E1) == Row(f, 0.0, 0.0, 0.0) && Times(f, E2) == Row(0.0, f, 0.0, 0.0)
    ensures Times(f, E3) == Row(0.0, 0.0, f, 0.0) && Times(f, E4) == Row(0.0, 0.0, 0.0, f)
  {
    assert f * 1.0 == f && f * 0.0 == 0.0;
  }

  lemma TimesConstant(p: Row)
    ensures Times(1.0, p) == p && Times(0.0, p) == ZERO_ROW
  {
  }

  lemma CombineUnit(n: Matrix)
    ensures Combine(E1, n) == n.a && Combine(E2, n) == n.b && Combine(E3, n) == n.c && Combine(E4, n) == n.d
  {
    TimesConstant(n.a);
    TimesConstant(n.b);
    TimesConstant(n.c);
    TimesConstant(n.d);
  }

  lemma CombineIdentity(r: Row)
    ensures Combine(r, IDENTITY) == r
  {
    TimesUnit(r.x);
    TimesUnit(r.y);
    TimesUnit(r.z);
    TimesUnit(r.w);
  }

  lemma MulByIdentity(m: Matrix)
    ensures Mul(m, IDENTITY) == m
  {
    CombineIdentity(m.a);
    CombineIdentity(m.b);
    CombineIdentity(m.c);
    CombineIdentity(m.d);
  }

  lemma MulOfIdentity(m: Matrix)
    ensures Mul(IDENTITY, m) == m
  {
    CombineUnit(m);
  }

  /** The four products of a row with the columns. */
  lemma CombineIsDots(r: Row, n: Matrix)
    ensures var t := Transpose(n);
            Combine(r, n) == Row(Dot(r, t.a), Dot(r, t.b), Dot(r, t.c), Dot(r, t.d))
  {
  }

  function Data(m: Matrix): (s: seq<real>)
    ensures |s| == 16
  {
    RowData(m.a) + RowData(m.b) + RowData(m.c) + RowData(m.d)
  }

  function RowData(r: Row): (s: seq<real>)
    ensures |s| == 4
  {
    [r.x, r.y, r.z, r.w]
  }

  function RowOf(m: Matrix, i: nat): (r: Row)
    requires i < 4
  {
    if i == 0 then m.a else if i == 1 then m.b else if i == 2 then m.c else m.d
  }

  lemma DataAt(m: Matrix, i: nat, j: nat)
    requires i < 4 && j < 4
    ensures Data(m)[i * 4 + j] == RowData(RowOf(m, i))[j]
  {
  }

  /** The partial sum of the innermost loop. */
  function PartialDot(p: seq<real>, q: seq<real>, k: nat): (r: real)
    requires |p| == 4 && |q| == 4 && k <= 4
  {
    if k == 0 then 0.0 else PartialDot(p, q, k - 1) + p[k - 1] * q[k - 1]
  }

  lemma PartialDotIsDot(p: Row, q: Row)
    ensures PartialDot(RowData(p), RowData(q), 4) == Dot(p, q)
  {
    var s, t := RowData(p), RowData(q);
    assert PartialDot(s, t, 1) == p.x * q.x;
    assert PartialDot(s, t, 2) == p.x * q.x + p.y * q.y;
    assert PartialDot(s, t, 3) == p.x * q.x + p.y * q.y + p.z * q.z;
  }

  lemma ProductCell(m: Matrix, n: Matrix, i: nat, j: nat)
    requires i < 4 && j < 4
    ensures Data(Mul(m, n))[i * 4 + j] == Dot(RowOf(m, i), RowOf(Transpose(n), j))
  {
    DataAt(Mul(m, n), i, j);
    CombineIsDots(RowOf(m, i), n);
  }

  lemma ColumnAt(n: Matrix, k: nat, j: nat)
    requires k < 4 && j < 4
    ensures RowData(RowOf(Transpose(n), j))[k] == Data(n)[k * 4 + j]
  {
    DataAt(n, k, j);
  }

  /** One cell: the innermost loop. */
  method ProductOfRowAndColumn(mat1: seq<real>, mat2: seq<real>, i: nat, j: nat, ghost m: Matrix, ghost n: Matrix)
    returns (r: real)
    requires mat1 == Data(m) && mat2 == Data(n) && i < 4 && j < 4
    ensures r == Data(Mul(m, n))[i * 4 + j]
  {
    ghost var p, q := RowData(RowOf(m, i)), RowData(RowOf(Transpose(n), j));
    r := 0.0;
    for k := 0 to 4
      invariant r == PartialDot(p, q, k)
    {
      DataAt(m, i, k);
      ColumnAt(n, k, j);
      r := r + mat1[i * 4 + k] * mat2[k * 4 + j];
    }
    PartialDotIsDot(RowOf(m, i), RowOf(Transpose(n), j));
    ProductCell(m, n, i, j);
  }

  /** The loops of the matrix product compute the product of the matrices. */
  method Product(mat1: seq<real>, mat2: seq<real>, ghost m: Matrix, ghost n: Matrix) returns (result: seq<real>)
    requires mat1 == Data(m) && mat2 == Data(n)
    ensures result == Data(Mul(m, n))
  {
    result := [];
    for i := 0 to 4
      invariant result == Data(Mul(m, n))[..i * 4]
    {
      for j := 0 to 4
        invariant result == Data(Mul(m, n))[..i * 4 + j]
      {
        var cell := ProductOfRowAndColumn(mat1, mat2, i, j, m, n);
        result := result + [cell];
      }
    }
  }

  // ----- point transforms

  /** The last row that point transforms expect. */
  predicate Affine(m: Matrix) {
    m.d == E4
  }

  function Lift(v: Vec3): (r: Row) {
    Row(v.x, v.y, v.z, 1.0)
  }

  /** The coordinates of the image. Whether there is an image at all is up to `Passes`. */
  function Apply(m: Matrix, v: Vec3): (r: Vec3) {
    Vec3(Dot(m.a, Lift(v)), Dot(m.b, Lift(v)), Dot(m.c, Lift(v)))
  }

  /** How far a coefficient of the last row may be off. */
  const TOLERANCE: real := 0.00001

  predicate Near(f: real, g: real) {
    -TOLERANCE <= f - g <= TOLERANCE
  }

  /** The check of the last row that every transformation of a point makes. */
  predicate Passes(m: Matrix) {
    Near(m.d.x, 0.0) && Near(m.d.y, 0.0) && Near(m.d.z, 0.0) && Near(m.d.w, 1.0)
  }

  /** A coefficient of the last row differs from that of an affine matrix by more than 1e-5. */
  ghost predicate LastRowIsOff(m: Matrix) {
    || m.d.x > 0.00001 || m.d.y > 0.00001 || m.d.z > 0.00001 || m.d.w > 1.00001
    || m.d.x < -0.00001 || m.d.y < -0.00001 || m.d.z < -0.00001 || m.d.w < 0.99999
  }

  lemma {:induction false} CheckIsExact(m: Matrix, v: Vec3)
    ensures Checked(m, v) == None <==> LastRowIsOff(m)
    ensures Passes(m) <==> !LastRowIsOff(m)
  {
  }

  /** The transformation of a point: when the matrix does not pass the check, the process ends. */
  function Checked(m: Matrix, v: Vec3): (r: Option<Vec3>) {
    if Passes(m) then Some(Apply(m, v)) else None
  }

  function ApplyRow(m: Matrix, p: Row): (r: Row) {
    Row(Dot(m.a, p), Dot(m.b, p), Dot(m.c, p), Dot(m.d, p))
  }

  lemma DotCombine(r: Row, n: Matrix, p: Row)
    ensures Dot(Combine(r, n), p) == Dot(r, ApplyRow(n, p))
  {
    var a, b, c, d := Times(r.x, n.a), Times(r.y, n.b), Times(r.z, n.c), Times(r.w, n.d);
    DotAdd(Add(a, b), Add(c, d), p);
    DotAdd(a, b, p);
    DotAdd(c, d, p);
    DotTimes(r.x, n.a, p);
    DotTimes(r.y, n.b, p);
    DotTimes(r.z, n.c, p);
    DotTimes(r.w, n.d, p);
  }

  /** Transforming by a product is transforming twice, when the inner matrix is affine. */
  lemma ApplyProduct(m: Matrix, n: Matrix, v: Vec3)
    requires Affine(n)
    ensures Apply(Mul(m, n), v) == Apply(m, Apply(n, v))
  {
    assert ApplyRow(n, Lift(v)) == Lift(Apply(n, v));
    DotCombine(m.a, n, Lift(v));
    DotCombine(m.b, n, Lift(v));
    DotCombine(m.c, n, Lift(v));
  }

  // ----- determinant and inverse

  /** The twelve terms of the determinant of the matrix with rows s, p, q, r. */
  function Det(s: Row, p: Row, q: Row, r: Row): (d: real) {
    (s.x * p.y) * (q.z * r.w - q.w * r.z) + (s.x * p.z) * (q.w * r.y - q.y * r.w)
    + (s.x * p.w) * (q.y * r.z - q.z * r.y)
    + -(s.y * p.x) * (q.z * r.w - q.w * r.z) + -(s.y * p.z) * (q.w * r.x - q.x * r.w)
    + -(s.y * p.w) * (q.x * r.z - q.z * r.x)
    + (s.z * p.x) * (q.y * r.w - q.w * r.y) + (s.z * p.y) * (q.w * r.x - q.x * r.w)
    + (s.z * p.w) * (q.x * r.y - q.y * r.x)
    + -(s.w * p.x) * (q.y * r.z - q.z * r.y) + -(s.w * p.y) * (q.z * r.x - q.x * r.z)
    + -(s.w * p.z) * (q.x * r.y - q.y * r.x)
  }

  function Determinant(m: Matrix): (d: real) {
    Det(m.a, m.b, m.c, m.d)
  }

  /** The bracketed expressions that one column of the inverse is made of. */
  function Cofactors(p: Row, q: Row, r: Row): (e: Row) {
    Row(
      p.y * (q.z * r.w - q.w * r.z) + p.z * (q.w * r.y - q.y * r.w) + p.w * (q.y * r.z - q.z * r.y),
      -(p.x * (q.z * r.w - q.w * r.z) + p.z * (q.w * r.x - q.x * r.w) + p.w * (q.x * r.z - q.z * r.x)),
      p.x * (q.y * r.w - q.w * r.y) + p.y * (q.w * r.x - q.x * r.w) + p.w * (q.x * r.y - q.y * r.x),
      -(p.x * (q.y * r.z - q.z * r.y) + p.y * (q.z * r.x - q.x * r.z) + p.z * (q.x * r.y - q.y * r.x)))
  }

  function CofactorRows(m: Matrix): (r: Matrix) {
    Matrix(
      Cofactors(m.b, m.c, m.d),
      Negate(Cofactors(m.a, m.c, m.d)),
      Cofactors(m.a, m.b, m.d),
      Negate(Cofactors(m.a, m.b, m.c)))
  }

  function Adjugate(m: Matrix): (r: Matrix) {
    Transpose(CofactorRows(m))
  }

  function Scale(f: real, m: Matrix): (r: Matrix) {
    Matrix(Times(f, m.a), Times(f, m.b), Times(f, m.c), Times(f, m.d))
  }

  /** A singular matrix is reported and "inverted" to zero. */
  function Inverse(m: Matrix): (r: Matrix) {
    if Determinant(m) == 0.0 then ZERO else Scale(1.0 / Determinant(m), Adjugate(m))
  }

  /** Expansion along the first row. */
  lemma Laplace(s: Row, p: Row, q: Row, r: Row)
    ensures Dot(s, Cofactors(p, q, r)) == Det(s, p, q, r)
  {
    var e := Cofactors(p, q, r);
    Replace(s.x, e.x, p.y * (q.z * r.w - q.w * r.z) + p.z * (q.w * r.y - q.y * r.w) + p.w * (q.y * r.z - q.z * r.y));
    Replace(s.y, e.y, -(p.x * (q.z * r.w - q.w * r.z) + p.z * (q.w * r.x - q.x * r.w) + p.w * (q.x * r.z - q.z * r.x)));
    Replace(s.z, e.z, p.x * (q.y * r.w - q.w * r.y) + p.y * (q.w * r.x - q.x * r.w) + p.w * (q.x * r.y - q.y * r.x));
    Replace(s.w, e.w, -(p.x * (q.y * r.z - q.z * r.y) + p.y * (q.z * r.x - q.x * r.z) + p.z * (q.x * r.y - q.y * r.x)));
  }

  lemma DetRepeatedRow(p: Row, q: Row, r: Row)
    ensures Det(p, p, q, r) == 0.0 && Det(q, p, q, r) == 0.0 && Det(r, p, q, r) == 0.0
  {
  }

  lemma DetSwappedRows(s: Row, p: Row, q: Row, r: Row)
    ensures Det(p, s, q, r) == -Det(s, p, q, r)
    ensures Det(q, s, p, r) == Det(s, p, q, r)
    ensures Det(r, s, p, q) == -Det(s, p, q, r)
  {
  }

  lemma RowTimesAdjugate(s: Row, m: Matrix)
    ensures Combine(s, Adjugate(m)) ==
            Row(Det(s, m.b, m.c, m.d), -Det(s, m.a, m.c, m.d), Det(s, m.a, m.b, m.d), -Det(s, m.a, m.b, m.c))
  {
    CombineIsDots(s, Adjugate(m));
    Laplace(s, m.b, m.c, m.d);
    Laplace(s, m.a, m.c, m.d);
    Laplace(s, m.a, m.b, m.d);
    Laplace(s, m.a, m.b, m.c);
    DotNegate(s, Cofactors(m.a, m.c, m.d));
    DotNegate(s, Cofactors(m.a, m.b, m.c));
  }

  lemma AdjugateRight(m: Matrix)
    ensures Mul(m, Adjugate(m)) == Diagonal(Determinant(m))
  {
    RowTimesAdjugate(m.a, m);
    RowTimesAdjugate(m.b, m);
    RowTimesAdjugate(m.c, m);
    RowTimesAdjugate(m.d, m);
    DetSwappedRows(m.a, m.b, m.c, m.d);
    DetRepeatedRow(m.b, m.c, m.d);
    DetRepeatedRow(m.a, m.c, m.d);
    DetRepeatedRow(m.a, m.b, m.d);
    DetRepeatedRow(m.a, m.b, m.c);
  }

  lemma DotSymmetric(p: Row, q: Row)
    ensures Dot(p, q) == Dot(q, p)
  {
  }

  lemma CombineTransposed(r: Row, n: Matrix)
    ensures var t := Transpose(n);
            Combine(r, n) == Row(Dot(t.a, r), Dot(t.b, r), Dot(t.c, r), Dot(t.d, r))
  {
    CombineIsDots(r, n);
    var t := Transpose(n);
    DotSymmetric(r, t.a);
    DotSymmetric(r, t.b);
    DotSymmetric(r, t.c);
    DotSymmetric(r, t.d);
  }

  lemma TransposeOfProduct(m: Matrix, n: Matrix)
    ensures Transpose(Mul(m, n)) == Mul(Transpose(n), Transpose(m))
  {
    CombineTransposed(m.a, n);
    CombineTransposed(m.b, n);
    CombineTransposed(m.c, n);
    CombineTransposed(m.d, n);
    var t := Transpose(n);
    assert Transpose(Transpose(m)) == m;
    CombineIsDots(t.a, Transpose(m));
    CombineIsDots(t.b, Transpose(m));
    CombineIsDots(t.c, Transpose(m));
    CombineIsDots(t.d, Transpose(m));
  }

  lemma DeterminantOfTranspose(m: Matrix)
    ensures Determinant(Transpose(m)) == Determinant(m)
  {
  }

  lemma CofactorsOfTransposeA(m: Matrix)
    ensures var t, k := Transpose(m), Transpose(CofactorRows(m)); Cofactors(t.b, t.c, t.d) == k.a
  {
  }

  lemma CofactorsOfTransposeB(m: Matrix)
    ensures var t, k := Transpose(m), Transpose(CofactorRows(m)); Negate(Cofactors(t.a, t.c, t.d)) == k.b
  {
  }

  lemma CofactorsOfTransposeC(m: Matrix)
    ensures var t, k := Transpose(m), Transpose(CofactorRows(m)); Cofactors(t.a, t.b, t.d) == k.c
  {
  }

  lemma CofactorsOfTransposeD(m: Matrix)
    ensures var t, k := Transpose(m), Transpose(CofactorRows(m)); Negate(Cofactors(t.a, t.b, t.c)) == k.d
  {
  }

  lemma AdjugateLeft(m: Matrix)
    ensures Mul(Adjugate(m), m) == Diagonal(Determinant(m))
  {
    var t := Transpose(m);
    CofactorsOfTransposeA(m);
    CofactorsOfTransposeB(m);
    CofactorsOfTransposeC(m);
    CofactorsOfTransposeD(m);
    assert CofactorRows(t) == Adjugate(m);
    AdjugateRight(t);
    DeterminantOfTranspose(m);
    TransposeOfProduct(Adjugate(m), m);
    assert Transpose(Transpose(Mul(Adjugate(m), m))) == Mul(Adjugate(m), m);
  }

  /** Two factors in either order. */
  lemma SwapTimes(f: real, g: real, p: Row)
    ensures Times(f, Times(g, p)) == Times(g, Times(f, p))
  {
    var fg := f * g;
    assert fg == g * f;
    TimesOfTimes(f, g, fg, p);
    TimesOfTimes(g, f, fg, p);
  }

  lemma CombineScaled(f: real, r: Row, n: Matrix)
    ensures Combine(r, Scale(f, n)) == Times(f, Combine(r, n))
  {
    SwapTimes(r.x, f, n.a);
    SwapTimes(r.y, f, n.b);
    SwapTimes(r.z, f, n.c);
    SwapTimes(r.w, f, n.d);
    TimesOfSums(f, Times(r.x, n.a), Times(r.y, n.b), Times(r.z, n.c), Times(r.w, n.d));
  }

  lemma MulScaled(f: real, m: Matrix, n: Matrix)
    ensures Mul(m, Scale(f, n)) == Scale(f, Mul(m, n)) && Mul(Scale(f, m), n) == Scale(f, Mul(m, n))
  {
    CombineScaled(f, m.a, n);
    CombineScaled(f, m.b, n);
    CombineScaled(f, m.c, n);
    CombineScaled(f, m.d, n);
    CombineTimes(f, m.a, n);
    CombineTimes(f, m.b, n);
    CombineTimes(f, m.c, n);
    CombineTimes(f, m.d, n);
  }

  lemma ScaledDiagonal(f: real, det: real)
    requires f * det == 1.0
    ensures Scale(f, Diagonal(det)) == IDENTITY
  {
    assert f * 0.0 == 0.0;
  }

  lemma MulZero(m: Matrix)
    ensures Mul(ZERO, m) == ZERO && Mul(m, ZERO) == ZERO
  {
    TimesConstant(m.a);
    TimesConstant(m.b);
    TimesConstant(m.c);
    TimesConstant(m.d);
    CombineZero(m.a);
    CombineZero(m.b);
    CombineZero(m.c);
    CombineZero(m.d);
  }

  lemma CombineZero(r: Row)
    ensures Combine(r, ZERO) == ZERO_ROW
  {
    TimesZeroRow(r.x);
    TimesZeroRow(r.y);
    TimesZeroRow(r.z);
    TimesZeroRow(r.w);
  }

  lemma TimesZeroRow(f: real)
    ensures Times(f, ZERO_ROW) == ZERO_ROW
  {
    assert f * 0.0 == 0.0;
  }

  /** The inverse is a two-sided inverse exactly for the matrices with a non-zero determinant. */
  lemma InverseIsInverse(m: Matrix)
    ensures Determinant(m) != 0.0 <==> Mul(m, Inverse(m)) == IDENTITY
    ensures Determinant(m) != 0.0 <==> Mul(Inverse(m), m) == IDENTITY
  {
    var det := Determinant(m);
    if det == 0.0 {
      MulZero(m);
    } else {
      var f := 1.0 / det;
      ScaledDiagonal(f, det);
      AdjugateRight(m);
      AdjugateLeft(m);
      MulScaled(f, m, Adjugate(m));
      MulScaled(f, Adjugate(m), m);
    }
  }

  lemma NoLastCofactor(p: Row, q: Row, r: Row)
    requires r == E4
    ensures Cofactors(p, q, r).w == 0.0 && Negate(Cofactors(p, q, r)).w == 0.0
  {
  }

  lemma AffineDeterminant(s: Row, p: Row, q: Row, r: Row)
    requires r == E4
    ensures Det(s, p, q, r) == Negate(Cofactors(s, p, q)).w
  {
  }

  lemma LastRowOfAdjugate(m: Matrix, det: real)
    requires Affine(m) && det == Determinant(m)
    ensures Adjugate(m).d == Row(0.0, 0.0, 0.0, det)
  {
    NoLastCofactor(m.b, m.c, m.d);
    NoLastCofactor(m.a, m.c, m.d);
    NoLastCofactor(m.a, m.b, m.d);
    AffineDeterminant(m.a, m.b, m.c, m.d);
  }

  lemma ScaledLastRow(f: real, det: real, m: Matrix)
    requires m.d == Row(0.0, 0.0, 0.0, det) && f * det == 1.0
    ensures Scale(f, m).d == E4
  {
    assert f * 0.0 == 0.0;
  }

  lemma AffineProduct(m: Matrix, n: Matrix)
    requires Affine(m) && Affine(n)
    ensures Affine(Mul(m, n))
  {
    CombineUnit(n);
  }

  lemma Reciprocal(det: real)
    requires det != 0.0
    ensures 1.0 / det * det == 1.0
  {
  }

  lemma AffineInverse(m: Matrix)
    requires Affine(m) && Determinant(m) != 0.0
    ensures Affine(Inverse(m))
  {
    var det := Determinant(m);
    LastRowOfAdjugate(m, det);
    Reciprocal(det);
    ScaledLastRow(1.0 / det, det, Adjugate(m));
  }

  /** The matrices with the affine last row are closed under product and inverse. */
  lemma AffineClosed(m: Matrix, n: Matrix)
    requires Affine(m) && Affine(n)
    ensures Affine(Mul(m, n))
    ensures Determinant(m) != 0.0 ==> Affine(Inverse(m))
  {
    AffineProduct(m, n);
    if Determinant(m) != 0.0 {
      AffineInverse(m);
    }
  }

  // ----- translations

  ghost predicate IsTranslation(m: Matrix) {
    exists t: Vec3 :: m == Translate(t)
  }

  lemma DeterminantOfTranslation(x: real, y: real, z: real)
    ensures Det(Row(1.0, 0.0, 0.0, x), Row(0.0, 1.0, 0.0, y), Row(0.0, 0.0, 1.0, z), E4) == 1.0
  {
  }

  /** Translations are affine and invertible. */
  lemma TranslationIsInvertible(m: Matrix)
    requires IsTranslation(m)
    ensures Affine(m) && Determinant(m) == 1.0
  {
    var t :| m == Translate(t);
    DeterminantOfTranslation(t.x, t.y, t.z);
  }

  lemma ShiftX(n: Vec3, t: real)
    ensures Combine(Row(1.0, 0.0, 0.0, t), Translate(n)) == Row(1.0, 0.0, 0.0, t + n.x)
  {
    TimesConstant(Translate(n).a);
    TimesConstant(Translate(n).b);
    TimesConstant(Translate(n).c);
    TimesUnit(t);
  }

  lemma ShiftY(n: Vec3, t: real)
    ensures Combine(Row(0.0, 1.0, 0.0, t), Translate(n)) == Row(0.0, 1.0, 0.0, t + n.y)
  {
    TimesConstant(Translate(n).a);
    TimesConstant(Translate(n).b);
    TimesConstant(Translate(n).c);
    TimesUnit(t);
  }

  lemma ShiftZ(n: Vec3, t: real)
    ensures Combine(Row(0.0, 0.0, 1.0, t), Translate(n)) == Row(0.0, 0.0, 1.0, t + n.z)
  {
    TimesConstant(Translate(n).a);
    TimesConstant(Translate(n).b);
    TimesConstant(Translate(n).c);
    TimesUnit(t);
  }

  lemma ShiftedRowA(s: Vec3, t: Vec3)
    ensures Combine(Translate(s).a, Translate(t)) == Row(1.0, 0.0, 0.0, s.x + t.x)
  {
    ShiftX(t, s.x);
  }

  lemma ShiftedRowB(s: Vec3, t: Vec3)
    ensures Combine(Translate(s).b, Translate(t)) == Row(0.0, 1.0, 0.0, s.y + t.y)
  {
    ShiftY(t, s.y);
  }

  lemma ShiftedRowC(s: Vec3, t: Vec3)
    ensures Combine(Translate(s).c, Translate(t)) == Row(0.0, 0.0, 1.0, s.z + t.z)
  {
    ShiftZ(t, s.z);
  }

  lemma ShiftedRowD(s: Vec3, t: Vec3)
    ensures Combine(Translate(s).d, Translate(t)) == E4
  {
    CombineUnit(Translate(t));
  }

  lemma MulOfShifts(m: Matrix, n: Matrix, s: Vec3, t: Vec3)
    requires Combine(m.a, n) == Row(1.0, 0.0, 0.0, s.x + t.x) && Combine(m.b, n) == Row(0.0, 1.0, 0.0, s.y + t.y)
    requires Combine(m.c, n) == Row(0.0, 0.0, 1.0, s.z + t.z) && Combine(m.d, n) == E4
    ensures Mul(m, n) == Translate(Vec3(s.x + t.x, s.y + t.y, s.z + t.z))
  {
  }

  lemma TranslateTwice(m: Matrix, n: Matrix, s: Vec3, t: Vec3)
    requires m == Translate(s) && n == Translate(t)
    ensures Mul(m, n) == Translate(Vec3(s.x + t.x, s.y + t.y, s.z + t.z))
  {
    ShiftedRowA(s, t);
    ShiftedRowB(s, t);
    ShiftedRowC(s, t);
    ShiftedRowD(s, t);
    MulOfShifts(m, n, s, t);
  }

  lemma TranslateTwiceTo(m: Matrix, n: Matrix, s: Vec3, t: Vec3, r: Matrix)
    requires m == Translate(s) && n == Translate(t) && r == Translate(Vec3(s.x + t.x, s.y + t.y, s.z + t.z))
    ensures Mul(m, n) == r
  {
    TranslateTwice(m, n, s, t);
  }

  /** Translations are closed under product. */
  lemma TranslationsClosed(m: Matrix, n: Matrix)
    requires IsTranslation(m) && IsTranslation(n)
    ensures IsTranslation(Mul(m, n))
  {
    var s :| m == Translate(s);
    var t :| n == Translate(t);
    TranslateTwice(m, n, s, t);
  }

  /** Undoing a placement and applying it again gives the original transform. */
  lemma CorrectionCancels(placement: Matrix, original: Matrix, v: Vec3)
    requires Affine(placement) && Determinant(placement) != 0.0 && Affine(original)
    ensures Apply(placement, Apply(Mul(Inverse(placement), original), v)) == Apply(original, v)
  {
    AffineClosed(placement, original);
    AffineClosed(Inverse(placement), original);
    ApplyProduct(placement, Mul(Inverse(placement), original), v);
    MulAssociative(placement, Inverse(placement), original);
    InverseIsInverse(placement);
    MulOfIdentity(original);
  }

  lemma InverseIsUnique(inverse: Matrix, m: Matrix, n: Matrix)
    requires Mul(inverse, m) == IDENTITY && Mul(m, n) == IDENTITY
    ensures inverse == n
  {
    MulAssociative(inverse, m, n);
    MulOfIdentity(n);
    MulByIdentity(inverse);
  }

  lemma InverseOfTranslation(m: Matrix, n: Matrix, t: Vec3)
    requires m == Translate(t) && n == Translate(Vec3(-t.x, -t.y, -t.z))
    ensures Inverse(m) == n
  {
    TranslationIsInvertible(m);
    InverseIsInverse(m);
    OppositeTranslations(m, n, t);
    InverseIsUnique(Inverse(m), m, n);
  }

  lemma OppositeTranslations(m: Matrix, n: Matrix, t: Vec3)
    requires m == Translate(t) && n == Translate(Vec3(-t.x, -t.y, -t.z))
    ensures Mul(m, n) == IDENTITY
  {
    assert IDENTITY == Translate(Vec3(0.0, 0.0, 0.0));
    TranslateTwiceTo(m, n, t, Vec3(-t.x, -t.y, -t.z), IDENTITY);
  }

  lemma ApplyOfTranslation(t: Vec3, x: real, y: real, z: real)
    ensures Apply(Translate(t), Vec3(x, y, z)) == Vec3(x + t.x, y + t.y, z + t.z)
  {
  }

  /** A point moved along a vector. */
  function Along(p: Vec3, t: Vec3, f: real): (r: Vec3) {
    Vec3(p.x + t.x * f, p.y + t.y * f, p.z + t.z * f)
  }

  function Opposite(t: Vec3): (r: Vec3) {
    Vec3(-t.x, -t.y, -t.z)
  }

  /** Where a vertex is seen that was corrected for a placement by a translation: at its original place,
      up to the translation times what the last row of the original is off. */
  function SeenFrom(placement: Matrix, original: Matrix, v: Vec3): (r: Vec3) {
    Along(Apply(original, v), Vec3(placement.a.w, placement.b.w, placement.c.w), 1.0 - Dot(original.d, Lift(v)))
  }

  lemma CorrectionIsSeen(placement: Matrix, t: Vec3, original: Matrix, v: Vec3)
    requires placement == Translate(t)
    ensures Apply(placement, Apply(Mul(Inverse(placement), original), v)) == SeenFrom(placement, original, v)
  {
    var corrected, p, w := CorrectedVertex(placement, t, original, v);
    PlacedAgain(placement, t, p, w, corrected);
  }

  /** The inverse of a translation moves a vertex back by what its last row evaluates to. */
  lemma CorrectedVertex(placement: Matrix, t: Vec3, original: Matrix, v: Vec3)
    returns (corrected: Vec3, p: Vec3, w: real)
    requires placement == Translate(t)
    ensures p == Apply(original, v) && w == Dot(original.d, Lift(v))
    ensures corrected == Apply(Mul(Inverse(placement), original), v)
    ensures corrected == Along(p, Opposite(t), w)
  {
    InverseOfTranslation(placement, Translate(Opposite(t)), t);
    var q := ApplyOuter(Inverse(placement), original, v);
    corrected := ShiftedRow(Inverse(placement), Opposite(t), q);
    p, w := Vec3(q.x, q.y, q.z), q.w;
  }

  lemma PlacedAgain(placement: Matrix, t: Vec3, p: Vec3, w: real, corrected: Vec3)
    requires placement == Translate(t) && corrected == Along(p, Opposite(t), w)
    ensures Apply(placement, corrected) == Along(p, t, 1.0 - w)
  {
    ApplyOfTranslation(t, corrected.x, corrected.y, corrected.z);
    BackAndForth(p.x, t.x, w, 1.0 - w);
    BackAndForth(p.y, t.y, w, 1.0 - w);
    BackAndForth(p.z, t.z, w, 1.0 - w);
  }

  lemma BackAndForth(p: real, t: real, w: real, off: real)
    requires off == 1.0 - w
    ensures p + -t * w + t == p + t * off
  {
  }

  /** The correction passes the check exactly when the original does. */
  lemma CorrectionPasses(placement: Matrix, t: Vec3, original: Matrix)
    requires placement == Translate(t)
    ensures Passes(Mul(Inverse(placement), original)) <==> Passes(original)
  {
    InverseOfTranslation(placement, Translate(Vec3(-t.x, -t.y, -t.z)), t);
    CombineUnit(original);
  }

  /** Correcting a vertex ends the process exactly when transforming it by the original does. Otherwise the
      corrected vertex, once placed, is where the original puts it exactly where the last row evaluates to
      one, or where there is nothing to correct. */
  lemma CorrectionNeedsLastRow(placement: Matrix, t: Vec3, original: Matrix, v: Vec3)
    requires placement == Translate(t)
    ensures var corrected := Checked(Mul(Inverse(placement), original), v);
            && (corrected.None? <==> Checked(original, v).None?)
            && (corrected.Some? ==>
                  (Checked(placement, corrected.value) == Checked(original, v)
                   <==> Dot(original.d, Lift(v)) == 1.0 || t == Vec3(0.0, 0.0, 0.0)))
  {
    CorrectionPasses(placement, t, original);
    CorrectionIsSeen(placement, t, original, v);
    SeenInPlace(placement, t, original, v);
  }

  lemma SeenInPlace(placement: Matrix, t: Vec3, original: Matrix, v: Vec3)
    requires placement == Translate(t)
    ensures SeenFrom(placement, original, v) == Apply(original, v)
            <==> Dot(original.d, Lift(v)) == 1.0 || t == Vec3(0.0, 0.0, 0.0)
  {
    var w := Dot(original.d, Lift(v));
    NoOffset(t.x, 1.0 - w);
    NoOffset(t.y, 1.0 - w);
    NoOffset(t.z, 1.0 - w);
  }

  lemma AffineIsSeenInPlace(placement: Matrix, t: Vec3, original: Matrix, v: Vec3)
    requires placement == Translate(t) && Affine(original)
    ensures SeenFrom(placement, original, v) == Apply(original, v)
  {
    DotLift(E4, v.x, v.y, v.z);
    SeenInPlace(placement, t, original, v);
  }

  lemma NoOffset(t: real, off: real)
    ensures t * off == 0.0 <==> t == 0.0 || off == 0.0
  {
    if t != 0.0 && t * off == 0.0 {
      assert off == t * off / t;
    }
  }

  /** What the last row of a matrix that passes is off is small against the vertex. */
  lemma OffIsSmall(m: Matrix, v: Vec3)
    requires Passes(m)
    ensures var bound := TOLERANCE * Abs(v.x) + TOLERANCE * Abs(v.y) + TOLERANCE * Abs(v.z) + TOLERANCE;
            -bound <= 1.0 - Dot(m.d, Lift(v)) <= bound
  {
    DotLift(m.d, v.x, v.y, v.z);
    OffBound(m.d.x, m.d.y, m.d.z, m.d.w, v.x, v.y, v.z, TOLERANCE);
  }

  lemma OffBound(a: real, b: real, c: real, d: real, x: real, y: real, z: real, e: real)
    requires -e <= a <= e && -e <= b <= e && -e <= c <= e && -e <= d - 1.0 <= e
    ensures var bound := e * Abs(x) + e * Abs(y) + e * Abs(z) + e;
            -bound <= 1.0 - (a * x + b * y + c * z + d) <= bound
  {
    SmallTerm(a, x, e);
    SmallTerm(b, y, e);
    SmallTerm(c, z, e);
    SmallSum(a * x, b * y, c * z, d, e * Abs(x), e * Abs(y), e * Abs(z), e);
  }

  lemma SmallSum(x: real, y: real, z: real, w: real, ex: real, ey: real, ez: real, ew: real)
    requires -ex <= x <= ex && -ey <= y <= ey && -ez <= z <= ez && -ew <= w - 1.0 <= ew
    ensures -(ex + ey + ez + ew) <= 1.0 - (x + y + z + w) <= ex + ey + ez + ew
  {
  }

  lemma DotLift(r: Row, x: real, y: real, z: real)
    ensures Dot(r, Lift(Vec3(x, y, z))) == r.x * x + r.y * y + r.z * z + r.w
  {
  }

  function Abs(f: real): (r: real) {
    if f < 0.0 then -f else f
  }

  lemma ProductSign(f: real, g: real)
    requires f >= 0.0 && g >= 0.0
    ensures f * g >= 0.0
  {
  }

  lemma SmallTerm(f: real, x: real, bound: real)
    requires -bound <= f <= bound
    ensures -(bound * Abs(x)) <= f * x <= bound * Abs(x)
  {
    var a := if x < 0.0 then -x else x;
    ProductSign(bound - f, a);
    ProductSign(bound + f, a);
    Distribute(a, bound, -f);
    Distribute(a, bound, f);
  }

  /** Any product, applied to a point: the outer matrix applied to the lifted image. */
  lemma ApplyOuter(m: Matrix, n: Matrix, v: Vec3) returns (q: Row)
    ensures Apply(n, v) == Vec3(q.x, q.y, q.z) && Dot(n.d, Lift(v)) == q.w
    ensures Apply(Mul(m, n), v) == Vec3(Dot(m.a, q), Dot(m.b, q), Dot(m.c, q))
  {
    q := ApplyRow(n, Lift(v));
    DotCombine(m.a, n, Lift(v));
    DotCombine(m.b, n, Lift(v));
    DotCombine(m.c, n, Lift(v));
  }

  lemma ShiftedRow(shift: Matrix, u: Vec3, q: Row) returns (r: Vec3)
    requires shift == Translate(u)
    ensures r == Vec3(Dot(shift.a, q), Dot(shift.b, q), Dot(shift.c, q))
    ensures r == Along(Vec3(q.x, q.y, q.z), u, q.w)
  {
    r := Vec3(Dot(shift.a, q), Dot(shift.b, q), Dot(shift.c, q));
  }
}
