/** The unit tests of src/hadamard_matrix.rs, stated as lemmas about the model. */
module HadamardExamples {
  import opened Hadamard

  const H2: Matrix := [[1, 1], [1, -1]]
  const H4: Matrix := [[1, 1, 1, 1], [1, -1, 1, -1], [1, 1, -1, -1], [1, -1, -1, 1]]

  /** The inner product of two rows of length 2, written out. */
  lemma Dot2(u: seq<int>, v: seq<int>)
    requires |u| == |v| == 2
    ensures Dot(u, v) == u[0] * v[0] + u[1] * v[1]
  {
    assert Dot(u[1..][1..], v[1..][1..]) == 0;
  }

  /** `empty_mtx`: a 1 x 0 matrix is not square, so `from` fails. */
  lemma EmptyRowRejected()
    ensures !IsHadamard([[]])
  {
    var m: Matrix := [[]];
    assert |m[0]| != |m|;
  }

  /** `false_mtx`, first case: entries outside {-1, 1}. */
  lemma NonSignsRejected()
    ensures !IsHadamard([[1, 2], [3, 4]])
  {
    assert [[1, 2], [3, 4]][0][1] == 2;
  }

  /** `false_mtx`, second case: the identity has a 0 entry. */
  lemma IdentityRejected()
    ensures !IsHadamard([[1, 0], [0, 1]])
  {
    assert [[1, 0], [0, 1]][0][1] == 0;
  }

  /** `false_mtx`, third case: signs only, but the two rows are not orthogonal. */
  lemma ParallelRowsRejected()
    ensures !IsHadamard([[-1, -1], [1, 1]])
  {
    var m := [[-1, -1], [1, 1]];
    HadamardIffOrthogonalRows(m);
    Dot2(m[0], m[1]);
  }

  /** `true_mtx`, first case. */
  lemma H2Accepted()
    ensures IsHadamard(H2)
  {
    HadamardIffOrthogonalRows(H2);
    Dot2(H2[0], H2[0]);
    Dot2(H2[0], H2[1]);
    Dot2(H2[1], H2[0]);
    Dot2(H2[1], H2[1]);
  }

  /** `u` with every entry negated. */
  function Negated(u: seq<int>): (r: seq<int>)
    ensures |r| == |u| && forall k | 0 <= k < |u| :: r[k] == -u[k]
  {
    seq(|u|, k requires 0 <= k < |u| => -u[k])
  }

  /** Sylvester's doubling `[[H, H], [H, -H]]`. */
  function Sylvester(h: Matrix): (r: Matrix)
    requires IsSquare(h)
    ensures IsSquare(r) && |r| == 2 * |h|
  {
    var n := |h|;
    seq(2 * n, i requires 0 <= i < 2 * n => SylvesterRow(h, i))
  }

  /** Row `i` of Sylvester's doubling of `h`. */
  function SylvesterRow(h: Matrix, i: nat): (row: seq<int>)
    requires IsSquare(h) && i < 2 * |h|
    ensures |row| == 2 * |h|
  {
    if i < |h| then h[i] + h[i] else h[i - |h|] + Negated(h[i - |h|])
  }

  lemma {:induction false} DotAppend(a: seq<int>, b: seq<int>, c: seq<int>, d: seq<int>)
    requires |a| == |c| && |b| == |d|
    ensures Dot(a + b, c + d) == Dot(a, c) + Dot(b, d)
    decreases |a|
  {
    if |a| > 0 {
      DotAppend(a[1..], b, c[1..], d);
      assert (a + b)[1..] == a[1..] + b && (c + d)[1..] == c[1..] + d;
    } else {
      assert a + b == b && c + d == d;
    }
  }

  lemma {:induction false} DotNegated(u: seq<int>, v: seq<int>)
    requires |u| == |v|
    ensures Dot(u, Negated(v)) == -Dot(u, v)
    ensures Dot(Negated(u), Negated(v)) == Dot(u, v)
    decreases |u|
  {
    if |u| > 0 {
      DotNegated(u[1..], v[1..]);
      assert Negated(u)[1..] == Negated(u[1..]) && Negated(v)[1..] == Negated(v[1..]);
    }
  }

  /** Two rows of Sylvester's doubling are orthogonal unless equal, when their product is twice the order. */
  lemma SylvesterRowsDot(h: Matrix, i: nat, j: nat)
    requires IsSquare(h) && i < 2 * |h| && j < 2 * |h|
    requires forall a, b | 0 <= a < |h| && 0 <= b < |h| :: Dot(h[a], h[b]) == if a == b then |h| else 0
    ensures Dot(SylvesterRow(h, i), SylvesterRow(h, j)) == if i == j then 2 * |h| else 0
  {
    var n := |h|;
    var a, b := if i < n then i else i - n, if j < n then j else j - n;
    var u, v := h[a], h[b];
    var u', v' := if i < n then u else Negated(u), if j < n then v else Negated(v);
    assert SylvesterRow(h, i) == u + u' && SylvesterRow(h, j) == v + v';
    DotAppend(u, u', v, v');
    DotNegated(u, v);
    assert Dot(Negated(u), v) == -Dot(u, v) by {
      DotSymmetric(Negated(u), v);
      DotNegated(v, u);
      DotSymmetric(v, u);
    }
  }

  /** Sylvester's doubling of a Hadamard matrix is a Hadamard matrix. */
  lemma SylvesterKeepsHadamard(h: Matrix)
    requires IsHadamard(h)
    ensures IsHadamard(Sylvester(h))
  {
    var n, r := |h|, Sylvester(h);
    HadamardIffOrthogonalRows(h);
    forall i, j | 0 <= i < 2 * n && 0 <= j < 2 * n
      ensures Dot(r[i], r[j]) == if i == j then 2 * n else 0
    {
      SylvesterRowsDot(h, i, j);
    }
    assert EntriesAreSigns(r) by {
      forall i, j | 0 <= i < 2 * n && 0 <= j < 2 * n
        ensures r[i][j] == -1 || r[i][j] == 1
      {
        var a := if i < n then i else i - n;
        if j >= n {
          assert r[i][j] == (if i < n then h[a] else Negated(h[a]))[j - n];
        }
      }
    }
    HadamardIffOrthogonalRows(r);
  }

  lemma {:induction false} DotSymmetric(u: seq<int>, v: seq<int>)
    requires |u| == |v|
    ensures Dot(u, v) == Dot(v, u)
    decreases |u|
  {
    if |u| > 0 {
      DotSymmetric(u[1..], v[1..]);
    }
  }

  /** H4 is Sylvester's doubling of H2. */
  lemma H4IsSylvester()
    ensures H4 == Sylvester(H2)
  {
    var s := Sylvester(H2);
    assert s[0] == H4[0] && s[1] == H4[1] && s[2] == H4[2] && s[3] == H4[3];
  }

  /** `true_mtx`, second case. */
  lemma H4Accepted()
    ensures IsHadamard(H4)
  {
    H2Accepted();
    H4IsSylvester();
    SylvesterKeepsHadamard(H2);
  }

  /** `test_normalize`, first case: row 0 and row 1 start with -1, and so does column 1 afterwards. */
  lemma NormalizeExampleA()
    ensures NormalForm([[-1, -1], [-1, 1]]) == H2
  {
    var a := [[-1, -1], [-1, 1]];
    assert RowNegated(a, 0) && RowNegated(a, 1) && !ColumnNegated(a, 0) && !ColumnNegated(a, 1);
    assert NormalForm(a)[0] == H2[0];
    assert NormalForm(a)[1] == H2[1];
  }

  /** `test_normalize`, second case. */
  lemma NormalizeExampleB()
    ensures NormalForm([[-1, 1], [1, 1]]) == H2
  {
    var b := [[-1, 1], [1, 1]];
    assert RowNegated(b, 0) && !RowNegated(b, 1) && !ColumnNegated(b, 0) && ColumnNegated(b, 1);
    assert NormalForm(b)[0] == H2[0];
    assert NormalForm(b)[1] == H2[1];
  }

  /** `test_incidence`, first case. */
  lemma IncidenceOfH2()
    ensures Incidence(H2) == [[0]]
  {
    assert Incidence(H2)[0] == [0];
  }

  /** `test_incidence`, second case. */
  lemma IncidenceOfH4()
    ensures Incidence(H4) == [[0, 1, 0], [1, 0, 0], [0, 0, 1]]
  {
    assert Incidence(H4)[0] == [0, 1, 0];
    assert Incidence(H4)[1] == [1, 0, 0];
    assert Incidence(H4)[2] == [0, 0, 1];
  }
}
