/**
 * The bit-level sharing engine (src/scheme_impl.rs).
 *
 * The engine holds an incidence matrix of order n. Bit p of the 32-bit secret
 * belongs to column p % n; a party's row "carries" bit p when its entry in
 * that column is 1. Sharing copies the carried bits of the secret into the
 * party's payload and fills the others with random bits; reconstruction ORs
 * together the carried bits of the supplied parts; validation looks for bits
 * on which the carrying parts disagree.
 *
 * The random bits of `share` are an input here: `noise[i]` holds, at every
 * position, the bit that party i would draw there.
 */
module SchemeImpl {
  import opened Wrappers
  import opened Words
  import opened Hadamard

  /** `Part`: the row that produced the share, and its payload. */
  datatype Part = Part(number: nat, data: Word)

  /** The engine's matrix can be used: square with at least one row (`share`, `reconstruct` and `validate` divide by n). */
  predicate WellFormed(m: Matrix)
  {
    IsSquare(m) && |m| >= 1
  }

  /** Row `i` carries bit `p` of the secret: its entry in column p % n is 1. */
  predicate Carries(m: Matrix, i: nat, p: nat)
    requires WellFormed(m) && i < |m|
  {
    m[i][p % |m|] == 1
  }

  /** Every part names a row below `bound`. */
  predicate NumbersBelow(parts: seq<Part>, bound: nat)
  {
    forall k | 0 <= k < |parts| :: parts[k].number < bound
  }

  // ---------------------------------------------------------------------------
  // Sharing

  /** The payload of party `i`: the secret's bit where the row carries it, the party's random bit elsewhere. */
  function ShareData(m: Matrix, i: nat, secret: Word, noise: Word): Word
    requires WellFormed(m) && i < |m|
  {
    seq(W, p requires 0 <= p < W => if Carries(m, i, p) then secret[p] else noise[p])
  }

  /** The n parts of `secret`, part i made by row i. */
  function Shares(m: Matrix, secret: Word, noise: seq<Word>): (parts: seq<Part>)
    requires WellFormed(m) && |noise| == |m|
    ensures |parts| == |m| && forall i | 0 <= i < |parts| :: parts[i].number == i
    ensures NumbersBelow(parts, |m|)
  {
    seq(|m|, i requires 0 <= i < |m| => Part(i, ShareData(m, i, secret, noise[i])))
  }

  /** The parts are genuine for `secret`: each names a row, and carries the secret's own bit wherever its row carries one. */
  predicate Authentic(m: Matrix, parts: seq<Part>, secret: Word)
    requires WellFormed(m)
  {
    && NumbersBelow(parts, |m|)
    && forall k, p | 0 <= k < |parts| && 0 <= p < W :: Carries(m, parts[k].number, p) ==> parts[k].data[p] == secret[p]
  }

  /** Any selection of the parts `share` produced (a prefix, a subset, a reordering, with repeats) is authentic. */
  lemma SharesAreAuthentic(m: Matrix, secret: Word, noise: seq<Word>, parts: seq<Part>)
    requires WellFormed(m) && |noise| == |m|
    requires forall k | 0 <= k < |parts| :: parts[k] in Shares(m, secret, noise)
    ensures Authentic(m, parts, secret)
  {
    var all := Shares(m, secret, noise);
    forall k | 0 <= k < |parts|
      ensures parts[k].number < |m|
      ensures forall p | 0 <= p < W :: Carries(m, parts[k].number, p) ==> parts[k].data[p] == secret[p]
    {
      var i :| 0 <= i < |all| && all[i] == parts[k];
      assert parts[k] == Part(i, ShareData(m, i, secret, noise[i]));
    }
  }

  // ---------------------------------------------------------------------------
  // Reconstruction

  /** Some supplied part carries bit `p`. */
  predicate Covered(m: Matrix, parts: seq<Part>, p: nat)
    requires WellFormed(m) && NumbersBelow(parts, |m|)
  {
    exists k | 0 <= k < |parts| :: Carries(m, parts[k].number, p)
  }

  /** Column `c` is carried by some supplied part. */
  predicate ColumnCovered(m: Matrix, parts: seq<Part>, c: nat)
    requires WellFormed(m) && NumbersBelow(parts, |m|) && c < |m|
  {
    exists k | 0 <= k < |parts| :: m[parts[k].number][c] == 1
  }

  /** Every column of the matrix is carried by some supplied part. */
  predicate CoversAllColumns(m: Matrix, parts: seq<Part>)
    requires WellFormed(m) && NumbersBelow(parts, |m|)
  {
    forall c | 0 <= c < |m| :: ColumnCovered(m, parts, c)
  }

  /** What `reconstruct` computes: bit p is set when some supplied part carries bit p and has it set. */
  ghost function Recovered(m: Matrix, parts: seq<Part>): Word
    requires WellFormed(m) && NumbersBelow(parts, |m|)
  {
    seq(W, p requires 0 <= p < W => exists k | 0 <= k < |parts| :: Carries(m, parts[k].number, p) && parts[k].data[p])
  }

  /** From authentic parts, `reconstruct` yields `secret & coverage`: the secret's bits where some part carries them, 0 elsewhere. */
  lemma RecoveredFromAuthentic(m: Matrix, parts: seq<Part>, secret: Word)
    requires WellFormed(m) && Authentic(m, parts, secret)
    ensures forall p | 0 <= p < W :: Recovered(m, parts)[p] == (secret[p] && Covered(m, parts, p))
  {
  }

  /** Round trip: authentic parts whose rows cover every column give back the secret. */
  lemma RoundTrip(m: Matrix, parts: seq<Part>, secret: Word)
    requires WellFormed(m) && Authentic(m, parts, secret)
    requires CoversAllColumns(m, parts)
    ensures Recovered(m, parts) == secret
  {
    forall p | 0 <= p < W
      ensures Recovered(m, parts)[p] == secret[p]
    {
      assert ColumnCovered(m, parts, p % |m|);
      var k :| 0 <= k < |parts| && m[parts[k].number][p % |m|] == 1;
      assert Carries(m, parts[k].number, p);
      RecoveredFromAuthentic(m, parts, secret);
    }
  }

  /** The distinct rows named by the parts. */
  function RowsOf(parts: seq<Part>): set<nat>
  {
    set k | 0 <= k < |parts| :: parts[k].number
  }

  /** The rows whose entry in column `c` is not 1: the rows that do not carry the bits of column `c`. */
  function ZeroRows(m: Matrix, c: nat): set<nat>
    requires WellFormed(m) && c < |m|
  {
    set i: nat | i < |m| && m[i][c] != 1
  }

  /**
   * Pigeonhole: when every column has fewer than `k` rows that miss it, parts
   * from `k` distinct rows cover every column (and so, if authentic,
   * reconstruct the secret).
   */
  lemma DistinctRowsCover(m: Matrix, parts: seq<Part>, k: nat)
    requires WellFormed(m) && NumbersBelow(parts, |m|)
    requires forall c | 0 <= c < |m| :: |ZeroRows(m, c)| < k
    requires |RowsOf(parts)| >= k
    ensures CoversAllColumns(m, parts)
  {
    forall c | 0 <= c < |m|
      ensures ColumnCovered(m, parts, c)
    {
      if !ColumnCovered(m, parts, c) {
        assert RowsOf(parts) <= ZeroRows(m, c);
        SubsetCardinality(RowsOf(parts), ZeroRows(m, c));
        assert false;
      }
    }
  }

  lemma SubsetCardinality<T>(a: set<T>, b: set<T>)
    requires a <= b
    ensures |a| <= |b|
  {
    assert b == a + (b - a);
  }

  // ---------------------------------------------------------------------------
  // Validation

  /** The index of `cells[p]` that collects the parts voting `b`: `b as usize`. */
  function Side(b: bool): nat
  {
    if b then 1 else 0
  }

  /** The numbers of the parts, in order, that carry bit `p` and state it as `b` (`cells[p][b]`). */
  function Voters(m: Matrix, parts: seq<Part>, p: nat, b: bool): (r: seq<nat>)
    requires WellFormed(m) && NumbersBelow(parts, |m|) && p < W
    decreases |parts|
  {
    if |parts| == 0 then []
    else
      var last := parts[|parts| - 1];
      Voters(m, parts[..|parts| - 1], p, b)
        + if Carries(m, last.number, p) && last.data[p] == b then [last.number] else []
  }

  /** A voter for `b` on bit `p` is exactly the number of a supplied part that carries bit `p` and states `b`. */
  lemma {:induction false} VotersAre(m: Matrix, parts: seq<Part>, p: nat, b: bool, x: nat)
    requires WellFormed(m) && NumbersBelow(parts, |m|) && p < W
    ensures x in Voters(m, parts, p, b) <==>
      exists k | 0 <= k < |parts| :: parts[k].number == x && Carries(m, x, p) && parts[k].data[p] == b
    decreases |parts|
  {
    if |parts| > 0 {
      var init := parts[..|parts| - 1];
      VotersAre(m, init, p, b, x);
      if x in Voters(m, init, p, b) {
        var k :| 0 <= k < |init| && init[k].number == x && Carries(m, x, p) && init[k].data[p] == b;
        assert parts[k] == init[k];
      }
      if exists k | 0 <= k < |parts| :: parts[k].number == x && Carries(m, x, p) && parts[k].data[p] == b {
        var k :| 0 <= k < |parts| && parts[k].number == x && Carries(m, x, p) && parts[k].data[p] == b;
        if k < |init| {
          assert init[k] == parts[k];
        }
      }
    }
  }

  /** Bit `p` is disputed: some carrying part says 0 and another says 1. */
  predicate Conflict(m: Matrix, parts: seq<Part>, p: nat)
    requires WellFormed(m) && NumbersBelow(parts, |m|) && p < W
  {
    |Voters(m, parts, p, false)| > 0 && |Voters(m, parts, p, true)| > 0
  }

  /** The side that `validate` flags on bit `p`: `(count0 > count1) as usize`, so the ones when the zeros are more, and the zeros otherwise (ties included). */
  predicate FlaggedSide(m: Matrix, parts: seq<Part>, p: nat)
    requires WellFormed(m) && NumbersBelow(parts, |m|) && p < W
  {
    |Voters(m, parts, p, false)| > |Voters(m, parts, p, true)|
  }

  /** Party `x` is flagged because of bit `p`. */
  predicate FlaggedAt(m: Matrix, parts: seq<Part>, p: nat, x: nat)
    requires WellFormed(m) && NumbersBelow(parts, |m|) && p < W
  {
    Conflict(m, parts, p) && x in Voters(m, parts, p, FlaggedSide(m, parts, p))
  }

  /** Party `x` is flagged because of some bit of the secret. */
  ghost predicate Flagged(m: Matrix, parts: seq<Part>, x: nat)
    requires WellFormed(m) && NumbersBelow(parts, |m|)
  {
    exists p | 0 <= p < W :: FlaggedAt(m, parts, p, x)
  }

  /** On authentic parts, nobody votes against the secret's bit. */
  lemma {:induction false} NoDissentWhenAuthentic(m: Matrix, parts: seq<Part>, secret: Word, p: nat)
    requires WellFormed(m) && Authentic(m, parts, secret) && p < W
    ensures Voters(m, parts, p, !secret[p]) == []
    decreases |parts|
  {
    if |parts| > 0 {
      var init := parts[..|parts| - 1];
      assert Authentic(m, init, secret) by {
        forall k | 0 <= k < |init|
          ensures init[k] == parts[k]
        {
        }
      }
      NoDissentWhenAuthentic(m, init, secret, p);
    }
  }

  /** Authentic parts never conflict, so `validate` flags nobody. */
  lemma AuthenticNotFlagged(m: Matrix, parts: seq<Part>, secret: Word)
    requires WellFormed(m) && Authentic(m, parts, secret)
    ensures forall p | 0 <= p < W :: !Conflict(m, parts, p)
    ensures forall x :: !Flagged(m, parts, x)
  {
    forall p | 0 <= p < W
      ensures !Conflict(m, parts, p)
    {
      NoDissentWhenAuthentic(m, parts, secret, p);
    }
  }

  /**
   * A flagged party supplied a part, voted on the disputed bit, and sits on
   * the side with no more voters than the other; when the two sides are
   * equal, the flagged side is the zeros.
   */
  lemma FlaggedIsMinority(m: Matrix, parts: seq<Part>, p: nat, x: nat)
    requires WellFormed(m) && NumbersBelow(parts, |m|) && p < W
    requires FlaggedAt(m, parts, p, x)
    ensures exists k | 0 <= k < |parts| :: parts[k].number == x
    ensures var side := FlaggedSide(m, parts, p);
      && x in Voters(m, parts, p, side)
      && 0 < |Voters(m, parts, p, side)| <= |Voters(m, parts, p, !side)|
      && (|Voters(m, parts, p, false)| == |Voters(m, parts, p, true)| ==> !side)
  {
    VotersAre(m, parts, p, FlaggedSide(m, parts, p), x);
  }

  /** On a tie, every zero-voter of the disputed bit is flagged. */
  lemma TieFlagsZeros(m: Matrix, parts: seq<Part>, p: nat)
    requires WellFormed(m) && NumbersBelow(parts, |m|) && p < W
    requires Conflict(m, parts, p)
    requires |Voters(m, parts, p, false)| == |Voters(m, parts, p, true)|
    ensures forall x | x in Voters(m, parts, p, false) :: Flagged(m, parts, x)
    ensures forall x | x in Voters(m, parts, p, true) && x !in Voters(m, parts, p, false) :: !FlaggedAt(m, parts, p, x)
  {
    forall x | x in Voters(m, parts, p, false)
      ensures Flagged(m, parts, x)
    {
      assert FlaggedAt(m, parts, p, x);
    }
  }

  /** Only the number of a supplied part can be flagged, so every flagged number is a row. */
  lemma FlaggedIsRow(m: Matrix, parts: seq<Part>, x: nat)
    requires WellFormed(m) && NumbersBelow(parts, |m|)
    requires Flagged(m, parts, x)
    ensures x < |m|
  {
    var p :| 0 <= p < W && FlaggedAt(m, parts, p, x);
    FlaggedIsMinority(m, parts, p, x);
  }

  /** Nobody is flagged exactly when no bit is disputed. */
  lemma NothingFlaggedIffConsistent(m: Matrix, parts: seq<Part>)
    requires WellFormed(m) && NumbersBelow(parts, |m|)
    ensures (forall x :: !Flagged(m, parts, x)) <==> (forall p | 0 <= p < W :: !Conflict(m, parts, p))
  {
    if p :| 0 <= p < W && Conflict(m, parts, p) {
      var side := FlaggedSide(m, parts, p);
      var x := Voters(m, parts, p, side)[0];
      assert FlaggedAt(m, parts, p, x);
      assert Flagged(m, parts, x);
    }
  }

  // ---------------------------------------------------------------------------
  // Arithmetic of the block loops `for s_ind in 0..times { for j in 0..n { j_id = j + s_ind * n } }`

  /** `times = (32 + n - 1) / n` blocks of n columns reach past bit 31. */
  lemma BlocksCoverWidth(n: nat)
    requires n >= 1
    ensures ((W + n - 1) / n) * n >= W
  {
    var t, r := (W + n - 1) / n, (W + n - 1) % n;
    assert t * n + r == W + n - 1;
  }

  /** Position `j + s_ind * n` lies in column j. */
  lemma BlockColumn(s: nat, n: nat, j: nat)
    requires j < n
    ensures (j + s * n) % n == j
  {
    ModUnique(j + s * n, n, s, j);
  }

  /** Euclidean remainders are unique. */
  lemma ModUnique(a: int, n: int, q: int, r: int)
    requires n > 0 && 0 <= r < n && a == q * n + r
    ensures a % n == r
  {
    var q2, r2 := a / n, a % n;
    assert (q2 - q) * n == r - r2;
    if q2 > q {
      MulAtLeast(q2 - q, n);
    } else if q2 < q {
      MulAtLeast(q - q2, n);
    }
  }

  lemma MulMonotone(a: nat, b: nat, c: nat)
    requires a >= b
    ensures a * c >= b * c
  {
  }

  lemma MulAtLeast(d: int, n: int)
    requires d >= 1 && n > 0
    ensures d * n >= n
  {
  }

  /** The number of entries of a matrix (`Array2::len`). */
  function ElementCount(m: Matrix): nat
    decreases |m|
  {
    if |m| == 0 then 0 else ElementCount(m[..|m| - 1]) + |m[|m| - 1]|
  }

  lemma {:induction false} ElementCountOfRows(m: Matrix, width: nat)
    requires forall i | 0 <= i < |m| :: |m[i]| == width
    ensures ElementCount(m) == |m| * width
    decreases |m|
  {
    if |m| > 0 {
      ElementCountOfRows(m[..|m| - 1], width);
    }
  }

  // ---------------------------------------------------------------------------
  // The engine

  /** `HSS`: the sharing engine over its incidence matrix (`HSS::from` clones the matrix in). */
  datatype HSS = HSS(mtx: Matrix)
  {
    /** `mtx_len` as written: `Array2::len`, the number of entries, n * n for the engine's square matrix. */
    function MtxLen(): (r: nat)
      ensures IsSquare(mtx) ==> r == |mtx| * |mtx|
    {
      var r := ElementCount(mtx);
      assert IsSquare(mtx) ==> r == |mtx| * |mtx| by {
        if IsSquare(mtx) {
          ElementCountOfRows(mtx, |mtx|);
        }
      }
      r
    }

    /** The dimension that `mtx_len` is documented to return: the number of parts `share` makes. */
    function Dimension(): (r: nat)
      requires WellFormed(mtx)
      ensures r * r == MtxLen()
      ensures forall secret: Word, noise: seq<Word> | |noise| == |mtx| :: |Shares(mtx, secret, noise)| == r
    {
      |mtx|
    }

    /** `mtx_len` as written exceeds the number of parts for every matrix of order 2 or more. */
    lemma MtxLenOverstates()
      requires WellFormed(mtx) && |mtx| >= 2
      ensures MtxLen() > Dimension()
    {
      var n := |mtx|;
      assert n * n >= 2 * n by {
        MulMonotone(n, 2, n);
      }
    }

    /**
     * `share`: for every row i, every block s_ind and every column j, position
     * j_id = j + s_ind * n below 32 gets the secret's bit when entry (i, j) is
     * 1 and party i's random bit otherwise.
     */
    method Share(secret: Word, noise: seq<Word>) returns (r: Result<seq<Part>>)
      requires WellFormed(mtx) && |noise| == |mtx|
      ensures r.Ok? && r.value == Shares(mtx, secret, noise)
      ensures |r.value| == Dimension()
    {
      var n := |mtx|;
      var res: seq<Part> := seq(n, _ => Part(0, Zero));
      var times := (W + n - 1) / n;
      BlocksCoverWidth(n);
      for i := 0 to n
        invariant |res| == n
        invariant forall k | 0 <= k < i :: res[k] == Part(k, ShareData(mtx, k, secret, noise[k]))
      {
        ghost var want := ShareData(mtx, i, secret, noise[i]);
        var data := Zero;
        for sInd := 0 to times
          invariant forall p | 0 <= p < W :: data[p] == (p < sInd * n && want[p])
        {
          for j := 0 to n
            invariant forall p | 0 <= p < W :: data[p] == (p < sInd * n + j && want[p])
          {
            var jid := j + sInd * n;
            if jid < W {
              BlockColumn(sInd, n, j);
              if mtx[i][j] == 1 {
                data := data[jid := data[jid] || secret[jid]];
              } else {
                data := data[jid := data[jid] || noise[i][jid]];
              }
            }
          }
          assert sInd * n + n == (sInd + 1) * n;
        }
        assert data == want;
        res := res[i := Part(i, data)];
      }
      assert res == Shares(mtx, secret, noise);
      r := Ok(res);
    }

    /**
     * `reconstruct`: no checking; for every part, every position its row
     * carries is ORed from the part's payload into the result.
     */
    method Reconstruct(parts: seq<Part>) returns (r: Result<Word>)
      requires WellFormed(mtx) && NumbersBelow(parts, |mtx|)
      ensures r.Ok? && r.value == Recovered(mtx, parts)
    {
      var n := |mtx|;
      var res := Zero;
      var times := (W + n - 1) / n;
      BlocksCoverWidth(n);
      for i := 0 to |parts|
        invariant forall p | 0 <= p < W ::
          res[p] == exists k | 0 <= k < i :: Carries(mtx, parts[k].number, p) && parts[k].data[p]
      {
        var ind := parts[i].number;
        for sInd := 0 to times
          invariant forall p | 0 <= p < W ::
            res[p] == ((exists k | 0 <= k < i :: Carries(mtx, parts[k].number, p) && parts[k].data[p])
                       || (p < sInd * n && Carries(mtx, ind, p) && parts[i].data[p]))
        {
          for j := 0 to n
            invariant forall p | 0 <= p < W ::
              res[p] == ((exists k | 0 <= k < i :: Carries(mtx, parts[k].number, p) && parts[k].data[p])
                         || (p < sInd * n + j && Carries(mtx, ind, p) && parts[i].data[p]))
          {
            var jid := j + sInd * n;
            if jid < W {
              BlockColumn(sInd, n, j);
              if mtx[ind][j] == 1 {
                res := res[jid := res[jid] || parts[i].data[jid]];
              }
            }
          }
          assert sInd * n + n == (sInd + 1) * n;
        }
      }
      assert res == Recovered(mtx, parts);
      r := Ok(res);
    }

    /**
     * `validate`: tally, for every bit, the numbers of the carrying parts
     * that state 0 and those that state 1; on every disputed bit flag the
     * side chosen by `(count0 > count1) as usize`; return the flagged numbers
     * in increasing order. `suspicious` has one entry per bit of the secret,
     * so a flagged part numbered 32 or more would index past its end: that
     * panic is the precondition. An unflagged part may have any row number.
     */
    method Validate(parts: seq<Part>) returns (flagged: seq<nat>)
      requires WellFormed(mtx) && NumbersBelow(parts, |mtx|)
      requires forall x: nat :: Flagged(mtx, parts, x) ==> x < W
      ensures forall a, b | 0 <= a < b < |flagged| :: flagged[a] < flagged[b]
      ensures forall x: nat :: x in flagged <==> Flagged(mtx, parts, x)
    {
      var cells := TallyVotes(parts);
      var suspicious := MarkSuspicious(parts, cells, W);
      flagged := CollectFlagged(suspicious);
    }

    /**
     * `validate` with `suspicious` sized by the number of rows rather than by
     * the width of the secret, as indexing it by row number calls for: every
     * flagged number is a row, so no input reaches past its end.
     */
    method ValidateAllRows(parts: seq<Part>) returns (flagged: seq<nat>)
      requires WellFormed(mtx) && NumbersBelow(parts, |mtx|)
      ensures forall a, b | 0 <= a < b < |flagged| :: flagged[a] < flagged[b]
      ensures forall x: nat :: x in flagged <==> Flagged(mtx, parts, x)
    {
      var cells := TallyVotes(parts);
      forall x: nat | Flagged(mtx, parts, x)
        ensures x < |mtx|
      {
        FlaggedIsRow(mtx, parts, x);
      }
      var suspicious := MarkSuspicious(parts, cells, |mtx|);
      flagged := CollectFlagged(suspicious);
    }

    /** The first loop of `validate`: `cells[p][b]` lists, in order, the parts that carry bit p and state it as b. */
    method TallyVotes(parts: seq<Part>) returns (cells: seq<seq<seq<nat>>>)
      requires WellFormed(mtx) && NumbersBelow(parts, |mtx|)
      ensures CellsShape(cells)
      ensures forall p | 0 <= p < W :: Tallied(mtx, parts, cells, p)
    {
      cells := seq(W, _ => [[], []]);
      for i := 0 to |parts|
        invariant CellsShape(cells)
        invariant forall p | 0 <= p < W :: Tallied(mtx, parts[..i], cells, p)
      {
        var next := TallyPart(parts[i], cells);
        ghost var done, after := parts[..i], parts[..i + 1];
        assert after == done + [parts[i]];
        forall p | 0 <= p < W
          ensures |next[p]| == 2 && Tallied(mtx, after, next, p)
        {
          assert Tallied(mtx, done, cells, p);
          VotersOfAppend(mtx, done, parts[i], p, false);
          VotersOfAppend(mtx, done, parts[i], p, true);
        }
        cells := next;
      }
      assert parts[..|parts|] == parts;
    }

    /** One pass of the first loop of `validate`: the number of `part` joins the side it states, on every bit its row carries. */
    method TallyPart(part: Part, cells: seq<seq<seq<nat>>>) returns (r: seq<seq<seq<nat>>>)
      requires WellFormed(mtx) && part.number < |mtx| && CellsShape(cells)
      ensures |r| == W && forall p | 0 <= p < W :: r[p] == AddVote(mtx, cells[p], part, p)
    {
      var n := |mtx|;
      var times := (W + n - 1) / n;
      BlocksCoverWidth(n);
      var ind := part.number;
      r := cells;
      for sInd := 0 to times
        invariant |r| == W
        invariant forall p | 0 <= p < W && p < sInd * n :: r[p] == AddVote(mtx, cells[p], part, p)
        invariant forall p | sInd * n <= p < W :: r[p] == cells[p]
      {
        ghost var base := sInd * n;
        for j := 0 to n
          invariant |r| == W
          invariant forall p | 0 <= p < W && p < base + j :: r[p] == AddVote(mtx, cells[p], part, p)
          invariant forall p | base + j <= p < W :: r[p] == cells[p]
        {
          var jid := j + sInd * n;
          if jid < W {
            BlockColumn(sInd, n, j);
            if mtx[ind][j] == 1 {
              var bit := Side(part.data[jid]);
              r := r[jid := r[jid][bit := r[jid][bit] + [ind]]];
            }
          }
        }
        assert base + n == (sInd + 1) * n;
      }
    }

    /** The second loop of `validate`: on every disputed bit, mark the parts of the flagged side in a vector of `size` flags. */
    method MarkSuspicious(parts: seq<Part>, cells: seq<seq<seq<nat>>>, size: nat) returns (suspicious: seq<bool>)
      requires WellFormed(mtx) && NumbersBelow(parts, |mtx|)
      requires CellsShape(cells) && forall p | 0 <= p < W :: Tallied(mtx, parts, cells, p)
      requires forall x: nat :: Flagged(mtx, parts, x) ==> x < size
      ensures |suspicious| == size
      ensures forall x | 0 <= x < size :: suspicious[x] == Flagged(mtx, parts, x)
    {
      suspicious := seq(size, _ => false);
      for i := 0 to W
        invariant |suspicious| == size
        invariant forall x | 0 <= x < size :: suspicious[x] <==> exists p | 0 <= p < i :: FlaggedAt(mtx, parts, p, x)
      {
        assert Tallied(mtx, parts, cells, i);
        if |cells[i][0]| > 0 && |cells[i][1]| > 0 {
          var more := |cells[i][0]| > |cells[i][1]|;
          suspicious := MarkGroup(parts, i, more, cells[i][Side(more)], suspicious);
        }
        forall x | 0 <= x < size
          ensures suspicious[x] <==> exists p | 0 <= p < i + 1 :: FlaggedAt(mtx, parts, p, x)
        {
          if FlaggedAt(mtx, parts, i, x) {
            assert suspicious[x];
          }
        }
      }
    }

    /** The innermost loop of the second loop of `validate`: set the flag of every number in `group`, the flagged side of disputed bit `p`. */
    method MarkGroup(parts: seq<Part>, p: nat, side: bool, group: seq<nat>, suspicious: seq<bool>) returns (r: seq<bool>)
      requires WellFormed(mtx) && NumbersBelow(parts, |mtx|) && p < W
      requires Conflict(mtx, parts, p) && side == FlaggedSide(mtx, parts, p) && group == Voters(mtx, parts, p, side)
      requires forall x: nat :: Flagged(mtx, parts, x) ==> x < |suspicious|
      ensures |r| == |suspicious|
      ensures forall x | 0 <= x < |r| :: r[x] <==> suspicious[x] || FlaggedAt(mtx, parts, p, x)
    {
      r := suspicious;
      for k := 0 to |group|
        invariant |r| == |suspicious|
        invariant forall x | 0 <= x < |r| :: r[x] <==> suspicious[x] || x in group[..k]
      {
        assert FlaggedAt(mtx, parts, p, group[k]);
        assert Flagged(mtx, parts, group[k]);
        r := r[group[k] := true];
      }
      assert group[..|group|] == group;
    }
  }

  /** `cells` has a pair of lists for each of the 32 bits. */
  predicate CellsShape(cells: seq<seq<seq<nat>>>)
  {
    |cells| == W && forall p | 0 <= p < W :: |cells[p]| == 2
  }

  /** The cell of bit `p` after `part` is tallied: its number pushed on the side it states, if its row carries the bit. */
  function AddVote(m: Matrix, cell: seq<seq<nat>>, part: Part, p: nat): seq<seq<nat>>
    requires WellFormed(m) && part.number < |m| && |cell| == 2 && p < W
  {
    if Carries(m, part.number, p) then
      var b := Side(part.data[p]);
      cell[b := cell[b] + [part.number]]
    else cell
  }

  /** The pair of lists for bit `p` holds its zero-voters and its one-voters. */
  predicate Tallied(m: Matrix, parts: seq<Part>, cells: seq<seq<seq<nat>>>, p: nat)
    requires WellFormed(m) && NumbersBelow(parts, |m|) && CellsShape(cells) && p < W
  {
    cells[p][0] == Voters(m, parts, p, false) && cells[p][1] == Voters(m, parts, p, true)
  }

  /** Tallying one more part appends its number to the side it votes for, if it carries the bit. */
  lemma VotersOfAppend(m: Matrix, done: seq<Part>, part: Part, p: nat, b: bool)
    requires WellFormed(m) && NumbersBelow(done, |m|) && part.number < |m| && p < W
    ensures NumbersBelow(done + [part], |m|)
    ensures Voters(m, done + [part], p, b) == Voters(m, done, p, b)
      + if Carries(m, part.number, p) && part.data[p] == b then [part.number] else []
  {
    assert (done + [part])[..|done|] == done;
  }

  /** The last loop of `validate`: the marked positions in increasing order. */
  method CollectFlagged(suspicious: seq<bool>) returns (flagged: seq<nat>)
    ensures forall a, b | 0 <= a < b < |flagged| :: flagged[a] < flagged[b]
    ensures forall x: nat :: x in flagged <==> x < |suspicious| && suspicious[x]
  {
    flagged := [];
    for i := 0 to |suspicious|
      invariant forall a, b | 0 <= a < b < |flagged| :: flagged[a] < flagged[b]
      invariant forall a | 0 <= a < |flagged| :: flagged[a] < i
      invariant forall x: nat :: x in flagged <==> x < i && suspicious[x]
    {
      if suspicious[i] {
        flagged := flagged + [i];
      }
    }
  }
}
