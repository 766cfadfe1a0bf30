/**
 * The tests of src/scheme_impl.rs and src/lib.rs, stated as lemmas about the
 * model: the 8 x 8 Sylvester matrix, its incidence matrix of order 7, and the
 * first five parts of a sharing, genuine or with part 0 altered by `^ 43`.
 */
module SchemeExamples {
  import opened Words
  import opened Hadamard
  import opened SchemeImpl
  import opened Scheme
  import opened HadamardExamples

  const H8: Matrix := [
    [1, 1, 1, 1, 1, 1, 1, 1],
    [1, -1, 1, -1, 1, -1, 1, -1],
    [1, 1, -1, -1, 1, 1, -1, -1],
    [1, -1, -1, 1, 1, -1, -1, 1],
    [1, 1, 1, 1, -1, -1, -1, -1],
    [1, -1, 1, -1, -1, 1, -1, 1],
    [1, 1, -1, -1, -1, -1, 1, 1],
    [1, -1, -1, 1, -1, 1, 1, -1]]

  const I7: Matrix := [
    [0, 1, 0, 1, 0, 1, 0],
    [1, 0, 0, 1, 1, 0, 0],
    [0, 0, 1, 1, 0, 0, 1],
    [1, 1, 1, 0, 0, 0, 0],
    [0, 1, 0, 0, 1, 0, 1],
    [1, 0, 0, 0, 0, 1, 1],
    [0, 0, 1, 0, 1, 1, 0]]

  /** The test matrix is Sylvester's doubling of H4. */
  lemma H8IsSylvester()
    ensures H8 == Sylvester(H4)
  {
    var s := Sylvester(H4);
    forall i | 0 <= i < 8
      ensures s[i] == H8[i]
    {
      if i < 4 {
        assert s[i] == H4[i] + H4[i];
      } else {
        assert s[i] == H4[i - 4] + Negated(H4[i - 4]);
      }
    }
  }

  /** The test matrix is accepted by `from`. */
  lemma H8Accepted()
    ensures IsHadamard(H8)
  {
    H8IsSylvester();
    H4Accepted();
    SylvesterKeepsHadamard(H4);
  }

  /** `HadamardSSS::new` on the test matrix: `normalize` leaves it as it is, the incidence matrix is I7 and the threshold 5. */
  lemma SchemeOfH8()
    ensures IsHadamard(H8)
    ensures NormalForm(H8) == H8
    ensures Incidence(NormalForm(H8)) == I7
    ensures GetThreshold(I7) == 5
  {
    H8Accepted();
    NormalFormOfNormalized(H8);
    IncidenceOfH8();
  }

  /** The interior of H8, read as 0/1, is I7. */
  lemma IncidenceOfH8()
    requires IsHadamard(H8)
    ensures Incidence(H8) == I7
  {
    var inc := Incidence(H8);
    forall i, j | 0 <= i < 7 && 0 <= j < 7
      ensures inc[i][j] == I7[i][j]
    {
      assert inc[i][j] == if H8[i + 1][j + 1] == 1 then 1 else 0;
    }
    assert forall i | 0 <= i < 7 :: inc[i] == I7[i];
  }

  /** `mtx_len` on the test engine counts 49 entries, while `share` makes 7 parts. */
  lemma MtxLenOfI7(secret: Word, noise: seq<Word>)
    requires |noise| == 7
    ensures HSS(I7).MtxLen() == 49
    ensures HSS(I7).Dimension() == 7 == |Shares(I7, secret, noise)|
  {
  }

  /** The rows of I7 that miss column `c`, four of the seven. */
  function MissingRows(c: nat): set<nat>
  {
    if c == 0 then {0, 2, 4, 6} else if c == 1 then {1, 2, 5, 6} else if c == 2 then {0, 1, 4, 5}
    else if c == 3 then {3, 4, 5, 6} else if c == 4 then {0, 2, 3, 5} else if c == 5 then {1, 2, 3, 4}
    else {0, 1, 3, 6}
  }

  /** Every column of I7 is missed by exactly four rows, fewer than the threshold 5. */
  lemma I7ZeroRows(c: nat)
    requires c < 7
    ensures ZeroRows(I7, c) == MissingRows(c)
    ensures |ZeroRows(I7, c)| == 4
  {
    forall i: nat | i < 7
      ensures (i in ZeroRows(I7, c)) == (i in MissingRows(c))
    {
      I7Entry(i, c);
    }
    MissingRowsShape(c);
    assert ZeroRows(I7, c) == MissingRows(c);
  }

  lemma MissingRowsShape(c: nat)
    ensures forall i | i in MissingRows(c) :: i < 7
    ensures |MissingRows(c)| == 4
  {
  }

  /** Entry (i, c) of I7 is 0 exactly when row i is listed as missing column c. */
  lemma I7Entry(i: nat, c: nat)
    requires i < 7 && c < 7
    ensures (I7[i][c] != 1) == (i in MissingRows(c))
  {
    assert I7[i] == if i == 0 then [0, 1, 0, 1, 0, 1, 0] else if i == 1 then [1, 0, 0, 1, 1, 0, 0]
      else if i == 2 then [0, 0, 1, 1, 0, 0, 1] else if i == 3 then [1, 1, 1, 0, 0, 0, 0]
      else if i == 4 then [0, 1, 0, 0, 1, 0, 1] else if i == 5 then [1, 0, 0, 0, 0, 1, 1]
      else [0, 0, 1, 0, 1, 1, 0];
  }

  /**
   * `test_reconstruction` and the first loop of `test_validate`, for every
   * secret and every random draw: any parts from five distinct rows pass the
   * threshold, are not flagged and give back the secret.
   */
  lemma AnyFiveRowsRecover(secret: Word, noise: seq<Word>, parts: seq<Part>)
    requires |noise| == 7
    requires forall k | 0 <= k < |parts| :: parts[k] in Shares(I7, secret, noise)
    requires |RowsOf(parts)| >= 5
    ensures NumbersBelow(parts, 7)
    ensures Recovered(I7, parts) == secret
    ensures forall x: nat :: !Flagged(I7, parts, x)
  {
    forall c | 0 <= c < 7
      ensures |ZeroRows(I7, c)| < 5
    {
      I7ZeroRows(c);
    }
    ThresholdRoundTrip(HadamardSSS(HSS(I7), 5), secret, noise, parts);
  }

  /** The test itself takes the first five parts, `res[0..5]`. */
  lemma FirstFiveRecover(secret: Word, noise: seq<Word>)
    requires |noise| == 7
    ensures NumbersBelow(Shares(I7, secret, noise)[..5], 7)
    ensures Recovered(I7, Shares(I7, secret, noise)[..5]) == secret
    ensures forall x: nat :: !Flagged(I7, Shares(I7, secret, noise)[..5], x)
  {
    var parts := Shares(I7, secret, noise)[..5];
    FirstFiveRows(parts);
    AnyFiveRowsRecover(secret, noise, parts);
  }

  /** Parts numbered 0 to 4 come from five distinct rows. */
  lemma FirstFiveRows(parts: seq<Part>)
    requires |parts| == 5 && forall k | 0 <= k < 5 :: parts[k].number == k
    ensures |RowsOf(parts)| == 5
  {
    assert RowsOf(parts) == {0, 1, 2, 3, 4} by {
      forall x | x in {0, 1, 2, 3, 4}
        ensures x in RowsOf(parts)
      {
        assert parts[x].number == x;
      }
    }
  }

  /** The first five parts with part 0's payload XORed with 43 (bits 0, 1, 3 and 5). */
  function Tampered(secret: Word, noise: seq<Word>): (parts: seq<Part>)
    requires |noise| == 7
    ensures |parts| == 5 && NumbersBelow(parts, 7)
  {
    var genuine := Shares(I7, secret, noise)[..5];
    genuine[0 := Part(0, Xor(genuine[0].data, FromNat(43)))]
  }

  /** What the alteration does: part 0 states the opposite of the secret on bits 1 and 5, parts 1 to 4 are genuine. */
  lemma TamperedFacts(secret: Word, noise: seq<Word>)
    requires |noise| == 7
    ensures var parts := Tampered(secret, noise);
      && (forall i | 0 <= i < 5 :: parts[i].number == i)
      && (forall i | 1 <= i < 5 :: parts[i].data == ShareData(I7, i, secret, noise[i]))
      && parts[0].data[5] == !secret[5] && parts[0].data[1] == !secret[1]
  {
    Mask43();
    var genuine := Shares(I7, secret, noise)[..5];
    assert genuine[0] == Part(0, ShareData(I7, 0, secret, noise[0]));
    assert Carries(I7, 0, 5) && Carries(I7, 0, 1);
  }

  /** 43 is 0b101011: bits 1 and 5 are set. */
  lemma Mask43()
    ensures FromNat(43)[1] && FromNat(43)[5]
  {
    assert Pow2(1) == 2 && Pow2(5) == 32;
  }

  /** With part 0 altered, bit 5 comes back wrong: among the five, only part 0 carries it. */
  lemma TamperedNotRecovered(secret: Word, noise: seq<Word>)
    requires |noise| == 7
    ensures Recovered(I7, Tampered(secret, noise)) != secret
  {
    var parts := Tampered(secret, noise);
    TamperedFacts(secret, noise);
    assert !Carries(I7, 1, 5) && !Carries(I7, 2, 5) && !Carries(I7, 3, 5) && !Carries(I7, 4, 5);
    assert Recovered(I7, parts)[5] == !secret[5];
  }

  /** With part 0 altered, bit 1 is disputed: part 0 against parts 3 and 4. */
  lemma TamperedVoters(secret: Word, noise: seq<Word>, b: bool)
    requires |noise| == 7
    ensures Voters(I7, Tampered(secret, noise), 1, b) == if b == !secret[1] then [0] else [3, 4]
  {
    var parts := Tampered(secret, noise);
    TamperedFacts(secret, noise);
    assert Carries(I7, 3, 1) && Carries(I7, 4, 1) && !Carries(I7, 1, 1) && !Carries(I7, 2, 1);
    var p0, p1, p2, p3, p4 := parts[0], parts[1], parts[2], parts[3], parts[4];
    assert parts == [p0, p1, p2, p3] + [p4];
    assert [p0, p1, p2, p3] == [p0, p1, p2] + [p3];
    assert [p0, p1, p2] == [p0, p1] + [p2];
    assert [p0, p1] == [p0] + [p1];
    assert [p0] == [] + [p0];
    VotersOfAppend(I7, [], p0, 1, b);
    VotersOfAppend(I7, [p0], p1, 1, b);
    VotersOfAppend(I7, [p0, p1], p2, 1, b);
    VotersOfAppend(I7, [p0, p1, p2], p3, 1, b);
    VotersOfAppend(I7, [p0, p1, p2, p3], p4, 1, b);
  }

  /**
   * The second loop of `test_validate`: with part 0 altered, reconstruction
   * is wrong and part 0 is flagged, so "no part flagged" and "secret
   * recovered" agree, both false.
   */
  lemma TamperedPartZero(secret: Word, noise: seq<Word>)
    requires |noise| == 7
    ensures Recovered(I7, Tampered(secret, noise)) != secret
    ensures Flagged(I7, Tampered(secret, noise), 0)
  {
    var parts := Tampered(secret, noise);
    TamperedNotRecovered(secret, noise);
    TamperedVoters(secret, noise, false);
    TamperedVoters(secret, noise, true);
    assert FlaggedAt(I7, parts, 1, 0);
  }

  /** An engine of order 33 whose every row carries every bit. */
  const AllOnes33: Matrix := seq(33, _ => seq(33, _ => 1))

  /**
   * Part 0 states 1 and part 32 states 0 on every bit, so every bit is a
   * tie and the zeros are flagged: part 32 is flagged, and `validate` as
   * written would set `suspicious[32]` in a vector of 32 flags. The source
   * panics where the version sized by rows reports `[32]`.
   */
  lemma Row32Flagged()
    ensures WellFormed(AllOnes33) && NumbersBelow([Part(0, seq(W, _ => true)), Part(32, Zero)], 33)
    ensures Flagged(AllOnes33, [Part(0, seq(W, _ => true)), Part(32, Zero)], 32)
  {
    var first := Part(0, seq(W, _ => true));
    var parts := [first, Part(32, Zero)];
    assert Carries(AllOnes33, 0, 0) && Carries(AllOnes33, 32, 0);
    assert parts[..1] == [first] && [first][..0] == [];
    assert Voters(AllOnes33, [first], 0, false) == [];
    assert Voters(AllOnes33, [first], 0, true) == [0];
    assert Voters(AllOnes33, parts, 0, false) == [32];
    assert Voters(AllOnes33, parts, 0, true) == [0];
    assert FlaggedAt(AllOnes33, parts, 0, 32);
  }
}
