/**
 * The public scheme (src/lib.rs): a Hadamard matrix is checked, normalized
 * and turned into the incidence matrix of the engine, and the number of
 * parts needed to reconstruct is fixed from its order.
 */
module Scheme {
  import opened Wrappers
  import opened Words
  import opened Hadamard
  import opened SchemeImpl

  /**
   * `get_threshold`: (order + 3) / 2 for an incidence matrix of the given
   * order, the least count that is more than half of order + 1 (the order of
   * the Hadamard matrix).
   */
  function GetThreshold(mtx: Matrix): (t: nat)
    ensures 2 * t > |mtx| + 1 && 2 * t <= |mtx| + 3
  {
    (|mtx| + 3) / 2
  }

  /** For an incidence matrix of order 4t - 1 (from a Hadamard matrix of order 4t) the threshold is 2t + 1. */
  lemma ThresholdOfOrder(mtx: Matrix, t: nat)
    requires t >= 1 && |mtx| == 4 * t - 1
    ensures GetThreshold(mtx) == 2 * t + 1
  {
  }

  /** `HadamardSSS`: the engine and the number of parts `reconstruct` demands. */
  datatype HadamardSSS = HadamardSSS(hss: HSS, threshold: nat)
  {
    /**
     * `new`: the input must be a Hadamard matrix (otherwise the `expect`
     * panics); it is normalized, its incidence matrix becomes the engine's,
     * and the threshold is taken from that incidence matrix.
     */
    static method New(mtx: array2<int>) returns (r: Result<HadamardSSS>)
      requires IsHadamard(Grid(mtx))
      ensures r.Ok?
      ensures r.value.hss.mtx == Incidence(NormalForm(Grid(mtx)))
      ensures IsHadamard(NormalForm(Grid(mtx)))
      ensures |r.value.hss.mtx| == mtx.Length0 - 1
      ensures r.value.threshold == GetThreshold(r.value.hss.mtx)
    {
      var had := HadamardMatrix.From(mtx);
      var h := had.value;
      h.Normalize();
      var incidence := h.GetIncidence();
      r := Ok(HadamardSSS(HSS(incidence), GetThreshold(incidence)));
    }

    /** `is_valid`: no part is flagged, which is the case exactly when no bit is disputed. */
    method IsValid(parts: seq<Part>) returns (ok: bool)
      requires WellFormed(hss.mtx) && NumbersBelow(parts, |hss.mtx|)
      requires forall x: nat :: Flagged(hss.mtx, parts, x) ==> x < W
      ensures ok <==> forall x: nat :: !Flagged(hss.mtx, parts, x)
      ensures ok <==> forall p | 0 <= p < W :: !Conflict(hss.mtx, parts, p)
    {
      var flagged := hss.Validate(parts);
      ok := |flagged| == 0;
      if !ok {
        assert flagged[0] in flagged;
      }
      NothingFlaggedIffConsistent(hss.mtx, parts);
    }

    /** `share`: handed to the engine. */
    method Share(secret: Word, noise: seq<Word>) returns (r: Result<seq<Part>>)
      requires WellFormed(hss.mtx) && |noise| == |hss.mtx|
      ensures r.Ok? && r.value == Shares(hss.mtx, secret, noise)
    {
      r := hss.Share(secret, noise);
    }

    /** `reconstruct`: an error for fewer parts than the threshold, the engine's answer otherwise. */
    method Reconstruct(parts: seq<Part>) returns (r: Result<Word>)
      requires |parts| >= threshold ==> WellFormed(hss.mtx) && NumbersBelow(parts, |hss.mtx|)
      ensures r.Err? <==> |parts| < threshold
      ensures r.Err? ==> r.error == "less than threshold parties"
      ensures r.Ok? ==> r.value == Recovered(hss.mtx, parts)
    {
      if |parts| < threshold {
        r := Err("less than threshold parties");
      } else {
        r := hss.Reconstruct(parts);
      }
    }

    /** `validate`: handed to the engine. */
    method Validate(parts: seq<Part>) returns (flagged: seq<nat>)
      requires WellFormed(hss.mtx) && NumbersBelow(parts, |hss.mtx|)
      requires forall x: nat :: Flagged(hss.mtx, parts, x) ==> x < W
      ensures forall a, b | 0 <= a < b < |flagged| :: flagged[a] < flagged[b]
      ensures forall x: nat :: x in flagged <==> Flagged(hss.mtx, parts, x)
    {
      flagged := hss.Validate(parts);
    }
  }

  /**
   * The scheme's promise: when every column of the incidence matrix is
   * missed by fewer than `threshold` rows, any parts made by `share` that
   * come from at least `threshold` distinct rows pass the threshold gate,
   * are not flagged, and reconstruct the secret.
   */
  lemma ThresholdRoundTrip(s: HadamardSSS, secret: Word, noise: seq<Word>, parts: seq<Part>)
    requires WellFormed(s.hss.mtx) && |noise| == |s.hss.mtx|
    requires forall c | 0 <= c < |s.hss.mtx| :: |ZeroRows(s.hss.mtx, c)| < s.threshold
    requires forall k | 0 <= k < |parts| :: parts[k] in Shares(s.hss.mtx, secret, noise)
    requires |RowsOf(parts)| >= s.threshold
    ensures |parts| >= s.threshold
    ensures Authentic(s.hss.mtx, parts, secret)
    ensures Recovered(s.hss.mtx, parts) == secret
    ensures forall x: nat :: !Flagged(s.hss.mtx, parts, x)
  {
    SharesAreAuthentic(s.hss.mtx, secret, noise, parts);
    DistinctRowsCover(s.hss.mtx, parts, s.threshold);
    RoundTrip(s.hss.mtx, parts, secret);
    AuthenticNotFlagged(s.hss.mtx, parts, secret);
    RowsOfSize(parts);
  }

  /** There are no more distinct rows than parts. */
  lemma {:induction false} RowsOfSize(parts: seq<Part>)
    ensures |RowsOf(parts)| <= |parts|
    decreases |parts|
  {
    if |parts| > 0 {
      var init := parts[..|parts| - 1];
      RowsOfSize(init);
      assert RowsOf(parts) == RowsOf(init) + {parts[|parts| - 1].number} by {
        forall x | x in RowsOf(parts)
          ensures x in RowsOf(init) + {parts[|parts| - 1].number}
        {
          var k :| 0 <= k < |parts| && parts[k].number == x;
          if k < |init| {
            assert init[k] == parts[k];
          }
        }
        forall x | x in RowsOf(init)
          ensures x in RowsOf(parts)
        {
          var k :| 0 <= k < |init| && init[k].number == x;
          assert parts[k] == init[k];
        }
      }
    }
  }
}
