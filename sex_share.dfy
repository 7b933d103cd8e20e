/** The `%_M` and `%_F` entries of `compute_predictors_statistic` (lines 131-132):
    the share of subjects whose Sex code is nonzero, and its complement. */
module SexShare {
  import opened Wrappers

  /** `np.count_nonzero(sex)`. */
  function CountNonzero(sex: seq<real>): (n: nat)
    ensures n <= |sex|
  {
    if sex == [] then 0 else (if sex[0] != 0.0 then 1 else 0) + CountNonzero(sex[1..])
  }

  /** The number of subjects coded 0. */
  function CountZero(sex: seq<real>): (n: nat)
    ensures n <= |sex|
  {
    if sex == [] then 0 else (if sex[0] == 0.0 then 1 else 0) + CountZero(sex[1..])
  }

  /** Every subject is counted once, as coded zero or as coded nonzero. */
  lemma {:induction false} CountsPartition(sex: seq<real>)
    ensures CountNonzero(sex) + CountZero(sex) == |sex|
  {
    if sex != [] {
      CountsPartition(sex[1..]);
    }
  }

  lemma {:induction false} CountNonzeroAll(sex: seq<real>)
    ensures CountNonzero(sex) == |sex| <==> forall i :: 0 <= i < |sex| ==> sex[i] != 0.0
    ensures CountNonzero(sex) == 0 <==> forall i :: 0 <= i < |sex| ==> sex[i] == 0.0
  {
    if sex != [] {
      CountNonzeroAll(sex[1..]);
      assert forall i :: 1 <= i < |sex| ==> sex[i] == sex[1..][i - 1];
    }
  }

  datatype Share = Share(male: real, female: real)

  /** Python's `ZeroDivisionError` from `count / len` on an empty column. */
  datatype StatsError = ZeroDivisionError

  /** `%_M = 100 * (count_nonzero / len)` and `%_F = 100 - %_M`, in exact
      arithmetic. */
  function SexPercentages(sex: seq<real>): (r: Result<Share, StatsError>)
    ensures r.Failure? <==> sex == []
    ensures r.Success? ==> 0.0 <= r.value.male <= 100.0 && 0.0 <= r.value.female <= 100.0
    ensures r.Success? ==> r.value.male + r.value.female == 100.0
  {
    if sex == [] then Failure(ZeroDivisionError)
    else
      var fraction := CountNonzero(sex) as real / |sex| as real;
      assert 0.0 <= fraction <= 1.0;
      var male := 100.0 * fraction;
      Success(Share(male, 100.0 - male))
  }

  /** `%_F` is the share of subjects coded 0. */
  lemma FemaleShareCountsZeros(sex: seq<real>)
    requires sex != []
    ensures SexPercentages(sex).value.female == 100.0 * (CountZero(sex) as real / |sex| as real)
  {
    CountsPartition(sex);
    ComplementShare(|sex| as real, CountNonzero(sex) as real, CountZero(sex) as real);
  }

  lemma ComplementShare(n: real, nonzero: real, zero: real)
    requires n > 0.0 && zero == n - nonzero
    ensures 100.0 - 100.0 * (nonzero / n) == 100.0 * (zero / n)
  {
    var qn, qz := nonzero / n, zero / n;
    assert qn * n == nonzero && qz * n == zero;
    assert (1.0 - qn) * n == zero;
    var gap := qz - (1.0 - qn);
    assert gap * n == 0.0;
    if gap != 0.0 {
      assert false;
    }
  }

  /** `%_M` is 100 exactly when every code is nonzero, and 0 exactly when
      every code is zero. */
  lemma MaleShareExtremes(sex: seq<real>)
    requires sex != []
    ensures SexPercentages(sex).value.male == 100.0 <==> forall i :: 0 <= i < |sex| ==> sex[i] != 0.0
    ensures SexPercentages(sex).value.male == 0.0 <==> forall i :: 0 <= i < |sex| ==> sex[i] == 0.0
  {
    CountNonzeroAll(sex);
    QuotientExtremes(CountNonzero(sex) as real, |sex| as real);
  }

  lemma QuotientExtremes(part: real, n: real)
    requires n > 0.0
    ensures part / n == 1.0 <==> part == n
    ensures part / n == 0.0 <==> part == 0.0
  {
    var q := part / n;
    assert q * n == part;
    if part == n {
      assert (q - 1.0) * n == 0.0;
      if q != 1.0 {
        assert false;
      }
    }
    if part == 0.0 {
      if q != 0.0 {
        assert false;
      }
    }
  }
}
