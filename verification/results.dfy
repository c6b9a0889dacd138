/**
 The result screen shared by written recall, multiple choice and matching: it
 computes `percentage = correct / total * 100` and picks one of three messages
 by comparing the percentage with 80 and 60.
 */
module Results {
  import opened Base

  datatype Tier =
    | Excellent       // percentage >= 80
    | Good            // 60 <= percentage < 80
    | KeepPracticing  // percentage < 60

  /** The message tier for `correct` out of `total`, compared in integers
      (`correct * 100 >= 80 * total` instead of the percentage). A total of zero
      is the division by zero the result screen raises. */
  function TierOf(correct: nat, total: nat): (r: Result<Tier>)
    ensures r.Err? <==> total == 0
    ensures r.Err? ==> r.error == DivisionByZero
    ensures r == Ok(Excellent) <==> total > 0 && correct * 100 >= 80 * total
    ensures r == Ok(Good) <==> total > 0 && 60 * total <= correct * 100 < 80 * total
    ensures r == Ok(KeepPracticing) <==> total > 0 && correct * 100 < 60 * total
  {
    if total == 0 then Err(DivisionByZero)
    else if correct * 100 >= 80 * total then Ok(Excellent)
    else if correct * 100 >= 60 * total then Ok(Good)
    else Ok(KeepPracticing)
  }

  /** The percentage the screen displays, in exact arithmetic. */
  function Percentage(correct: nat, total: nat): real
    requires total > 0
  {
    (correct as real / total as real) * 100.0
  }

  /** Comparing the percentage with a bound is comparing `correct * 100`
      with `bound * total`. */
  lemma ScaleCompare(correct: nat, total: nat, bound: nat)
    requires total > 0
    ensures Percentage(correct, total) >= bound as real <==> correct * 100 >= bound * total
  {
    var t := total as real;
    var p := Percentage(correct, total);
    assert p * t == correct as real * 100.0 by {
      assert (correct as real / t) * t == correct as real;
    }
    ScaleByPositive(p, bound as real, t);
    assert (correct * 100) as real == correct as real * 100.0;
    assert (bound * total) as real == bound as real * t;
  }

  lemma ScaleByPositive(x: real, y: real, t: real)
    requires t > 0.0
    ensures x >= y <==> x * t >= y * t
  {
    if x >= y {
      assert (x - y) * t >= 0.0;
    } else {
      assert (y - x) * t > 0.0;
    }
  }

  /** The integer comparisons pick the same tier as comparing the exact
      percentage with 80 and 60. */
  lemma TierMatchesPercentage(correct: nat, total: nat)
    requires total > 0
    ensures TierOf(correct, total) == Ok(Excellent) <==> Percentage(correct, total) >= 80.0
    ensures TierOf(correct, total) == Ok(Good) <==>
      60.0 <= Percentage(correct, total) < 80.0
    ensures TierOf(correct, total) == Ok(KeepPracticing) <==> Percentage(correct, total) < 60.0
  {
    ScaleCompare(correct, total, 80);
    ScaleCompare(correct, total, 60);
  }

  /** More correct answers out of the same total never lower the tier. */
  lemma TierMonotone(c1: nat, c2: nat, total: nat)
    requires c1 <= c2 && total > 0
    ensures TierOf(c1, total) == Ok(Excellent) ==> TierOf(c2, total) == Ok(Excellent)
    ensures TierOf(c2, total) == Ok(KeepPracticing) ==> TierOf(c1, total) == Ok(KeepPracticing)
  {
    assert c1 * 100 <= c2 * 100;
  }

  /** A session answered entirely correctly lands in the top tier. */
  lemma FullMarksExcellent(total: nat)
    requires total > 0
    ensures TierOf(total, total) == Ok(Excellent)
  {
  }
}
