/** Random numbers in a range, as lengths of padding are drawn. */
module Rand {
  import opened Bytes

  /** What one uniform draw below a bound may give; a bound of 0 or 1 always gives 0. */
  predicate Uniform(bound: u32, rand: u32) {
    rand == 0 || rand < bound
  }

  ghost predicate AllUniform(bound: u32, draws: seq<u32>) {
    forall i :: 0 <= i < |draws| ==> Uniform(bound, draws[i])
  }

  /** The loop's result, for the numbers it draws in turn; without one it goes on drawing. */
  function FirstWithin(min: u32, max: u32, draws: seq<u32>): Option<u32> {
    if draws == [] then None
    else if min <= draws[0] <= max then Some(draws[0])
    else FirstWithin(min, max, draws[1..])
  }

  method RandInRange(min: u32, max: u32, draws: seq<u32>) returns (r: Option<u32>)
    ensures r == FirstWithin(min, max, draws)
  {
    assert draws[0..] == draws;
    for i := 0 to |draws|
      invariant FirstWithin(min, max, draws) == FirstWithin(min, max, draws[i..])
    {
      assert draws[i..][1..] == draws[i + 1..];
      var rand := draws[i];
      if !(rand < min || rand > max) {
        return Some(rand);
      }
    }
    r := None;
  }

  /** The loop may end with a number, drawing only what uniform draws below the maximum can give. */
  ghost predicate Drawn(min: u32, max: u32, r: u32) {
    exists draws :: AllUniform(max, draws) && FirstWithin(min, max, draws) == Some(r)
  }

  lemma {:induction false} FirstIsWithin(min: u32, max: u32, draws: seq<u32>)
    requires AllUniform(max, draws)
    ensures var r := FirstWithin(min, max, draws);
      r.Some? ==> min <= r.value <= max && Uniform(max, r.value)
  {
    if draws != [] {
      assert Uniform(max, draws[0]);
      FirstIsWithin(min, max, draws[1..]);
    }
  }

  /** With a positive minimum the numbers drawn are those from the minimum up to, but not including, the
      maximum; when there are none, the loop never ends, whatever it draws. */
  lemma DrawnExactly(min: u32, max: u32, r: u32)
    requires min > 0
    ensures Drawn(min, max, r) <==> min <= r < max
    ensures min >= max ==> forall draws :: AllUniform(max, draws) ==> FirstWithin(min, max, draws) == None
  {
    if min <= r < max {
      assert AllUniform(max, [r]) && FirstWithin(min, max, [r]) == Some(r);
    }
    forall draws | AllUniform(max, draws)
      ensures var f := FirstWithin(min, max, draws);
        f.Some? ==> min <= f.value < max
    {
      FirstIsWithin(min, max, draws);
    }
  }
}
