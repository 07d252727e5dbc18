/** One LED of the 5x5 matrix: a brightness that only changes through a
    validated setter. */
module Pixels {
  import opened Values

  const MaxBrightness := 9

  /** The two checks of `set_brightness`, in the order the source makes them:
      the exact type first (so `True` is refused although it is an `int`
      subclass), then the range. */
  function CheckBrightness(v: Value): (r: Result<int>)
    ensures r.Ok? <==> v.Int? && 0 <= v.i <= MaxBrightness
    ensures r.Ok? ==> r.value == v.i
    ensures !v.Int? ==> r == Err(TypeError)
    ensures v.Int? && (v.i < 0 || v.i > MaxBrightness) ==> r == Err(ValueError)
  {
    if !v.Int? then Err(TypeError)
    else if !(0 <= v.i <= MaxBrightness) then Err(ValueError)
    else Ok(v.i)
  }

  /** What `set_brightness(v)` returns to its caller: nothing, or the error. */
  function SetOutcome(v: Value): Outcome {
    match CheckBrightness(v)
    case Ok(_) => Done
    case Err(e) => Raised(e)
  }

  class Pixel {
    var brightness: int

    ghost predicate Valid()
      reads this
    {
      0 <= brightness <= MaxBrightness
    }

    constructor ()
      ensures Valid() && brightness == 0
    {
      brightness := 0;
    }

    method GetBrightness() returns (b: int)
      requires Valid()
      ensures b == brightness && 0 <= b <= MaxBrightness
    {
      b := brightness;
    }

    /** Stores `v` when it is an int in 0..9; otherwise raises and keeps the
        old brightness. */
    method SetBrightness(v: Value) returns (r: Outcome)
      requires Valid()
      modifies this
      ensures Valid()
      ensures r == SetOutcome(v)
      ensures r == Done ==> brightness == v.i
      ensures r.Raised? ==> brightness == old(brightness)
    {
      if !v.Int? {
        return Raised(TypeError);
      }
      if !(0 <= v.i <= MaxBrightness) {
        return Raised(ValueError);
      }
      brightness := v.i;
      r := Done;
    }
  }

  /** A successful `set_brightness(b)` is observed by the next `get_brightness`,
      and a refused one leaves the previous value observable. */
  method SetThenGet(p: Pixel, v: Value) returns (r: Outcome, b: int)
    requires p.Valid()
    modifies p
    ensures p.Valid()
    ensures r == Done <==> v.Int? && 0 <= v.i <= MaxBrightness
    ensures r == Done ==> b == v.i
    ensures r.Raised? ==> b == old(p.brightness)
  {
    r := p.SetBrightness(v);
    b := p.GetBrightness();
  }
}
