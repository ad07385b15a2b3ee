/** Order helpers on exact reals, shared by the cursor clamp and the F1 bounds. */
module Reals {

  function Min(a: real, b: real): real { if a <= b then a else b }
  function Max(a: real, b: real): real { if a >= b then a else b }
}
