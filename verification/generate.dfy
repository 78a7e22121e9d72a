/** The initial slice: `sliceRandomInitialize` (src/main.go:104-110). */
module Generate {
  import Config
  import Rand

  /** Every element lies in `[1, ScreenHeight]`, the range of a bar that fits the surface. */
  predicate InDisplayRange(s: seq<int>) {
    forall k :: 0 <= k < |s| ==> 1 <= s[k] <= Config.ScreenHeight
  }

  /** `sliceRandomInitialize(len)`: a fresh slice of `len` elements, each one an answer of
      `myRand(1, screenHeight)`. Go's `make` panics on a negative length; that is the requires. */
  method SliceRandomInitialize(len: int) returns (s: seq<int>)
    requires len >= 0
    ensures |s| == len
    ensures InDisplayRange(s)
  {
    var slice := new int[len];
    var i := 0;
    while i < len
      invariant 0 <= i <= len
      invariant InDisplayRange(slice[..i])
    {
      slice[i] := Rand.MyRand(1, Config.ScreenHeight);
      i := i + 1;
    }
    s := slice[..];
  }
}
