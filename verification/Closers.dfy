/** The `close` function a request decoder returns. */
module Closers {
  predicate Fails(closers: seq<bool>) { exists i :: 0 <= i < |closers| && closers[i] }

  /** Runs the closers in reverse order and joins their errors: nil exactly when none fails. */
  method Close(closers: seq<bool>) returns (failed: bool)
    ensures failed == Fails(closers)
  {
    failed := false;
    var i := |closers|;
    while i > 0
      invariant 0 <= i <= |closers|
      invariant failed <==> exists j :: i <= j < |closers| && closers[j]
    {
      i := i - 1;
      failed := failed || closers[i];
    }
  }
}
