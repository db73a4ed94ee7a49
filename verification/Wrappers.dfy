/** A value that may be missing. */
module Wrappers {
  datatype Option<T> = None | Some(value: T)
}

/** Facts about sequences. */
module Sequences {
  /** Different sequences of one length have a first place where they differ. */
  lemma {:induction false} FirstDifference<T>(a: seq<T>, b: seq<T>, i: nat) returns (k: nat)
    requires |a| == |b| && i <= |a| && a[..i] == b[..i] && a != b
    ensures i <= k < |a| && a[..k] == b[..k] && a[k] != b[k]
    decreases |a| - i
  {
    assert a[..|a|] == a && b[..|b|] == b;
    if a[i] != b[i] {
      k := i;
    } else {
      assert a[..i + 1] == a[..i] + [a[i]] && b[..i + 1] == b[..i] + [b[i]];
      k := FirstDifference(a, b, i + 1);
    }
  }
}
