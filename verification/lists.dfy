/** What several modules say about sequences. */
module Lists {
  datatype Option<T> = None | Some(value: T)

  ghost predicate NoDuplicates<T>(s: seq<T>) {
    forall i, j :: 0 <= i < j < |s| ==> s[i] != s[j]
  }

  /** `s` without the element at `k`. */
  function Without<T>(s: seq<T>, k: nat): (r: seq<T>)
    requires k < |s|
    ensures |r| == |s| - 1
    ensures forall i {:trigger r[i]} :: 0 <= i < |r| ==> r[i] == if i < k then s[i] else s[i + 1]
  {
    s[..k] + s[k + 1..]
  }
}

/** The kernel's error numbers. */
module Errno {
  const EPERM := 1
  const ENOENT := 2
  const EIO := 5
  const ENOMEM := 12
  const EFAULT := 14
  const EBUSY := 16
  const EEXIST := 17
  const ENODEV := 19
  const EINVAL := 22
  const ENFILE := 23
  // the Hoolock patch's own
  const EHOOLOCKBUFF := 132
}
