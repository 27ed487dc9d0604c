/** Small definitions that several modules share. */
module Common {
  datatype Option<+T> = None | Some(value: T)

  function Max(a: int, b: int): int { if a < b then b else a }
  function Min(a: int, b: int): int { if a < b then a else b }

  /** s without its i-th element. */
  function Without<T>(s: seq<T>, i: nat): seq<T>
    requires i < |s|
  {
    s[..i] + s[i + 1..]
  }

  /** Always true. A predicate guarded by it is unfolded only in proofs that mention it; where a
      module has several such predicates, n tells which of them is meant. */
  predicate Open(n: nat) { true }
}
