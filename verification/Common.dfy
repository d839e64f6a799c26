/** Value types shared by every module: fixed-width integers, optional values and
    the exception-free result type of the code base. */
module Common {

  // Unsigned machine integers. They do not wrap by themselves: every place where
  // the program relies on wrap-around writes the modulus out.
  type u8 = x: int | 0 <= x < 0x100
  type u16 = x: int | 0 <= x < 0x1_0000
  type u32 = x: int | 0 <= x < 0x1_0000_0000

  datatype Option<+T> = None | Some(value: T)

  datatype Error =
    | NotFound
    | InvalidArgument
    | Unsupported
    | ResourceExhausted
    | Protocol
    | Internal

  datatype Result<+T> = Ok(value: T) | Err(error: Error)

  lemma Associate<T>(a: seq<T>, b: seq<T>, c: seq<T>)
    ensures a + (b + c) == (a + b) + c
  {
  }

  lemma RemovedIsSmaller<K, V>(m: map<K, V>, k: K)
    requires k in m
    ensures |m - {k}| == |m| - 1
  {
    assert (m - {k}).Keys == m.Keys - {k};
    assert |m - {k}| == |(m - {k}).Keys| && |m| == |m.Keys|;
  }

  function Min(a: int, b: int): int {
    if a < b then a else b
  }
}
