/** Small vocabulary shared by the other modules. */
module Common {
  datatype Option<+T> = None | Some(value: T)

  function Max(a: int, b: int): int {
    if a < b then b else a
  }

  function RealMin(a: real, b: real): real {
    if b < a then b else a
  }

  function RealMax(a: real, b: real): real {
    if a < b then b else a
  }

  function RealAbs(a: real): real {
    if a < 0.0 then -a else a
  }

  lemma {:induction false} MulMonotone(a: real, b: real, c: real)
    requires a <= b && c >= 0.0
    ensures a * c <= b * c
  {
  }

  lemma {:induction false} MulStrict(a: real, b: real, c: real)
    requires a < b && c > 0.0
    ensures a * c < b * c
  {
  }
}
