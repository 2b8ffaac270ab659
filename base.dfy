/** Values shared by every module: octets, optional values and results. */
module Base {

  /** One octet, as an element of a Python `bytes` object. */
  type Byte = b: int | 0 <= b < 256

  datatype Option<+T> = None | Some(value: T)

  /** The outcome of an operation that raises an exception in the source. */
  datatype Result<+T, +E> = Ok(value: T) | Err(error: E) {
    predicate IsFailure() { Err? }

    function PropagateFailure<U>(): Result<U, E>
      requires Err?
    {
      Err(error)
    }

    function Extract(): T
      requires Ok?
    {
      value
    }
  }

  predicate AllZero(s: seq<Byte>) {
    forall i :: 0 <= i < |s| ==> s[i] == 0
  }

  /** `b"\x00" * n` */
  function Zeros(n: nat): (r: seq<Byte>)
    ensures |r| == n && AllZero(r)
  {
    seq(n, _ => 0)
  }

  /** `field` holds `data` and then nothing but zero bytes. */
  predicate ZeroPadded(field: seq<Byte>, data: seq<Byte>) {
    |data| <= |field| && field[..|data|] == data && AllZero(field[|data|..])
  }

  function Reverse<T>(s: seq<T>): (r: seq<T>)
    ensures |r| == |s|
    ensures forall i :: 0 <= i < |s| ==> r[i] == s[|s| - 1 - i]
  {
    if s == [] then [] else Reverse(s[1..]) + [s[0]]
  }

  lemma ReverseReverse<T>(s: seq<T>)
    ensures Reverse(Reverse(s)) == s
  {
    assert forall i :: 0 <= i < |s| ==> Reverse(Reverse(s))[i] == s[i];
  }

  function Pow2(n: nat): (r: nat)
    ensures r >= 1
  {
    if n == 0 then 1 else 2 * Pow2(n - 1)
  }

  function Pow256(n: nat): (r: nat)
    ensures r >= 1
  {
    if n == 0 then 1 else 256 * Pow256(n - 1)
  }

  /** A product of two non-negative numbers is non-negative. */
  lemma ProductSign(a: int, b: int)
    ensures a >= 0 && b >= 0 ==> a * b >= 0
  {
  }

  /** Quotient and remainder are the only pair that rebuilds the dividend. */
  lemma DivisionUnique(a: int, m: int, q: int, r: int)
    requires m > 0 && a == m * q + r && 0 <= r < m
    ensures a / m == q && a % m == r
  {
    var q', r' := a / m, a % m;
    assert m * q' + r' == a;
    var d := q - q';
    assert m * d == m * q - m * q';
    assert m * d == r' - r;
    ProductSign(m, d - 1);
    ProductSign(m, -d - 1);
    assert m * d == m * (d - 1) + m;
    assert m * -d == m * (-d - 1) + m;
  }
}
