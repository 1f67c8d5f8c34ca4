/** Types and facts that several models share. */
module Common {

  type Byte = x: int | 0 <= x < 256

  datatype Option<T> = None | Some(value: T)

  lemma Assoc<T>(a: seq<T>, b: seq<T>, c: seq<T>)
    ensures (a + b) + c == a + (b + c)
  {
  }
}

/** Division with its quotient and remainder given. */
module Arithmetic {

  lemma Division(y: int, m: int, q: int, r: int)
    requires m > 0 && y == m * q + r && 0 <= r < m
    ensures y / m == q && y % m == r
  {
    var k := y / m - q;
    assert m * k == r - y % m;
    if k != 0 {
      MultipleIsFar(m, k);
    }
  }

  lemma MultipleIsFar(m: int, k: int)
    requires m > 0 && k != 0
    ensures m * k >= m || m * k <= -m
  {
  }
}
