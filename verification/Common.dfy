/** A few notions shared by the models. */
module Common {

  datatype Option<+T> = None | Some(value: T)

  function Min(a: int, b: int): (m: int)
    ensures m <= a && m <= b && (m == a || m == b)
  {
    if a < b then a else b
  }

  function Max(a: int, b: int): (m: int)
    ensures m >= a && m >= b && (m == a || m == b)
  {
    if a < b then b else a
  }

  type Byte = b: int | 0 <= b < 256

  const INT_MAX: int := 2147483647
  const INT_MIN: int := -2147483648
  const TWO_32: int := 4294967296

  /** A C `int`, and one that is not negative. */
  type Int = x: int | INT_MIN <= x <= INT_MAX
  type Size = x: int | 0 <= x <= INT_MAX

  /** What a sum or difference of ints leaves in 32 bits. */
  function Wrap(x: int): (r: Int)
    ensures INT_MIN <= x <= INT_MAX ==> r == x
    ensures INT_MAX < x <= 2 * INT_MAX + 1 ==> r == x - TWO_32
    ensures 2 * INT_MIN <= x < INT_MIN ==> r == x + TWO_32
  {
    (x - INT_MIN) % TWO_32 + INT_MIN
  }

  lemma WrapAdds(x: int, y: int)
    ensures Wrap(Wrap(x) + y) == Wrap(x + y)
  {
    var k := (x - INT_MIN) / TWO_32;
    assert Wrap(x) == x - TWO_32 * k;
    WrapTurns(x + y, k);
  }

  lemma WrapTurns(x: int, k: int)
    ensures Wrap(x - TWO_32 * k) == Wrap(x)
  {
    var q, r := (x - INT_MIN) / TWO_32, (x - INT_MIN) % TWO_32;
    assert x - TWO_32 * k - INT_MIN == TWO_32 * (q - k) + r;
  }

  /** Size of the buffers that lines are read into and relayed through. */
  const MAXLINE: nat := 4096

  /** A text that arrived in pieces. */
  function Concat(pieces: seq<string>): string {
    if pieces == [] then "" else pieces[0] + Concat(pieces[1..])
  }

  function Pow2(k: nat): (p: nat)
    ensures p >= 1
  {
    if k == 0 then 1 else 2 * Pow2(k - 1)
  }
}
