/** Decimal text of an int: written by recursion, written backwards and reversed with exclusive or, read back. */
module Decimal {
  import opened Common

  /** Character codes. */
  const ZERO: Byte := 48

  /** C's division and remainder truncate toward zero. */
  function Quotient(n: int): (q: int)
    ensures n > 0 ==> 0 <= q < n
    ensures n < 0 ==> n < q <= 0
  {
    if n >= 0 then n / 10 else -(-n / 10)
  }

  function Remainder(n: int): (r: int)
    ensures -10 < r < 10 && Quotient(n) * 10 + r == n
    ensures n >= 0 ==> r >= 0
  {
    if n >= 0 then n % 10 else -(-n % 10)
  }

  function Code(n: int): (c: Byte)
    ensures c != 0 && c as int == Remainder(n) + 48
  {
    Remainder(n) + 48
  }

  // ---------- the text and its value ----------

  function Digits(n: int): (s: seq<Byte>)
    ensures 0 !in s && (s == [] <==> n == 0)
    decreases if n >= 0 then n else -n
  {
    if n == 0 then [] else Digits(Quotient(n)) + [Code(n)]
  }

  function Text(n: int): (s: seq<Byte>)
    ensures 0 !in s && s != []
  {
    if n == 0 then [ZERO] else Digits(n)
  }

  /** A byte as a signed `char`. */
  function Char(b: Byte): int {
    if b < 128 then b else b - 256
  }

  /** What `myatoi` makes of a string. */
  function Value(s: seq<Byte>): int {
    if s == [] then 0 else Value(s[..|s| - 1]) * 10 + Char(s[|s| - 1]) - 48
  }

  /** Every byte counts its char less the code of 0, at its decimal place. */
  lemma {:induction false} ValueByPlaces(c: Byte, s: seq<Byte>)
    ensures Value([c] + s) == (Char(c) - 48) * Pow10(|s|) + Value(s)
    decreases |s|
  {
    if s == [] {
      assert [c] + s == [c] && [c][..0] == [];
    } else {
      var front, last := s[..|s| - 1], s[|s| - 1];
      ValueByPlaces(c, front);
      assert ([c] + s)[..|s|] == [c] + front;
      TenTimes(Char(c) - 48, |front|);
    }
  }

  lemma TenTimes(d: int, k: nat)
    ensures d * Pow10(k + 1) == 10 * (d * Pow10(k))
  {
    assert Pow10(k + 1) == 10 * Pow10(k);
  }

  /** Reading back what was written gives the number, for every int, negative ones included. */
  lemma {:induction false} RoundTrip(n: int)
    ensures Value(Digits(n)) == n && Value(Text(n)) == n
    decreases if n >= 0 then n else -n
  {
    if n != 0 {
      RoundTrip(Quotient(n));
      var s := Digits(n);
      assert s[..|s| - 1] == Digits(Quotient(n)) && s[|s| - 1] == Code(n);
    } else {
      assert [ZERO][..0] == [];
    }
  }

  predicate IsDigits(s: seq<Byte>) {
    forall i :: 0 <= i < |s| ==> 48 <= s[i] <= 57
  }

  lemma {:induction false} DigitsAreDigits(n: nat)
    ensures IsDigits(Digits(n)) && (n > 0 ==> Digits(n)[0] != ZERO)
    decreases n
  {
    if n > 0 {
      DigitsAreDigits(Quotient(n));
    }
  }

  /** The text of a number is the only string of digits without leading zero that has its value. */
  lemma {:induction false} TextIsUnique(s: seq<Byte>)
    requires IsDigits(s) && (s == [] || s[0] != ZERO)
    ensures Value(s) >= 0 && Digits(Value(s)) == s
    decreases |s|
  {
    hide Value, Digits;
    NoDigits();
    if s != [] {
      var front, last := s[..|s| - 1], s[|s| - 1];
      assert s == front + [last] && (if front == [] then last else front[0]) == s[0];
      TextIsUnique(front);
      ValueOfMore(front, last);
      OneMoreDigit(Value(front), last - 48);
    }
  }

  lemma NoDigits()
    ensures Value([]) == 0 && Digits(0) == []
  {
  }

  lemma ValueOfMore(front: seq<Byte>, last: Byte)
    requires last < 128
    ensures Value(front + [last]) == Value(front) * 10 + last - 48
  {
    assert (front + [last])[..|front|] == front;
  }

  lemma OneMoreDigit(n: int, d: int)
    requires n >= 0 && 0 <= d < 10 && (n > 0 || d > 0)
    ensures Digits(n * 10 + d) == Digits(n) + [48 + d]
  {
    LastDigit(n, d);
    hide Quotient, Remainder;
  }

  lemma LastDigit(n: int, d: int)
    requires n >= 0 && 0 <= d < 10
    ensures Quotient(n * 10 + d) == n && Remainder(n * 10 + d) == d
  {
  }

  function Pow10(k: nat): (p: int)
    ensures p > 0
  {
    if k == 0 then 1 else 10 * Pow10(k - 1)
  }

  lemma {:induction false} LengthIs(n: int, k: nat)
    requires -Pow10(k) < n < Pow10(k)
    ensures |Digits(n)| <= k
    decreases k
  {
    if n != 0 {
      LengthIs(Quotient(n), k - 1);
    }
  }

  /** Eleven bytes hold the text of any 32-bit int and its end. */
  lemma ElevenBytes(n: int)
    requires INT_MIN <= n <= INT_MAX
    ensures |Text(n)| + 1 <= 11
  {
    assert Pow10(10) == 10000000000 by {
      assert Pow10(5) == 100000;
      assert Pow10(7) == 10000000;
      assert Pow10(9) == 1000000000;
    }
    LengthIs(n, 10);
  }

  // ---------- writing by recursion ----------

  /** `_itoa_r` */
  method WriteDigits(p: array<Byte>, data: int) returns (index: nat)
    requires |Digits(data)| <= p.Length
    modifies p
    ensures index == |Digits(data)|
    ensures p[..index] == Digits(data) && p[index..] == old(p[index..])
    decreases if data >= 0 then data else -data
  {
    if data == 0 {
      return 0;
    }
    var ch := Code(data);
    index := WriteDigits(p, Quotient(data));
    assert p[index..][1..] == p[index + 1..];
    p[index] := ch;
    index := index + 1;
  }

  /** `itoa_r`, with room for the text and its end. */
  method ItoaR(p: array<Byte>, num: int)
    requires |Text(num)| < p.Length
    modifies p
    ensures p[..|Text(num)|] == Text(num) && p[|Text(num)|] == 0
    ensures p[|Text(num)| + 1..] == old(p[|Text(num)| + 1..])
  {
    if num == 0 {
      p[0] := 48;
      p[1] := 0;
    } else {
      var ind := WriteDigits(p, num);
      assert p[ind + 1..] == p[ind..][1..] && old(p[ind + 1..]) == old(p[ind..])[1..];
      p[ind] := 0;
    }
  }

  // ---------- writing backwards and reversing ----------

  /** Exclusive or of the lowest `bits` bits. */
  function XorBits(a: nat, b: nat, bits: nat): (c: nat)
    decreases bits
  {
    if bits == 0 then 0 else (if a % 2 == b % 2 then 0 else 1) + 2 * XorBits(a / 2, b / 2, bits - 1)
  }

  lemma {:induction false} XorBitsUndoes(a: nat, b: nat, bits: nat)
    requires a < Pow2(bits) && b < Pow2(bits)
    ensures XorBits(a, b, bits) < Pow2(bits)
    ensures XorBits(XorBits(a, b, bits), b, bits) == a && XorBits(XorBits(a, b, bits), a, bits) == b
    decreases bits
  {
    if bits > 0 {
      XorBitsUndoes(a / 2, b / 2, bits - 1);
      var c, low := XorBits(a, b, bits), if a % 2 == b % 2 then 0 else 1;
      Halves(XorBits(a / 2, b / 2, bits - 1), low);
      assert c / 2 == XorBits(a / 2, b / 2, bits - 1) && c % 2 == low;
      assert XorBits(c, b, bits) == (if low == b % 2 then 0 else 1) + 2 * (a / 2);
      assert XorBits(c, a, bits) == (if low == a % 2 then 0 else 1) + 2 * (b / 2);
    }
  }

  lemma Halves(half: nat, low: nat)
    requires low < 2
    ensures (low + 2 * half) / 2 == half && (low + 2 * half) % 2 == low
  {
  }

  function Xor(a: Byte, b: Byte): (c: Byte)
  {
    assert Pow2(8) == 256 by { assert Pow2(4) == 16 && Pow2(6) == 64; }
    XorBitsUndoes(a, b, 8);
    XorBits(a, b, 8)
  }

  lemma XorUndoes(a: Byte, b: Byte)
    ensures Xor(Xor(a, b), b) == a && Xor(Xor(a, b), a) == b
  {
    assert Pow2(8) == 256 by { assert Pow2(4) == 16 && Pow2(6) == 64; }
    XorBitsUndoes(a, b, 8);
  }

  function Reversed(s: seq<Byte>): (r: seq<Byte>)
    ensures |r| == |s| && forall i :: 0 <= i < |s| ==> r[i] == s[|s| - 1 - i]
  {
    if s == [] then [] else Reversed(s[1..]) + [s[0]]
  }

  /** `reverse` of the first `len` bytes, exchanging by exclusive or. */
  method Reverse(a: array<Byte>, len: nat)
    requires len <= a.Length
    modifies a
    ensures a[..len] == Reversed(old(a[..len])) && a[len..] == old(a[len..])
  {
    hide Xor, Reversed;
    var p, q := 0, len - 1;
    while p < q
      invariant 0 <= p && q == len - 1 - p && p <= q + 2
      invariant forall i :: 0 <= i < p ==> a[i] == old(a[len - 1 - i]) && a[len - 1 - i] == old(a[i])
      invariant forall i :: p <= i <= q ==> a[i] == old(a[i])
      invariant a[len..] == old(a[len..])
    {
      XorUndoes(a[p], a[q]);
      a[p] := Xor(a[p], a[q]);
      a[q] := Xor(a[p], a[q]);
      a[p] := Xor(a[p], a[q]);
      p := p + 1;
      q := q - 1;
    }
  }

  lemma ReversedEnd(s: seq<Byte>, c: Byte)
    ensures Reversed(s + [c]) == [c] + Reversed(s)
  {
  }

  /** The string at the start of a buffer. */
  predicate IsString(buffer: seq<Byte>, s: seq<Byte>) {
    |s| < |buffer| && buffer[..|s|] == s && buffer[|s|] == 0
  }

  lemma TextExactly(buffer: seq<Byte>, num: int)
    requires IsString(buffer, Digits(num))
    ensures IsString(buffer, Text(num)) <==> num != 0
  {
    assert |buffer| > 1 ==> buffer[..1][0] == buffer[0];
  }

  /** `itoa` writes the same digits as the recursion, and for 0 none: the result is the text of the number
      if and only if the number is not 0. */
  method Itoa(a: array<Byte>, num: int)
    requires |Digits(num)| < a.Length
    modifies a
    ensures var len := |Digits(num)|; a[..len] == Digits(num) && a[len] == 0 && a[len + 1..] == old(a[len + 1..])
    ensures IsString(a[..], Text(num)) <==> num != 0
  {
    var p := PutBackwards(a, num);
    hide Quotient, Remainder, Reversed, Digits, Text, IsString;
    a[p] := 0;
    ghost var len := |Digits(num)|;
    assert a[len..][1..] == old(a[len + 1..]);
    var n := StrLen(a, p);
    Reverse(a, n);
    assert a[len..][0] == 0 && a[len..][1..] == a[len + 1..];
    assert a[..][..len] == a[..len];
    IsStringMeans(a[..], Digits(num));
    TextExactly(a[..], num);
  }

  lemma IsStringMeans(buffer: seq<Byte>, s: seq<Byte>)
    ensures IsString(buffer, s) <==> |s| < |buffer| && buffer[..|s|] == s && buffer[|s|] == 0
  {
  }

  /** The digits from the last to the first. */
  method PutBackwards(a: array<Byte>, num: int) returns (p: nat)
    requires |Digits(num)| < a.Length
    modifies a
    ensures p == |Digits(num)| && Reversed(a[..p]) == Digits(num) && forall k :: 0 <= k < p ==> a[k] != 0
    ensures a[p + 1..] == old(a[p + 1..])
  {
    hide Quotient, Remainder, Reversed;
    var rest := num;
    ghost var len := |Digits(num)|;
    p := 0;
    while rest != 0
      invariant 0 <= p && p + |Digits(rest)| == len
      invariant Digits(rest) + Reversed(a[..p]) == Digits(num) && forall k :: 0 <= k < p ==> a[k] != 0
      invariant a[len + 1..] == old(a[len + 1..])
      decreases if rest >= 0 then rest else -rest
    {
      ghost var done := a[..p];
      a[p] := Code(rest);
      assert a[..p + 1] == done + [Code(rest)];
      ReversedEnd(done, Code(rest));
      rest := Quotient(rest);
      p := p + 1;
    }
    assert Digits(rest) + Reversed(a[..p]) == Reversed(a[..p]);
  }

  /** `strlen` of bytes that end at `end`. */
  method StrLen(a: array<Byte>, ghost end: nat) returns (n: nat)
    requires end < a.Length && a[end] == 0 && forall k :: 0 <= k < end ==> a[k] != 0
    ensures n == end
  {
    n := 0;
    while a[n] != 0
      invariant 0 <= n <= end
      decreases end - n
    {
      n := n + 1;
    }
  }

  // ---------- reading ----------

  /** No step of reading `s` leaves the range of a 32-bit int, the product and the sum before the zero code
      is taken off included. */
  predicate Fits(s: seq<Byte>) {
    s == [] || (Fits(s[..|s| - 1]) && var product := Value(s[..|s| - 1]) * 10;
                INT_MIN <= product <= INT_MAX && INT_MIN <= product + Char(s[|s| - 1]) <= INT_MAX)
  }

  /** `myatoi` of the bytes before `end`. */
  method Myatoi(p: array<Byte>, ghost end: nat) returns (num: int, ghost inRange: bool)
    requires end < p.Length && p[end] == 0 && forall k :: 0 <= k < end ==> p[k] != 0
    ensures num == Value(p[..end]) && inRange == Fits(p[..end])
  {
    num, inRange := 0, true;
    var i := 0;
    while p[i] != 0
      invariant 0 <= i <= end && num == Value(p[..i]) && inRange == Fits(p[..i])
      decreases end - i
    {
      assert p[..i + 1][..i] == p[..i];
      inRange := inRange && INT_MIN <= num * 10 <= INT_MAX && INT_MIN <= num * 10 + Char(p[i]) <= INT_MAX;
      num := num * 10 + Char(p[i]) - 48;
      i := i + 1;
    }
  }

  /** Reading back a 32-bit int stays in range if and only if it is at least 48 below the largest: the zero
      code is added before it is taken off. */
  lemma {:induction false} ReadsInRangeExactly(n: int)
    requires INT_MIN <= n <= INT_MAX
    ensures Fits(Digits(n)) <==> n <= INT_MAX - 48
    decreases if n >= 0 then n else -n
  {
    if n != 0 {
      var q, s := Quotient(n), Digits(n);
      assert s[..|s| - 1] == Digits(q);
      RoundTrip(q);
      ReadsInRangeExactly(q);
    }
  }

  /** The two programs together: what `myatoi` reads of what `itoa_r` wrote. */
  method WriteThenRead(n: int) returns (m: int, ghost inRange: bool)
    requires INT_MIN <= n <= INT_MAX
    ensures m == n && (inRange <==> n <= INT_MAX - 48)
  {
    var p := new Byte[11](_ => 0);
    ElevenBytes(n);
    ItoaR(p, n);
    RoundTrip(n);
    ReadsInRangeExactly(n);
    assert forall k :: 0 <= k < |Text(n)| ==> p[k] == p[..|Text(n)|][k];
    m, inRange := Myatoi(p, |Text(n)|);
    if n == 0 {
      assert [ZERO][..0] == [];
      assert Fits([ZERO]);
    }
  }
}
