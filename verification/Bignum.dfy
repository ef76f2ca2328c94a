/** Little-endian numbers of any width: schoolbook multiplication with a 16-bit accumulator,
    and the byte-wise comparison. */
module Bignum {
  import opened Bytes

  function Pow(k: nat): nat {
    if k == 0 then 1 else 0x100 * Pow(k - 1)
  }

  /** Byte `i`, with zeros above the top. */
  function At(s: seq<Byte>, i: nat): Byte {
    if i < |s| then s[i] else 0
  }

  /** The value of the low `n` bytes. */
  function Low(s: seq<Byte>, n: nat): nat {
    if n == 0 then 0 else Low(s, n - 1) + At(s, n - 1) as int * Pow(n - 1)
  }

  function Value(s: seq<Byte>): nat {
    Low(s, |s|)
  }

  // ---------- Arithmetic ----------

  lemma {:induction false} PowAdd(m: nat, n: nat)
    ensures Pow(m + n) == Pow(m) * Pow(n) && Pow(n) > 0
    decreases n
  {
    if n > 0 {
      PowAdd(m, n - 1);
      assert Pow(m + n) == 0x100 * (Pow(m) * Pow(n - 1)) == Pow(m) * (0x100 * Pow(n - 1));
    }
  }

  lemma {:induction false} LowBound(s: seq<Byte>, n: nat)
    ensures Low(s, n) < Pow(n)
  {
    if n > 0 {
      LowBound(s, n - 1);
      assert At(s, n - 1) as int * Pow(n - 1) <= 0xff * Pow(n - 1) by { TimesUp(At(s, n - 1), 0xff, Pow(n - 1)); }
    }
  }

  lemma TimesUp(a: nat, b: nat, c: nat)
    requires a <= b
    ensures a * c <= b * c
  {
  }

  lemma {:induction false} LowAboveTop(s: seq<Byte>, n: nat)
    requires n >= |s|
    ensures Low(s, n) == Value(s)
  {
    if n > |s| {
      LowAboveTop(s, n - 1);
    }
  }

  /** Writing byte `p` changes the value by the difference at that weight. */
  lemma {:induction false} LowUpdate(s: seq<Byte>, p: nat, v: Byte, n: nat)
    requires p < |s|
    ensures Low(s[p := v], n) == Low(s, n) + if p < n then (v as int - s[p]) * Pow(p) else 0
  {
    hide Pow;
    if n > 0 {
      LowUpdate(s, p, v, n - 1);
      if p == n - 1 {
        Difference(v, s[p], Pow(p));
      }
    }
  }

  lemma Difference(v: int, u: int, w: int)
    ensures v * w == u * w + (v - u) * w
  {
  }

  lemma {:induction false} PowMono(m: nat, n: nat)
    requires m <= n
    ensures 0 < Pow(m) <= Pow(n)
    decreases n
  {
    if n == 0 {
    } else if m < n {
      PowMono(m, n - 1);
    } else {
      PowMono(m - 1, n - 1);
    }
  }

  lemma ProductBelow(x: nat, y: nat, p: nat, q: nat)
    requires x < p && y < q
    ensures x * y < p * q
  {
    TimesUp(y, q, x);
    assert x * y == y * x <= q * x == x * q;
    TimesUp(x + 1, p, q);
    assert (x + 1) * q == x * q + q;
  }

  /** One multiply-and-carry step, seen at its weight `p == pi * pj`. */
  lemma CarryStep(low: int, digit: int, carry: int, x: int, y: int, n: int, p: int, pi: int, pj: int, done: int,
                  lowB: int)
    requires n == carry + digit + x * y && p == pi * pj
    requires low + carry * p == done + x * pj * lowB
    ensures low + (n % 0x100 - digit) * p + (n / 0x100) * (0x100 * p) == done + x * pj * (lowB + y * pi)
  {
    var nl, nh := n % 0x100, n / 0x100;
    assert (nl - digit) * p + nh * (0x100 * p) == (n - digit) * p by {
      assert nh * (0x100 * p) == (nh * 0x100) * p;
      assert (nl - digit) * p + (nh * 0x100) * p == (nl - digit + nh * 0x100) * p;
    }
    assert (n - digit) * p == carry * p + (x * y) * p by {
      assert n - digit == carry + x * y;
      assert (carry + x * y) * p == carry * p + (x * y) * p;
    }
    Regroup(x, y, pi, pj);
    Distribute(x * pj, lowB, y * pi);
  }

  lemma Distribute(a: int, b: int, c: int)
    ensures a * (b + c) == a * b + a * c
  {
  }

  /** The accumulator's worst case is exactly the largest 16-bit number. */
  lemma AccumulatorFits(carry: Byte, digit: Byte, x: Byte, y: Byte)
    ensures carry as int + digit as int + x as int * y as int <= 0xffff
  {
    TimesUp(x, 0xff, y);
  }

  /** The 16-bit accumulator of one column. */
  function Accumulate(carry: Byte, digit: Byte, x: Byte, y: Byte): Ushort {
    AccumulatorFits(carry, digit, x, y);
    carry as int + digit as int + x as int * y as int
  }

  // ---------- Multiplication ----------

  /** Invariant of row `j` after `i` columns: the result and the pending carry are the rows
      before plus digit `j` times the low `i` bytes. */
  ghost predicate RowDone(res: seq<Byte>, carry: Byte, a: seq<Byte>, b: seq<Byte>, j: nat, i: nat) {
    Low(res, |res|) + carry as int * Pow(i + j) == Low(a, j) * Value(b) + At(a, j) as int * Pow(j) * Low(b, i)
  }

  lemma ColumnStep(res: seq<Byte>, carry: Byte, a: seq<Byte>, b: seq<Byte>, j: nat, i: nat)
    requires i + j < |res| && RowDone(res, carry, a, b, j, i)
    ensures var n := Accumulate(carry, res[i + j], At(a, j), At(b, i));
            RowDone(res[i + j := n % 0x100], n / 0x100, a, b, j, i + 1)
  {
    var x, y := At(a, j), At(b, i);
    var n := Accumulate(carry, res[i + j], x, y);
    var v: Byte := n % 0x100;
    LowUpdate(res, i + j, v, |res|);
    PowAdd(i, j);
    assert Pow(i + 1 + j) == 0x100 * Pow(i + j) && Low(b, i + 1) == Low(b, i) + y as int * Pow(i);
    hide Pow, Low, At;
    CarryStep(Low(res, |res|), res[i + j], carry, x, y, n, Pow(i + j), Pow(i), Pow(j), Low(a, j) * Value(b), Low(b, i));
  }

  lemma Regroup(x: int, y: int, p: int, q: int)
    ensures (x * y) * (p * q) == x * q * (y * p)
  {
  }

  /** At the end of a row no carry is left: the partial product fits below the top byte. */
  lemma RowEnd(res: seq<Byte>, carry: Byte, a: seq<Byte>, b: seq<Byte>, j: nat)
    requires |res| == |a| + |b| && j < |res| && RowDone(res, carry, a, b, j, |res| - j)
    ensures carry == 0 && Value(res) == Low(a, j + 1) * Value(b)
  {
    hide Pow;
    var w, x := |res|, At(a, j) as int;
    if j < |a| {
      LowAboveTop(b, w - j);
    }
    assert Low(a, j + 1) == Low(a, j) + x * Pow(j) && Value(b) == Low(b, |b|);
    hide Low;
    assert x * Pow(j) * Low(b, w - j) == x * Pow(j) * Value(b);
    Gather(Low(a, j), x * Pow(j), Value(b));
    PartialFits(a, b, j + 1);
    NoCarry(Value(res), carry, Pow(w));
  }

  lemma Gather(a: int, b: int, c: int)
    ensures (a + b) * c == a * c + b * c
  {
  }

  lemma NoCarry(low: nat, carry: nat, p: nat)
    requires low + carry * p < p
    ensures carry == 0
  {
    if carry > 0 {
      TimesUp(1, carry, p);
    }
  }

  /** A partial product is below the weight just above the result. */
  lemma PartialFits(a: seq<Byte>, b: seq<Byte>, j: nat)
    ensures Low(a, j) * Value(b) < Pow(|a| + |b|)
  {
    hide Pow, Low;
    PowAdd(|a|, |b|);
    LowUpTo(a, j);
    LowUpTo(b, |b|);
    ProductBelow(Low(a, j), Value(b), Pow(|a|), Pow(|b|));
  }

  lemma LowUpTo(s: seq<Byte>, n: nat)
    ensures Low(s, n) < Pow(|s|)
  {
    hide Pow, Low;
    if n >= |s| {
      LowAboveTop(s, n);
      LowBound(s, |s|);
    } else {
      LowBound(s, n);
      PowMono(n, |s|);
    }
  }

  /** Byte `i` of a number, zero above its top. */
  method ByteOf(a: array<Byte>, i: nat) returns (x: Byte)
    ensures x == At(a[..], i)
  {
    x := if i < a.Length then a[i] else 0;
  }

  /** Add digit `j` of `a` times `b` to the result, from position `j` up. */
  method AddRow(a: array<Byte>, b: array<Byte>, res: array<Byte>, j: nat)
    requires res.Length == a.Length + b.Length && res != a && res != b && j < res.Length
    requires Value(res[..]) == Low(a[..], j) * Value(b[..])
    modifies res
    ensures Value(res[..]) == Low(a[..], j + 1) * Value(b[..])
  {
    hide Low, Pow, Value, RowDone, At, Accumulate;
    var w := res.Length;
    var carry: Byte := 0;
    var x := ByteOf(a, j);
    RowStart(res[..], a[..], b[..], j);
    var i := 0;
    while i + j < w
      invariant 0 <= i <= w - j
      invariant RowDone(res[..], carry, a[..], b[..], j, i)
    {
      var y := ByteOf(b, i);
      ColumnStep(res[..], carry, a[..], b[..], j, i);
      var n := Accumulate(carry, res[i + j], x, y);
      ghost var was := res[..];
      var low: Byte := n % 0x100;
      res[i + j] := low;
      assert res[..] == was[i + j := low];
      carry := n / 0x100;
      i := i + 1;
    }
    RowEnd(res[..], carry, a[..], b[..], j);
  }

  /** The product of two numbers of any widths, exactly, over both widths together. */
  method BigMult(a: array<Byte>, b: array<Byte>, res: array<Byte>)
    requires res.Length == a.Length + b.Length && res != a && res != b
    modifies res
    ensures Value(res[..]) == Value(a[..]) * Value(b[..])
  {
    hide Low, Pow;
    var w := res.Length;
    forall i | 0 <= i < w { res[i] := 0; }
    ZeroValue(res[..], w);
    NoRows(a[..], b[..]);
    for j := 0 to w
      invariant Value(res[..]) == Low(a[..], j) * Value(b[..])
    {
      AddRow(a, b, res, j);
    }
    LowAboveTop(a[..], w);
  }

  lemma NoRows(a: seq<Byte>, b: seq<Byte>)
    ensures Low(a, 0) * Value(b) == 0
  {
  }

  lemma RowStart(res: seq<Byte>, a: seq<Byte>, b: seq<Byte>, j: nat)
    requires Value(res) == Low(a, j) * Value(b)
    ensures RowDone(res, 0, a, b, j, 0)
  {
  }

  lemma {:induction false} ZeroValue(s: seq<Byte>, n: nat)
    requires forall i :: 0 <= i < |s| ==> s[i] == 0
    ensures Low(s, n) == 0
  {
    if n > 0 {
      ZeroValue(s, n - 1);
    }
  }

  // ---------- Comparison ----------

  /** The same bytes read with the high byte first. */
  function BigValue(s: seq<Byte>): nat {
    if s == [] then 0 else s[0] as int * Pow(|s| - 1) + BigValue(s[1..])
  }

  function Order(x: int, y: int): int {
    if x < y then -1 else if x > y then 1 else 0
  }

  lemma {:induction false} BigBound(s: seq<Byte>)
    ensures BigValue(s) < Pow(|s|)
  {
    if s != [] {
      BigBound(s[1..]);
      TimesUp(s[0], 0xff, Pow(|s| - 1));
    }
  }

  /** Different digits at one weight decide, whatever is below it. */
  lemma DigitDecides(x: nat, y: nat, lowX: nat, lowY: nat, p: nat)
    requires x != y && lowX < p && lowY < p
    ensures Order(x * p + lowX, y * p + lowY) == Order(x, y)
  {
    if x < y {
      TimesUp(x + 1, y, p);
      assert (x + 1) * p == x * p + p;
    } else {
      TimesUp(y + 1, x, p);
      assert (y + 1) * p == y * p + p;
    }
  }

  lemma SameDigit(x: nat, lowX: nat, lowY: nat, p: nat)
    ensures Order(x * p + lowX, x * p + lowY) == Order(lowX, lowY)
  {
  }

  /** With the high byte first, the first byte that differs decides. */
  lemma {:induction false} FirstDecides(a: seq<Byte>, b: seq<Byte>, i: nat)
    requires i < |a| == |b| && a[..i] == b[..i] && a[i] != b[i]
    ensures Order(BigValue(a), BigValue(b)) == Order(a[i], b[i])
  {
    if i == 0 {
      BigBound(a[1..]);
      BigBound(b[1..]);
      DigitDecides(a[0], b[0], BigValue(a[1..]), BigValue(b[1..]), Pow(|a| - 1));
    } else {
      assert a[0] == a[..i][0] == b[..i][0] == b[0];
      assert a[1..][..i - 1] == a[..i][1..] && b[1..][..i - 1] == b[..i][1..];
      FirstDecides(a[1..], b[1..], i - 1);
      SameDigit(a[0], BigValue(a[1..]), BigValue(b[1..]), Pow(|a| - 1));
    }
  }

  lemma {:induction false} SameHighBytes(a: seq<Byte>, b: seq<Byte>, i: nat, n: nat)
    requires i <= n <= |a| == |b| && a[i..] == b[i..]
    ensures Low(a, n) - Low(b, n) == Low(a, i) - Low(b, i)
  {
    if i < n {
      assert a[n - 1] == a[i..][n - 1 - i] == b[i..][n - 1 - i] == b[n - 1];
      SameHighBytes(a, b, i, n - 1);
    }
  }

  /** With the low byte first, the last byte that differs decides. */
  lemma LastDecides(a: seq<Byte>, b: seq<Byte>, i: nat)
    requires i < |a| == |b| && a[i + 1..] == b[i + 1..] && a[i] != b[i]
    ensures Order(Value(a), Value(b)) == Order(a[i], b[i])
  {
    SameHighBytes(a, b, i + 1, |a|);
    LowBound(a, i);
    LowBound(b, i);
    DigitDecides(a[i], b[i], Low(a, i), Low(b, i), Pow(i));
    assert Low(a, i + 1) == a[i] as int * Pow(i) + Low(a, i);
    assert Low(b, i + 1) == b[i] as int * Pow(i) + Low(b, i);
  }

  /** -1, 0 or 1 as the first is less than, equal to or greater than the second, both read
      with the high byte first. */
  method BigCompare(a: array<Byte>, b: array<Byte>, bytes: nat) returns (c: int)
    requires bytes <= a.Length && bytes <= b.Length
    ensures c == Order(BigValue(a[..bytes]), BigValue(b[..bytes]))
  {
    for i := 0 to bytes
      invariant a[..i] == b[..i]
    {
      if a[i] != b[i] {
        assert a[..bytes][..i] == a[..i] && b[..bytes][..i] == b[..i];
        FirstDecides(a[..bytes], b[..bytes], i);
      }
      if a[i] < b[i] {
        return -1;
      }
      if a[i] > b[i] {
        return 1;
      }
    }
    return 0;
  }

  /** On the little-endian numbers of this module the byte-wise comparison is right exactly
      when the first and the last differing byte differ in the same direction. */
  lemma ComparesLittleEndianIff(a: seq<Byte>, b: seq<Byte>, first: nat, last: nat)
    requires first <= last < |a| == |b|
    requires a[..first] == b[..first] && a[first] != b[first]
    requires a[last + 1..] == b[last + 1..] && a[last] != b[last]
    ensures Order(BigValue(a), BigValue(b)) == Order(Value(a), Value(b)) <==>
            (a[first] < b[first] <==> a[last] < b[last])
  {
    FirstDecides(a, b, first);
    LastDecides(a, b, last);
  }

  /** It is wrong, for instance, on 1 and 256. */
  lemma ComparesLittleEndianWrongly()
    ensures Value([1, 0]) == 1 && Value([0, 1]) == 256
    ensures Order(BigValue([1, 0]), BigValue([0, 1])) == 1
  {
    var one: seq<Byte>, more: seq<Byte> := [1, 0], [0, 1];
    assert Low(one, 1) == 1 && Low(one, 2) == 1;
    assert Low(more, 1) == 0 && Pow(1) == 256 && Low(more, 2) == 256;
    FirstDecides(one, more, 0);
  }

  // ---------- The wire formats are big-endian ----------

  lemma BigValueOfTwo(b: seq<Byte>)
    requires |b| == 2
    ensures BigValue(b) == b[0] as int * 0x100 + b[1]
  {
    assert BigValue(b[1..]) == b[1] as int * Pow(0) + BigValue(b[1..][1..]);
    assert Pow(1) == 0x100;
  }

  lemma BigValueOfFour(b: seq<Byte>)
    requires |b| == 4
    ensures BigValue(b) == b[0] as int * 0x100_0000 + b[1] as int * 0x1_0000 + b[2] as int * 0x100 + b[3]
  {
    BigValueOfTwo(b[2..]);
    assert b[1..][1..] == b[2..];
    assert BigValue(b[1..]) == b[1] as int * Pow(2) + BigValue(b[2..]);
    assert Pow(1) == 0x100 && Pow(2) == 0x1_0000 && Pow(3) == 0x100_0000;
  }

  /** The two-byte codec has the high byte first, both ways. */
  lemma UshortIsBigEndian(a: Ushort, b: seq<Byte>)
    requires |b| == 2
    ensures BigValue(Be16(a)) == a && Btous(b) == BigValue(b)
  {
    UshortRoundTrip(a, b);
    BigValueOfTwo(Be16(a));
    BigValueOfTwo(b);
  }

  /** So has the four-byte codec. */
  lemma UintIsBigEndian(a: Uint, b: seq<Byte>)
    requires |b| == 4
    ensures BigValue(Be32(a)) == a && Btoui(b) == BigValue(b)
  {
    UintRoundTrip(a, b);
    BigValueOfFour(Be32(a));
    BigValueOfFour(b);
  }

  /** Bytes in front count for as many places more. */
  lemma {:induction false} BigConcat(a: seq<Byte>, b: seq<Byte>)
    ensures BigValue(a + b) == BigValue(a) * Pow(|b|) + BigValue(b)
  {
    hide Pow;
    if a == [] {
      assert a + b == b;
    } else {
      BigConcat(a[1..], b);
      assert (a + b)[1..] == a[1..] + b;
      PowAdd(|a| - 1, |b|);
      Moved(a[0], Pow(|a| - 1), Pow(|b|), BigValue(a[1..]), BigValue(b));
    }
  }

  lemma Moved(h: nat, p: nat, q: nat, x: nat, y: nat)
    ensures (h * p + x) * q + y == h * (p * q) + (x * q + y)
  {
  }
}
