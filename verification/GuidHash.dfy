/** The hash of Guids: an FNV-style loop over the sixteen bytes of a Guid, on
    64-bit words. */
module GuidHash {
  import opened Integers

  /** Bitwise exclusive or. */
  function Xor(a: nat, b: nat): nat
    decreases a + b
  {
    if a == 0 && b == 0 then 0 else
      (if a % 2 == b % 2 then 0 else 1) + 2 * Xor(a / 2, b / 2)
  }

  /** One turn of the loop; the product wraps at 64 bits. */
  function Step(x: uint64, b: byte): uint64 {
    Xor(x, b) * 16777619 % 0x1_0000_0000_0000_0000
  }

  function HashFrom(x: uint64, bytes: seq<byte>): uint64 {
    if bytes == [] then x else Step(HashFrom(x, bytes[..|bytes| - 1]), bytes[|bytes| - 1])
  }

  method ByteStringHash(buf: array<byte>, size: nat) returns (fnv: uint64)
    requires size <= buf.Length
    ensures fnv == HashFrom(0, buf[..size])
  {
    fnv := 0;
    for i := 0 to size
      invariant fnv == HashFrom(0, buf[..i])
    {
      assert buf[..i + 1][..i] == buf[..i];
      fnv := Step(fnv, buf[i]);
    }
  }

  // ----- Exclusive or -----

  lemma {:induction false} XorUndoes(a: nat, b: nat)
    ensures Xor(Xor(a, b), b) == a
    decreases a + b
  {
    if a != 0 || b != 0 {
      var half := Xor(a / 2, b / 2);
      assert Xor(a, b) / 2 == half && Xor(a, b) % 2 == if a % 2 == b % 2 then 0 else 1;
      XorUndoes(a / 2, b / 2);
    }
  }

  /** A byte changes a word by less than 256. */
  lemma {:induction false} XorIsNear(a: nat, b: nat)
    ensures a - b <= Xor(a, b) <= a + b
    decreases a + b
  {
    if a != 0 || b != 0 {
      XorIsNear(a / 2, b / 2);
    }
  }

  lemma {:induction false} XorStaysBelow(a: nat, b: nat, n: nat)
    requires a < Pow2(n) && b < Pow2(n)
    ensures Xor(a, b) < Pow2(n)
    decreases n
  {
    if n > 0 {
      XorStaysBelow(a / 2, b / 2, n - 1);
    }
  }

  lemma {:induction false} Pow2Sum(m: nat, n: nat)
    ensures Pow2(m + n) == Pow2(m) * Pow2(n)
  {
    if m > 0 {
      Pow2Sum(m - 1, n);
      assert Pow2(m + n) == 2 * Pow2(m - 1 + n);
    }
  }

  lemma Pow2Squares(n: nat)
    ensures Pow2(2 * n) == Pow2(n) * Pow2(n)
  {
    Pow2Sum(n, n);
  }

  lemma XorIsWord(x: uint64, b: byte)
    ensures Xor(x, b) < 0x1_0000_0000_0000_0000
  {
    assert Pow2(1) == 2 && Pow2(2) == 4;
    Pow2Squares(2);
    Pow2Squares(4);
    Pow2Squares(8);
    Pow2Squares(16);
    Pow2Squares(32);
    XorStaysBelow(x, b, 64);
  }

  // ----- Sums of small multiples of powers of the prime -----

  /** The polynomial with coefficients `ds`, highest first, at the prime. */
  ghost function AtPrime(ds: seq<int>): int {
    if ds == [] then 0 else AtPrime(ds[..|ds| - 1]) * 16777619 + ds[|ds| - 1]
  }

  ghost predicate Small(ds: seq<int>) {
    forall i | 0 <= i < |ds| :: -510 <= ds[i] <= 510
  }

  /** Multiples of the powers of the prime modulo 2^64, highest first; `q` counts
      how often 2^64 is taken off. */
  ghost predicate IsRow(r: seq<int>, q: seq<int>) {
    |r| == |q| + 1 && forall k | 0 <= k < |q| :: r[k + 1] * 16777619 == r[k] + q[k] * 0x1_0000_0000_0000_0000
  }

  ghost function Dot(r: seq<int>, ds: seq<int>): int
    requires |r| == |ds|
  {
    if ds == [] then 0 else Dot(r[..|r| - 1], ds[..|ds| - 1]) + r[|r| - 1] * ds[|ds| - 1]
  }

  /** Modulo 2^64 a row's sum is a multiple of the polynomial. */
  lemma {:induction false} DotIsMultiple(r: seq<int>, q: seq<int>, ds: seq<int>) returns (c: int)
    requires IsRow(r, q) && |r| == |ds|
    ensures Dot(r, ds) == r[|q|] * AtPrime(ds) + c * 0x1_0000_0000_0000_0000
    decreases |ds|
  {
    var n := |q|;
    c := 0;
    if n > 0 {
      assert r[n - 1 + 1] * 16777619 == r[n - 1] + q[n - 1] * 0x1_0000_0000_0000_0000;
      var before := DotIsMultiple(r[..n], q[..n - 1], ds[..n]);
      c := before - q[n - 1] * AtPrime(ds[..n]);
      OneMoreTerm(r[n], AtPrime(ds[..n]), ds[n], q[n - 1], before);
    } else {
      OnlyTerm(r, ds);
    }
  }

  lemma OneMoreTerm(m: int, value: int, last: int, t: int, q: int)
    ensures (m * 16777619 - t * 0x1_0000_0000_0000_0000) * value + q * 0x1_0000_0000_0000_0000 + m * last ==
      m * (value * 16777619 + last) + (q - t * value) * 0x1_0000_0000_0000_0000
  {
  }

  lemma OnlyTerm(r: seq<int>, ds: seq<int>)
    requires |r| == |ds| == 1
    ensures Dot(r, ds) == r[0] * ds[0] && AtPrime(ds) == ds[0]
  {
    assert r[..0] == [] && ds[..0] == [];
  }

  /** When the polynomial vanishes modulo 2^64, a row's sum below 2^64 vanishes. */
  lemma RowVanishes(r: seq<int>, q: seq<int>, ds: seq<int>, c: int)
    requires IsRow(r, q) && |r| == |ds| && AtPrime(ds) == c * 0x1_0000_0000_0000_0000
    requires -0x1_0000_0000_0000_0000 < Dot(r, ds) < 0x1_0000_0000_0000_0000
    ensures Dot(r, ds) == 0
  {
    var m := r[|q|];
    hide IsRow, Dot, AtPrime;
    var t := DotIsMultiple(r, q, ds);
    OnlyZero(Dot(r, ds), m, c, t);
  }

  lemma OnlyZero(s: int, m: int, c: int, t: int)
    requires s == m * (c * 0x1_0000_0000_0000_0000) + t * 0x1_0000_0000_0000_0000
    requires -0x1_0000_0000_0000_0000 < s < 0x1_0000_0000_0000_0000
    ensures s == 0
  {
    var k := m * c + t;
    assert s == k * 0x1_0000_0000_0000_0000;
  }

  lemma DotOfSix(r: seq<int>, ds: seq<int>)
    requires |r| == |ds| == 6
    ensures Dot(r, ds) == r[0] * ds[0] + r[1] * ds[1] + r[2] * ds[2] + r[3] * ds[3] + r[4] * ds[4] + r[5] * ds[5]
  {
    DotStep(r, ds, 0);
    DotStep(r, ds, 1);
    DotStep(r, ds, 2);
    DotStep(r, ds, 3);
    DotStep(r, ds, 4);
    DotStep(r, ds, 5);
    assert r[..6] == r && ds[..6] == ds;
  }

  lemma DotStep(r: seq<int>, ds: seq<int>, n: nat)
    requires n < |r| == |ds|
    ensures Dot(r[..n + 1], ds[..n + 1]) == Dot(r[..n], ds[..n]) + r[n] * ds[n]
  {
    assert r[..n + 1][..n] == r[..n] && ds[..n + 1][..n] == ds[..n];
  }

  /** Five independent rows whose sums are small for small coefficients. */
  const ROWS := [
    [2084369795139718, -2291327068831454, 2966410979981206,
     5296220469034962, -2452951204352986, -1054406469692670],
    [1375069659552173, 8934416958570431, 649796296004773,
     -328746041273369, -636601960470307, -3047773060582961],
    [10419117350797250, 480475661017718, 5364388404344178,
     -2285829447244794, 1908706201167778, -2684942787131626],
    [-1349350099043325, -7799748212678191, 4503490985590155,
     -2994997463781591, 915871007584723, -8262631354190143],
    [5300014448838995, -1763573972815551, -9142219687815589,
     659690585535769, -9447876433819101, -1104983206613199]
  ]

  const TAKEN_OFF := [
    [-2084, 2698, 4817, -2231, -959],
    [8126, 591, -299, -579, -2772],
    [437, 4879, -2079, 1736, -2442],
    [-7094, 4096, -2724, 833, -7515],
    [-1604, -8315, 600, -8593, -1005]
  ]

  lemma RowsAreRows(i: nat)
    requires i < 5
    ensures |ROWS[i]| == 6 && IsRow(ROWS[i], TAKEN_OFF[i])
  {
    var r, q := ROWS[i], TAKEN_OFF[i];
    assert i == 0 || i == 1 || i == 2 || i == 3 || i == 4;
    forall k | 0 <= k < 5
      ensures r[k + 1] * 16777619 == r[k] + q[k] * 0x1_0000_0000_0000_0000
    {
      assert k == 0 || k == 1 || k == 2 || k == 3 || k == 4;
    }
  }

  lemma RowsAreSmall(ds: seq<int>)
    requires |ds| == 6 && Small(ds)
    ensures forall i | 0 <= i < 5 :: -0x1_0000_0000_0000_0000 < Dot(ROWS[i], ds) < 0x1_0000_0000_0000_0000
  {
    hide Dot;
    forall i | 0 <= i < 5
      ensures -0x1_0000_0000_0000_0000 < Dot(ROWS[i], ds) < 0x1_0000_0000_0000_0000
    {
      assert i == 0 || i == 1 || i == 2 || i == 3 || i == 4;
      DotOfSix(ROWS[i], ds);
    }
  }

  /** The rows vanish together on one line only. */
  lemma RowsMeetInOneLine(ds: seq<int>) returns (t: int)
    requires |ds| == 6 && forall i | 0 <= i < 5 :: Dot(ROWS[i], ds) == 0
    ensures ds[0] == 153 * t && ds[4] == 667 * t
  {
    hide Dot;
    DotOfSix(ROWS[0], ds);
    DotOfSix(ROWS[1], ds);
    DotOfSix(ROWS[2], ds);
    DotOfSix(ROWS[3], ds);
    DotOfSix(ROWS[4], ds);
    assert 153 * ds[1] == -43 * ds[0] && 153 * ds[4] == 667 * ds[0];
    t := 9 * ds[0] + 32 * ds[1];
  }

  /** No polynomial with six small coefficients vanishes modulo 2^64, unless its
      first coefficient is zero: the first whole step on the line of the rows
      already leaves the small coefficients. */
  lemma NoSmallRelation(ds: seq<int>, c: int)
    requires |ds| == 6 && Small(ds) && AtPrime(ds) == c * 0x1_0000_0000_0000_0000
    ensures ds[0] == 0
  {
    hide AtPrime, IsRow, Dot, Small;
    RowsAreSmall(ds);
    forall i | 0 <= i < 5
      ensures Dot(ROWS[i], ds) == 0
    {
      RowsAreRows(i);
      RowVanishes(ROWS[i], TAKEN_OFF[i], ds, c);
    }
    var t := RowsMeetInOneLine(ds);
    assert -510 <= ds[4] <= 510 by { SmallAt(ds, 4); }
  }

  lemma SmallAt(ds: seq<int>, k: nat)
    requires Small(ds) && k < |ds|
    ensures -510 <= ds[k] <= 510
  {
  }

  /** The prime is odd, hence invertible modulo 2^64: a multiple of it vanishes only
      when the factor does. */
  lemma PrimeIsInvertible(d: int, c: int) returns (t: int)
    requires d * 16777619 == c * 0x1_0000_0000_0000_0000
    ensures d == t * 0x1_0000_0000_0000_0000
  {
    // 16777619 * 0x87B5_8B5D_359C_449B == 1 + 8894049 * 2^64
    t := c * 0x87B5_8B5D_359C_449B - d * 8894049;
  }

  // ----- Differences of words -----

  /** `x` and `y` differ by the prime times `d`, modulo 2^64. */
  ghost predicate IsGap(x: uint64, y: uint64, d: int, c: int) {
    x - y == d * 16777619 + c * 0x1_0000_0000_0000_0000
  }

  /** `ds` are the contributions of the last bytes read to the distance of `x` and
      `y`, that of the first byte that differed in front. */
  ghost predicate Apart(x: uint64, y: uint64, ds: seq<int>) {
    ds != [] && ds[0] != 0 && Small(ds) && exists c: int :: IsGap(x, y, AtPrime(ds), c)
  }

  /** Six bytes are not enough to bring different words together again. */
  lemma ApartDiffers(x: uint64, y: uint64, ds: seq<int>)
    requires Apart(x, y, ds) && |ds| <= 6
    ensures x != y
  {
    var c :| IsGap(x, y, AtPrime(ds), c);
    if x == y {
      var t := PrimeIsInvertible(AtPrime(ds), -c);
      NothingCancels(ds, t);
    }
  }

  lemma {:induction false} NothingCancels(ds: seq<int>, c: int)
    requires ds != [] && ds[0] != 0 && Small(ds) && |ds| <= 6
    ensures AtPrime(ds) != c * 0x1_0000_0000_0000_0000
    decreases 6 - |ds|
  {
    if AtPrime(ds) == c * 0x1_0000_0000_0000_0000 {
      if |ds| < 6 {
        assert (ds + [0])[..|ds|] == ds;
        NothingCancels(ds + [0], c * 16777619);
      } else {
        NoSmallRelation(ds, c);
      }
    }
  }

  lemma {:induction false} XorCommutes(a: nat, b: nat)
    ensures Xor(a, b) == Xor(b, a)
    decreases a + b
  {
    if a != 0 || b != 0 {
      XorCommutes(a / 2, b / 2);
    }
  }

  /** A step as a quotient and a remainder. */
  lemma StepWraps(x: uint64, b: byte) returns (q: int)
    ensures Step(x, b) == Xor(x, b) * 16777619 - q * 0x1_0000_0000_0000_0000
    ensures x - 255 <= Xor(x, b) <= x + 255
  {
    q := Xor(x, b) * 16777619 / 0x1_0000_0000_0000_0000;
    XorIsNear(x, b);
  }

  /** Different bytes drive equal words apart. */
  lemma StepSeparates(x: uint64, b: byte, b': byte) returns (d: int)
    requires b != b'
    ensures Apart(Step(x, b), Step(x, b'), [d])
  {
    var q := StepWraps(x, b);
    var q' := StepWraps(x, b');
    XorCommutes(x, b);
    XorCommutes(x, b');
    XorUndoes(b, x);
    XorUndoes(b', x);
    d := Xor(x, b) - Xor(x, b');
    assert [d][..0] == [] && AtPrime([]) == 0 && AtPrime([d]) == d;
    assert IsGap(Step(x, b), Step(x, b'), d, q' - q);
  }

  /** A further step with any two bytes scales the distance by the prime, give
      or take twice a byte. */
  lemma StepScales(x: uint64, y: uint64, b: byte, b': byte, ds: seq<int>) returns (e: int)
    requires Apart(x, y, ds)
    ensures Apart(Step(x, b), Step(y, b'), ds + [e])
  {
    var c :| IsGap(x, y, AtPrime(ds), c);
    var q := StepWraps(x, b);
    var q' := StepWraps(y, b');
    e := (Xor(x, b) - x) - (Xor(y, b') - y);
    assert (ds + [e])[..|ds|] == ds;
    assert IsGap(Step(x, b), Step(y, b'), AtPrime(ds + [e]), c * 16777619 - q + q');
  }

  /** The same byte keeps different words different. */
  lemma StepIsInjective(x: uint64, y: uint64, b: byte)
    requires x != y
    ensures Step(x, b) != Step(y, b)
  {
    XorUndoes(x, b);
    XorUndoes(y, b);
    XorIsWord(x, b);
    XorIsWord(y, b);
    hide Xor;
    var q := StepWraps(x, b);
    var q' := StepWraps(y, b);
    hide Step;
    if Step(x, b) == Step(y, b) {
      SameProduct(Xor(x, b), Xor(y, b), q, q');
    }
  }

  lemma SameProduct(x: uint64, y: uint64, q: int, q': int)
    requires x * 16777619 - q * 0x1_0000_0000_0000_0000 == y * 16777619 - q' * 0x1_0000_0000_0000_0000
    ensures x == y
  {
    var t := PrimeIsInvertible(x - y, q - q');
    assert t == 0;
  }

  // ----- Windows -----

  lemma {:induction false} HashConcat(x: uint64, a: seq<byte>, b: seq<byte>)
    ensures HashFrom(x, a + b) == HashFrom(HashFrom(x, a), b)
  {
    if b == [] {
      assert a + b == a;
    } else {
      HashConcat(x, a, b[..|b| - 1]);
      assert (a + b)[..|a + b| - 1] == a + b[..|b| - 1];
    }
  }

  lemma HashFirst(x: uint64, bytes: seq<byte>)
    requires bytes != []
    ensures HashFrom(x, bytes) == HashFrom(Step(x, bytes[0]), bytes[1..])
  {
    HashConcat(x, [bytes[0]], bytes[1..]);
    assert [bytes[0]][..0] == [];
    assert bytes == [bytes[0]] + bytes[1..];
  }

  lemma {:induction false} SuffixKeepsDifferent(x: uint64, y: uint64, bytes: seq<byte>)
    requires x != y
    ensures HashFrom(x, bytes) != HashFrom(y, bytes)
  {
    if bytes != [] {
      SuffixKeepsDifferent(x, y, bytes[..|bytes| - 1]);
      StepIsInjective(HashFrom(x, bytes[..|bytes| - 1]), HashFrom(y, bytes[..|bytes| - 1]), bytes[|bytes| - 1]);
    }
  }

  /** Words that have been apart for up to six bytes stay different over the rest
      of these, whatever they are. */
  lemma {:induction false} SeparatedStaysDifferent(x: uint64, y: uint64, w: seq<byte>, w': seq<byte>, ds: seq<int>)
    requires Apart(x, y, ds) && |w| == |w'| && |ds| + |w| <= 6
    ensures HashFrom(x, w) != HashFrom(y, w')
    decreases |w|
  {
    if w == [] {
      ApartDiffers(x, y, ds);
    } else {
      HashFirst(x, w);
      HashFirst(y, w');
      var e := StepScales(x, y, w[0], w'[0], ds);
      SeparatedStaysDifferent(Step(x, w[0]), Step(y, w'[0]), w[1..], w'[1..], ds + [e]);
    }
  }

  /** Different windows of at most six bytes never lead to the same hash. */
  lemma {:induction false} WindowSeparates(x: uint64, w: seq<byte>, w': seq<byte>)
    requires |w| == |w'| <= 6 && w != w'
    ensures HashFrom(x, w) != HashFrom(x, w')
    decreases |w|
  {
    HashFirst(x, w);
    HashFirst(x, w');
    if w[0] == w'[0] {
      assert w == [w[0]] + w[1..] && w' == [w[0]] + w'[1..];
      WindowSeparates(Step(x, w[0]), w[1..], w'[1..]);
    } else {
      var d := StepSeparates(x, w[0], w'[0]);
      SeparatedStaysDifferent(Step(x, w[0]), Step(x, w'[0]), w[1..], w'[1..], [d]);
    }
  }

  lemma CutsInThree(s: seq<byte>, i: nat, j: nat)
    requires i <= j <= |s|
    ensures s == s[..i] + s[i..j] + s[j..]
  {
  }

  lemma PiecesSeparate(x: uint64, head: seq<byte>, w: seq<byte>, w': seq<byte>, tail: seq<byte>)
    requires |w| == |w'| <= 6 && w != w'
    ensures HashFrom(x, head + w + tail) != HashFrom(x, head + w' + tail)
  {
    hide HashFrom;
    HashConcat(x, head + w, tail);
    HashConcat(x, head, w);
    HashConcat(x, head + w', tail);
    HashConcat(x, head, w');
    WindowSeparates(HashFrom(x, head), w, w');
    SuffixKeepsDifferent(HashFrom(x, head + w), HashFrom(x, head + w'), tail);
  }

  ghost predicate DifferWithin(a: seq<byte>, b: seq<byte>, i: nat, n: nat) {
    |a| == |b| && forall k | 0 <= k < |a| && !(i <= k < i + n) :: a[k] == b[k]
  }

  /** Two byte strings that differ only inside six consecutive positions hash
      differently. */
  lemma NoCollisionInsideWindow(a: seq<byte>, b: seq<byte>, i: nat)
    requires a != b && DifferWithin(a, b, i, 6)
    ensures HashFrom(0, a) != HashFrom(0, b)
  {
    hide HashFrom;
    var j := if i + 6 <= |a| then i + 6 else |a|;
    var k :| 0 <= k < |a| && a[k] != b[k];
    assert i <= k < j;
    SameOutside(a, b, i, j);
    CutsInThree(a, i, j);
    CutsInThree(b, i, j);
    hide DifferWithin;
    PiecesSeparate(0, a[..i], a[i..j], b[i..j], a[j..]);
  }

  lemma SameOutside<T>(a: seq<T>, b: seq<T>, i: nat, j: nat)
    requires i <= j <= |a| == |b| && forall k | 0 <= k < |a| && !(i <= k < j) :: a[k] == b[k]
    ensures a[..i] == b[..i] && a[j..] == b[j..]
  {
  }

  // ----- Computing a step -----

  lemma {:induction false} XorKeepsHigh(high: nat, low: nat, b: nat, n: nat)
    requires low < Pow2(n) && b < Pow2(n)
    ensures Xor(high * Pow2(n) + low, b) == high * Pow2(n) + Xor(low, b)
    decreases n
  {
    hide Xor;
    if n == 0 {
      XorZero(high);
      XorZero(0);
    } else {
      var w := Pow2(n - 1);
      var half := high * w;
      assert high * (2 * w) == 2 * half;
      XorKeepsHigh(high, low / 2, b / 2, n - 1);
      XorHalves(half, low, b);
    }
  }

  lemma XorHalves(half: nat, low: nat, b: nat)
    requires Xor(half + low / 2, b / 2) == half + Xor(low / 2, b / 2)
    ensures Xor(2 * half + low, b) == 2 * half + Xor(low, b)
  {
    assert (2 * half + low) / 2 == half + low / 2 && (2 * half + low) % 2 == low % 2;
  }

  lemma {:induction false} XorZero(a: nat)
    ensures Xor(a, 0) == a
  {
    if a != 0 {
      XorZero(a / 2);
    }
  }

  /** Some byte turns the low byte of a word into any other. */
  lemma XorTo(high: nat, low: byte, z: byte) returns (b: byte)
    ensures Xor(high * 0x100 + low, b) == high * 0x100 + z
  {
    assert Pow2(8) == 0x100;
    XorStaysBelow(z, low, 8);
    b := Xor(z, low);
    XorUndoes(z, low);
    XorCommutes(low, b);
    XorKeepsHigh(high, low, b, 8);
  }

  lemma ReadTo(s: seq<byte>, high: nat, low: byte, z: byte, q: nat, y: uint64) returns (s': seq<byte>)
    requires HashFrom(0, s) == high * 0x100 + low
    requires (high * 0x100 + z) * 16777619 == q * 0x1_0000_0000_0000_0000 + y
    ensures |s'| == |s| + 1 && s'[..|s|] == s && HashFrom(0, s') == y
  {
    hide Xor;
    var b := XorTo(high, low, z);
    s' := s + [b];
    assert s'[..|s|] == s;
    assert HashFrom(0, s') == Step(high * 0x100 + low, b);
  }

  // ----- Six is the limit -----

  /** Two strings of seven bytes with the same hash. */
  lemma SevenBytesCollide() returns (a: seq<byte>, b: seq<byte>)
    ensures |a| == |b| == 7 && a != b && HashFrom(0, a) == HashFrom(0, b)
  {
    hide HashFrom;
    assert HashFrom(0, []) == 0 by { NothingRead(); }
    a := ReadTo([], 0x0, 0x0, 0x32, 0, 0x32004EB6);
    a := ReadTo(a, 0x32004E, 0xB6, 0x8F, 0, 0x32009D457BAB1D);
    a := ReadTo(a, 0x32009D457BAB, 0x1D, 0xD0, 12800, 0xEBFC734031AF7870);
    a := ReadTo(a, 0xEBFC734031AF78, 0x70, 0x5, 15465958, 0xBE9B1D863C39EFDF);
    a := ReadTo(a, 0xBE9B1D863C39EF, 0xDF, 0xE5, 12491849, 0x946BB440B434A57F);
    a := ReadTo(a, 0x946BB440B434A5, 0x7F, 0xBE, 9727133, 0xE640F6816CE0EA1A);
    a := ReadTo(a, 0xE640F6816CE0EA, 0x1A, 0x8A, 15090272, 0xF9B0EEA8F011373E);
    b := ReadTo([], 0x0, 0x0, 0xAC, 0, 0xAC010EC4);
    b := ReadTo(b, 0xAC010E, 0xC4, 0xFE, 0, 0xAC021DC3AA99DA);
    b := ReadTo(b, 0xAC021DC3AA99, 0xDA, 0x1C, 44035, 0x2C8AFF74218F0714);
    b := ReadTo(b, 0x2C8AFF74218F07, 0x14, 0xF4, 2919237, 0x92F1B2D8C829851C);
    b := ReadTo(b, 0x92F1B2D8C82985, 0x1C, 0xFF, 9630362, 0x2B44B4C9185DF06D);
    b := ReadTo(b, 0x2B44B4C9185DF0, 0x6D, 0x11, 2835704, 0xE640F6816CE0EAC3);
    b := ReadTo(b, 0xE640F6816CE0EA, 0xC3, 0x8A, 15090272, 0xF9B0EEA8F011373E);
  }

  lemma NothingRead()
    ensures HashFrom(0, []) == 0
  {
  }

  ghost predicate NoCollisionWithin(n: nat) {
    forall a, b, i: nat | a != b && DifferWithin(a, b, i, n) :: HashFrom(0, a) != HashFrom(0, b)
  }

  /** Strings that differ inside `n` consecutive positions never hash alike exactly
      when there are at most six. */
  lemma SixIsTheLimit(n: nat)
    ensures NoCollisionWithin(n) <==> n <= 6
  {
    hide HashFrom;
    if n <= 6 {
      forall a, b, i: nat | a != b && DifferWithin(a, b, i, n)
        ensures HashFrom(0, a) != HashFrom(0, b)
      {
        NoCollisionInsideWindow(a, b, i);
      }
    } else {
      var a, b := SevenBytesCollide();
      assert DifferWithin(a, b, 0, n);
    }
  }

  // ----- Guids -----

  datatype Guid = Guid(data1: uint32, data2: uint16, data3: uint16, data4: seq<byte>)

  predicate WellFormed(g: Guid) {
    |g.data4| == 8
  }

  /** The sixteen bytes of a Guid in memory, low bytes first. */
  function Bytes(g: Guid): (r: seq<byte>)
    requires WellFormed(g)
    ensures |r| == 16
  {
    seq(8, k requires 0 <= k < 8 => FieldByte(g, k)) + g.data4
  }

  function Hash(g: Guid): uint64
    requires WellFormed(g)
  {
    HashFrom(0, Bytes(g))
  }

  lemma LowBytesFirst(x: uint32)
    ensures x == x % 0x100 + 0x100 * (x / 0x100 % 0x100) +
      0x1_0000 * (x / 0x1_0000 % 0x100) + 0x100_0000 * (x / 0x100_0000)
  {
    assert x / 0x100 / 0x100 == x / 0x1_0000;
    assert x / 0x1_0000 / 0x100 == x / 0x100_0000;
  }

  /** Comparing the bytes of two Guids is comparing the Guids. */
  lemma BytesDetermineGuid(g: Guid, h: Guid)
    requires WellFormed(g) && WellFormed(h)
    ensures Bytes(g) == Bytes(h) <==> g == h
  {
    if Bytes(g) == Bytes(h) {
      SameByteAt(g, h, 0);
      SameByteAt(g, h, 1);
      SameByteAt(g, h, 2);
      SameByteAt(g, h, 3);
      LowBytesFirst(g.data1);
      LowBytesFirst(h.data1);
      SameByteAt(g, h, 4);
      SameByteAt(g, h, 5);
      SameByteAt(g, h, 6);
      SameByteAt(g, h, 7);
      assert g.data4 == Bytes(g)[8..] && h.data4 == Bytes(h)[8..];
    }
  }

  /** The byte at position `k` of the fixed-width fields. */
  function FieldByte(g: Guid, k: nat): byte
    requires k < 8
  {
    match k
    case 0 => g.data1 % 0x100
    case 1 => g.data1 / 0x100 % 0x100
    case 2 => g.data1 / 0x1_0000 % 0x100
    case 3 => g.data1 / 0x100_0000
    case 4 => g.data2 % 0x100
    case 5 => g.data2 / 0x100
    case 6 => g.data3 % 0x100
    case _ => g.data3 / 0x100
  }

  lemma SameByteAt(g: Guid, h: Guid, k: nat)
    requires WellFormed(g) && WellFormed(h) && Bytes(g) == Bytes(h) && k < 8
    ensures FieldByte(g, k) == FieldByte(h, k)
  {
    assert Bytes(g)[k] == FieldByte(g, k);
    assert Bytes(h)[k] == FieldByte(h, k);
  }

  /** The Guid with the given sixteen bytes. */
  function GuidOf(s: seq<byte>): Guid
    requires |s| == 16
  {
    Guid(Pair(s[0], Pair(s[1], Pair(s[2], s[3]))), Pair(s[4], s[5]), Pair(s[6], s[7]), s[8..])
  }

  function Pair(low: int, high: int): int {
    low + 0x100 * high
  }

  lemma BytesOfGuidOf(s: seq<byte>)
    requires |s| == 16
    ensures WellFormed(GuidOf(s)) && Bytes(GuidOf(s)) == s
  {
    var g := GuidOf(s);
    FourBytes(s[0], s[1], s[2], s[3]);
    Unpair(s[4], s[5]);
    Unpair(s[6], s[7]);
    hide Pair;
    forall k | 0 <= k < 8
      ensures FieldByte(g, k) == s[k]
    {
      assert k == 0 || k == 1 || k == 2 || k == 3 || k == 4 || k == 5 || k == 6 || k == 7;
    }
    assert Bytes(g) == s[..8] + s[8..];
  }

  lemma Unpair(low: byte, high: int)
    ensures Pair(low, high) % 0x100 == low && Pair(low, high) / 0x100 == high
  {
  }

  lemma FourBytes(a: byte, b: byte, c: byte, d: byte)
    ensures var x := Pair(a, Pair(b, Pair(c, d)));
      x % 0x100 == a && x / 0x100 % 0x100 == b && x / 0x1_0000 % 0x100 == c && x / 0x100_0000 == d
  {
    var x := Pair(a, Pair(b, Pair(c, d)));
    assert x / 0x1_0000 == x / 0x100 / 0x100 && x / 0x100_0000 == x / 0x1_0000 / 0x100;
    hide Pair;
    Unpair(a, Pair(b, Pair(c, d)));
    Unpair(b, Pair(c, d));
    Unpair(c, d);
  }

  /** Different Guids that differ only inside six consecutive bytes have
      different hashes. */
  lemma GuidsInWindowNeverCollide(g: Guid, h: Guid, i: nat)
    requires WellFormed(g) && WellFormed(h) && g != h && DifferWithin(Bytes(g), Bytes(h), i, 6)
    ensures Hash(g) != Hash(h)
  {
    BytesDetermineGuid(g, h);
    NoCollisionInsideWindow(Bytes(g), Bytes(h), i);
  }

  /** Guids that differ only in their first seven bytes may hash alike. */
  lemma GuidsBeyondWindowCollide() returns (g: Guid, h: Guid)
    ensures WellFormed(g) && WellFormed(h) && g != h && DifferWithin(Bytes(g), Bytes(h), 0, 7)
    ensures Hash(g) == Hash(h)
  {
    hide HashFrom, GuidOf;
    var a, b := SevenBytesCollide();
    var rest: seq<byte> := [0, 0, 0, 0, 0, 0, 0, 0, 0];
    g, h := GuidOf(a + rest), GuidOf(b + rest);
    BytesOfGuidOf(a + rest);
    BytesOfGuidOf(b + rest);
    HashConcat(0, a, rest);
    HashConcat(0, b, rest);
    assert (a + rest)[..7] == a && (b + rest)[..7] == b;
  }

  /** In particular, changing the first two of the three leading fields, or the last
      two, or one of the three, always changes the hash. */
  lemma FieldsChangeHash(g: Guid, data1: uint32, data2: uint16, data3: uint16)
    requires WellFormed(g) && (data1, data2, data3) != (g.data1, g.data2, g.data3)
    requires data1 == g.data1 || data3 == g.data3
    ensures Hash(g.(data1 := data1, data2 := data2, data3 := data3)) != Hash(g)
  {
    var h := g.(data1 := data1, data2 := data2, data3 := data3);
    forall k | 0 <= k < 16 && (if data3 == g.data3 then k >= 6 else k < 4 || k >= 8)
      ensures Bytes(h)[k] == Bytes(g)[k]
    {
      assert k < 8 ==> Bytes(h)[k] == FieldByte(h, k) && Bytes(g)[k] == FieldByte(g, k);
    }
    GuidsInWindowNeverCollide(g, h, if data3 == g.data3 then 0 else 4);
  }
}
