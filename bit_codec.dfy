/**
 * The bit-list codecs of repost.py: an integer to and from a most-significant-first
 * list of 0/1 bits, and a 64-bit list to and from a database row of eleven
 * integers (ten 6-bit groups followed by one 4-bit group).
 */
module BitCodec {

  /** One element of a bit list: the Python integers 0 and 1. */
  type Bit = b: int | 0 <= b <= 1

  function Pow2(n: nat): (r: nat)
    ensures r >= 1
  {
    if n == 0 then 1 else 2 * Pow2(n - 1)
  }

  lemma {:induction false} Pow2Monotone(a: nat, b: nat)
    requires a <= b
    ensures Pow2(a) <= Pow2(b)
  {
    if a < b {
      Pow2Monotone(a, b - 1);
    }
  }

  /** The number of digits Python's `b` format prints for `n`: at least one, and no leading zero. */
  function BitLength(n: nat): (r: nat)
    ensures r >= 1
    ensures n < Pow2(r)
    ensures r > 1 ==> Pow2(r - 1) <= n
  {
    if n < 2 then 1 else 1 + BitLength(n / 2)
  }

  /** The `w` lowest binary digits of `n`, most significant first. */
  function ToBits(n: nat, w: nat): (r: seq<Bit>)
    ensures |r| == w
  {
    if w == 0 then [] else ToBits(n / 2, w - 1) + [n % 2]
  }

  /** The width a zero-padded format field of minimum width `size` takes for `digits` digits. */
  function Width(size: int, digits: nat): nat
  {
    if size > digits then size else digits
  }

  /**
   * intToBitList(n, size): the characters of f"{n:0{size}b}", each '1' read as 1 and every
   * other character as 0. The format pads with zeros up to `size` characters but never
   * truncates; a negative number is printed as '-' followed by its magnitude, and the
   * sign character becomes a 0 bit.
   */
  function IntToBitList(n: int, size: nat): (r: seq<Bit>)
    ensures |r| >= size
  {
    if n >= 0 then ToBits(n, Width(size, BitLength(n)))
    else [0] + ToBits(-n, Width(size - 1, BitLength(-n)))
  }

  /** The integer a bit list denotes, folded from the left as `out = (out << 1) | bit`. */
  function Value(a: seq<Bit>): (r: nat)
    ensures r < Pow2(|a|)
  {
    if a == [] then 0 else 2 * Value(a[..|a| - 1]) + a[|a| - 1]
  }

  lemma ValueSnoc(a: seq<Bit>, b: Bit)
    ensures Value(a + [b]) == 2 * Value(a) + b
  {
    assert (a + [b])[..|a|] == a;
  }

  /** bitArrayToInt: shifting a 0 in and or-ing the bit is the same as doubling and adding. */
  method BitArrayToInt(a: seq<Bit>) returns (out: nat)
    ensures out == Value(a)
    ensures out < Pow2(|a|)
  {
    out := 0;
    var i := 0;
    while i < |a|
      invariant 0 <= i <= |a|
      invariant out == Value(a[..i])
    {
      assert a[..i + 1] == a[..i] + [a[i]];
      ValueSnoc(a[..i], a[i]);
      out := out * 2 + a[i];
      i := i + 1;
    }
    assert a[..i] == a;
  }

  lemma {:induction false} ValueOfToBits(n: nat, w: nat)
    requires n < Pow2(w)
    ensures Value(ToBits(n, w)) == n
  {
    if w > 0 {
      ValueOfToBits(n / 2, w - 1);
      ValueSnoc(ToBits(n / 2, w - 1), n % 2);
    }
  }

  lemma {:induction false} ToBitsOfValue(a: seq<Bit>)
    ensures ToBits(Value(a), |a|) == a
  {
    if a != [] {
      var init := a[..|a| - 1];
      ToBitsOfValue(init);
      assert (2 * Value(init) + a[|a| - 1]) / 2 == Value(init);
      assert a == init + [a[|a| - 1]];
    }
  }

  lemma {:induction false} MulBounds(d: int, x: int)
    requires d > 0
    ensures x >= 1 ==> d * x >= d
    ensures x <= -1 ==> d * x <= -d
    decreases if x < 0 then -x else x
  {
    if x > 1 {
      MulBounds(d, x - 1);
      assert d * x == d * (x - 1) + d;
    } else if x < -1 {
      MulBounds(d, x + 1);
      assert d * x == d * (x + 1) - d;
    }
  }

  lemma DivUnique(n: int, d: int, q: int, r: int)
    requires d > 0 && 0 <= r < d && n == d * q + r
    ensures n / d == q
  {
    var q', r' := n / d, n % d;
    assert d * (q' - q) == r - r';
    MulBounds(d, q' - q);
  }

  lemma HalfOfQuotient(n: nat, p: nat)
    requires p >= 1
    ensures (n / 2) / p == n / (2 * p)
  {
    var q, r := n / (2 * p), n % (2 * p);
    assert n == (2 * p) * q + r;
    assert n == 2 * (p * q + r / 2) + r % 2;
    DivUnique(n, 2, p * q + r / 2, r % 2);
    DivUnique(n / 2, p, q, r / 2);
  }

  /** Digit `k` of `ToBits(n, w)` carries the weight 2^(w-1-k): the list is most significant first. */
  lemma {:induction false} ToBitsAt(n: nat, w: nat, k: nat)
    requires k < w
    ensures ToBits(n, w)[k] == (n / Pow2(w - 1 - k)) % 2
  {
    if k < w - 1 {
      ToBitsAt(n / 2, w - 1, k);
      HalfOfQuotient(n, Pow2(w - 2 - k));
    }
  }

  lemma {:induction false} BitLengthAtMost(n: nat, size: nat)
    requires size >= 1 && n < Pow2(size)
    ensures BitLength(n) <= size
  {
    if n >= 2 {
      assert size >= 2;
      BitLengthAtMost(n / 2, size - 1);
    }
  }

  /**
   * intToBitList(n, size) for n >= 0: it loses nothing (its value is n), it is at least
   * `size` long, exactly `size` long when n fits in `size` bits, and most significant first.
   */
  lemma IntToBitListSpec(n: nat, size: nat)
    ensures var r := IntToBitList(n, size);
      && Value(r) == n
      && |r| >= size
      && (1 <= size && n < Pow2(size) ==> |r| == size)
      && forall k :: 0 <= k < |r| ==> r[k] == (n / Pow2(|r| - 1 - k)) % 2
  {
    var r := IntToBitList(n, size);
    var w := Width(size, BitLength(n));
    Pow2Monotone(BitLength(n), w);
    ValueOfToBits(n, w);
    if 1 <= size && n < Pow2(size) {
      BitLengthAtMost(n, size);
    }
    forall k | 0 <= k < |r|
      ensures r[k] == (n / Pow2(|r| - 1 - k)) % 2
    {
      ToBitsAt(n, w, k);
    }
  }

  /** For 0 <= n < 2^size and size >= 1, intToBitList(n, size) is exactly the size-bit encoding of n. */
  lemma IntToBitListFits(n: nat, size: nat)
    requires 1 <= size && n < Pow2(size)
    ensures IntToBitList(n, size) == ToBits(n, size)
  {
    BitLengthAtMost(n, size);
  }

  lemma {:induction false} ValueLeadingZero(a: seq<Bit>)
    ensures Value([0] + a) == Value(a)
  {
    if a != [] {
      var init := a[..|a| - 1];
      ValueLeadingZero(init);
      assert ([0] + a)[..|a|] == [0] + init;
    }
  }

  /**
   * intToBitList(n, size) for n < 0: the '-' sign becomes a leading 0 bit, so the list
   * denotes the magnitude of n and is at least `size` long.
   */
  lemma IntToBitListNegative(n: int, size: nat)
    requires n < 0
    ensures var r := IntToBitList(n, size);
      && r[0] == 0
      && Value(r) == -n
      && |r| == 1 + Width(size - 1, BitLength(-n))
      && |r| >= size
  {
    var w := Width(size - 1, BitLength(-n));
    Pow2Monotone(BitLength(-n), w);
    ValueOfToBits(-n, w);
    ValueLeadingZero(ToBits(-n, w));
  }

  /** Python's a[lo:hi] for 0 <= lo <= hi: both ends are clamped to the length of `a`. */
  function Slice<T>(a: seq<T>, lo: nat, hi: nat): (r: seq<T>)
    requires lo <= hi
    ensures |r| <= hi - lo
  {
    if hi <= |a| then a[lo..hi] else if lo <= |a| then a[lo..] else []
  }

  /** Python's a[lo:]: empty when `lo` is past the end. */
  function Drop<T>(a: seq<T>, lo: nat): (r: seq<T>)
    ensures |r| == if lo <= |a| then |a| - lo else 0
  {
    if lo <= |a| then a[lo..] else []
  }

  /** The bits combineRow lays down for the integers `xs`, 6 bits each. */
  function Concat6(xs: seq<int>): seq<Bit>
  {
    if xs == [] then [] else Concat6(xs[..|xs| - 1]) + IntToBitList(xs[|xs| - 1], 6)
  }

  /** combineRow(row): every integer but the last as 6 bits, then the last as 4 bits. */
  function Combined(row: seq<int>): seq<Bit>
    requires |row| >= 1
  {
    Concat6(row[..|row| - 1]) + IntToBitList(row[|row| - 1], 4)
  }

  /** splitBitArray(a): the values of a[0:6], a[6:12], ..., a[54:60], then of a[60:]. */
  function Split(a: seq<Bit>): seq<nat>
  {
    seq(10, k requires 0 <= k < 10 => Value(Slice(a, 6 * k, 6 * k + 6))) + [Value(Drop(a, 60))]
  }

  method CombineRow(row: seq<int>) returns (l: seq<Bit>)
    requires |row| >= 1
    ensures l == Combined(row)
  {
    l := [];
    var init := row[..|row| - 1];
    var i := 0;
    while i < |init|
      invariant 0 <= i <= |init|
      invariant l == Concat6(init[..i])
    {
      assert init[..i + 1][..i] == init[..i];
      l := l + IntToBitList(init[i], 6);
      i := i + 1;
    }
    assert init[..i] == init;
    l := l + IntToBitList(row[|row| - 1], 4);
  }

  method SplitBitArray(a: seq<Bit>) returns (integers: seq<nat>)
    ensures integers == Split(a)
  {
    integers := [];
    var i := 0;
    while i < 60
      invariant i == 6 * |integers| <= 60
      invariant forall k :: 0 <= k < |integers| ==> integers[k] == Value(Slice(a, 6 * k, 6 * k + 6))
    {
      var v := BitArrayToInt(Slice(a, i, i + 6));
      integers := integers + [v];
      i := i + 6;
    }
    var last := BitArrayToInt(Drop(a, 60));
    integers := integers + [last];
    assert |integers| == |Split(a)|;
  }

  /**
   * splitBitArray always yields eleven integers, the first ten below 64; when the list has
   * at most 64 bits (the hashes it is meant for have exactly 64), the last is below 16.
   */
  lemma SplitRanges(a: seq<Bit>)
    ensures |Split(a)| == 11
    ensures forall k :: 0 <= k < 10 ==> Split(a)[k] < 64
    ensures |a| <= 64 ==> Split(a)[10] < 16
  {
    forall k | 0 <= k < 10
      ensures Split(a)[k] < 64
    {
      Pow2Monotone(|Slice(a, 6 * k, 6 * k + 6)|, 6);
    }
    if |a| <= 64 {
      Pow2Monotone(|Drop(a, 60)|, 4);
    }
  }

  /** A list of `w >= 1` bits is what intToBitList gives back for its value and `w`. */
  lemma GroupRoundTrip(group: seq<Bit>)
    requires |group| >= 1
    ensures IntToBitList(Value(group), |group|) == group
  {
    IntToBitListFits(Value(group), |group|);
    ToBitsOfValue(group);
  }

  lemma Concat6Snoc(xs: seq<int>)
    requires xs != [] && 0 <= xs[|xs| - 1] < 64
    ensures Concat6(xs) == Concat6(xs[..|xs| - 1]) + ToBits(xs[|xs| - 1], 6)
  {
    IntToBitListFits(xs[|xs| - 1], 6);
  }

  lemma {:induction false} Concat6OfSplit(a: seq<Bit>, j: nat)
    requires |a| == 64 && j <= 10
    ensures Concat6(Split(a)[..j]) == a[..6 * j]
  {
    if j > 0 {
      var s := Split(a)[..j];
      var group := a[6 * (j - 1)..6 * j];
      assert s[..j - 1] == Split(a)[..j - 1];
      assert s[j - 1] == Value(group);
      Concat6OfSplit(a, j - 1);
      GroupRoundTrip(group);
      assert Concat6(s) == Concat6(s[..j - 1]) + IntToBitList(s[j - 1], 6);
      assert a[..6 * j] == a[..6 * (j - 1)] + group;
    }
  }

  /** combineRow(splitBitArray(a)) == a for every 64-bit list. */
  lemma CombineSplit(a: seq<Bit>)
    requires |a| == 64
    ensures Combined(Split(a)) == a
  {
    var s := Split(a);
    Concat6OfSplit(a, 10);
    var tail := a[60..];
    assert s[10] == Value(tail);
    IntToBitListFits(Value(tail), 4);
    ToBitsOfValue(tail);
    assert a == a[..60] + tail;
  }

  lemma {:induction false} Concat6Layout(xs: seq<int>, k: nat)
    requires forall i :: 0 <= i < |xs| ==> 0 <= xs[i] < 64
    requires k < |xs|
    ensures |Concat6(xs)| == 6 * |xs|
    ensures Concat6(xs)[6 * k..6 * k + 6] == ToBits(xs[k], 6)
  {
    var init := xs[..|xs| - 1];
    Concat6Snoc(xs);
    if k < |init| {
      Concat6Layout(init, k);
      assert Concat6(xs)[6 * k..6 * k + 6] == Concat6(init)[6 * k..6 * k + 6];
    } else if init != [] {
      Concat6Layout(init, 0);
    }
  }

  /** splitBitArray(combineRow(row)) == row for every row of ten 6-bit and one 4-bit integer. */
  lemma SplitCombine(row: seq<int>)
    requires |row| == 11
    requires forall k :: 0 <= k < 10 ==> 0 <= row[k] < 64
    requires 0 <= row[10] < 16
    ensures Split(Combined(row)) == row
  {
    var l := Combined(row);
    forall k | 0 <= k < 10
      ensures Split(l)[k] == row[k]
    {
      SplitCombineGroup(row, k);
    }
    SplitCombineLast(row);
  }

  lemma SplitCombineGroup(row: seq<int>, k: nat)
    requires |row| == 11
    requires forall i :: 0 <= i < 10 ==> 0 <= row[i] < 64
    requires k < 10
    ensures Value(Slice(Combined(row), 6 * k, 6 * k + 6)) == row[k]
  {
    var init := row[..10];
    var l := Combined(row);
    assert l == Concat6(init) + IntToBitList(row[10], 4);
    Concat6Layout(init, k);
    assert Slice(l, 6 * k, 6 * k + 6) == Concat6(init)[6 * k..6 * k + 6];
    ValueOfToBits(row[k], 6);
  }

  lemma SplitCombineLast(row: seq<int>)
    requires |row| == 11
    requires forall i :: 0 <= i < 10 ==> 0 <= row[i] < 64
    requires 0 <= row[10] < 16
    ensures Value(Drop(Combined(row), 60)) == row[10]
  {
    var init := row[..10];
    var l := Combined(row);
    Concat6Layout(init, 0);
    IntToBitListFits(row[10], 4);
    assert l[60..] == ToBits(row[10], 4);
    ValueOfToBits(row[10], 4);
  }
}
