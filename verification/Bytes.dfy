/** Bytes, machine words and the C bit operators the sources use on them.
    Values are mathematical integers; every place where the C code relies on the
    width of a type writes the reduction out. The lemmas turn the bit operators
    into arithmetic, so that no other module reasons about single bits. */
module Bytes {

  datatype Option<T> = None | Some(value: T)

  type Byte = b: int | 0 <= b < 0x100

  type Word = w: int | 0 <= w < 0x1_0000

  const BLANK: Byte := 0xFF

  /** C `&` on non-negative values. */
  function And(a: nat, b: nat): nat {
    if a == 0 || b == 0 then 0
    else 2 * And(a / 2, b / 2) + (if a % 2 == 1 && b % 2 == 1 then 1 else 0)
  }

  /** C `|` on non-negative values. */
  function Or(a: nat, b: nat): nat {
    if a == 0 then b
    else if b == 0 then a
    else 2 * Or(a / 2, b / 2) + (if a % 2 == 1 || b % 2 == 1 then 1 else 0)
  }

  function Pow2(k: nat): (p: nat)
    ensures p >= 1
  {
    if k == 0 then 1 else 2 * Pow2(k - 1)
  }

  /** Masking with k ones keeps the k low bits. */
  lemma {:induction false} AndLowMask(a: nat, k: nat)
    ensures And(a, Pow2(k) - 1) == a % Pow2(k)
    ensures And(Pow2(k) - 1, a) == a % Pow2(k)
  {
    if k > 0 {
      AndLowMask(a / 2, k - 1);
      var p := Pow2(k - 1);
      assert (2 * p - 1) / 2 == p - 1;
      HalveMod(a, p);
    }
  }

  lemma HalveMod(a: nat, p: nat)
    requires p >= 1
    ensures a % (2 * p) == 2 * ((a / 2) % p) + a % 2
  {
    var h := a / 2;
    var q, r := h / p, h % p;
    assert h == p * q + r;
    assert (2 * p) * q == 2 * (p * q);
    RemainderUnique(2 * p, q, 2 * r + a % 2, a / (2 * p), a % (2 * p));
  }

  /** Division with remainder is unique. */
  lemma RemainderUnique(m: int, q: int, r: int, q': int, r': int)
    requires 0 <= r < m && 0 <= r' < m && m * q + r == m * q' + r'
    ensures q == q' && r == r'
  {
    MulStep(m, q - q');
    assert m * (q - q') == r' - r;
  }

  lemma MulStep(m: int, d: int)
    requires m > 0
    ensures d > 0 ==> m * d >= m
    ensures d < 0 ==> m * d <= -m
  {
    if d > 0 {
      assert m * (d - 1) >= 0;
    } else if d < 0 {
      assert m * (-d - 1) >= 0;
    }
  }

  lemma MaskShift(x: nat, m: nat)
    ensures And(x, 2 * m) == 2 * And(x / 2, m)
  {
    assert (2 * m) / 2 == m && (2 * m) % 2 == 0;
  }

  /** Or-ing a value below 2^k into a multiple of 2^k is addition. */
  lemma {:induction false} OrDisjoint(high: nat, low: nat, k: nat)
    requires low < Pow2(k)
    ensures Or(high * Pow2(k), low) == high * Pow2(k) + low
    ensures Or(low, high * Pow2(k)) == high * Pow2(k) + low
  {
    hide Or;
    if k == 0 {
      OrZero(high);
    } else {
      var h := high * Pow2(k - 1);
      OrDisjoint(high, low / 2, k - 1);
      Regroup(high, Pow2(k - 1));
      OrEven(h, low);
    }
  }

  lemma OrZero(a: nat)
    ensures Or(a, 0) == a && Or(0, a) == a
  {
  }

  lemma Regroup(a: nat, b: nat)
    ensures a * (2 * b) == 2 * (a * b)
  {
  }

  lemma OrEven(h: nat, low: nat)
    ensures Or(2 * h, low) == 2 * Or(h, low / 2) + low % 2
    ensures Or(low, 2 * h) == 2 * Or(low / 2, h) + low % 2
  {
    assert (2 * h) / 2 == h && (2 * h) % 2 == 0;
  }

  /** The two neutral cases of the flash commit: an erased cell takes the
      buffered byte, and a blank buffer byte leaves the cell alone. */
  lemma AndBlank(b: Byte)
    ensures And(BLANK, b) == b && And(b, BLANK) == b
  {
    hide And, Pow2;
    AndLowMask(b, 8);
    Pow2Of8();
  }

  lemma Pow2Of8()
    ensures Pow2(4) == 16 && Pow2(8) == 256
  {
    assert Pow2(4) == 16;
    assert Pow2(8) == 2 * (2 * (2 * (2 * Pow2(4))));
  }

  lemma {:induction false} AndAtMost(a: nat, b: nat)
    ensures And(a, b) <= a
  {
    if a != 0 && b != 0 {
      AndAtMost(a / 2, b / 2);
    }
  }

  /** C `&` on two bytes. */
  function AndByte(a: Byte, b: Byte): Byte {
    AndAtMost(a, b);
    And(a, b)
  }

  /** The address a memory of n bytes sees: a modulo n, since n divides the address space. */
  function Wrap(a: nat, n: nat): (r: nat)
    requires n > 0
    ensures r < n && r <= a
    decreases a
  {
    if a < n then a else Wrap(a - n, n)
  }

  lemma WrapInside(a: nat, n: nat)
    requires a < n
    ensures Wrap(a, n) == a
  {
  }

  lemma {:induction false} WrapIsMod(a: nat, n: nat)
    requires n > 0
    ensures Wrap(a, n) == a % n
    decreases a
  {
    if a >= n {
      WrapIsMod(a - n, n);
      var q, r := (a - n) / n, (a - n) % n;
      assert n * (q + 1) == n * q + n;
      RemainderUnique(n, q + 1, r, a / n, a % n);
    } else {
      RemainderUnique(n, 0, a, a / n, a % n);
    }
  }

  function Low(w: Word): Byte { w % 0x100 }

  function High(w: Word): Byte { w / 0x100 }

  function MakeWord(low: Byte, high: Byte): Word { low + 0x100 * high }

  lemma WordBytes(low: Byte, high: Byte)
    ensures Low(MakeWord(low, high)) == low && High(MakeWord(low, high)) == high
  {
  }

  lemma WordParts(w: Word)
    ensures MakeWord(Low(w), High(w)) == w
  {
  }

  /** A run of n blank bytes. */
  function Blanks(n: nat): (s: seq<Byte>)
    ensures |s| == n
  {
    seq(n, _ => BLANK)
  }

  /** Concatenation of a list of packets. */
  function Flatten<T>(packets: seq<seq<T>>): seq<T> {
    if packets == [] then [] else packets[0] + Flatten(packets[1..])
  }

  lemma {:induction false} FlattenAppend<T>(a: seq<seq<T>>, b: seq<seq<T>>)
    ensures Flatten(a + b) == Flatten(a) + Flatten(b)
  {
    if a == [] {
      assert a + b == b;
    } else {
      FlattenAppend(a[1..], b);
      assert (a + b)[0] == a[0] && (a + b)[1..] == a[1..] + b;
    }
  }

  // Overwriting part of a sequence.

  /** The bytes with `data` written over them at position a. */
  ghost function Splice(e: seq<Byte>, a: nat, data: seq<Byte>): (r: seq<Byte>)
    requires a + |data| <= |e|
    ensures |r| == |e|
  {
    e[..a] + data + e[a + |data|..]
  }

  /** The whole words at the front of the data: the last byte of an odd number is left out. */
  ghost function Words(data: seq<Byte>): (r: seq<Byte>)
    ensures |r| == 2 * (|data| / 2) <= |data|
  {
    data[..2 * (|data| / 2)]
  }

  lemma SpliceFirst(e: seq<Byte>, a: nat, data: seq<Byte>)
    requires a + |data| <= |e| && data != []
    ensures Splice(e[a := data[0]], a + 1, data[1..]) == Splice(e, a, data)
  {
  }

  lemma SpliceNone(e: seq<Byte>, a: nat)
    requires a <= |e|
    ensures Splice(e, a, []) == e
  {
  }

  lemma SpliceMore(e: seq<Byte>, a: nat, x: seq<Byte>, y: seq<Byte>)
    requires a + |x| + |y| <= |e|
    ensures Splice(Splice(e, a, x), a + |x|, y) == Splice(e, a, x + y)
  {
  }

  lemma SplicePrefix(e: seq<Byte>, a: nat, data: seq<Byte>, n: nat)
    requires a + |data| <= |e| && n <= |data|
    ensures Splice(e, a, data)[a..a + n] == data[..n]
  {
  }

  lemma SliceFirst(s: seq<Byte>, a: nat, n: nat)
    requires n > 0 && a + n <= |s|
    ensures s[a..a + n] == [s[a]] + s[a + 1..a + n]
  {
  }
}
