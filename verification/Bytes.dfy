/** Bytes, fixed-width little-endian integers, and the lexicographic orders
    that the Rust standard library gives byte strings and tuples. */
module Bytes {

  type byte = x: int | 0 <= x < 0x100
  type u16 = x: int | 0 <= x < 0x1_0000
  type u32 = x: int | 0 <= x < 0x1_0000_0000

  const U8_MAX: int := 0xFF
  const U32_MAX: int := 0xFFFF_FFFF

  type Digest = d: seq<byte> | |d| == 32 witness seq(32, _ => 0)

  // The digest function. Nothing about it is used except that it is a function.
  type Hash = seq<byte> -> Digest

  datatype Option<+T> = None | Some(value: T) {
    predicate IsFailure() { None? }

    function PropagateFailure<U>(): Option<U>
      requires None?
    {
      None
    }

    function Extract(): T
      requires Some?
    {
      value
    }
  }

  datatype Result<+T, +E> = Ok(value: T) | Err(error: E) {
    predicate IsFailure() { Err? }

    function PropagateFailure<U>(): Result<U, E>
      requires Err?
    {
      Err(error)
    }

    function Extract(): T
      requires Ok?
    {
      value
    }
  }

  function Min(a: int, b: int): int { if a <= b then a else b }

  function Max(a: int, b: int): int { if a <= b then b else a }

  function SaturatingAdd(a: nat, b: nat, max: nat): (r: nat)
    ensures r <= max && (a + b <= max ==> r == a + b) && (r < max ==> r == a + b)
  {
    Min(a + b, max)
  }

  /** Order of byte strings: the first difference decides, a proper prefix is smaller. */
  predicate LexLeq(a: seq<int>, b: seq<int>) {
    a == [] || (b != [] && (a[0] < b[0] || (a[0] == b[0] && LexLeq(a[1..], b[1..]))))
  }

  predicate LexLess(a: seq<int>, b: seq<int>) { a != b && LexLeq(a, b) }

  /** Order of tuples whose components are byte strings or numbers (one-element strings). */
  predicate TupleLeq(a: seq<seq<int>>, b: seq<seq<int>>) {
    a == [] || (b != [] && (LexLess(a[0], b[0]) || (a[0] == b[0] && TupleLeq(a[1..], b[1..]))))
  }

  predicate TupleLess(a: seq<seq<int>>, b: seq<seq<int>>) { a != b && TupleLeq(a, b) }

  lemma {:induction false} LexTotal(a: seq<int>, b: seq<int>)
    ensures LexLeq(a, b) || LexLeq(b, a)
    ensures LexLeq(a, b) && LexLeq(b, a) ==> a == b
    ensures LexLeq(a, a)
  {
    if a == [] || b == [] {
      LexReflexive(a);
    } else {
      LexTotal(a[1..], b[1..]);
      LexReflexive(a);
      if LexLeq(a, b) && LexLeq(b, a) {
        assert a == [a[0]] + a[1..] && b == [b[0]] + b[1..];
      }
    }
  }

  lemma {:induction false} LexReflexive(a: seq<int>)
    ensures LexLeq(a, a)
  {
    if a != [] { LexReflexive(a[1..]); }
  }

  lemma {:induction false} LexTransitive(a: seq<int>, b: seq<int>, c: seq<int>)
    requires LexLeq(a, b) && LexLeq(b, c)
    ensures LexLeq(a, c)
  {
    if a != [] && a[0] == b[0] == c[0] {
      LexTransitive(a[1..], b[1..], c[1..]);
    }
  }

  lemma LexLessTransitive(a: seq<int>, b: seq<int>, c: seq<int>)
    requires (LexLess(a, b) && LexLeq(b, c)) || (LexLeq(a, b) && LexLess(b, c))
    ensures LexLess(a, c)
  {
    LexTransitive(a, b, c);
    LexTotal(a, b);
    LexTotal(b, c);
  }

  lemma {:induction false} TupleTotal(a: seq<seq<int>>, b: seq<seq<int>>)
    ensures TupleLeq(a, b) || TupleLeq(b, a)
    ensures TupleLeq(a, b) && TupleLeq(b, a) ==> a == b
  {
    if a != [] && b != [] {
      LexTotal(a[0], b[0]);
      TupleTotal(a[1..], b[1..]);
      if TupleLeq(a, b) && TupleLeq(b, a) {
        assert a == [a[0]] + a[1..] && b == [b[0]] + b[1..];
      }
    }
  }

  lemma {:induction false} TupleTransitive(a: seq<seq<int>>, b: seq<seq<int>>, c: seq<seq<int>>)
    requires TupleLeq(a, b) && TupleLeq(b, c)
    ensures TupleLeq(a, c)
  {
    if a != [] {
      if a[0] == b[0] == c[0] {
        TupleTransitive(a[1..], b[1..], c[1..]);
      } else if a[0] != b[0] && b[0] != c[0] {
        LexLessTransitive(a[0], b[0], c[0]);
      }
    }
  }

  lemma TupleLeqCons(x: seq<int>, s: seq<seq<int>>, y: seq<int>, t: seq<seq<int>>)
    ensures TupleLeq([x] + s, [y] + t) <==> LexLess(x, y) || (x == y && TupleLeq(s, t))
    ensures [x] + s == [y] + t <==> x == y && s == t
  {
    assert ([x] + s)[1..] == s && ([y] + t)[1..] == t;
    if [x] + s == [y] + t { assert ([x] + s)[0] == ([y] + t)[0]; }
  }

  lemma TupleStep(x: seq<int>, s: seq<seq<int>>, y: seq<int>, t: seq<seq<int>>)
    ensures TupleLess([x] + s, [y] + t) <==> if x != y then LexLess(x, y) else TupleLess(s, t)
  {
    TupleLeqCons(x, s, y, t);
  }

  lemma LexSingle(i: int, j: int)
    ensures LexLess([i], [j]) <==> i < j
    ensures [i] == [j] <==> i == j
  {
    if [i] == [j] { assert [i][0] == [j][0]; }
    assert [i][1..] == [] == [j][1..];
  }

  lemma DropTake<T>(s: seq<T>, i: nat, j: nat)
    requires i <= j <= |s|
    ensures s[i..][..j - i] == s[i..j] == s[..j][i..]
    ensures s[i..][j - i..] == s[j..]
  {
  }

  function U16Le(x: u16): (s: seq<byte>)
    ensures |s| == 2
  {
    [x % 0x100, x / 0x100]
  }

  function U32Le(x: u32): (s: seq<byte>)
    ensures |s| == 4
  {
    [x % 0x100, x / 0x100 % 0x100, x / 0x1_0000 % 0x100, x / 0x100_0000]
  }

  /** Inverse of U16Le. */
  function FromU16Le(s: seq<byte>): (x: u16)
    requires |s| == 2
    ensures U16Le(x) == s
  {
    var lo: int, hi: int := s[0], s[1];
    lo + 0x100 * hi
  }

  /** Inverse of U32Le. */
  function FromU32Le(s: seq<byte>): (x: u32)
    requires |s| == 4
    ensures U32Le(x) == s
  {
    var a: int, b: int, c: int, d: int := s[0], s[1], s[2], s[3];
    var x := a + 0x100 * b + 0x1_0000 * c + 0x100_0000 * d;
    U32Digits(a, b, c, d);
    x
  }

  lemma U32Digits(a: int, b: int, c: int, d: int)
    requires 0 <= a < 0x100 && 0 <= b < 0x100 && 0 <= c < 0x100 && 0 <= d < 0x100
    ensures var x := a + 0x100 * b + 0x1_0000 * c + 0x100_0000 * d;
            x % 0x100 == a && x / 0x100 % 0x100 == b && x / 0x1_0000 % 0x100 == c && x / 0x100_0000 == d
  {
    var x := a + 0x100 * b + 0x1_0000 * c + 0x100_0000 * d;
    assert x / 0x100 == b + 0x100 * c + 0x1_0000 * d;
    assert x / 0x1_0000 == c + 0x100 * d;
  }

  lemma U16LeInverse(x: u16)
    ensures FromU16Le(U16Le(x)) == x
  {
  }

  lemma U32LeInverse(x: u32)
    ensures FromU32Le(U32Le(x)) == x
  {
    assert x == x % 0x100 + 0x100 * (x / 0x100);
    assert x / 0x100 == x / 0x100 % 0x100 + 0x100 * (x / 0x1_0000);
    assert x / 0x1_0000 == x / 0x1_0000 % 0x100 + 0x100 * (x / 0x100_0000);
  }
}
