/** Rust strings: byte strings in UTF-8 (RFC 3629), with the tests that the
    modelled code applies to them. */
module Text {
  import opened Bytes

  // A string whose UTF-8 validity plays no part is just its bytes.
  type Text = seq<byte>

  predicate Continuation(b: byte) { 0x80 <= b < 0xC0 }

  predicate Continues(s: seq<byte>, from: nat, to: nat) {
    to <= |s| && forall i | from <= i < to :: Continuation(s[i])
  }

  /** Width of the scalar value encoded at the head of s, or 0 when there is none
      (RFC 3629, section 4). */
  function CharWidth(s: seq<byte>): (w: nat)
    ensures w <= 4 && w <= |s|
    ensures w > 0 ==> !Continuation(s[0]) && Continues(s, 1, w)
  {
    if s == [] then 0
    else if s[0] < 0x80 then 1
    else if 0xC2 <= s[0] < 0xE0 then (if Continues(s, 1, 2) then 2 else 0)
    else if 0xE0 <= s[0] < 0xF0 then
      (if && Continues(s, 1, 3)
          && (s[0] == 0xE0 ==> 0xA0 <= s[1])
          && (s[0] == 0xED ==> s[1] < 0xA0) then 3 else 0)
    else if 0xF0 <= s[0] < 0xF5 then
      (if && Continues(s, 1, 4)
          && (s[0] == 0xF0 ==> 0x90 <= s[1])
          && (s[0] == 0xF4 ==> s[1] < 0x90) then 4 else 0)
    else 0
  }

  predicate ValidUtf8(s: seq<byte>) {
    s == [] || (CharWidth(s) > 0 && ValidUtf8(s[CharWidth(s)..]))
  }

  type Str = s: seq<byte> | ValidUtf8(s) witness []

  /** `str::is_char_boundary`. */
  predicate IsCharBoundary(s: seq<byte>, i: nat) {
    i == 0 || i == |s| || (i < |s| && !Continuation(s[i]))
  }

  /** Cutting at a character boundary leaves two valid strings. */
  lemma {:induction false} BoundarySplits(s: Str, i: nat)
    requires i <= |s| && IsCharBoundary(s, i)
    ensures ValidUtf8(s[..i]) && ValidUtf8(s[i..])
  {
    if i == 0 {
      assert s[..0] == [] && s[0..] == s;
    } else {
      var w := CharWidth(s);
      assert w <= i;
      BoundarySplits(s[w..], i - w);
      DropTake(s, w, i);
    }
  }

  lemma WidthOfPrefix(a: seq<byte>, b: seq<byte>)
    requires CharWidth(a) > 0
    ensures CharWidth(a + b) == CharWidth(a)
  {
    assert forall i :: 0 <= i < |a| ==> (a + b)[i] == a[i];
  }

  lemma {:induction false} ConcatValid(a: Str, b: Str)
    ensures ValidUtf8(a + b)
  {
    if a == [] {
      assert a + b == b;
    } else {
      var w := CharWidth(a);
      ConcatValid(a[w..], b);
      WidthOfPrefix(a, b);
      assert (a + b)[w..] == a[w..] + b;
    }
  }

  /** Width of the white-space character at the head of s (Unicode White_Space), or 0. */
  function SpaceWidth(s: seq<byte>): (w: nat)
    ensures w <= |s|
  {
    if |s| >= 1 && (0x09 <= s[0] <= 0x0D || s[0] == 0x20) then 1
    else if |s| >= 2 && s[0] == 0xC2 && (s[1] == 0x85 || s[1] == 0xA0) then 2
    else if |s| >= 3 && s[0] == 0xE1 && s[1] == 0x9A && s[2] == 0x80 then 3
    else if && |s| >= 3 && s[0] == 0xE2 && s[1] == 0x80
            && (s[2] <= 0x8A || s[2] == 0xA8 || s[2] == 0xA9 || s[2] == 0xAF) && 0x80 <= s[2] then 3
    else if |s| >= 3 && s[0] == 0xE2 && s[1] == 0x81 && s[2] == 0x9F then 3
    else if |s| >= 3 && s[0] == 0xE3 && s[1] == 0x80 && s[2] == 0x80 then 3
    else 0
  }

  /** `s.trim().is_empty()`. */
  predicate Blank(s: seq<byte>) {
    s == [] || (SpaceWidth(s) > 0 && Blank(s[SpaceWidth(s)..]))
  }

  /** `s.chars().any(char::is_control)` for a valid string. */
  predicate HasControl(s: seq<byte>) {
    exists i | 0 <= i < |s| ::
      || s[i] < 0x20
      || s[i] == 0x7F
      || (s[i] == 0xC2 && i + 1 < |s| && s[i + 1] < 0xA0)
  }

  const SLASH: byte := 0x2F
  const DOT: byte := 0x2E

  predicate IsAbsolutePath(p: seq<byte>) { p != [] && p[0] == SLASH }

  /** Some component of the slash-separated path is `..`. */
  predicate HasParentDir(p: seq<byte>) {
    exists i | 0 <= i < |p| - 1 ::
      && p[i] == DOT && p[i + 1] == DOT
      && (i == 0 || p[i - 1] == SLASH)
      && (i + 2 == |p| || p[i + 2] == SLASH)
  }

  /** An ASCII literal as a Rust string. */
  function Ascii(s: string): (r: Str)
    requires forall i :: 0 <= i < |s| ==> s[i] as int < 0x80
    ensures |r| == |s| && forall i :: 0 <= i < |s| ==> r[i] == s[i] as int
  {
    var bytes: seq<byte> := seq(|s|, i requires 0 <= i < |s| => s[i] as int);
    AsciiIsValid(bytes);
    bytes
  }

  lemma {:induction false} AsciiIsValid(s: seq<byte>)
    requires forall i :: 0 <= i < |s| ==> s[i] < 0x80
    ensures ValidUtf8(s)
  {
    if s != [] { AsciiIsValid(s[1..]); }
  }

  /** Decimal digits, as `{}` prints an unsigned number. */
  function Decimal(n: nat): (r: Str)
    ensures forall i :: 0 <= i < |r| ==> r[i] < 0x80
    decreases n
  {
    var last: seq<byte> := [0x30 + n % 10];
    AsciiIsValid(last);
    if n < 10 then last
    else
      ConcatValid(Decimal(n / 10), last);
      Decimal(n / 10) + last
  }

  function FromDecimal(s: seq<byte>): int {
    if s == [] then 0 else 10 * FromDecimal(s[..|s| - 1]) + s[|s| - 1] - 0x30
  }

  /** The digits spell the number. */
  lemma {:induction false} DecimalSpells(n: nat)
    ensures FromDecimal(Decimal(n)) == n && Decimal(n) != []
    ensures forall i :: 0 <= i < |Decimal(n)| ==> 0x30 <= Decimal(n)[i] <= 0x39
    ensures n >= 1 ==> Decimal(n)[0] != 0x30
  {
    var last: seq<byte> := [0x30 + n % 10];
    if n < 10 {
      assert last[..0] == [];
    } else {
      DecimalSpells(n / 10);
      assert Decimal(n)[..|Decimal(n)| - 1] == Decimal(n / 10);
    }
  }
}
