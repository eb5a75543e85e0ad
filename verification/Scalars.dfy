/** What the tests on strings mean for the characters they encode: UTF-8 (RFC 3629), white space,
    control characters, and path components. */
module Scalars {
  import opened Bytes
  import opened Text

  /** A Unicode scalar value. */
  predicate IsScalar(x: int) { 0 <= x < 0xD800 || 0xE000 <= x < 0x11_0000 }

  /** Its encoding (RFC 3629, section 3). */
  function Utf8(x: int): (s: seq<byte>)
    requires IsScalar(x)
    ensures 1 <= |s| <= 4
  {
    if x < 0x80 then [x]
    else if x < 0x800 then [0xC0 + x / 0x40, 0x80 + x % 0x40]
    else if x < 0x1_0000 then [0xE0 + x / 0x1000, 0x80 + x / 0x40 % 0x40, 0x80 + x % 0x40]
    else [0xF0 + x / 0x4_0000, 0x80 + x / 0x1000 % 0x40, 0x80 + x / 0x40 % 0x40, 0x80 + x % 0x40]
  }

  // The value that the leading and continuation bytes of one character carry.
  function Carried(s: seq<byte>, w: nat): int
    requires 1 <= w <= 4 && w <= |s|
  {
    var a: int := s[0];
    if w == 1 then a
    else
      var b := s[1] as int - 0x80;
      if w == 2 then 0x40 * (a - 0xC0) + b
      else
        var c := s[2] as int - 0x80;
        if w == 3 then 0x1000 * (a - 0xE0) + 0x40 * b + c
        else
          var d := s[3] as int - 0x80;
          0x4_0000 * (a - 0xF0) + 0x1000 * b + 0x40 * c + d
  }

  lemma CarriedIsScalar(s: seq<byte>)
    requires CharWidth(s) > 0
    ensures var x := Carried(s, CharWidth(s)); IsScalar(x) && Utf8(x) == s[..CharWidth(s)]
  {
    var w := CharWidth(s);
    var x := Carried(s, w);
    if w == 2 { Digits2(s[0] - 0xC0, s[1] - 0x80); }
    if w == 3 { Digits3(s[0] - 0xE0, s[1] - 0x80, s[2] - 0x80); }
    if w == 4 { Digits4(s[0] - 0xF0, s[1] - 0x80, s[2] - 0x80, s[3] - 0x80); }
    assert s[..w] == if w == 1 then [s[0]] else if w == 2 then [s[0], s[1]] else if w == 3 then [s[0], s[1], s[2]]
                     else [s[0], s[1], s[2], s[3]];
  }

  lemma Digits2(a: int, b: int)
    requires 0 <= b < 0x40
    ensures var x := 0x40 * a + b; x / 0x40 == a && x % 0x40 == b
  {
  }

  lemma Digits3(a: int, b: int, c: int)
    requires 0 <= b < 0x40 && 0 <= c < 0x40
    ensures var x := 0x1000 * a + 0x40 * b + c; x / 0x1000 == a && x / 0x40 % 0x40 == b && x % 0x40 == c
  {
    Digits2(0x40 * a + b, c);
    Digits2(a, b);
  }

  lemma Digits4(a: int, b: int, c: int, d: int)
    requires 0 <= b < 0x40 && 0 <= c < 0x40 && 0 <= d < 0x40
    ensures var x := 0x4_0000 * a + 0x1000 * b + 0x40 * c + d;
            x / 0x4_0000 == a && x / 0x1000 % 0x40 == b && x / 0x40 % 0x40 == c && x % 0x40 == d
  {
    Digits3(0x40 * a + b, c, d);
    Digits2(a, b);
  }

  lemma EncodedWidth(x: int, s: seq<byte>)
    requires IsScalar(x) && Utf8(x) <= s
    ensures CharWidth(s) == |Utf8(x)|
  {
    assert forall i :: 0 <= i < |Utf8(x)| ==> s[i] == Utf8(x)[i];
  }

  /** A character of width w stands at the head exactly when the encoding of a scalar value does. */
  lemma WidthIff(s: seq<byte>, w: nat)
    requires w > 0
    ensures CharWidth(s) == w <==> exists x :: IsScalar(x) && Utf8(x) <= s && |Utf8(x)| == w
  {
    if CharWidth(s) == w { CarriedIsScalar(s); }
    forall x | IsScalar(x) && Utf8(x) <= s && |Utf8(x)| == w ensures CharWidth(s) == w { EncodedWidth(x, s); }
  }

  // ---------- White space ----------

  /** The characters with the Unicode property White_Space. */
  predicate IsWhite(x: int) {
    || 0x09 <= x <= 0x0D || 0x2000 <= x <= 0x200A
    || x in {0x20, 0x85, 0xA0, 0x1680, 0x2028, 0x2029, 0x202F, 0x205F, 0x3000}
  }

  lemma SpaceIsWhite(s: seq<byte>)
    requires SpaceWidth(s) > 0
    ensures CharWidth(s) == SpaceWidth(s) && IsWhite(Carried(s, SpaceWidth(s)))
  {
  }

  lemma WhiteIsSpace(x: int, s: seq<byte>)
    requires IsWhite(x) && Utf8(x) <= s
    ensures SpaceWidth(s) == |Utf8(x)|
  {
    assert forall i :: 0 <= i < |Utf8(x)| ==> s[i] == Utf8(x)[i];
  }

  // The encodings of the characters one after another.
  function Encoded(xs: seq<int>): seq<byte>
    requires forall i :: 0 <= i < |xs| ==> IsScalar(xs[i])
  {
    if xs == [] then [] else Utf8(xs[0]) + Encoded(xs[1..])
  }

  ghost predicate Encodes(xs: seq<int>, s: seq<byte>) {
    (forall i :: 0 <= i < |xs| ==> IsScalar(xs[i])) && Encoded(xs) == s
  }

  lemma EncodesCons(x: int, xs: seq<int>, s: seq<byte>)
    requires IsScalar(x) && Encodes(xs, s)
    ensures Encodes([x] + xs, Utf8(x) + s)
  {
    assert ([x] + xs)[1..] == xs;
  }

  /** A string is valid exactly when it encodes some characters. */
  lemma {:induction false} ValidIff(s: seq<byte>)
    ensures ValidUtf8(s) <==> exists xs :: Encodes(xs, s)
  {
    if s == [] {
      assert Encodes([], s);
    } else if CharWidth(s) > 0 {
      var w := CharWidth(s);
      CarriedIsScalar(s);
      var x := Carried(s, w);
      assert s == Utf8(x) + s[w..];
      ValidIff(s[w..]);
      if ValidUtf8(s[w..]) {
        var xs :| Encodes(xs, s[w..]);
        EncodesCons(x, xs, s[w..]);
      }
    }
    if xs :| Encodes(xs, s) { EncodedIsValid(xs, s); }
  }

  lemma {:induction false} EncodedIsValid(xs: seq<int>, s: seq<byte>)
    requires Encodes(xs, s)
    ensures ValidUtf8(s)
  {
    if xs != [] {
      EncodedWidth(xs[0], s);
      assert s[|Utf8(xs[0])|..] == Encoded(xs[1..]);
      EncodedIsValid(xs[1..], Encoded(xs[1..]));
    }
  }

  /** A string is blank exactly when it encodes white space only. */
  lemma {:induction false} BlankIff(s: seq<byte>)
    ensures Blank(s) <==> exists xs :: Encodes(xs, s) && forall x :: x in xs ==> IsWhite(x)
  {
    if s == [] {
      assert Encodes([], s);
    } else if SpaceWidth(s) > 0 {
      var w := SpaceWidth(s);
      SpaceIsWhite(s);
      CarriedIsScalar(s);
      var x := Carried(s, w);
      assert s == Utf8(x) + s[w..];
      BlankIff(s[w..]);
      if Blank(s[w..]) {
        var xs :| Encodes(xs, s[w..]) && forall x :: x in xs ==> IsWhite(x);
        EncodesCons(x, xs, s[w..]);
      }
    }
    if xs :| Encodes(xs, s) && forall x :: x in xs ==> IsWhite(x) { WhiteIsBlank(xs, s); }
  }

  lemma {:induction false} WhiteIsBlank(xs: seq<int>, s: seq<byte>)
    requires Encodes(xs, s) && forall x :: x in xs ==> IsWhite(x)
    ensures Blank(s)
  {
    if xs != [] {
      assert xs[0] in xs;
      WhiteIsSpace(xs[0], s);
      assert s[|Utf8(xs[0])|..] == Encoded(xs[1..]);
      WhiteIsBlank(xs[1..], Encoded(xs[1..]));
    }
  }

  // ---------- Control characters ----------

  predicate IsControl(x: int) { 0 <= x < 0x20 || 0x7F <= x < 0xA0 }

  // A control character begins at the place.
  ghost predicate ControlAt(s: seq<byte>, i: nat) {
    i < |s| && (s[i] < 0x20 || s[i] == 0x7F || (s[i] == 0xC2 && i + 1 < |s| && s[i + 1] < 0xA0))
  }

  lemma ControlInCharacter(x: int, s: seq<byte>)
    requires IsScalar(x) && Utf8(x) <= s
    ensures IsControl(x) <==> exists i: nat :: i < |Utf8(x)| && ControlAt(s, i)
  {
    var u := Utf8(x);
    assert forall i :: 0 <= i < |u| ==> s[i] == u[i];
    if IsControl(x) { assert ControlAt(s, 0); }
  }

  /** A string has a control character exactly when one of the characters it encodes is one. */
  lemma {:induction false} HasControlIff(xs: seq<int>, s: seq<byte>)
    requires Encodes(xs, s)
    ensures HasControl(s) <==> exists x :: x in xs && IsControl(x)
  {
    ControlPlaces(s);
    if xs != [] {
      var w, rest := |Utf8(xs[0])|, Encoded(xs[1..]);
      assert s[w..] == rest;
      assert xs == [xs[0]] + xs[1..];
      HasControlIff(xs[1..], rest);
      ControlPlaces(rest);
      ControlInCharacter(xs[0], s);
      assert forall i: nat :: i < |rest| ==> rest[i] == s[w + i];
      if i: nat :| ControlAt(s, i) && i >= w { assert ControlAt(rest, i - w); }
      if i: nat :| ControlAt(rest, i) { assert ControlAt(s, w + i); }
    }
  }

  lemma ControlPlaces(s: seq<byte>)
    ensures HasControl(s) <==> exists i: nat :: ControlAt(s, i)
  {
    if HasControl(s) {
      var i :| 0 <= i < |s|
        && (s[i] < 0x20 || s[i] == 0x7F || (s[i] == 0xC2 && i + 1 < |s| && s[i + 1] < 0xA0));
      assert ControlAt(s, i);
    }
    if i: nat :| ControlAt(s, i) {
      assert s[i] < 0x20 || s[i] == 0x7F || (s[i] == 0xC2 && i + 1 < |s| && s[i + 1] < 0xA0);
    }
  }

  // ---------- Paths ----------

  /** The parts of a path between slashes. */
  function Components(p: seq<byte>): (parts: seq<seq<byte>>)
    ensures parts != []
  {
    if p == [] then [[]]
    else
      var rest := Components(p[1..]);
      if p[0] == SLASH then [[]] + rest else [[p[0]] + rest[0]] + rest[1..]
  }

  // Two dots that are a whole component begin at the place.
  ghost predicate DotsAt(p: seq<byte>, i: nat) {
    && i + 2 <= |p| && p[i] == DOT && p[i + 1] == DOT
    && (i == 0 || p[i - 1] == SLASH) && (i + 2 == |p| || p[i + 2] == SLASH)
  }

  lemma EmptyFirst(p: seq<byte>)
    ensures Components(p)[0] == [] <==> p == [] || p[0] == SLASH
  {
  }

  lemma FirstIsDots(p: seq<byte>)
    ensures Components(p)[0] == [DOT, DOT] <==> DotsAt(p, 0)
  {
    if p != [] && p[0] != SLASH {
      var q := p[1..];
      assert Components(p)[0] == [p[0]] + Components(q)[0];
      if q != [] && q[0] != SLASH {
        assert Components(q)[0] == [q[0]] + Components(q[1..])[0];
        assert Components(p)[0] == [p[0], q[0]] + Components(q[1..])[0];
        EmptyFirst(q[1..]);
        assert q[1..] == p[2..];
        var tail := Components(q[1..])[0];
        assert |Components(p)[0]| == 2 + |tail| && Components(p)[0][0] == p[0] && Components(p)[0][1] == q[0];
        if tail == [] { assert Components(p)[0] == [p[0], q[0]]; }
      } else {
        assert |Components(p)[0]| == 1;
      }
    }
  }

  lemma {:induction false} LaterComponents(p: seq<byte>)
    ensures [DOT, DOT] in Components(p)[1..] <==> exists i: nat :: i > 0 && DotsAt(p, i)
  {
    if p != [] {
      var q := p[1..];
      LaterComponents(q);
      FirstIsDots(q);
      assert forall i: nat :: i < |q| ==> q[i] == p[i + 1];
      assert Components(q) == [Components(q)[0]] + Components(q)[1..];
      if i: nat :| i > 0 && DotsAt(p, i) {
        if i > 1 || p[0] == SLASH { assert DotsAt(q, i - 1); }
      }
      if i: nat :| DotsAt(q, i) && (i > 0 || p[0] == SLASH) { assert DotsAt(p, i + 1); }
    }
  }

  /** A path leaves its directory when a component of it is two dots. */
  lemma HasParentDirIff(p: seq<byte>)
    ensures HasParentDir(p) <==> [DOT, DOT] in Components(p)
  {
    FirstIsDots(p);
    LaterComponents(p);
    assert Components(p) == [Components(p)[0]] + Components(p)[1..];
    DotsPlaces(p);
  }

  lemma DotsPlaces(p: seq<byte>)
    ensures HasParentDir(p) <==> exists i: nat :: DotsAt(p, i)
  {
    if HasParentDir(p) {
      var i :| 0 <= i < |p| - 1 && p[i] == DOT && p[i + 1] == DOT
        && (i == 0 || p[i - 1] == SLASH) && (i + 2 == |p| || p[i + 2] == SLASH);
      assert DotsAt(p, i);
    }
    if i: nat :| DotsAt(p, i) {
      assert p[i] == DOT && p[i + 1] == DOT;
    }
  }
}
