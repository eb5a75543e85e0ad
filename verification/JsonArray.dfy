/** The streaming writer of JSON array files (section 5 of RFC 8259) and its appending to an
    array written before. */
module JsonArray {
  import opened Bytes

  const OPEN: byte := 0x5B
  const CLOSE: byte := 0x5D
  const COMMA: byte := 0x2C
  const BUFFER_BYTES: nat := 8192

  /** `u8::is_ascii_whitespace`. */
  predicate IsSpace(b: byte) { b == 0x20 || b == 0x09 || b == 0x0A || b == 0x0C || b == 0x0D }

  predicate AllSpace(s: seq<byte>) { forall i | 0 <= i < |s| :: IsSpace(s[i]) }

  // ---------- Scans ----------

  method FirstNonWhitespace(file: seq<byte>) returns (r: Option<nat>)
    ensures r.Some? ==> r.value < |file| && !IsSpace(file[r.value]) && AllSpace(file[..r.value])
    ensures r.None? <==> AllSpace(file)
  {
    for position := 0 to |file|
      invariant AllSpace(file[..position])
    {
      if !IsSpace(file[position]) {
        return Some(position);
      }
    }
    r := None;
  }

  method LastNonWhitespace(file: seq<byte>) returns (r: Option<nat>)
    ensures r.Some? ==> r.value < |file| && !IsSpace(file[r.value]) && AllSpace(file[r.value + 1..])
    ensures r.None? <==> AllSpace(file)
  {
    for position := |file| downto 0
      invariant AllSpace(file[position..])
    {
      if !IsSpace(file[position]) {
        return Some(position);
      }
    }
    r := None;
  }

  /** Scans a stretch of the file one buffer at a time. */
  method HasNonWhitespace(file: seq<byte>, start: nat, end: nat) returns (found: bool)
    requires end <= |file|
    ensures found <==> start < end && !AllSpace(file[start..end])
  {
    if start >= end {
      return false;
    }
    var remaining := end - start;
    while remaining > 0
      invariant 0 <= remaining <= end - start
      invariant forall i :: start <= i < end - remaining ==> IsSpace(file[i])
    {
      var requested := Min(remaining, BUFFER_BYTES);
      var position := end - remaining;
      var buffer := file[position..position + requested];
      if !AllSpace(buffer) {
        var i :| 0 <= i < |buffer| && !IsSpace(buffer[i]);
        assert !IsSpace(file[start..end][position - start + i]);
        return true;
      }
      assert forall i :: position <= i < position + requested ==> file[i] == buffer[i - position];
      remaining := remaining - requested;
    }
    found := false;
  }

  // ---------- The array files ----------

  /** Printed items separated by commas. */
  function Separated(items: seq<seq<byte>>): seq<byte> {
    if items == [] then []
    else if |items| == 1 then items[0]
    else Separated(items[..|items| - 1]) + [COMMA] + items[|items| - 1]
  }

  function ArrayFile(items: seq<seq<byte>>): seq<byte> { [OPEN] + Separated(items) + [CLOSE] }

  /** What lies between the brackets of a file that can be appended to: where the closing
      bracket is, and whether something precedes it. */
  function Opened(previous: seq<byte>): Option<(nat, bool)> {
    if AllSpace(previous) then None
    else
      var start, end := First(previous), Last(previous);
      if previous[start] != OPEN || previous[end] != CLOSE then None
      else Some((end, start + 1 < end && !AllSpace(previous[start + 1..end])))
  }

  function First(s: seq<byte>): (i: nat)
    requires !AllSpace(s)
    ensures i < |s| && !IsSpace(s[i]) && AllSpace(s[..i])
  {
    if !IsSpace(s[0]) then 0
    else
      assert s == [s[0]] + s[1..];
      First(s[1..]) + 1
  }

  function Last(s: seq<byte>): (i: nat)
    requires !AllSpace(s)
    ensures i < |s| && !IsSpace(s[i]) && AllSpace(s[i + 1..])
  {
    var n := |s| - 1;
    if !IsSpace(s[n]) then n
    else
      assert s == s[..n] + [s[n]];
      Last(s[..n])
  }

  lemma FirstUnique(s: seq<byte>, i: nat)
    requires i < |s| && !IsSpace(s[i]) && AllSpace(s[..i])
    ensures !AllSpace(s) && First(s) == i
  {
    assert forall j :: 0 <= j < i ==> s[..i][j] == s[j];
    assert forall j :: 0 <= j < First(s) ==> s[..First(s)][j] == s[j];
  }

  lemma LastUnique(s: seq<byte>, i: nat)
    requires i < |s| && !IsSpace(s[i]) && AllSpace(s[i + 1..])
    ensures !AllSpace(s) && Last(s) == i
  {
    assert forall j :: i < j < |s| ==> s[i + 1..][j - i - 1] == s[j];
    assert forall j :: Last(s) < j < |s| ==> s[Last(s) + 1..][j - Last(s) - 1] == s[j];
  }

  class JsonArrayWriter {
    // What has been written to the destination.
    var written: seq<byte>
    var first: bool

    /** `create`. */
    constructor Create()
      ensures written == [OPEN] && first
    {
      written, first := [OPEN], true;
    }

    constructor Resume(prefix: seq<byte>, empty: bool)
      ensures written == prefix && first == empty
    {
      written, first := prefix, empty;
    }

    method Push(item: seq<byte>)
      modifies this
      ensures written == old(written) + (if old(first) then [] else [COMMA]) + item && !first
    {
      if !first {
        written := written + [COMMA];
      }
      written := written + item;
      first := false;
    }

    method Finish()
      modifies this`written
      ensures written == old(written) + [CLOSE]
    {
      written := written + [CLOSE];
    }
  }

  /** `append`: a writer that has copied the previous file up to its closing bracket. */
  method Append(previous: seq<byte>) returns (w: JsonArrayWriter?)
    ensures w != null <==> Opened(previous).Some?
    ensures w != null ==>
          fresh(w) && w.written == previous[..Opened(previous).value.0] && w.first == !Opened(previous).value.1
  {
    var start := FirstNonWhitespace(previous);
    if start.None? {
      return null;
    }
    FirstUnique(previous, start.value);
    if previous[start.value] != OPEN {
      return null;
    }
    var end := LastNonWhitespace(previous);
    LastUnique(previous, end.value);
    if previous[end.value] != CLOSE {
      return null;
    }
    var hasItems := HasNonWhitespace(previous, start.value + 1, end.value);
    w := new JsonArrayWriter.Resume(previous[..end.value], !hasItems);
  }

  /** The bytes after pushing the items to a writer in the given state. */
  function Pushed(written: seq<byte>, first: bool, items: seq<seq<byte>>): seq<byte> {
    if items == [] then written
    else
      var n := |items| - 1;
      Pushed(written, first, items[..n]) + (if first && n == 0 then [] else [COMMA]) + items[n]
  }

  method WriteAll(w: JsonArrayWriter, items: seq<seq<byte>>)
    modifies w
    ensures w.written == Pushed(old(w.written), old(w.first), items) + [CLOSE]
  {
    for i := 0 to |items|
      invariant w.written == Pushed(old(w.written), old(w.first), items[..i])
      invariant w.first == (old(w.first) && i == 0)
    {
      assert items[..i + 1][..i] == items[..i];
      w.Push(items[i]);
    }
    assert items[..|items|] == items;
    w.Finish();
  }

  // ---------- Which files can be reopened ----------

  // White space of the JSON grammar (section 2 of RFC 8259): unlike the scans, without form feed.
  predicate IsJsonSpace(b: byte) { b == 0x20 || b == 0x09 || b == 0x0A || b == 0x0D }

  predicate AllJsonSpace(s: seq<byte>) { forall i | 0 <= i < |s| :: IsJsonSpace(s[i]) }

  // Brackets at i and j, with the given stretches before and after them.
  predicate Bracketed(file: seq<byte>, i: nat, j: nat) { i < j < |file| && file[i] == OPEN && file[j] == CLOSE }

  lemma BracketsFound(file: seq<byte>, i: nat, j: nat)
    requires Bracketed(file, i, j) && AllSpace(file[..i]) && AllSpace(file[j + 1..])
    ensures Opened(file).Some? && First(file) == i && Last(file) == j
  {
    FirstUnique(file, i);
    LastUnique(file, j);
  }

  /** A file can be reopened exactly when it is an array between brackets framed by white space
      or form feeds; and it is framed as the JSON grammar wants exactly when, besides, no form
      feed frames it. */
  lemma ReopensIff(file: seq<byte>)
    ensures Opened(file).Some?
       <==> exists i: nat, j: nat :: Bracketed(file, i, j) && AllSpace(file[..i]) && AllSpace(file[j + 1..])
    ensures (exists i: nat, j: nat :: Bracketed(file, i, j) && AllJsonSpace(file[..i]) && AllJsonSpace(file[j + 1..]))
       <==> && Opened(file).Some?
            && 0x0C !in file[..First(file)] && 0x0C !in file[Last(file) + 1..]
  {
    if Opened(file).Some? {
      var i, j := First(file), Last(file);
      assert i <= j by {
        assert forall k :: 0 <= k < i ==> file[..i][k] == file[k];
      }
      assert Bracketed(file, i, j);
      if 0x0C !in file[..i] && 0x0C !in file[j + 1..] {
        assert AllJsonSpace(file[..i]) && AllJsonSpace(file[j + 1..]);
      }
    }
    forall i: nat, j: nat | Bracketed(file, i, j) && AllSpace(file[..i]) && AllSpace(file[j + 1..])
      ensures Opened(file).Some? && First(file) == i && Last(file) == j
    {
      BracketsFound(file, i, j);
    }
  }

  /** A form feed before the array is accepted, though the JSON grammar has no such space. */
  lemma FormFeedIsAccepted()
    ensures var file := [0x0C, OPEN, CLOSE]; Opened(file) == Some((2, false)) && First(file) == 1
  {
    var file := [0x0C, OPEN, CLOSE];
    assert file[..1] == [0x0C] && file[3..] == [];
    BracketsFound(file, 1, 2);
  }

  // ---------- Appending is concatenation ----------

  lemma {:induction false} PushedIsSeparated(prefix: seq<byte>, items: seq<seq<byte>>)
    ensures Pushed(prefix, true, items) == prefix + Separated(items)
  {
    if |items| == 1 {
      assert items[..0] == [];
    } else if items != [] {
      var n := |items| - 1;
      var s := Separated(items[..n]);
      PushedIsSeparated(prefix, items[..n]);
      assert Pushed(prefix, true, items) == prefix + s + [COMMA] + items[n];
      assert prefix + s + [COMMA] + items[n] == prefix + (s + [COMMA] + items[n]);
    }
  }

  lemma {:induction false} PushedContinues(prefix: seq<byte>, xs: seq<seq<byte>>, ys: seq<seq<byte>>)
    requires xs != []
    ensures Pushed(prefix + Separated(xs), false, ys) == prefix + Separated(xs + ys)
  {
    if ys == [] {
      assert xs + ys == xs;
    } else {
      var n := |ys| - 1;
      var s := Separated(xs + ys[..n]);
      PushedContinues(prefix, xs, ys[..n]);
      assert (xs + ys)[..|xs + ys| - 1] == xs + ys[..n];
      assert Pushed(prefix + Separated(xs), false, ys) == prefix + s + [COMMA] + ys[n];
      assert prefix + s + [COMMA] + ys[n] == prefix + (s + [COMMA] + ys[n]);
    }
  }

  /** A fresh writer produces the array file. */
  lemma FreshWriter(items: seq<seq<byte>>)
    ensures Pushed([OPEN], true, items) + [CLOSE] == ArrayFile(items)
  {
    PushedIsSeparated([OPEN], items);
  }

  /** What appending finds in a file that a fresh writer wrote. */
  lemma ReopensOwnFile(xs: seq<seq<byte>>)
    ensures Opened(ArrayFile(xs)) == Some((|ArrayFile(xs)| - 1, !AllSpace(Separated(xs))))
    ensures ArrayFile(xs)[..|ArrayFile(xs)| - 1] == [OPEN] + Separated(xs)
  {
    var f := ArrayFile(xs);
    FirstUnique(f, 0);
    LastUnique(f, |f| - 1);
    assert f[1..|f| - 1] == Separated(xs);
  }

  lemma {:induction false} SeparatedHasComma(xs: seq<seq<byte>>)
    requires |xs| >= 2
    ensures !AllSpace(Separated(xs))
  {
    var s := Separated(xs);
    assert s[|Separated(xs[..|xs| - 1])|] == COMMA;
  }

  /** Appending ys to the file of xs and finishing gives the file of xs + ys for every ys,
      exactly when the file of xs does not hold a single item printed as white space only; no
      JSON value prints so. */
  lemma AppendIsConcatenation(xs: seq<seq<byte>>)
    ensures (forall ys :: Appended(xs, ys) == ArrayFile(xs + ys)) <==> !(|xs| == 1 && AllSpace(xs[0]))
  {
    if |xs| == 1 && AllSpace(xs[0]) {
      CommaIsLost(xs);
    } else {
      forall ys ensures Appended(xs, ys) == ArrayFile(xs + ys) { AppendsProperly(xs, ys); }
    }
  }

  // What append, pushes and finish make of the file of xs.
  function Appended(xs: seq<seq<byte>>, ys: seq<seq<byte>>): seq<byte> {
    var f := ArrayFile(xs);
    if Opened(f).None? then []
    else Pushed(f[..Opened(f).value.0], !Opened(f).value.1, ys) + [CLOSE]
  }

  lemma AppendsProperly(xs: seq<seq<byte>>, ys: seq<seq<byte>>)
    requires !(|xs| == 1 && AllSpace(xs[0]))
    ensures Appended(xs, ys) == ArrayFile(xs + ys)
  {
    ReopensOwnFile(xs);
    if xs == [] {
      assert [OPEN] + Separated(xs) == [OPEN] && xs + ys == ys;
      PushedIsSeparated([OPEN], ys);
    } else {
      if |xs| >= 2 { SeparatedHasComma(xs); }
      PushedContinues([OPEN], xs, ys);
    }
  }

  lemma CommaIsLost(xs: seq<seq<byte>>)
    requires |xs| == 1 && AllSpace(xs[0])
    ensures Appended(xs, [[]]) != ArrayFile(xs + [[]])
  {
    ReopensOwnFile(xs);
    var ys: seq<seq<byte>> := [[]];
    assert ys[..0] == [];
    assert (xs + ys)[..1] == xs;
    assert Separated(xs + ys) == Separated(xs) + [COMMA] + [];
    assert Pushed([OPEN] + Separated(xs), true, ys) == [OPEN] + Separated(xs) + [] + [];
    assert |Appended(xs, ys)| == |ArrayFile(xs + ys)| - 1;
  }
}
