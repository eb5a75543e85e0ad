/** Ordered sets of strings: what iterating a BTreeSet or BTreeMap yields, and what
    sorting and deduplicating a vector yields. */
module TextSets {
  import opened Bytes
  import opened Text
  import opened Sorting

  ghost predicate IsLeast(s: set<Text>, m: Text) { m in s && forall x :: x in s ==> LexLeq(m, x) }

  lemma {:induction false} LeastExists(s: set<Text>)
    requires s != {}
    ensures exists m :: IsLeast(s, m)
    decreases s
  {
    var x :| x in s;
    LexTotal(x, x);
    if s == {x} {
      assert IsLeast(s, x);
    } else {
      LeastExists(s - {x});
      var m :| IsLeast(s - {x}, m);
      LexTotal(x, m);
      forall y | y in s && LexLeq(x, m) ensures LexLeq(x, y) {
        if y != x { LexTransitive(x, m, y); }
      }
      assert IsLeast(s, if LexLeq(x, m) then x else m);
    }
  }

  ghost function Least(s: set<Text>): (m: Text)
    requires s != {}
    ensures IsLeast(s, m)
  {
    LeastExists(s);
    var m :| IsLeast(s, m);
    m
  }

  predicate Ascending(s: seq<Text>) { forall i | 0 < i < |s| :: LexLess(s[i - 1], s[i]) }

  function Elements<T(!new)>(s: seq<T>): (r: set<T>)
    ensures forall x :: x in r <==> x in s
  {
    set x | x in s
  }

  /** The members in increasing order. */
  ghost function InOrder(s: set<Text>): (r: seq<Text>)
    ensures Elements(r) == s && Ascending(r)
    decreases s
  {
    if s == {} then []
    else
      var m := Least(s);
      var rest := InOrder(s - {m});
      assert rest != [] ==> LexLess(m, rest[0]) by {
        if rest != [] { assert rest[0] in Elements(rest); }
      }
      [m] + rest
  }

  lemma {:induction false} AscendingOrder(s: seq<Text>, i: nat, j: nat)
    requires Ascending(s) && i < j < |s|
    ensures LexLess(s[i], s[j])
    decreases j
  {
    if i < j - 1 {
      AscendingOrder(s, i, j - 1);
      LexLessTransitive(s[i], s[j - 1], s[j]);
    }
  }

  lemma HeadIsElement(s: seq<Text>)
    ensures s != [] ==> s[0] in Elements(s)
  {
  }

  /** An increasing list is determined by its members. */
  lemma {:induction false} AscendingUnique(a: seq<Text>, b: seq<Text>)
    requires Ascending(a) && Ascending(b) && Elements(a) == Elements(b)
    ensures a == b
  {
    if a == [] {
      HeadIsElement(b);
    } else {
      assert a[0] in Elements(b);
      var k :| 0 <= k < |b| && b[k] == a[0];
      assert b[0] in Elements(a);
      var l :| 0 <= l < |a| && a[l] == b[0];
      if k > 0 {
        AscendingOrder(b, 0, k);
        if l > 0 { AscendingOrder(a, 0, l); }
        LexTotal(a[0], b[0]);
        assert false;
      }
      forall x ensures x in Elements(a[1..]) <==> x in Elements(b[1..]) {
        HeadNotInTail(a, x);
        HeadNotInTail(b, x);
      }
      AscendingUnique(a[1..], b[1..]);
      assert a == [a[0]] + a[1..] && b == [b[0]] + b[1..];
    }
  }

  lemma HeadNotInTail(s: seq<Text>, x: Text)
    requires Ascending(s) && s != []
    ensures x in Elements(s[1..]) <==> x in Elements(s) && x != s[0]
  {
    if x in s[1..] {
      var i :| 1 <= i < |s| && s[i] == x;
      AscendingOrder(s, 0, i);
    }
    assert s == [s[0]] + s[1..];
  }

  predicate TextLeq(a: Text, b: Text) { LexLeq(a, b) }

  lemma TextOrderIsTotal()
    ensures TotalOrder(TextLeq)
  {
    forall a: Text, b: Text ensures (TextLeq(a, b) || TextLeq(b, a)) && (TextLeq(a, b) && TextLeq(b, a) ==> a == b) {
      LexTotal(a, b);
    }
    forall a: Text, b: Text, c: Text | TextLeq(a, b) && TextLeq(b, c) ensures TextLeq(a, c) { LexTransitive(a, b, c); }
  }

  /** `Vec::dedup`: drops every element equal to the one before it. */
  function Dedup<T(==)>(s: seq<T>): (r: seq<T>)
    ensures s != [] ==> r != [] && r[|r| - 1] == s[|s| - 1]
  {
    if s == [] then []
    else
      var n := |s| - 1;
      if n > 0 && s[n - 1] == s[n] then Dedup(s[..n]) else Dedup(s[..n]) + [s[n]]
  }

  lemma {:induction false} DedupSorted(s: seq<Text>)
    requires Sorted(TextLeq, s)
    ensures Ascending(Dedup(s)) && Elements(Dedup(s)) == Elements(s)
  {
    if s != [] {
      var n := |s| - 1;
      DedupSorted(s[..n]);
      assert s == s[..n] + [s[n]];
      if n > 0 { assert TextLeq(s[n - 1], s[n]); }
    }
  }

  /** `sort` then `dedup` lists the set of members in order. */
  lemma SortDedup(s: seq<Text>)
    ensures Dedup(SortBy(TextLeq, s)) == InOrder(Elements(s))
  {
    TextOrderIsTotal();
    SortBySorts(TextLeq, s);
    SortByPermutes(TextLeq, s);
    DedupSorted(SortBy(TextLeq, s));
    forall x ensures x in SortBy(TextLeq, s) <==> x in s {
      assert x in multiset(SortBy(TextLeq, s)) <==> x in multiset(s);
    }
    AscendingUnique(Dedup(SortBy(TextLeq, s)), InOrder(Elements(s)));
  }

  lemma AscendingSnoc(s: seq<Text>, x: Text)
    requires Ascending(s) && forall y :: y in s ==> LexLess(y, x)
    ensures Ascending(s + [x])
  {
  }

  lemma ElementsSnoc(s: seq<Text>, x: Text)
    ensures Elements(s + [x]) == Elements(s) + {x}
  {
  }

  /** Iteration order of a BTreeMap's keys. */
  method SortedKeys<V>(m: map<Text, V>) returns (keys: seq<Text>)
    ensures keys == InOrder(m.Keys)
  {
    hide InOrder, SortBy, Dedup, LexLeq;
    var todo := m.Keys;
    var found: seq<Text> := [];
    while todo != {}
      invariant todo <= m.Keys && Elements(found) == m.Keys - todo
      decreases todo
    {
      var k :| k in todo;
      ElementsSnoc(found, k);
      todo := todo - {k};
      found := found + [k];
    }
    assert Elements(found) == m.Keys;
    SortDedup(found);
    keys := Dedup(SortBy(TextLeq, found));
  }

  lemma KeysListed<V>(m: map<Text, V>)
    ensures forall i :: 0 <= i < |InOrder(m.Keys)| ==> InOrder(m.Keys)[i] in m
  {
    forall i | 0 <= i < |InOrder(m.Keys)| ensures InOrder(m.Keys)[i] in m {
      assert InOrder(m.Keys)[i] in Elements(InOrder(m.Keys));
    }
  }

  /** The values of a BTreeMap in key order. */
  function ValuesAt<V>(m: map<Text, V>, keys: seq<Text>): (r: seq<V>)
    requires forall i :: 0 <= i < |keys| ==> keys[i] in m
    ensures |r| == |keys| && forall i :: 0 <= i < |keys| ==> r[i] == m[keys[i]]
  {
    seq(|keys|, i requires 0 <= i < |keys| => m[keys[i]])
  }

  ghost function Values<V>(m: map<Text, V>): seq<V> {
    KeysListed(m);
    ValuesAt(m, InOrder(m.Keys))
  }

  lemma ValuesMembers<V(!new)>(m: map<Text, V>, v: V)
    ensures v in Values(m) <==> exists k :: k in m && m[k] == v
  {
    var keys := InOrder(m.Keys);
    KeysListed(m);
    if v in Values(m) {
      var i :| 0 <= i < |keys| && Values(m)[i] == v;
      assert m[keys[i]] == v;
    }
    forall k | k in m && m[k] == v ensures v in Values(m) {
      assert k in Elements(keys);
      var i :| 0 <= i < |keys| && keys[i] == k;
      assert Values(m)[i] == v;
    }
  }

  method ListValues<V>(m: map<Text, V>) returns (values: seq<V>)
    ensures values == Values(m)
  {
    var keys := SortedKeys(m);
    KeysListed(m);
    values := ValuesAt(m, keys);
  }
}
