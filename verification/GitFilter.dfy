/** The Git ancestry test behind its direct-mapped cache, and the two repository filters
    that use it. */
module GitFilter {
  import opened Bytes
  import opened Text

  type ObjectId = s: seq<byte> | |s| == 20 witness seq(20, _ => 0)

  const CACHE_SLOTS: nat := 256
  const USIZE: nat := 0x1_0000_0000_0000_0000

  // ---------- The commit graph ----------

  // Each commit present in the repository, with its parents.
  type History = map<ObjectId, seq<ObjectId>>

  ghost predicate IsPath(h: History, path: seq<ObjectId>) {
    path != [] && forall i :: 0 < i < |path| ==> path[i] in h && path[i - 1] in h[path[i]]
  }

  /** `a` is `b` or one of its ancestors. */
  ghost predicate Ancestor(h: History, a: ObjectId, b: ObjectId) {
    exists path :: IsPath(h, path) && path[0] == a && path[|path| - 1] == b
  }

  ghost predicate CommonAncestor(
    h: History, c: ObjectId, a: ObjectId, b: ObjectId)
  {
    Ancestor(h, c, a) && Ancestor(h, c, b)
  }

  /** A common ancestor that is not an ancestor of another one. */
  ghost predicate BestCommonAncestor(h: History, c: ObjectId, a: ObjectId, b: ObjectId) {
    CommonAncestor(h, c, a, b) && forall d :: CommonAncestor(h, d, a, b) && Ancestor(h, c, d) ==> d == c
  }

  lemma AncestorReflexive(h: History, a: ObjectId)
    ensures Ancestor(h, a, a)
  {
    assert IsPath(h, [a]) && [a][0] == a && [a][|[a]| - 1] == a;
  }

  /** A commit's ancestors are itself and the ancestors of its parents. */
  lemma AncestorSteps(h: History, a: ObjectId, b: ObjectId)
    ensures Ancestor(h, a, b) <==> a == b || (b in h && exists p :: p in h[b] && Ancestor(h, a, p))
  {
    if a == b { AncestorReflexive(h, a); }
    if Ancestor(h, a, b) && a != b {
      var path :| IsPath(h, path) && path[0] == a && path[|path| - 1] == b;
      var n := |path| - 1;
      assert IsPath(h, path[..n]) && path[..n][0] == a && path[..n][|path[..n]| - 1] == path[n - 1];
      assert Ancestor(h, a, path[n - 1]);
    }
    if b in h && exists p :: p in h[b] && Ancestor(h, a, p) {
      var p :| p in h[b] && Ancestor(h, a, p);
      var path :| IsPath(h, path) && path[0] == a && path[|path| - 1] == p;
      var longer := path + [b];
      assert IsPath(h, longer) && longer[0] == a && longer[|longer| - 1] == b;
    }
  }

  ghost predicate Acyclic(h: History) { forall a, b :: Ancestor(h, a, b) && Ancestor(h, b, a) ==> a == b }

  /** In a history without cycles an ancestor of the tip is a best common ancestor of both. */
  lemma AncestorIsBest(h: History, tip: ObjectId, revision: ObjectId)
    requires Acyclic(h) && Ancestor(h, revision, tip)
    ensures BestCommonAncestor(h, revision, tip, revision)
  {
    hide Ancestor;
    AncestorReflexive(h, revision);
  }

  /** Whichever best common ancestor is found, it is the revision exactly when the revision is
      an ancestor of the tip. */
  lemma BaseIsRevisionIffAncestor(h: History, base: ObjectId, tip: ObjectId, revision: ObjectId)
    requires BestCommonAncestor(h, base, tip, revision)
    ensures base == revision <==> Ancestor(h, revision, tip)
  {
    AncestorReflexive(h, revision);
    if Ancestor(h, revision, tip) { assert CommonAncestor(h, revision, tip, revision); }
  }

  // ---------- Answers of the Git library ----------

  // What `merge_base` returns: a commit, that there is none, or another error.
  datatype MergeBase = Base(id: ObjectId) | NotFound | Failed(message: Text)

  // What the library says when it is asked about one revision.
  datatype Reply = Reply(hasObject: bool, mergeBase: MergeBase)

  /** The library is right whenever it does not fail: any best common ancestor may be the
      answer, none is reported only if there is none, and ancestors are present. */
  ghost predicate Honest(h: History, tip: ObjectId, revision: ObjectId, reply: Reply) {
    && (Ancestor(h, revision, tip) ==> reply.hasObject)
    && (match reply.mergeBase
        case Base(id) => BestCommonAncestor(h, id, tip, revision)
        case NotFound => !exists c :: CommonAncestor(h, c, tip, revision)
        case Failed(_) => true)
  }

  /** The answer worked out from a reply, or none when the library failed. */
  function Answer(tip: ObjectId, revision: ObjectId, reply: Reply): (r: Option<bool>)
    ensures r.None? ==> reply.mergeBase.Failed?
  {
    if revision == tip then Some(true)
    else if !reply.hasObject then Some(false)
    else
      match reply.mergeBase
      case Base(id) => Some(id == revision)
      case NotFound => Some(false)
      case Failed(_) => None
  }

  lemma AnswerIsAncestry(h: History, tip: ObjectId, revision: ObjectId, reply: Reply)
    requires Honest(h, tip, revision, reply) && Answer(tip, revision, reply).Some?
    ensures Answer(tip, revision, reply).value <==> Ancestor(h, revision, tip)
  {
    hide Ancestor, BestCommonAncestor;
    AncestorReflexive(h, revision);
    if revision != tip && reply.hasObject {
      match reply.mergeBase
      case Base(id) => BaseIsRevisionIffAncestor(h, id, tip, revision);
      case NotFound => assert Ancestor(h, revision, tip) ==> CommonAncestor(h, revision, tip, revision);
      case Failed(_) =>
    }
  }

  // ---------- The cache ----------

  function HashStep(hash: nat, b: byte): nat { (hash * 31 % USIZE + b) % USIZE }

  function HashOf(bytes: seq<byte>): nat {
    if bytes == [] then 0 else HashStep(HashOf(bytes[..|bytes| - 1]), bytes[|bytes| - 1])
  }

  /** The slot of a revision: a hash of its first eight bytes. */
  function Slot(revision: ObjectId): (slot: nat)
    ensures slot < CACHE_SLOTS
  {
    HashOf(revision[..8]) % CACHE_SLOTS
  }

  class GitReachability {
    const tip: ObjectId
    const cache: array<Option<(ObjectId, bool)>>
    var error: Option<Text>

    /** Every cached answer is the ancestry of its revision, in the revision's slot. */
    ghost predicate Valid(h: History)
      reads this, cache
    {
      && cache.Length == CACHE_SLOTS
      && forall i :: 0 <= i < cache.Length && cache[i].Some? ==>
           Slot(cache[i].value.0) == i && (cache[i].value.1 <==> Ancestor(h, cache[i].value.0, tip))
    }

    constructor (tip: ObjectId, ghost h: History)
      ensures Valid(h) && fresh(cache) && this.tip == tip && error == None
    {
      this.tip := tip;
      cache := new Option<(ObjectId, bool)>[CACHE_SLOTS](_ => None);
      error := None;
    }

    /** `contains`. Without a recorded error the answer is the ancestry of the revision, from
        the cache or not; the first error is kept, and a failed test answers no and is not
        cached. */
    method Contains(revision: ObjectId, reply: Reply, ghost h: History) returns (reachable: bool)
      requires Valid(h) && Honest(h, tip, revision, reply)
      modifies this`error, cache
      ensures Valid(h)
      ensures reachable ==> Ancestor(h, revision, tip)
      ensures error.None? ==> (reachable <==> Ancestor(h, revision, tip))
      ensures forall i :: 0 <= i < cache.Length && i != Slot(revision) ==> cache[i] == old(cache[i])
      ensures var was, answer := old(cache[Slot(revision)]), Answer(tip, revision, reply);
              if was.Some? && was.value.0 == revision then
                reachable == was.value.1 && cache[Slot(revision)] == was && error == old(error)
              else if answer.Some? then
                reachable == answer.value && cache[Slot(revision)] == Some((revision, reachable)) && error == old(error)
              else
                !reachable && cache[Slot(revision)] == was
                && error == if old(error).Some? then old(error) else Some(reply.mergeBase.message)
    {
      hide Ancestor, HashOf;
      var hash := HashLoop(revision[..8]);
      var slot := hash % CACHE_SLOTS;
      if cache[slot].Some? && cache[slot].value.0 == revision {
        return cache[slot].value.1;
      }
      if Answer(tip, revision, reply).Some? { AnswerIsAncestry(h, tip, revision, reply); }
      if revision == tip {
        reachable := true;
      } else if !reply.hasObject {
        reachable := false;
      } else {
        match reply.mergeBase {
          case Base(base) =>
            reachable := base == revision;
          case NotFound =>
            reachable := false;
          case Failed(message) =>
            if error.None? {
              error := Some(message);
            }
            return false;
        }
      }
      cache[slot] := Some((revision, reachable));
    }

    method HashLoop(bytes: seq<byte>) returns (hash: nat)
      ensures hash == HashOf(bytes)
    {
      hash := 0;
      for i := 0 to |bytes|
        invariant hash == HashOf(bytes[..i])
      {
        assert bytes[..i + 1][..i] == bytes[..i];
        hash := HashStep(hash, bytes[i]);
      }
      assert bytes[..|bytes|] == bytes;
    }

    /** Any sequence of tests that leaves no error has answered each revision with its
        ancestry, whatever was cached, evicted or recomputed on the way. */
    method ContainsAll(revisions: seq<ObjectId>, replies: seq<Reply>, ghost h: History) returns (answers: seq<bool>)
      requires Valid(h) && |replies| == |revisions|
      requires forall i :: 0 <= i < |revisions| ==> Honest(h, tip, revisions[i], replies[i])
      modifies this`error, cache
      ensures Valid(h) && |answers| == |revisions|
      ensures forall i :: 0 <= i < |answers| && answers[i] ==> Ancestor(h, revisions[i], tip)
      ensures error.None? ==> forall i :: 0 <= i < |answers| ==> (answers[i] <==> Ancestor(h, revisions[i], tip))
    {
      hide Ancestor, Honest;
      answers := [];
      for i := 0 to |revisions|
        invariant Valid(h) && |answers| == i
        invariant forall j :: 0 <= j < i && answers[j] ==> Ancestor(h, revisions[j], tip)
        invariant error.None? ==> forall j :: 0 <= j < i ==> (answers[j] <==> Ancestor(h, revisions[j], tip))
      {
        var answer := Contains(revisions[i], replies[i], h);
        answers := answers + [answer];
      }
    }
  }

  // ---------- The filters ----------

  datatype Locator = Locator(isGit: bool, repository: Text, revision: Text)

  datatype Filter = Filter(requested: Text, candidates: seq<Text>, hasReachability: bool)

  // What a filter decides by itself, or which revision it asks the ancestry test about.
  datatype Decision = Accept | Reject | AskAbout(revision: ObjectId)

  /** `repository_revision_key_values`. */
  function KeyOf(l: Locator): seq<byte> {
    [if l.isGit then 1 else 0] + l.repository + [0] + l.revision
  }

  function Separator(s: seq<byte>): (r: Option<nat>)
    ensures r.Some? ==> r.value < |s| && s[r.value] == 0 && forall i :: 0 <= i < r.value ==> s[i] != 0
    ensures r.None? ==> forall i :: 0 <= i < |s| ==> s[i] != 0
  {
    if s == [] then None
    else if s[0] == 0 then Some(0)
    else match Separator(s[1..])
      case None => None
      case Some(i) => Some(i + 1)
  }

  /** `matches_key` up to the ancestry test. */
  function KeyDecision(f: Filter, fromHex: seq<byte> -> Option<ObjectId>, key: seq<byte>): Decision {
    if key == [] then Reject
    else
      var kind, locator := key[0], key[1..];
      match Separator(locator)
      case None => Reject
      case Some(separator) =>
        var repository, revision := locator[..separator], locator[separator..];
        if repository == f.requested then Accept
        else if kind != 1 || repository !in f.candidates || !f.hasReachability then Reject
        else match fromHex(revision[1..])
          case None => Reject
          case Some(id) => AskAbout(id)
  }

  /** `matches_locator` up to the ancestry test. */
  function LocatorDecision(f: Filter, fromHex: seq<byte> -> Option<ObjectId>, l: Locator): Decision {
    if l.repository == f.requested then Accept
    else if !l.isGit || l.repository !in f.candidates || !f.hasReachability then Reject
    else match fromHex(l.revision)
      case None => Reject
      case Some(id) => AskAbout(id)
  }

  /** What either filter decides about a NUL-free name: it accepts the requested repository, and it
      asks about a revision exactly when the name is another, the entry comes from Git, the
      repository is a candidate, ancestry can be tested, and the revision parses. */
  lemma DecisionIff(f: Filter, fromHex: seq<byte> -> Option<ObjectId>, l: Locator, id: ObjectId)
    requires NulFree(l.repository)
    ensures var d := LocatorDecision(f, fromHex, l);
            && KeyDecision(f, fromHex, KeyOf(l)) == d
            && (d == Accept <==> l.repository == f.requested)
            && (d == AskAbout(id) <==>
                  && l.repository != f.requested && l.isGit && l.repository in f.candidates && f.hasReachability
                  && fromHex(l.revision) == Some(id))
  {
    KeySplits(f, fromHex, l);
  }

  predicate NulFree(s: Text) { forall i | 0 <= i < |s| :: s[i] != 0 }

  /** The key filter decides as the locator filter, for every filter, exactly when the
      repository name has no NUL byte. */
  lemma FiltersAgree(fromHex: seq<byte> -> Option<ObjectId>, l: Locator)
    ensures NulFree(l.repository)
        <==> forall f: Filter :: KeyDecision(f, fromHex, KeyOf(l)) == LocatorDecision(f, fromHex, l)
  {
    if NulFree(l.repository) {
      forall f: Filter ensures KeyDecision(f, fromHex, KeyOf(l)) == LocatorDecision(f, fromHex, l) {
        KeySplits(f, fromHex, l);
      }
    } else {
      CutNameAccepted(fromHex, l);
    }
  }

  lemma KeySplits(f: Filter, fromHex: seq<byte> -> Option<ObjectId>, l: Locator)
    requires NulFree(l.repository)
    ensures KeyDecision(f, fromHex, KeyOf(l)) == LocatorDecision(f, fromHex, l)
  {
    var key := KeyOf(l);
    var n := |l.repository|;
    var rest := key[1..];
    assert rest == l.repository + [0] + l.revision;
    assert rest[n] == 0;
    var separator := Separator(rest).value;
    assert forall i :: 0 <= i < n ==> rest[i] == l.repository[i] && l.repository[i] != 0;
    assert separator == n;
    assert rest[..n] == l.repository && rest[n..][1..] == l.revision;
  }

  lemma CutNameAccepted(fromHex: seq<byte> -> Option<ObjectId>, l: Locator)
    requires !NulFree(l.repository)
    ensures exists f: Filter :: KeyDecision(f, fromHex, KeyOf(l)) != LocatorDecision(f, fromHex, l)
  {
    var key := KeyOf(l);
    var rest := key[1..];
    assert rest == l.repository + ([0] + l.revision);
    var i :| 0 <= i < |l.repository| && l.repository[i] == 0;
    assert rest[i] == 0;
    var separator := Separator(rest).value;
    assert separator <= i;
    var f := Filter(l.repository, [], false);
    assert |rest[..separator]| < |l.repository|;
    assert KeyDecision(f, fromHex, KeyOf(l)) == Reject;
    assert LocatorDecision(f, fromHex, l) == Accept;
  }

  /** The name "a", NUL, "b": the locator filter accepts it as requested, the key filter does not. */
  lemma NulNameDisagrees(fromHex: seq<byte> -> Option<ObjectId>, revision: Text)
    ensures var name: Text := [0x61, 0, 0x62];
            var l, f := Locator(true, name, revision), Filter(name, [], false);
            LocatorDecision(f, fromHex, l) == Accept && KeyDecision(f, fromHex, KeyOf(l)) == Reject
  {
    var name: Text := [0x61, 0, 0x62];
    var l := Locator(true, name, revision);
    var rest := KeyOf(l)[1..];
    assert rest == name + ([0] + revision);
    assert rest[0] == 0x61 && rest[1] == 0;
    assert Separator(rest) == Some(1);
    assert |rest[..1]| != |name|;
  }
}
