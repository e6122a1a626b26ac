/**
 Tree insertion (`handlePart`, `handleUrlSegments`): a request's path
 segments, then its query pairs, descend from the root by exact value
 equality, creating branches where none match, and the node where the
 request stops records that fact.
 */
module Insertion {
  import opened Wrappers
  import opened Text
  import opened UrlParts
  import opened Classifier

  /** One classified step of a request: a path segment or a query pair. */
  datatype Segment = Segment(kind: Kind, value: string, role: Role)

  /** The result of one descent: the updated parent and the index of the child to continue in. */
  datatype Step = Step(node: Node, child: nat)

  /** `childern.find(c => c.value == v)`, as an index. */
  function FindChild(cs: seq<Node>, v: string): (r: Option<nat>)
    ensures r.None? <==> forall i :: 0 <= i < |cs| ==> cs[i].value != v
    ensures r.Some? ==> r.value < |cs| && cs[r.value].value == v
    ensures r.Some? ==> forall j :: 0 <= j < r.value ==> cs[j].value != v
  {
    if |cs| == 0 then None
    else if cs[0].value == v then Some(0)
    else
      match FindChild(cs[1..], v)
      case None => None
      case Some(i) => Some(i + 1)
  }

  /** `childern.filter(c => c.position != "terminator")` */
  function RemoveTerminators(cs: seq<Node>): (r: seq<Node>)
    ensures |r| <= |cs|
    ensures forall c :: c in r <==> c in cs && c.position != TerminatorPosition
    ensures (forall i :: 0 <= i < |cs| ==> cs[i].position != TerminatorPosition) ==> r == cs
    ensures (forall i :: 0 <= i < |cs| ==> cs[i].position == TerminatorPosition) ==> r == []
  {
    if |cs| == 0 then []
    else if cs[0].position == TerminatorPosition then RemoveTerminators(cs[1..])
    else [cs[0]] + RemoveTerminators(cs[1..])
  }

  /** Filtering keeps every non-terminator child as often as it occurs, and no terminator. */
  lemma {:induction false} RemoveTerminatorsCounts(cs: seq<Node>, c: Node)
    ensures multiset(RemoveTerminators(cs))[c] == if c.position == TerminatorPosition then 0 else multiset(cs)[c]
  {
    if |cs| > 0 {
      assert cs == [cs[0]] + cs[1..];
      RemoveTerminatorsCounts(cs[1..], c);
    }
  }

  /** Filtering keeps order: the kept children of `a + b` are those of `a`, then those of `b`. */
  lemma {:induction false} RemoveTerminatorsConcat(a: seq<Node>, b: seq<Node>)
    ensures RemoveTerminators(a + b) == RemoveTerminators(a) + RemoveTerminators(b)
  {
    if |a| > 0 {
      assert (a + b)[0] == a[0] && (a + b)[1..] == a[1..] + b;
      RemoveTerminatorsConcat(a[1..], b);
    } else {
      assert a + b == b;
    }
  }

  /**
   `handlePart`: reuse the first child whose value equals `value`, leaving the
   tree unchanged; otherwise append a fresh childless node, made optional (and
   the terminators dropped) when the parent marked the end of an earlier request.
   */
  function HandlePart(n: Node, kind: Kind, value: string, pos: Position): (r: Step)
    ensures r.child < |r.node.children|
    ensures r.node.value == n.value && r.node.kind == n.kind && r.node.position == n.position
    ensures r.node.children[r.child].value == value
    ensures forall j :: 0 <= j < r.child ==> r.node.children[j].value != value
    ensures (exists i :: 0 <= i < |n.children| && n.children[i].value == value) ==>
              r.node == n
    ensures (forall i :: 0 <= i < |n.children| ==> n.children[i].value != value) ==>
              && r.child == |r.node.children| - 1
              && r.node.children[r.child].kind == kind
              && r.node.children[r.child].children == []
              && (HasTerminator(n.children) ==>
                    && r.node.children[r.child].position == WithOptional(pos)
                    && r.node.children[..r.child] == RemoveTerminators(n.children))
              && (!HasTerminator(n.children) ==>
                    && r.node.children[r.child].position == pos
                    && r.node.children[..r.child] == n.children)
  {
    match FindChild(n.children, value)
    case Some(i) => Step(n, i)
    case None =>
      var hadTerminator := HasTerminator(n.children);
      var kept := if hadTerminator then RemoveTerminators(n.children) else n.children;
      var position := if hadTerminator then WithOptional(pos) else pos;
      var cs := kept + [Node(value, kind, position, [])];
      assert cs[..|kept|] == kept;
      assert forall j :: 0 <= j < |kept| ==> cs[j] in n.children;
      Step(n.(children := cs), |kept|)
  }

  /** `childern.forEach(c => c.position += "Optional")` */
  function MarkOptional(cs: seq<Node>): (r: seq<Node>)
    ensures |r| == |cs|
    ensures forall i :: 0 <= i < |cs| ==>
              && r[i].value == cs[i].value
              && r[i].kind == cs[i].kind
              && r[i].children == cs[i].children
              && PositionString(r[i].position) == PositionString(cs[i].position) + "Optional"
  {
    seq(|cs|, i requires 0 <= i < |cs| => cs[i].(position := WithOptional(cs[i].position)))
  }

  /** Some child is not a `"terminator"`-positioned node: other requests continue past here. */
  predicate HasContinuation(cs: seq<Node>) {
    exists i :: 0 <= i < |cs| && cs[i].position != TerminatorPosition
  }

  /**
   End-of-request bookkeeping at the node a request stops at: continuations
   become optional, a childless node gets a terminator, otherwise nothing changes.
   */
  function EndOfRequest(n: Node): (r: Node)
    ensures r.value == n.value && r.kind == n.kind && r.position == n.position
    ensures |r.children| > 0
    ensures HasContinuation(n.children) ==>
              && |r.children| == |n.children|
              && forall i :: 0 <= i < |n.children| ==>
                   r.children[i] == n.children[i].(position := WithOptional(n.children[i].position))
    ensures |n.children| == 0 ==> r.children == [TerminatorLeaf]
    ensures |n.children| > 0 && !HasContinuation(n.children) ==> r == n
  {
    if HasContinuation(n.children) then n.(children := MarkOptional(n.children))
    else if |n.children| == 0 then n.(children := [TerminatorLeaf])
    else n
  }

  /** Inserts the remaining segments below `n` and applies the end-of-request bookkeeping. */
  function Descend(n: Node, segs: seq<Segment>): (r: Node)
    ensures r.value == n.value && r.kind == n.kind && r.position == n.position
    decreases |segs|
  {
    if |segs| == 0 then EndOfRequest(n)
    else
      var s := HandlePart(n, segs[0].kind, segs[0].value, Position(segs[0].role, 0));
      var cs := s.node.children;
      s.node.(children := cs[s.child := Descend(cs[s.child], segs[1..])])
  }

  /** `path.split("/").filter(s => s != "")` */
  function PathParts(path: string): (r: seq<string>)
    ensures forall i :: 0 <= i < |r| ==> r[i] != "" && '/' !in r[i]
  {
    NonEmpty(Split(path, '/'))
  }

  /** Path parts are recovered from any path built by joining slash-free pieces. */
  lemma PathPartsOfJoin(pieces: seq<string>)
    requires |pieces| > 0
    requires forall i :: 0 <= i < |pieces| ==> '/' !in pieces[i]
    ensures PathParts(Join(pieces, '/')) == NonEmpty(pieces)
  {
    SplitJoin(pieces, '/');
  }

  /** The segments of one request: classified path parts, then `name=value` query pairs. */
  function RequestSegments(rs: seq<Recognizer>, path: string, query: seq<(string, string)>): (r: seq<Segment>)
    ensures |r| == |PathParts(path)| + |query|
    ensures forall i :: 0 <= i < |PathParts(path)| ==>
              var c := Classify(rs, PathParts(path)[i]);
              r[i] == Segment(c.kind, c.value, PathRole)
    ensures forall j :: 0 <= j < |query| ==>
              var c := Classify(rs, query[j].1);
              r[|PathParts(path)| + j] == Segment(c.kind, query[j].0 + "=" + c.value, QueryRole)
  {
    var parts := PathParts(path);
    var pathSegs := seq(|parts|, i requires 0 <= i < |parts| =>
      var c := Classify(rs, parts[i]); Segment(c.kind, c.value, PathRole));
    var querySegs := seq(|query|, j requires 0 <= j < |query| =>
      var c := Classify(rs, query[j].1); Segment(c.kind, query[j].0 + "=" + c.value, QueryRole));
    pathSegs + querySegs
  }

  /** `handleUrlSegments`, starting from the given root. */
  function HandleUrlSegments(rs: seq<Recognizer>, root: Node, path: string, query: seq<(string, string)>): (r: Node)
    ensures r.value == root.value && r.kind == root.kind && r.position == root.position
  {
    Descend(root, RequestSegments(rs, path, query))
  }
}

/**
 The structural invariant of the request tree is kept by every insertion,
 and the type test and position filter on terminators therefore agree.
 */
module InsertionInvariant {
  import opened Wrappers
  import opened UrlParts
  import opened Classifier
  import opened Insertion

  /** The shape of every segment a request produces, given non-empty placeholders. */
  ghost predicate ProperSegment(s: Segment) {
    && s.value != ""
    && (s.kind == Static || s.kind == Var)
    && (s.role == PathRole || s.role == QueryRole)
  }

  ghost predicate ProperSegments(segs: seq<Segment>) {
    forall i :: 0 <= i < |segs| ==> ProperSegment(segs[i])
  }

  ghost predicate PlaceholdersNonEmpty(rs: seq<Recognizer>) {
    forall i :: 0 <= i < |rs| ==> rs[i].urlString != ""
  }

  /** A classified token is never empty when the token and every placeholder are non-empty. */
  lemma ClassifiedNonEmpty(rs: seq<Recognizer>, token: string)
    requires PlaceholdersNonEmpty(rs) && token != ""
    ensures Classify(rs, token).value != ""
  {
    if Classify(rs, token).kind == Var {
      ClassifiedVarIsPlaceholder(rs, token);
    }
  }

  /** Path parts are non-empty and query values contain "=", so no segment value is empty. */
  lemma RequestSegmentsProper(rs: seq<Recognizer>, path: string, query: seq<(string, string)>)
    requires PlaceholdersNonEmpty(rs)
    ensures ProperSegments(RequestSegments(rs, path, query))
  {
    var parts := PathParts(path);
    var segs := RequestSegments(rs, path, query);
    forall i | 0 <= i < |parts|
      ensures ProperSegment(segs[i])
    {
      ClassifiedNonEmpty(rs, parts[i]);
    }
    forall i | |parts| <= i < |segs|
      ensures ProperSegment(segs[i])
    {
      var j := i - |parts|;
      var c := Classify(rs, query[j].1);
      assert |segs[|parts| + j].value| == |query[j].0| + 1 + |c.value|;
    }
  }

  /**
   At a well-formed node, "has a child of type terminator" (the test before
   a new branch) and "has no child off the terminator position" (the test at
   the end of a request) describe the same situation, in which the
   position filter removes every child.
   */
  lemma TerminatorTestsAgree(n: Node)
    requires WellFormed(n)
    ensures HasTerminator(n.children) <==> |n.children| > 0 && !HasContinuation(n.children)
    ensures HasTerminator(n.children) ==>
              n.children == [TerminatorLeaf] && RemoveTerminators(n.children) == []
  {
    if HasTerminator(n.children) {
      var i :| 0 <= i < |n.children| && n.children[i].kind == Terminator;
      assert WellFormed(n.children[i]);
      assert n.children == [TerminatorLeaf];
    } else if |n.children| > 0 {
      assert WellFormed(n.children[0]);
      assert n.children[0].position != TerminatorPosition;
    }
  }

  /** Reusing a child: nothing changes, and a node with a terminator has no child to reuse. */
  lemma HandlePartReuseWellFormed(n: Node, seg: Segment, i: nat)
    requires WellFormed(n) && n.kind != Terminator
    requires ProperSegment(seg)
    requires FindChild(n.children, seg.value) == Some(i)
    ensures HandlePart(n, seg.kind, seg.value, Position(seg.role, 0)) == Step(n, i)
    ensures !HasTerminator(n.children)
  {
    TerminatorTestsAgree(n);
  }

  /** Appending a fresh non-terminator child under a node without terminators keeps it well formed. */
  lemma AppendWellFormed(n: Node, added: Node)
    requires WellFormed(n) && n.kind != Terminator && !HasTerminator(n.children)
    requires WellFormed(added) && added.kind != Terminator
    requires forall i :: 0 <= i < |n.children| ==> n.children[i].value != added.value
    ensures var m := n.(children := n.children + [added]);
            && LocallyWellFormed(m)
            && (forall i :: 0 <= i < |m.children| ==> WellFormed(m.children[i]))
            && !HasTerminator(m.children)
  {
    var cs := n.children + [added];
    assert forall i :: 0 <= i < |n.children| ==> cs[i] == n.children[i];
    assert DistinctValues(n.children);
    assert DistinctValues(cs);
  }

  /** Creating a branch: the fresh child is the only one left after a terminator, or joins its siblings. */
  lemma HandlePartNewWellFormed(n: Node, seg: Segment)
    requires WellFormed(n) && n.kind != Terminator
    requires ProperSegment(seg)
    requires FindChild(n.children, seg.value).None?
    ensures var s := HandlePart(n, seg.kind, seg.value, Position(seg.role, 0));
            && LocallyWellFormed(s.node)
            && (forall i :: 0 <= i < |s.node.children| ==> WellFormed(s.node.children[i]))
            && !HasTerminator(s.node.children)
  {
    TerminatorTestsAgree(n);
    var pos := Position(seg.role, 0);
    var s := HandlePart(n, seg.kind, seg.value, pos);
    if HasTerminator(n.children) {
      var added := Node(seg.value, seg.kind, WithOptional(pos), []);
      assert s.node.children == [added];
      assert WellFormed(added);
    } else {
      var added := Node(seg.value, seg.kind, pos, []);
      assert s.node == n.(children := n.children + [added]);
      AppendWellFormed(n, added);
    }
  }

  lemma HandlePartWellFormed(n: Node, seg: Segment)
    requires WellFormed(n) && n.kind != Terminator
    requires ProperSegment(seg)
    ensures var s := HandlePart(n, seg.kind, seg.value, Position(seg.role, 0));
            && LocallyWellFormed(s.node)
            && (forall i :: 0 <= i < |s.node.children| ==> WellFormed(s.node.children[i]))
            && !HasTerminator(s.node.children)
  {
    match FindChild(n.children, seg.value)
    case Some(i) => HandlePartReuseWellFormed(n, seg, i);
    case None => HandlePartNewWellFormed(n, seg);
  }

  /** Changing only a non-terminator node's position keeps its subtree well formed. */
  lemma RepositionWellFormed(c: Node, p: Position)
    requires WellFormed(c) && c.kind != Terminator && p.role != TerminatorRole
    ensures WellFormed(c.(position := p))
  {
    var d := c.(position := p);
    assert d.children == c.children;
  }

  lemma EndOfRequestWellFormed(n: Node)
    requires WellFormed(n) && n.kind != Terminator
    ensures WellFormed(EndOfRequest(n))
  {
    var r := EndOfRequest(n);
    TerminatorTestsAgree(n);
    if HasContinuation(n.children) {
      forall i | 0 <= i < |r.children|
        ensures WellFormed(r.children[i]) && r.children[i].kind != Terminator
      {
        var c := n.children[i];
        assert WellFormed(c);
        assert c.kind != Terminator;
        RepositionWellFormed(c, WithOptional(c.position));
      }
      assert DistinctValues(n.children);
    } else if |n.children| == 0 {
      assert r.children == [TerminatorLeaf];
      assert WellFormed(r.children[0]);
    }
  }

  /** Replacing a non-terminator child by a well-formed node with the same value and type keeps the parent well-formed. */
  lemma ReplaceChildWellFormed(n: Node, j: nat, c: Node)
    requires LocallyWellFormed(n) && !HasTerminator(n.children)
    requires forall i :: 0 <= i < |n.children| ==> WellFormed(n.children[i])
    requires j < |n.children| && WellFormed(c)
    requires c.value == n.children[j].value && c.kind == n.children[j].kind && c.kind != Terminator
    ensures WellFormed(n.(children := n.children[j := c]))
  {
    var cs' := n.children[j := c];
    assert forall i :: 0 <= i < |cs'| ==> cs'[i].value == n.children[i].value && cs'[i].kind == n.children[i].kind;
    assert forall i :: 0 <= i < |cs'| ==> WellFormed(cs'[i]);
    assert !HasTerminator(cs');
  }

  /** Each insertion keeps the tree well formed. */
  lemma {:induction false} DescendWellFormed(n: Node, segs: seq<Segment>)
    requires WellFormed(n) && n.kind != Terminator
    requires ProperSegments(segs)
    ensures WellFormed(Descend(n, segs))
    decreases |segs|
  {
    if |segs| == 0 {
      EndOfRequestWellFormed(n);
    } else {
      var s := HandlePart(n, segs[0].kind, segs[0].value, Position(segs[0].role, 0));
      HandlePartWellFormed(n, segs[0]);
      var cs := s.node.children;
      var c := cs[s.child];
      assert WellFormed(c) && c.kind != Terminator;
      assert ProperSegments(segs[1..]);
      DescendWellFormed(c, segs[1..]);
      ReplaceChildWellFormed(s.node, s.child, Descend(c, segs[1..]));
    }
  }
}

/**
 What inserting the same request a second time does: the request's path is
 already present, so every step reuses a child, and only the end-of-request
 bookkeeping can change the tree.
 */
module Reinsertion {
  import opened Wrappers
  import opened UrlParts
  import opened Insertion

  /** The node a request's segments lead to along existing children, when every step exists. */
  function Follow(n: Node, segs: seq<Segment>): (r: Option<Node>)
    decreases |segs|
  {
    if |segs| == 0 then Some(n)
    else
      match FindChild(n.children, segs[0].value)
      case None => None
      case Some(i) => Follow(n.children[i], segs[1..])
  }

  /** The first child holding a value is the one `FindChild` reports. */
  lemma FindChildAt(cs: seq<Node>, v: string, i: nat)
    requires i < |cs| && cs[i].value == v
    requires forall j :: 0 <= j < i ==> cs[j].value != v
    ensures FindChild(cs, v) == Some(i)
  {
  }

  /** After an insertion the request's path exists, and its end node has children. */
  lemma {:induction false} InsertedRequestIsFound(n: Node, segs: seq<Segment>)
    ensures Follow(Descend(n, segs), segs).Some?
    ensures |Follow(Descend(n, segs), segs).value.children| > 0
    decreases |segs|
  {
    if |segs| > 0 {
      var s := HandlePart(n, segs[0].kind, segs[0].value, Position(segs[0].role, 0));
      var cs := s.node.children;
      var c' := Descend(cs[s.child], segs[1..]);
      var cs' := cs[s.child := c'];
      FindChildAt(cs', segs[0].value, s.child);
      InsertedRequestIsFound(cs[s.child], segs[1..]);
    }
  }

  /** Inserting along a path that already exists only applies the bookkeeping at its end. */
  lemma {:induction false} FollowAfterInsertion(n: Node, segs: seq<Segment>)
    requires Follow(n, segs).Some?
    ensures Follow(Descend(n, segs), segs) == Some(EndOfRequest(Follow(n, segs).value))
    decreases |segs|
  {
    if |segs| > 0 {
      var i := FindChild(n.children, segs[0].value).value;
      var s := HandlePart(n, segs[0].kind, segs[0].value, Position(segs[0].role, 0));
      assert s == Step(n, i);
      var c' := Descend(n.children[i], segs[1..]);
      var cs' := n.children[i := c'];
      FindChildAt(cs', segs[0].value, i);
      FollowAfterInsertion(n.children[i], segs[1..]);
    }
  }

  /** Along an existing path whose end node has children but no continuation, insertion changes nothing. */
  lemma {:induction false} ReinsertIsNoop(n: Node, segs: seq<Segment>)
    requires Follow(n, segs).Some?
    requires |Follow(n, segs).value.children| > 0
    requires !HasContinuation(Follow(n, segs).value.children)
    ensures Descend(n, segs) == n
    decreases |segs|
  {
    if |segs| > 0 {
      var i := FindChild(n.children, segs[0].value).value;
      assert HandlePart(n, segs[0].kind, segs[0].value, Position(segs[0].role, 0)) == Step(n, i);
      ReinsertIsNoop(n.children[i], segs[1..]);
      assert n.children[i := n.children[i]] == n.children;
    }
  }

  /**
   Inserting a request a second time leaves the tree unchanged exactly when,
   after the first insertion, nothing continues past the request's end node;
   otherwise its continuations gain one more "Optional" each time.
   */
  lemma RepeatedInsertion(n: Node, segs: seq<Segment>)
    ensures var once := Descend(n, segs);
            var e := Follow(once, segs);
            && e.Some?
            && (Descend(once, segs) == once <==> !HasContinuation(e.value.children))
  {
    var once := Descend(n, segs);
    InsertedRequestIsFound(n, segs);
    var e := Follow(once, segs).value;
    if HasContinuation(e.children) {
      FollowAfterInsertion(once, segs);
      var k :| 0 <= k < |e.children| && e.children[k].position != TerminatorPosition;
      assert EndOfRequest(e).children[k].position.optionals == e.children[k].position.optionals + 1;
      assert EndOfRequest(e) != e;
    } else {
      ReinsertIsNoop(once, segs);
    }
  }
}

/** How one insertion reshapes the tree along its path, step by step. */
module Growth {
  import opened Wrappers
  import opened UrlParts
  import opened Insertion

  /** The single branch a request grows below a node: its segments in order, then a terminator. */
  function Chain(segs: seq<Segment>): (r: seq<Node>)
    ensures |r| == 1
    decreases |segs|
  {
    if |segs| == 0 then [TerminatorLeaf]
    else [Node(segs[0].value, segs[0].kind, Position(segs[0].role, 0), Chain(segs[1..]))]
  }

  /** Inserting into a childless node grows a single chain ending in a terminator. */
  lemma {:induction false} DescendChildless(n: Node, segs: seq<Segment>)
    requires n.children == []
    ensures Descend(n, segs) == n.(children := Chain(segs))
    decreases |segs|
  {
    if |segs| > 0 {
      var added := Node(segs[0].value, segs[0].kind, Position(segs[0].role, 0), []);
      assert HandlePart(n, segs[0].kind, segs[0].value, Position(segs[0].role, 0)) == Step(n.(children := [added]), 0);
      DescendChildless(added, segs[1..]);
    }
  }

  /** A segment whose value a child already holds continues inside that child. */
  lemma DescendReuse(n: Node, segs: seq<Segment>, i: nat)
    requires |segs| > 0 && FindChild(n.children, segs[0].value) == Some(i)
    ensures Descend(n, segs) == n.(children := n.children[i := Descend(n.children[i], segs[1..])])
  {
    assert HandlePart(n, segs[0].kind, segs[0].value, Position(segs[0].role, 0)) == Step(n, i);
  }

  /** A new value under a node without terminator grows a chain after the existing children. */
  lemma DescendNewBranch(n: Node, segs: seq<Segment>)
    requires |segs| > 0 && FindChild(n.children, segs[0].value).None?
    requires !HasTerminator(n.children)
    ensures Descend(n, segs) == n.(children := n.children + Chain(segs))
  {
    var added := Node(segs[0].value, segs[0].kind, Position(segs[0].role, 0), []);
    var cs := n.children + [added];
    assert HandlePart(n, segs[0].kind, segs[0].value, Position(segs[0].role, 0)) == Step(n.(children := cs), |n.children|);
    DescendChildless(added, segs[1..]);
    assert cs[|n.children| := Descend(added, segs[1..])] == n.children + Chain(segs);
  }

  /** A new value under a node whose only child is a terminator replaces it with an optional chain. */
  lemma DescendPastTerminator(n: Node, segs: seq<Segment>)
    requires |segs| > 0 && segs[0].value != ""
    requires n.children == [TerminatorLeaf]
    ensures Descend(n, segs) ==
              n.(children := [Node(segs[0].value, segs[0].kind, Position(segs[0].role, 1), Chain(segs[1..]))])
  {
    assert HasTerminator(n.children);
    var added := Node(segs[0].value, segs[0].kind, Position(segs[0].role, 1), []);
    assert HandlePart(n, segs[0].kind, segs[0].value, Position(segs[0].role, 0)) == Step(n.(children := [added]), 0);
    DescendChildless(added, segs[1..]);
  }
}
