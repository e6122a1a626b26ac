/**
 What the analyzer computes on small request sequences, like the request lists in `demo.ts`.
 Recognizers stay abstract: each scenario states only how they classify the
 tokens involved.
 */
module Scenarios {
  import opened Wrappers
  import opened Text
  import opened UrlParts
  import opened Classifier
  import opened Insertion
  import opened Rendering
  import opened Analyzer
  import opened Growth

  /** A path of slash-free, non-empty parts, written with a leading slash, splits back into those parts. */
  lemma PartsOfPath(parts: seq<string>)
    requires forall i :: 0 <= i < |parts| ==> parts[i] != "" && '/' !in parts[i]
    ensures PathParts(Join([""] + parts, '/')) == parts
  {
    PathPartsOfJoin([""] + parts);
    assert ([""] + parts)[1..] == parts;
  }

  lemma OnePartJoin(a: string)
    ensures Join(["", a], '/') == "/" + a
  {
    JoinSnoc([""], a, '/');
    assert [""] + [a] == ["", a];
  }

  lemma TwoPartPath(a: string, b: string)
    requires a != "" && '/' !in a && b != "" && '/' !in b
    ensures PathParts("/" + a + "/" + b) == [a, b]
  {
    PartsOfPath([a, b]);
    OnePartJoin(a);
    JoinSnoc(["", a], b, '/');
    assert ["", a] + [b] == [""] + [a, b];
  }

  lemma ThreePartPath(a: string, b: string, c: string)
    requires a != "" && '/' !in a && b != "" && '/' !in b && c != "" && '/' !in c
    ensures PathParts("/" + a + "/" + b + "/" + c) == [a, b, c]
  {
    PartsOfPath([a, b, c]);
    OnePartJoin(a);
    JoinSnoc(["", a], b, '/');
    JoinSnoc(["", a, b], c, '/');
    assert ["", a] + [b] == ["", a, b];
    assert ["", a, b] + [c] == [""] + [a, b, c];
  }

  function Run(rs: seq<Recognizer>, reqs: seq<Request>): seq<Route>
    requires |reqs| > 0
  {
    GetAnalyzedRoutes(AddRequests(RequestAnalyzer(rs, None), reqs))
  }

  /** Feeding two requests to a fresh analyzer runs both descents from a fresh root. */
  lemma RunTwo(rs: seq<Recognizer>, r1: Request, r2: Request)
    ensures Run(rs, [r1, r2]) ==
              AnalyzedRoutes(HandleUrlSegments(rs, HandleUrlSegments(rs, InitTreeRoot(r1.host), r1.path, r1.query), r2.path, r2.query))
  {
    var a0 := RequestAnalyzer(rs, None);
    var a1 := AddRequest(a0, r1);
    var a2 := AddRequest(a1, r2);
    assert a1.treeRoot == Some(HandleUrlSegments(rs, InitTreeRoot(r1.host), r1.path, r1.query));
    assert [r1, r2][1..] == [r2] && [r2][1..] == [];
    assert AddRequests(a0, [r1, r2]) == AddRequests(a1, [r2]) == AddRequests(a2, []) == a2;
  }

  lemma RunThree(rs: seq<Recognizer>, r1: Request, r2: Request, r3: Request)
    ensures Run(rs, [r1, r2, r3]) ==
              AnalyzedRoutes(HandleUrlSegments(rs, HandleUrlSegments(rs, HandleUrlSegments(rs,
                InitTreeRoot(r1.host), r1.path, r1.query), r2.path, r2.query), r3.path, r3.query))
  {
    var a0 := RequestAnalyzer(rs, None);
    var a1 := AddRequest(a0, r1);
    var a2 := AddRequest(a1, r2);
    var a3 := AddRequest(a2, r3);
    assert a1.treeRoot == Some(HandleUrlSegments(rs, InitTreeRoot(r1.host), r1.path, r1.query));
    assert [r1, r2, r3][1..] == [r2, r3] && [r2, r3][1..] == [r3] && [r3][1..] == [];
    assert AddRequests(a0, [r1, r2, r3]) == AddRequests(a1, [r2, r3]) == AddRequests(a2, [r3]) == AddRequests(a3, []) == a3;
  }

  // Rendering steps

  lemma RoutesOfEnd(n: Node, route: Route)
    requires n.kind != Terminator && n.children == [TerminatorLeaf]
    ensures FillRoutes(n, route) == [Route(route.host, route.path + Fragment(n))]
  {
    var below := Route(route.host, route.path + Fragment(n));
    assert FillChildren(n, 1, below) == [];
    assert FillRoutes(TerminatorLeaf, below) == [below];
  }

  lemma RoutesOfOnlyChild(n: Node, route: Route)
    requires n.kind != Terminator && |n.children| == 1
    ensures FillRoutes(n, route) == FillRoutes(n.children[0], Route(route.host, route.path + Fragment(n)))
  {
    var below := Route(route.host, route.path + Fragment(n));
    assert FillChildren(n, 1, below) == [];
    assert FillChildren(n, 0, below) == FillRoutes(n.children[0], below) + [];
  }

  lemma RoutesOfTwoChildren(n: Node, route: Route)
    requires n.kind != Terminator && |n.children| == 2
    ensures var below := Route(route.host, route.path + Fragment(n));
            FillRoutes(n, route) == FillRoutes(n.children[0], below) + FillRoutes(n.children[1], below)
  {
    var below := Route(route.host, route.path + Fragment(n));
    assert FillChildren(n, 2, below) == [];
    assert FillChildren(n, 1, below) == FillRoutes(n.children[1], below) + [];
  }

  lemma RoutesOfOnlyTopChild(root: Node)
    requires |root.children| == 1
    ensures AnalyzedRoutes(root) == FillRoutes(root.children[0], Route(root.value, ""))
  {
    assert FillChildren(root, 1, Route(root.value, "")) == [];
  }

  lemma PathFragment(v: string, kind: Kind, cs: seq<Node>)
    ensures Fragment(Node(v, kind, PathPosition, cs)) == "/" + v
  {
    FragmentShape(Node(v, kind, PathPosition, cs));
  }

  lemma OptionalPathFragment(v: string, kind: Kind, cs: seq<Node>)
    ensures Fragment(Node(v, kind, Position(PathRole, 1), cs)) == "/(?" + v + ")"
  {
    FragmentShape(Node(v, kind, Position(PathRole, 1), cs));
  }

  lemma QueryFragment(v: string, kind: Kind, cs: seq<Node>, optionals: nat)
    ensures Fragment(Node(v, kind, Position(QueryRole, optionals), cs)) ==
              if optionals == 0 then "?" + v
              else if optionals == 1 then "&(?" + v + ")"
              else "/(?" + v + ")"
  {
    FragmentShape(Node(v, kind, Position(QueryRole, optionals), cs));
  }

  // Path splitting

  lemma OnePartPath(a: string)
    requires a != "" && '/' !in a
    ensures PathParts("/" + a) == [a]
  {
    PartsOfPath([a]);
    OnePartJoin(a);
    assert [""] + [a] == ["", a];
  }


  // The segments of query-free requests

  lemma TwoPathSegments(rs: seq<Recognizer>, path: string, a: string, b: string, ca: Classified, cb: Classified)
    requires PathParts(path) == [a, b] && Classify(rs, a) == ca && Classify(rs, b) == cb
    ensures RequestSegments(rs, path, []) == [Segment(ca.kind, ca.value, PathRole), Segment(cb.kind, cb.value, PathRole)]
  {
    var r := RequestSegments(rs, path, []);
    assert |r| == 2;
    assert r[0] == Segment(ca.kind, ca.value, PathRole);
    assert r[1] == Segment(cb.kind, cb.value, PathRole);
  }

  lemma ThreePathSegments(rs: seq<Recognizer>, path: string, a: string, b: string, c: string, ca: Classified, cb: Classified, cc: Classified)
    requires PathParts(path) == [a, b, c] && Classify(rs, a) == ca && Classify(rs, b) == cb && Classify(rs, c) == cc
    ensures RequestSegments(rs, path, []) ==
              [Segment(ca.kind, ca.value, PathRole), Segment(cb.kind, cb.value, PathRole), Segment(cc.kind, cc.value, PathRole)]
  {
    var r := RequestSegments(rs, path, []);
    assert |r| == 3;
    assert r[0] == Segment(ca.kind, ca.value, PathRole);
    assert r[1] == Segment(cb.kind, cb.value, PathRole);
    assert r[2] == Segment(cc.kind, cc.value, PathRole);
  }

  // Rendered texts

  lemma ShopText()
    ensures "" + ("/" + "shop") == "/shop"
  {
  }

  lemma XTexts()
    ensures "" + ("/" + "x") == "/x"
    ensures "/x" + ("/" + "{UUID}") == "/x/{UUID}"
  {
  }

  lemma TvsTexts()
    ensures "/shop" + ("/" + "tvs") == "/shop/tvs"
    ensures "/shop/tvs" + ("/(?" + "{UUID}" + ")") == "/shop/tvs/(?{UUID})"
  {
  }

  // A UUID in a path, twice

  lemma XPath(uuid: string)
    ensures "/x/" + uuid == "/" + "x" + "/" + uuid
  {
  }

  lemma UuidPathSegments(rs: seq<Recognizer>, uuid: string)
    requires Classify(rs, "x") == Classified(Static, "x")
    requires Classify(rs, uuid) == Classified(Var, "{UUID}")
    requires uuid != "" && '/' !in uuid
    ensures RequestSegments(rs, "/x/" + uuid, []) ==
              [Segment(Static, "x", PathRole), Segment(Var, "{UUID}", PathRole)]
  {
    TwoPartPath("x", uuid);
    XPath(uuid);
    TwoPathSegments(rs, "/x/" + uuid, "x", uuid, Classified(Static, "x"), Classified(Var, "{UUID}"));
  }

  const UuidLeaf := Node("{UUID}", Var, PathPosition, [TerminatorLeaf])
  const XNode := Node("x", Static, PathPosition, [UuidLeaf])

  lemma UuidTreeFirst(host: string)
    ensures Descend(InitTreeRoot(host), [Segment(Static, "x", PathRole), Segment(Var, "{UUID}", PathRole)])
            == InitTreeRoot(host).(children := [XNode])
  {
    var segs := [Segment(Static, "x", PathRole), Segment(Var, "{UUID}", PathRole)];
    DescendChildless(InitTreeRoot(host), segs);
    assert segs[1..] == [segs[1]] && [segs[1]][1..] == [];
    assert Chain(segs[1..]) == [UuidLeaf];
  }

  lemma UuidTreeSecond(host: string)
    ensures Descend(InitTreeRoot(host).(children := [XNode]), [Segment(Static, "x", PathRole), Segment(Var, "{UUID}", PathRole)])
            == InitTreeRoot(host).(children := [XNode])
  {
    var segs := [Segment(Static, "x", PathRole), Segment(Var, "{UUID}", PathRole)];
    var root1 := InitTreeRoot(host).(children := [XNode]);
    assert segs[1..] == [segs[1]] && segs[1..][1..] == [];
    DescendReuse(root1, segs, 0);
    DescendReuse(XNode, segs[1..], 0);
    assert Descend(UuidLeaf, []) == UuidLeaf;
    assert [UuidLeaf][0 := UuidLeaf] == [UuidLeaf];
    assert [XNode][0 := XNode] == [XNode];
  }

  lemma UuidRoutes(host: string)
    ensures AnalyzedRoutes(InitTreeRoot(host).(children := [XNode])) == [Route(host, "/x/{UUID}")]
  {
    RoutesOfOnlyTopChild(InitTreeRoot(host).(children := [XNode]));
    RoutesOfOnlyChild(XNode, Route(host, ""));
    PathFragment("x", Static, [UuidLeaf]);
    XTexts();
    RoutesOfEnd(UuidLeaf, Route(host, "/x"));
    PathFragment("{UUID}", Var, [TerminatorLeaf]);
  }

  /**
   Two requests whose last segments are both recognised as UUIDs reuse the
   same node and render a single template `/x/{UUID}`.
   */
  lemma UuidsCollapse(rs: seq<Recognizer>, host: string, u1: string, u2: string)
    requires Classify(rs, "x") == Classified(Static, "x")
    requires Classify(rs, u1) == Classified(Var, "{UUID}") && u1 != "" && '/' !in u1
    requires Classify(rs, u2) == Classified(Var, "{UUID}") && u2 != "" && '/' !in u2
    ensures Run(rs, [Request(host, "/x/" + u1, []), Request(host, "/x/" + u2, [])])
            == [Route(host, "/x/{UUID}")]
  {
    UuidPathSegments(rs, u1);
    UuidPathSegments(rs, u2);
    RunTwo(rs, Request(host, "/x/" + u1, []), Request(host, "/x/" + u2, []));
    UuidTreeFirst(host);
    UuidTreeSecond(host);
    UuidRoutes(host);
  }

  // A shorter request, then a longer one

  lemma ShopTvsPaths(uuid: string)
    ensures "/shop/tvs" == "/" + "shop" + "/" + "tvs"
    ensures "/shop/tvs/" + uuid == "/" + "shop" + "/" + "tvs" + "/" + uuid
  {
  }

  lemma ShopTvsParts(uuid: string)
    requires uuid != "" && '/' !in uuid
    ensures PathParts("/shop/tvs") == ["shop", "tvs"]
    ensures PathParts("/shop/tvs/" + uuid) == ["shop", "tvs", uuid]
  {
    ShopTvsPaths(uuid);
    TwoPartPath("shop", "tvs");
    ThreePartPath("shop", "tvs", uuid);
  }

  lemma ShopTvsSegments(rs: seq<Recognizer>)
    requires Classify(rs, "shop") == Classified(Static, "shop")
    requires Classify(rs, "tvs") == Classified(Static, "tvs")
    requires PathParts("/shop/tvs") == ["shop", "tvs"]
    ensures RequestSegments(rs, "/shop/tvs", []) ==
              [Segment(Static, "shop", PathRole), Segment(Static, "tvs", PathRole)]
  {
    TwoPathSegments(rs, "/shop/tvs", "shop", "tvs", Classified(Static, "shop"), Classified(Static, "tvs"));
  }

  lemma ShopTvsUuidSegments(rs: seq<Recognizer>, uuid: string)
    requires Classify(rs, "shop") == Classified(Static, "shop")
    requires Classify(rs, "tvs") == Classified(Static, "tvs")
    requires Classify(rs, uuid) == Classified(Var, "{UUID}")
    requires PathParts("/shop/tvs/" + uuid) == ["shop", "tvs", uuid]
    ensures RequestSegments(rs, "/shop/tvs/" + uuid, []) ==
              [Segment(Static, "shop", PathRole), Segment(Static, "tvs", PathRole), Segment(Var, "{UUID}", PathRole)]
  {
    ThreePathSegments(rs, "/shop/tvs/" + uuid, "shop", "tvs", uuid,
      Classified(Static, "shop"), Classified(Static, "tvs"), Classified(Var, "{UUID}"));
  }

  const TvsEnd := Node("tvs", Static, PathPosition, [TerminatorLeaf])
  const OptionalUuid := Node("{UUID}", Var, Position(PathRole, 1), [TerminatorLeaf])
  const TvsWithUuid := Node("tvs", Static, PathPosition, [OptionalUuid])

  lemma ShopTvsTreeFirst(host: string)
    ensures Descend(InitTreeRoot(host), [Segment(Static, "shop", PathRole), Segment(Static, "tvs", PathRole)])
            == InitTreeRoot(host).(children := [Node("shop", Static, PathPosition, [TvsEnd])])
  {
    var segs := [Segment(Static, "shop", PathRole), Segment(Static, "tvs", PathRole)];
    DescendChildless(InitTreeRoot(host), segs);
    assert segs[1..] == [segs[1]] && [segs[1]][1..] == [];
    assert Chain(segs[1..]) == [TvsEnd];
  }

  lemma TvsGainsUuid()
    ensures Descend(TvsEnd, [Segment(Var, "{UUID}", PathRole)]) == TvsWithUuid
  {
    DescendPastTerminator(TvsEnd, [Segment(Var, "{UUID}", PathRole)]);
    assert [Segment(Var, "{UUID}", PathRole)][1..] == [];
  }

  lemma ShopGainsUuid()
    ensures Descend(Node("shop", Static, PathPosition, [TvsEnd]), [Segment(Static, "tvs", PathRole), Segment(Var, "{UUID}", PathRole)])
            == Node("shop", Static, PathPosition, [TvsWithUuid])
  {
    var segs := [Segment(Static, "tvs", PathRole), Segment(Var, "{UUID}", PathRole)];
    DescendReuse(Node("shop", Static, PathPosition, [TvsEnd]), segs, 0);
    assert segs[1..] == [Segment(Var, "{UUID}", PathRole)];
    TvsGainsUuid();
    assert [TvsEnd][0 := TvsWithUuid] == [TvsWithUuid];
  }

  lemma ShopTvsTreeSecond(host: string)
    ensures Descend(InitTreeRoot(host).(children := [Node("shop", Static, PathPosition, [TvsEnd])]),
                    [Segment(Static, "shop", PathRole), Segment(Static, "tvs", PathRole), Segment(Var, "{UUID}", PathRole)])
            == InitTreeRoot(host).(children := [Node("shop", Static, PathPosition, [TvsWithUuid])])
  {
    var segs := [Segment(Static, "shop", PathRole), Segment(Static, "tvs", PathRole), Segment(Var, "{UUID}", PathRole)];
    var shop1 := Node("shop", Static, PathPosition, [TvsEnd]);
    var shop2 := Node("shop", Static, PathPosition, [TvsWithUuid]);
    DescendReuse(InitTreeRoot(host).(children := [shop1]), segs, 0);
    assert segs[1..] == [Segment(Static, "tvs", PathRole), Segment(Var, "{UUID}", PathRole)];
    ShopGainsUuid();
    assert [shop1][0 := shop2] == [shop2];
  }

  lemma ShopTvsRoutes(host: string)
    ensures AnalyzedRoutes(InitTreeRoot(host).(children := [Node("shop", Static, PathPosition, [TvsWithUuid])]))
            == [Route(host, "/shop/tvs/(?{UUID})")]
  {
    var shop := Node("shop", Static, PathPosition, [TvsWithUuid]);
    RoutesOfOnlyTopChild(InitTreeRoot(host).(children := [shop]));
    RoutesOfOnlyChild(shop, Route(host, ""));
    PathFragment("shop", Static, [TvsWithUuid]);
    ShopText();
    TvsRoutes(host);
  }

  lemma TvsRoutes(host: string)
    ensures FillRoutes(TvsWithUuid, Route(host, "/shop")) == [Route(host, "/shop/tvs/(?{UUID})")]
  {
    RoutesOfOnlyChild(TvsWithUuid, Route(host, "/shop"));
    PathFragment("tvs", Static, [OptionalUuid]);
    TvsTexts();
    RoutesOfEnd(OptionalUuid, Route(host, "/shop/tvs"));
    OptionalPathFragment("{UUID}", Var, [TerminatorLeaf]);
  }

  /**
   A request that ends where an earlier one ended makes the continuation
   optional: `/shop/tvs` then `/shop/tvs/<uuid>` renders one route,
   `/shop/tvs/(?{UUID})`, and no separate `/shop/tvs`.
   */
  lemma TerminatorBecomesOptional(rs: seq<Recognizer>, host: string, uuid: string)
    requires Classify(rs, "shop") == Classified(Static, "shop")
    requires Classify(rs, "tvs") == Classified(Static, "tvs")
    requires Classify(rs, uuid) == Classified(Var, "{UUID}")
    requires uuid != "" && '/' !in uuid
    ensures Run(rs, [Request(host, "/shop/tvs", []), Request(host, "/shop/tvs/" + uuid, [])])
            == [Route(host, "/shop/tvs/(?{UUID})")]
  {
    ShopTvsParts(uuid);
    ShopTvsSegments(rs);
    ShopTvsUuidSegments(rs, uuid);
    RunTwo(rs, Request(host, "/shop/tvs", []), Request(host, "/shop/tvs/" + uuid, []));
    ShopTvsTreeFirst(host);
    ShopTvsTreeSecond(host);
    ShopTvsRoutes(host);
  }

  // Why the invariant needs non-empty placeholders

  const EmptySeg := Segment(Var, "", PathRole)
  const EmptyLeaf := Node("", Var, PathPosition, [TerminatorLeaf])
  const EnteredTerminator := TerminatorLeaf.(children := [TerminatorLeaf])

  lemma EmptyOnce(host: string)
    ensures Descend(InitTreeRoot(host), [EmptySeg]) == InitTreeRoot(host).(children := [EmptyLeaf])
    ensures WellFormed(InitTreeRoot(host).(children := [EmptyLeaf]))
  {
    DescendChildless(InitTreeRoot(host), [EmptySeg]);
    assert [EmptySeg][1..] == [];
    assert WellFormed(TerminatorLeaf);
    assert WellFormed(EmptyLeaf);
  }

  lemma EmptyEntersTerminator()
    ensures Descend(EmptyLeaf, [EmptySeg]) == EmptyLeaf.(children := [EnteredTerminator])
  {
    assert FindChild(EmptyLeaf.children, "") == Some(0);
    DescendReuse(EmptyLeaf, [EmptySeg], 0);
    assert [EmptySeg][1..] == [];
    assert !HasContinuation(TerminatorLeaf.children);
    assert Descend(TerminatorLeaf, []) == EnteredTerminator;
    assert [TerminatorLeaf][0 := EnteredTerminator] == [EnteredTerminator];
  }

  lemma EmptyTwice(host: string)
    ensures Descend(InitTreeRoot(host).(children := [EmptyLeaf]), [EmptySeg, EmptySeg])
            == InitTreeRoot(host).(children := [EmptyLeaf.(children := [EnteredTerminator])])
  {
    var once := InitTreeRoot(host).(children := [EmptyLeaf]);
    assert FindChild(once.children, "") == Some(0);
    DescendReuse(once, [EmptySeg, EmptySeg], 0);
    assert [EmptySeg, EmptySeg][1..] == [EmptySeg];
    EmptyEntersTerminator();
    assert [EmptyLeaf][0 := EmptyLeaf.(children := [EnteredTerminator])] == [EmptyLeaf.(children := [EnteredTerminator])];
  }

  /**
   A segment whose value is empty (a recognizer whose placeholder is "")
   matches the terminator's empty value in the child search: the second
   request walks into the terminator and gives it a child of its own, so the
   tree is no longer well-formed.
   */
  lemma EmptyValueEntersTerminator(host: string)
    ensures var once := Descend(InitTreeRoot(host), [EmptySeg]);
            WellFormed(once) && !WellFormed(Descend(once, [EmptySeg, EmptySeg]))
  {
    EmptyOnce(host);
    EmptyTwice(host);
    var twice := InitTreeRoot(host).(children := [EmptyLeaf.(children := [EnteredTerminator])]);
    assert !LocallyWellFormed(EnteredTerminator);
    assert twice.children[0].children[0] == EnteredTerminator;
    assert !WellFormed(twice.children[0]);
  }
}
