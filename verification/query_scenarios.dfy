/**
 What the analyzer computes on requests with query strings, like the `?category=…&limit=…` requests in `demo.ts`:
 the `?`/`&` choice by position, and the extra "Optional" a repeated
 omission adds. The placeholders `cat` and `num` are whatever the category
 and integer recognizers supply.
 */
module QueryScenarios {
  import opened UrlParts
  import opened Classifier
  import opened Insertion
  import opened Growth
  import opened Rendering
  import opened Analyzer
  import opened Scenarios

  const TvsLimit := [("category", "tvs"), ("limit", "10")]
  const Computers := [("category", "computers")]
  const Bikes := [("category", "bikes")]

  const ShopSeg := Segment(Static, "shop", PathRole)

  lemma ShopParts()
    ensures PathParts("/shop") == ["shop"]
  {
    OnePartPath("shop");
  }

  lemma TwoPairSegments(rs: seq<Recognizer>, q: seq<(string, string)>, v0: Classified, v1: Classified)
    requires PathParts("/shop") == ["shop"]
    requires Classify(rs, "shop") == Classified(Static, "shop")
    requires |q| == 2 && Classify(rs, q[0].1) == v0 && Classify(rs, q[1].1) == v1
    ensures RequestSegments(rs, "/shop", q) ==
              [ShopSeg, Segment(v0.kind, q[0].0 + "=" + v0.value, QueryRole), Segment(v1.kind, q[1].0 + "=" + v1.value, QueryRole)]
  {
    var r := RequestSegments(rs, "/shop", q);
    assert |r| == 3;
    assert r[0] == ShopSeg;
    assert r[1] == Segment(v0.kind, q[0].0 + "=" + v0.value, QueryRole);
    assert r[2] == Segment(v1.kind, q[1].0 + "=" + v1.value, QueryRole);
  }

  lemma OnePairSegments(rs: seq<Recognizer>, q: seq<(string, string)>, v0: Classified)
    requires PathParts("/shop") == ["shop"]
    requires Classify(rs, "shop") == Classified(Static, "shop")
    requires |q| == 1 && Classify(rs, q[0].1) == v0
    ensures RequestSegments(rs, "/shop", q) == [ShopSeg, Segment(v0.kind, q[0].0 + "=" + v0.value, QueryRole)]
  {
    var r := RequestSegments(rs, "/shop", q);
    assert |r| == 2;
    assert r[0] == ShopSeg;
    assert r[1] == Segment(v0.kind, q[0].0 + "=" + v0.value, QueryRole);
  }

  lemma CategoryTexts(cat: string, num: string)
    ensures "/shop" + ("?" + ("category=" + cat)) == "/shop?category=" + cat
    ensures "/shop?category=" + cat + ("&(?" + ("limit=" + num) + ")") == "/shop?category=" + cat + "&(?limit=" + num + ")"
    ensures "/shop?category=" + cat + ("/(?" + ("limit=" + num) + ")") == "/shop?category=" + cat + "/(?limit=" + num + ")"
  {
  }

  lemma LiteralTexts()
    ensures "/shop" + ("?" + "category=tvs") == "/shop?category=tvs"
    ensures "/shop" + ("?" + "category=computers") == "/shop?category=computers"
  {
  }

  lemma RequiredLimitText(num: string)
    ensures "/shop?category=tvs" + ("?" + ("limit=" + num)) == "/shop?category=tvs?limit=" + num
  {
  }

  // With a category recognizer: both requests share the category node

  function CategorySeg(cat: string): Segment { Segment(Var, "category=" + cat, QueryRole) }
  function LimitSeg(num: string): Segment { Segment(Var, "limit=" + num, QueryRole) }

  lemma TvsLimitSegments(rs: seq<Recognizer>, v0: Classified, num: string)
    requires Classify(rs, "shop") == Classified(Static, "shop")
    requires Classify(rs, "tvs") == v0 && Classify(rs, "10") == Classified(Var, num)
    ensures RequestSegments(rs, "/shop", TvsLimit) ==
              [ShopSeg, Segment(v0.kind, "category" + "=" + v0.value, QueryRole), Segment(Var, "limit" + "=" + num, QueryRole)]
  {
    ShopParts();
    TwoPairSegments(rs, TvsLimit, v0, Classified(Var, num));
  }

  lemma CategoryOnlySegments(rs: seq<Recognizer>, q: seq<(string, string)>, v0: Classified)
    requires Classify(rs, "shop") == Classified(Static, "shop")
    requires q == Computers || q == Bikes
    requires Classify(rs, q[0].1) == v0
    ensures RequestSegments(rs, "/shop", q) == [ShopSeg, Segment(v0.kind, "category" + "=" + v0.value, QueryRole)]
  {
    ShopParts();
    OnePairSegments(rs, q, v0);
  }

  lemma CategoryPair(v: string)
    ensures "category" + "=" + v == "category=" + v
  {
  }

  lemma LimitPair(v: string)
    ensures "limit" + "=" + v == "limit=" + v
  {
  }

  lemma LiteralPairs()
    ensures "category" + "=" + "tvs" == "category=tvs"
    ensures "category" + "=" + "computers" == "category=computers"
  {
  }

  lemma CategoryLimitSegments(rs: seq<Recognizer>, cat: string, num: string)
    requires Classify(rs, "shop") == Classified(Static, "shop")
    requires Classify(rs, "tvs") == Classified(Var, cat) && Classify(rs, "10") == Classified(Var, num)
    ensures RequestSegments(rs, "/shop", TvsLimit) == [ShopSeg, CategorySeg(cat), LimitSeg(num)]
  {
    TvsLimitSegments(rs, Classified(Var, cat), num);
    CategoryPair(cat);
    LimitPair(num);
  }

  lemma CategorySegments(rs: seq<Recognizer>, q: seq<(string, string)>, cat: string)
    requires Classify(rs, "shop") == Classified(Static, "shop")
    requires q == Computers || q == Bikes
    requires Classify(rs, q[0].1) == Classified(Var, cat)
    ensures RequestSegments(rs, "/shop", q) == [ShopSeg, CategorySeg(cat)]
  {
    CategoryOnlySegments(rs, q, Classified(Var, cat));
    CategoryPair(cat);
  }

  /** The limit node after `k` later requests stopped at the category node. */
  function LimitNode(num: string, k: nat): Node {
    Node("limit=" + num, Var, Position(QueryRole, k), [TerminatorLeaf])
  }

  function CategoryNode(cat: string, num: string, k: nat): Node {
    Node("category=" + cat, Var, QueryPosition, [LimitNode(num, k)])
  }

  function CategoryTree(host: string, cat: string, num: string, k: nat): Node {
    InitTreeRoot(host).(children := [Node("shop", Static, PathPosition, [CategoryNode(cat, num, k)])])
  }

  lemma CategoryTreeFirst(host: string, cat: string, num: string)
    ensures Descend(InitTreeRoot(host), [ShopSeg, CategorySeg(cat), LimitSeg(num)]) == CategoryTree(host, cat, num, 0)
  {
    var segs := [ShopSeg, CategorySeg(cat), LimitSeg(num)];
    DescendChildless(InitTreeRoot(host), segs);
    assert segs[1..] == [CategorySeg(cat), LimitSeg(num)] && segs[1..][1..] == [LimitSeg(num)] && [LimitSeg(num)][1..] == [];
    assert Chain([LimitSeg(num)]) == [LimitNode(num, 0)];
    assert Chain(segs[1..]) == [CategoryNode(cat, num, 0)];
  }

  lemma CategoryNodeOmitted(cat: string, num: string, k: nat)
    ensures Descend(CategoryNode(cat, num, k), []) == CategoryNode(cat, num, k + 1)
  {
    var limit := LimitNode(num, k);
    assert CategoryNode(cat, num, k).children[0].position != TerminatorPosition;
    assert HasContinuation(CategoryNode(cat, num, k).children);
    assert limit.(position := WithOptional(limit.position)) == LimitNode(num, k + 1);
  }

  /** A request that stops at the category node makes the limit one step more optional. */
  lemma CategoryTreeOmitted(host: string, cat: string, num: string, k: nat)
    ensures Descend(CategoryTree(host, cat, num, k), [ShopSeg, CategorySeg(cat)]) == CategoryTree(host, cat, num, k + 1)
  {
    var segs := [ShopSeg, CategorySeg(cat)];
    var shop := Node("shop", Static, PathPosition, [CategoryNode(cat, num, k)]);
    assert segs[1..] == [CategorySeg(cat)] && [CategorySeg(cat)][1..] == [];
    DescendReuse(CategoryTree(host, cat, num, k), segs, 0);
    DescendReuse(shop, segs[1..], 0);
    CategoryNodeOmitted(cat, num, k);
    assert Descend(shop, segs[1..]) == Node("shop", Static, PathPosition, [CategoryNode(cat, num, k + 1)]);
  }

  lemma CategoryRoutes(host: string, cat: string, num: string, k: nat)
    ensures AnalyzedRoutes(CategoryTree(host, cat, num, k)) ==
              [Route(host, "/shop?category=" + cat + Fragment(LimitNode(num, k)))]
  {
    var shop := Node("shop", Static, PathPosition, [CategoryNode(cat, num, k)]);
    RoutesOfOnlyTopChild(CategoryTree(host, cat, num, k));
    RoutesOfOnlyChild(shop, Route(host, ""));
    PathFragment("shop", Static, [CategoryNode(cat, num, k)]);
    ShopText();
    RoutesOfOnlyChild(CategoryNode(cat, num, k), Route(host, "/shop"));
    QueryFragment("category=" + cat, Var, [LimitNode(num, k)], 0);
    CategoryTexts(cat, num);
    RoutesOfEnd(LimitNode(num, k), Route(host, "/shop?category=" + cat));
  }

  lemma OptionalLimitRoutes(host: string, cat: string, num: string)
    ensures AnalyzedRoutes(CategoryTree(host, cat, num, 1)) == [Route(host, "/shop?category=" + cat + "&(?limit=" + num + ")")]
  {
    CategoryRoutes(host, cat, num, 1);
    QueryFragment("limit=" + num, Var, [TerminatorLeaf], 1);
    CategoryTexts(cat, num);
  }

  /** After two or more omissions the limit is joined with `/`. */
  lemma TwiceOptionalLimitRoutes(host: string, cat: string, num: string, k: nat)
    requires k >= 2
    ensures AnalyzedRoutes(CategoryTree(host, cat, num, k)) == [Route(host, "/shop?category=" + cat + "/(?limit=" + num + ")")]
  {
    CategoryRoutes(host, cat, num, k);
    QueryFragment("limit=" + num, Var, [TerminatorLeaf], k);
    CategoryTexts(cat, num);
  }

  lemma HandleVia(rs: seq<Recognizer>, root: Node, path: string, q: seq<(string, string)>, segs: seq<Segment>)
    requires RequestSegments(rs, path, q) == segs
    ensures HandleUrlSegments(rs, root, path, q) == Descend(root, segs)
  {
  }

  lemma CategoryFirstRequest(rs: seq<Recognizer>, host: string, cat: string, num: string)
    requires Classify(rs, "shop") == Classified(Static, "shop")
    requires Classify(rs, "tvs") == Classified(Var, cat)
    requires Classify(rs, "10") == Classified(Var, num)
    ensures HandleUrlSegments(rs, InitTreeRoot(host), "/shop", TvsLimit) == CategoryTree(host, cat, num, 0)
  {
    CategoryLimitSegments(rs, cat, num);
    CategoryTreeFirst(host, cat, num);
  }

  /** Any request that stops at the category node makes the limit one step more optional. */
  lemma OmittedAgain(rs: seq<Recognizer>, q: seq<(string, string)>, host: string, cat: string, num: string, k: nat, next: nat)
    requires Classify(rs, "shop") == Classified(Static, "shop")
    requires q == Computers || q == Bikes
    requires Classify(rs, q[0].1) == Classified(Var, cat)
    requires next == k + 1
    ensures HandleUrlSegments(rs, CategoryTree(host, cat, num, k), "/shop", q) == CategoryTree(host, cat, num, next)
  {
    CategorySegments(rs, q, cat);
    HandleVia(rs, CategoryTree(host, cat, num, k), "/shop", q, [ShopSeg, CategorySeg(cat)]);
    CategoryTreeOmitted(host, cat, num, k);
  }

  /**
   With categories recognised, `?category=tvs&limit=10` then
   `?category=computers` share the category node, so the limit becomes
   optional and is joined with `&`.
   */
  lemma OmittedQueryKeyBecomesOptional(rs: seq<Recognizer>, host: string, cat: string, num: string)
    requires Classify(rs, "shop") == Classified(Static, "shop")
    requires Classify(rs, "tvs") == Classified(Var, cat)
    requires Classify(rs, "computers") == Classified(Var, cat)
    requires Classify(rs, "10") == Classified(Var, num)
    ensures Run(rs, [Request(host, "/shop", TvsLimit), Request(host, "/shop", Computers)])
            == [Route(host, "/shop?category=" + cat + "&(?limit=" + num + ")")]
  {
    RunTwo(rs, Request(host, "/shop", TvsLimit), Request(host, "/shop", Computers));
    CategoryFirstRequest(rs, host, cat, num);
    OmittedAgain(rs, Computers, host, cat, num, 0, 1);
    OptionalLimitRoutes(host, cat, num);
  }

  /**
   A second request stopping at the category node appends "Optional" again;
   the position "queryOptionalOptional" is neither "query" nor
   "queryOptional", so the limit is then joined with `/`: repeating an
   omission changes the rendered routes.
   */
  lemma RepeatedOmissionChangesSeparator(rs: seq<Recognizer>, host: string, cat: string, num: string)
    requires Classify(rs, "shop") == Classified(Static, "shop")
    requires Classify(rs, "tvs") == Classified(Var, cat)
    requires Classify(rs, "computers") == Classified(Var, cat)
    requires Classify(rs, "bikes") == Classified(Var, cat)
    requires Classify(rs, "10") == Classified(Var, num)
    ensures Run(rs, [Request(host, "/shop", TvsLimit), Request(host, "/shop", Computers), Request(host, "/shop", Bikes)])
            == [Route(host, "/shop?category=" + cat + "/(?limit=" + num + ")")]
  {
    RunThree(rs, Request(host, "/shop", TvsLimit), Request(host, "/shop", Computers), Request(host, "/shop", Bikes));
    CategoryFirstRequest(rs, host, cat, num);
    OmittedAgain(rs, Computers, host, cat, num, 0, 1);
    OmittedAgain(rs, Bikes, host, cat, num, 1, 2);
    TwiceOptionalLimitRoutes(host, cat, num, 2);
  }

  /**
   Feeding the same concrete request `/shop?category=computers` a second
   time changes the rendered route: the limit's separator goes from `&`
   to `/`, so repeating a request is not idempotent.
   */
  lemma RepeatedRequestChangesRoutes(rs: seq<Recognizer>, host: string, cat: string, num: string)
    requires Classify(rs, "shop") == Classified(Static, "shop")
    requires Classify(rs, "tvs") == Classified(Var, cat)
    requires Classify(rs, "computers") == Classified(Var, cat)
    requires Classify(rs, "10") == Classified(Var, num)
    ensures Run(rs, [Request(host, "/shop", TvsLimit), Request(host, "/shop", Computers), Request(host, "/shop", Computers)])
            == [Route(host, "/shop?category=" + cat + "/(?limit=" + num + ")")]
    ensures Run(rs, [Request(host, "/shop", TvsLimit), Request(host, "/shop", Computers), Request(host, "/shop", Computers)])
            != Run(rs, [Request(host, "/shop", TvsLimit), Request(host, "/shop", Computers)])
  {
    RunThree(rs, Request(host, "/shop", TvsLimit), Request(host, "/shop", Computers), Request(host, "/shop", Computers));
    CategoryFirstRequest(rs, host, cat, num);
    OmittedAgain(rs, Computers, host, cat, num, 0, 1);
    OmittedAgain(rs, Computers, host, cat, num, 1, 2);
    TwiceOptionalLimitRoutes(host, cat, num, 2);
    OmittedQueryKeyBecomesOptional(rs, host, cat, num);
    LimitSeparatorsDiffer(host, cat, num);
  }

  /** The `&`-joined and the `/`-joined optional limit are different routes. */
  lemma LimitSeparatorsDiffer(host: string, cat: string, num: string)
    ensures [Route(host, "/shop?category=" + cat + "/(?limit=" + num + ")")]
            != [Route(host, "/shop?category=" + cat + "&(?limit=" + num + ")")]
  {
    var i := |"/shop?category=" + cat|;
    assert ("/shop?category=" + cat + "/(?limit=" + num + ")")[i] == '/';
    assert ("/shop?category=" + cat + "&(?limit=" + num + ")")[i] == '&';
  }

  // Without a category recognizer: the requests branch at the category pair

  const TvsSeg := Segment(Static, "category=tvs", QueryRole)
  const ComputersSeg := Segment(Static, "category=computers", QueryRole)

  function TvsBranch(num: string): Node {
    Node("category=tvs", Static, QueryPosition, [Node("limit=" + num, Var, QueryPosition, [TerminatorLeaf])])
  }

  const ComputersBranch := Node("category=computers", Static, QueryPosition, [TerminatorLeaf])

  lemma LiteralTreeFirst(host: string, num: string)
    ensures Descend(InitTreeRoot(host), [ShopSeg, TvsSeg, LimitSeg(num)])
            == InitTreeRoot(host).(children := [Node("shop", Static, PathPosition, [TvsBranch(num)])])
  {
    var segs := [ShopSeg, TvsSeg, LimitSeg(num)];
    DescendChildless(InitTreeRoot(host), segs);
    assert segs[1..] == [TvsSeg, LimitSeg(num)] && segs[1..][1..] == [LimitSeg(num)] && [LimitSeg(num)][1..] == [];
    assert Chain([LimitSeg(num)]) == TvsBranch(num).children;
    assert Chain(segs[1..]) == [TvsBranch(num)];
  }

  lemma LiteralTreeSecond(host: string, num: string)
    ensures Descend(InitTreeRoot(host).(children := [Node("shop", Static, PathPosition, [TvsBranch(num)])]), [ShopSeg, ComputersSeg])
            == InitTreeRoot(host).(children := [Node("shop", Static, PathPosition, [TvsBranch(num), ComputersBranch])])
  {
    var segs := [ShopSeg, ComputersSeg];
    var shop := Node("shop", Static, PathPosition, [TvsBranch(num)]);
    assert segs[1..] == [ComputersSeg] && [ComputersSeg][1..] == [];
    DescendReuse(InitTreeRoot(host).(children := [shop]), segs, 0);
    assert !HasTerminator(shop.children);
    DescendNewBranch(shop, segs[1..]);
    assert Chain(segs[1..]) == [ComputersBranch];
    assert [TvsBranch(num)] + [ComputersBranch] == [TvsBranch(num), ComputersBranch];
  }

  lemma RequiredLimitRoutes(host: string, num: string)
    ensures FillRoutes(TvsBranch(num).children[0], Route(host, "/shop?category=tvs")) ==
              [Route(host, "/shop?category=tvs?limit=" + num)]
  {
    RoutesOfEnd(TvsBranch(num).children[0], Route(host, "/shop?category=tvs"));
    QueryFragment("limit=" + num, Var, [TerminatorLeaf], 0);
    RequiredLimitText(num);
  }

  lemma TvsBranchRoutes(host: string, num: string)
    ensures FillRoutes(TvsBranch(num), Route(host, "/shop")) == [Route(host, "/shop?category=tvs?limit=" + num)]
  {
    RoutesOfOnlyChild(TvsBranch(num), Route(host, "/shop"));
    QueryFragment("category=tvs", Static, TvsBranch(num).children, 0);
    LiteralTexts();
    RequiredLimitRoutes(host, num);
  }

  lemma ComputersRoutes(host: string)
    ensures FillRoutes(ComputersBranch, Route(host, "/shop")) == [Route(host, "/shop?category=computers")]
  {
    RoutesOfEnd(ComputersBranch, Route(host, "/shop"));
    QueryFragment("category=computers", Static, [TerminatorLeaf], 0);
    LiteralTexts();
  }

  lemma LiteralRoutes(host: string, num: string)
    ensures AnalyzedRoutes(InitTreeRoot(host).(children := [Node("shop", Static, PathPosition, [TvsBranch(num), ComputersBranch])]))
            == [Route(host, "/shop?category=tvs?limit=" + num), Route(host, "/shop?category=computers")]
  {
    var shop := Node("shop", Static, PathPosition, [TvsBranch(num), ComputersBranch]);
    RoutesOfOnlyTopChild(InitTreeRoot(host).(children := [shop]));
    RoutesOfTwoChildren(shop, Route(host, ""));
    PathFragment("shop", Static, shop.children);
    ShopText();
    TvsBranchRoutes(host, num);
    ComputersRoutes(host);
  }

  function LiteralTree(host: string, num: string, branches: seq<Node>): Node {
    InitTreeRoot(host).(children := [Node("shop", Static, PathPosition, branches)])
  }

  lemma LiteralFirstRequest(rs: seq<Recognizer>, host: string, num: string)
    requires Classify(rs, "shop") == Classified(Static, "shop")
    requires Classify(rs, "tvs") == Classified(Static, "tvs")
    requires Classify(rs, "10") == Classified(Var, num)
    ensures HandleUrlSegments(rs, InitTreeRoot(host), "/shop", TvsLimit) == LiteralTree(host, num, [TvsBranch(num)])
  {
    TvsLimitSegments(rs, Classified(Static, "tvs"), num);
    LimitPair(num);
    LiteralPairs();
    LiteralTreeFirst(host, num);
  }

  lemma LiteralSecondRequest(rs: seq<Recognizer>, host: string, num: string)
    requires Classify(rs, "shop") == Classified(Static, "shop")
    requires Classify(rs, "computers") == Classified(Static, "computers")
    ensures HandleUrlSegments(rs, LiteralTree(host, num, [TvsBranch(num)]), "/shop", Computers)
            == LiteralTree(host, num, [TvsBranch(num), ComputersBranch])
  {
    CategoryOnlySegments(rs, Computers, Classified(Static, "computers"));
    LiteralPairs();
    LiteralTreeSecond(host, num);
  }

  /**
   Without a category recognizer the two requests part at the category
   pair: the limit is never marked optional, and as a required second key
   it is joined with `?`, not `&`.
   */
  lemma SecondRequiredKeyUsesQuestionMark(rs: seq<Recognizer>, host: string, num: string)
    requires Classify(rs, "shop") == Classified(Static, "shop")
    requires Classify(rs, "tvs") == Classified(Static, "tvs")
    requires Classify(rs, "computers") == Classified(Static, "computers")
    requires Classify(rs, "10") == Classified(Var, num)
    ensures Run(rs, [Request(host, "/shop", TvsLimit), Request(host, "/shop", Computers)])
            == [Route(host, "/shop?category=tvs?limit=" + num), Route(host, "/shop?category=computers")]
  {
    RunTwo(rs, Request(host, "/shop", TvsLimit), Request(host, "/shop", Computers));
    LiteralFirstRequest(rs, host, num);
    LiteralSecondRequest(rs, host, num);
    LiteralRoutes(host, num);
  }
}
