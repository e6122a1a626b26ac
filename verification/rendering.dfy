/**
 Route rendering (`getUrlString`, `fillRoutes`, `getAnalyzedRoutes`): a
 depth-first, pre-order walk that emits one route per terminator, each path
 being the concatenated fragments of the nodes on the way down.
 */
module Rendering {
  import opened Text
  import opened UrlParts

  /** An output record: the host and the rendered path template. */
  datatype Route = Route(host: string, path: string)

  /** The separator, chosen by comparing the position string exactly. */
  function Separator(p: Position): string {
    var s := PositionString(p);
    if s == "query" then "?"
    else if s == "queryOptional" then "&"
    else "/"
  }

  /** `getUrlString`: the separator, then the value, wrapped as `(?value)` when the position ends with "Optional". */
  function Fragment(n: Node): string {
    var value := if EndsWith(PositionString(n.position), "Optional") then "(?" + n.value + ")" else n.value;
    Separator(n.position) + value
  }

  /**
   The fragment in terms of the structured position: `?` only for an
   unsuffixed query, `&` only for a query with exactly one suffix, `/` for
   everything else (so a query with two suffixes gets `/`), and the value is
   wrapped exactly when at least one suffix was appended.
   */
  lemma FragmentShape(n: Node)
    ensures var p := n.position;
            var sep := if p == QueryPosition then "?" else if p == Position(QueryRole, 1) then "&" else "/";
            Fragment(n) == sep + (if p.optionals > 0 then "(?" + n.value + ")" else n.value)
  {
    IsQueryString(n.position);
    IsQueryOptionalString(n.position);
    EndsWithOptionalString(n.position);
  }

  /** `fillRoutes`: a terminator yields the route so far; any other node appends its fragment and visits its children. */
  function FillRoutes(n: Node, route: Route): (r: seq<Route>)
    ensures forall k :: 0 <= k < |r| ==> r[k].host == route.host
    ensures forall k :: 0 <= k < |r| ==> route.path <= r[k].path
    ensures n.kind != Terminator && |n.children| == 0 ==> r == []
    decreases n, |n.children| + 1
  {
    if n.kind == Terminator then [route]
    else FillChildren(n, 0, Route(route.host, route.path + Fragment(n)))
  }

  /** The routes of children `i..` of `n`, each child given its own copy of `route`, concatenated in order. */
  function FillChildren(n: Node, i: nat, route: Route): (r: seq<Route>)
    requires i <= |n.children|
    ensures forall k :: 0 <= k < |r| ==> r[k].host == route.host
    ensures forall k :: 0 <= k < |r| ==> route.path <= r[k].path
    decreases n, |n.children| - i
  {
    if i == |n.children| then []
    else FillRoutes(n.children[i], route) + FillChildren(n, i + 1, route)
  }

  /** `getAnalyzedRoutes` below a root: its own fragment is not rendered, each child starts from an empty path. */
  function AnalyzedRoutes(root: Node): (r: seq<Route>)
    ensures forall k :: 0 <= k < |r| ==> r[k].host == root.value
  {
    FillChildren(root, 0, Route(root.value, ""))
  }

  /** The number of terminator nodes in the tree. */
  function TerminatorCount(n: Node): nat
    decreases n, |n.children| + 1
  {
    if n.kind == Terminator then 1 else TerminatorCountFrom(n, 0)
  }

  function TerminatorCountFrom(n: Node, i: nat): nat
    requires i <= |n.children|
    decreases n, |n.children| - i
  {
    if i == |n.children| then 0
    else TerminatorCount(n.children[i]) + TerminatorCountFrom(n, i + 1)
  }

  /** One route per terminator. */
  lemma {:induction false} RouteCount(n: Node, route: Route)
    ensures |FillRoutes(n, route)| == TerminatorCount(n)
    decreases n, |n.children| + 1
  {
    if n.kind != Terminator {
      RouteCountFrom(n, 0, Route(route.host, route.path + Fragment(n)));
    }
  }

  lemma {:induction false} RouteCountFrom(n: Node, i: nat, route: Route)
    requires i <= |n.children|
    ensures |FillChildren(n, i, route)| == TerminatorCountFrom(n, i)
    decreases n, |n.children| - i
  {
    if i < |n.children| {
      RouteCount(n.children[i], route);
      RouteCountFrom(n, i + 1, route);
    }
  }

  /** `p` is a sequence of child indices leading from `n` down to a terminator. */
  ghost predicate TerminatorPath(n: Node, p: seq<nat>)
    decreases |p|
  {
    if |p| == 0 then n.kind == Terminator
    else n.kind != Terminator && p[0] < |n.children| && TerminatorPath(n.children[p[0]], p[1..])
  }

  /** The fragments of the non-terminator nodes along a terminator path. */
  ghost function PathText(n: Node, p: seq<nat>): string
    requires TerminatorPath(n, p)
    decreases |p|
  {
    if |p| == 0 then "" else Fragment(n) + PathText(n.children[p[0]], p[1..])
  }

  /** A terminator path of child `j`, prefixed with `j`, is a terminator path of `n` whose text starts with `n`'s fragment. */
  lemma ExtendTerminatorPath(n: Node, j: nat, q: seq<nat>, path: string)
    requires n.kind != Terminator && j < |n.children| && TerminatorPath(n.children[j], q)
    ensures TerminatorPath(n, [j] + q)
    ensures path + PathText(n, [j] + q) == (path + Fragment(n)) + PathText(n.children[j], q)
  {
    var p := [j] + q;
    assert p[0] == j && p[1..] == q;
    var rest := PathText(n.children[j], q);
    assert PathText(n, p) == Fragment(n) + rest;
  }

  /** Every emitted route renders some terminator path. */
  lemma {:induction false} RoutesComeFromTerminators(n: Node, route: Route, x: Route)
    requires x in FillRoutes(n, route)
    ensures exists p :: TerminatorPath(n, p) && x == Route(route.host, route.path + PathText(n, p))
    decreases n, |n.children| + 1
  {
    if n.kind == Terminator {
      assert x == route;
      assert route.path + PathText(n, []) == route.path;
      assert TerminatorPath(n, []);
    } else {
      var below := Route(route.host, route.path + Fragment(n));
      var j, q := ChildRoutesComeFromTerminators(n, 0, below, x);
      ExtendTerminatorPath(n, j, q, route.path);
      assert x == Route(route.host, route.path + PathText(n, [j] + q));
    }
  }

  lemma {:induction false} ChildRoutesComeFromTerminators(n: Node, i: nat, route: Route, x: Route)
    returns (j: nat, q: seq<nat>)
    requires i <= |n.children|
    requires x in FillChildren(n, i, route)
    ensures i <= j < |n.children|
    ensures TerminatorPath(n.children[j], q) && x == Route(route.host, route.path + PathText(n.children[j], q))
    decreases n, |n.children| - i
  {
    if x in FillRoutes(n.children[i], route) {
      RoutesComeFromTerminators(n.children[i], route, x);
      j := i;
      q :| TerminatorPath(n.children[j], q) && x == Route(route.host, route.path + PathText(n.children[j], q));
    } else {
      j, q := ChildRoutesComeFromTerminators(n, i + 1, route, x);
    }
  }

  /** Every terminator path is rendered as one of the emitted routes. */
  lemma {:induction false} TerminatorsYieldRoutes(n: Node, route: Route, p: seq<nat>)
    requires TerminatorPath(n, p)
    ensures Route(route.host, route.path + PathText(n, p)) in FillRoutes(n, route)
    decreases |p|
  {
    if |p| == 0 {
      assert route.path + "" == route.path;
    } else {
      var below := Route(route.host, route.path + Fragment(n));
      TerminatorsYieldRoutes(n.children[p[0]], below, p[1..]);
      ExtendTerminatorPath(n, p[0], p[1..], route.path);
      assert [p[0]] + p[1..] == p;
      ChildRouteIsCollected(n, 0, p[0], below, Route(route.host, route.path + PathText(n, p)));
    }
  }

  /** A route of child `j` appears among the routes of children `i..`, for `i <= j`. */
  lemma {:induction false} ChildRouteIsCollected(n: Node, i: nat, j: nat, route: Route, x: Route)
    requires i <= j < |n.children|
    requires x in FillRoutes(n.children[j], route)
    ensures x in FillChildren(n, i, route)
    decreases |n.children| - i
  {
    var here := FillRoutes(n.children[i], route);
    var rest := FillChildren(n, i + 1, route);
    assert FillChildren(n, i, route) == here + rest;
    if i < j {
      ChildRouteIsCollected(n, i + 1, j, route, x);
      assert x in rest;
    } else {
      assert x in here;
    }
  }

  /**
   The routes of a root are exactly the renderings of its terminator paths:
   the host is the root's value, and the path is the fragments met on the
   way from a child of the root down to a terminator.
   */
  lemma AnalyzedRoutesAreTerminatorPaths(root: Node, x: Route)
    ensures x in AnalyzedRoutes(root) <==>
              exists j, q :: 0 <= j < |root.children| && TerminatorPath(root.children[j], q)
                             && x == Route(root.value, PathText(root.children[j], q))
  {
    var start := Route(root.value, "");
    if x in AnalyzedRoutes(root) {
      var j, q := ChildRoutesComeFromTerminators(root, 0, start, x);
      assert "" + PathText(root.children[j], q) == PathText(root.children[j], q);
    }
    if exists j, q :: 0 <= j < |root.children| && TerminatorPath(root.children[j], q)
                      && x == Route(root.value, PathText(root.children[j], q)) {
      var j, q :| 0 <= j < |root.children| && TerminatorPath(root.children[j], q)
                  && x == Route(root.value, PathText(root.children[j], q));
      TerminatorsYieldRoutes(root.children[j], start, q);
      assert "" + PathText(root.children[j], q) == PathText(root.children[j], q);
      ChildRouteIsCollected(root, 0, j, start, x);
    }
  }

  /** The routes of children `i..j-1` of `n`, concatenated in order. */
  function RoutesBetween(n: Node, i: nat, j: nat, route: Route): seq<Route>
    requires i <= j <= |n.children|
    decreases j - i
  {
    if i == j then [] else FillRoutes(n.children[i], route) + RoutesBetween(n, i + 1, j, route)
  }

  /** The routes of children `i..` split at child `j`: those of children `i..j-1`, then those of children `j..`. */
  lemma {:induction false} FillChildrenSplit(n: Node, i: nat, j: nat, route: Route)
    requires i <= j <= |n.children|
    ensures FillChildren(n, i, route) == RoutesBetween(n, i, j, route) + FillChildren(n, j, route)
    decreases j - i
  {
    if i < j {
      FillChildrenSplit(n, i + 1, j, route);
      FillChildrenUnfold(n, i, route);
      RoutesBetweenUnfold(n, i, j, route);
      Assoc(FillRoutes(n.children[i], route), RoutesBetween(n, i + 1, j, route), FillChildren(n, j, route));
    } else {
      assert RoutesBetween(n, i, j, route) == [];
      assert [] + FillChildren(n, j, route) == FillChildren(n, j, route);
    }
  }

  /**
   Among the routes of children `i..`, those of child `j` form one block:
   after the routes of the children before it, before the routes of the rest.
   */
  lemma ChildRoutesInOrder(n: Node, i: nat, j: nat, route: Route)
    requires i <= j < |n.children|
    ensures FillChildren(n, i, route) ==
              RoutesBetween(n, i, j, route) + FillRoutes(n.children[j], route) + FillChildren(n, j + 1, route)
  {
    FillChildrenSplit(n, i, j, route);
    FillChildrenUnfold(n, j, route);
    Assoc(RoutesBetween(n, i, j, route), FillRoutes(n.children[j], route), FillChildren(n, j + 1, route));
  }

  /** `RoutesBetween` over a non-empty range of children. */
  lemma RoutesBetweenUnfold(n: Node, i: nat, j: nat, route: Route)
    requires i < j <= |n.children|
    ensures RoutesBetween(n, i, j, route) == FillRoutes(n.children[i], route) + RoutesBetween(n, i + 1, j, route)
  {
  }

  /** `FillChildren` from a child index that is not past the end. */
  lemma FillChildrenUnfold(n: Node, i: nat, route: Route)
    requires i < |n.children|
    ensures FillChildren(n, i, route) == FillRoutes(n.children[i], route) + FillChildren(n, i + 1, route)
  {
  }

  lemma Assoc(a: seq<Route>, b: seq<Route>, c: seq<Route>)
    ensures a + (b + c) == (a + b) + c
  {
  }

  /**
   The routes are listed depth first in child-insertion order: the routes
   below the root's child `j` come as one block, after the routes of every
   child inserted before it and before the routes of every child inserted
   after it.
   */
  lemma AnalyzedRoutesInChildOrder(root: Node, j: nat)
    requires j < |root.children|
    ensures var start := Route(root.value, "");
            AnalyzedRoutes(root) ==
              RoutesBetween(root, 0, j, start) + FillRoutes(root.children[j], start) + FillChildren(root, j + 1, start)
  {
    ChildRoutesInOrder(root, 0, j, Route(root.value, ""));
  }

  /** A root that is not itself a terminator yields one route per terminator below it. */
  lemma AnalyzedRouteCount(root: Node)
    requires root.kind != Terminator
    ensures |AnalyzedRoutes(root)| == TerminatorCount(root)
  {
    RouteCountFrom(root, 0, Route(root.value, ""));
  }
}
