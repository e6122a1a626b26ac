/**
 The analyzer (`RequestAnalyzer`): the registered recognizers and the tree
 root, which the first request creates from its host. A request arrives
 already split into host, path and query pairs.
 */
module Analyzer {
  import opened Wrappers
  import opened UrlParts
  import opened Classifier
  import opened Insertion
  import opened InsertionInvariant
  import opened Rendering

  /** One request: its host, its path, and its query pairs in order. */
  datatype Request = Request(host: string, path: string, query: seq<(string, string)>)

  /** `treeRoot` is `None` until the first request arrives. */
  datatype RequestAnalyzer = RequestAnalyzer(recognizers: seq<Recognizer>, treeRoot: Option<Node>)

  const NewAnalyzer := RequestAnalyzer([], None)

  /** `registerIPatternRecognizer` */
  function Register(a: RequestAnalyzer, r: Recognizer): RequestAnalyzer {
    a.(recognizers := a.recognizers + [r])
  }

  /** `initTreeRoot` */
  function InitTreeRoot(host: string): Node {
    Node(host, Host, Position(HostRole, 0), [])
  }

  /**
   `addRequestUrl` after URL parsing: the root is created from the first
   request's host and kept afterwards, whatever later hosts are.
   */
  function AddRequest(a: RequestAnalyzer, req: Request): (b: RequestAnalyzer)
    ensures b.recognizers == a.recognizers && b.treeRoot.Some?
    ensures a.treeRoot.None? ==> b.treeRoot.value.value == req.host && b.treeRoot.value.kind == Host
    ensures a.treeRoot.Some? ==>
              b.treeRoot.value.value == a.treeRoot.value.value && b.treeRoot.value.kind == a.treeRoot.value.kind
  {
    var root := if a.treeRoot.None? then InitTreeRoot(req.host) else a.treeRoot.value;
    a.(treeRoot := Some(HandleUrlSegments(a.recognizers, root, req.path, req.query)))
  }

  /** The requests fed one at a time, in order. */
  function AddRequests(a: RequestAnalyzer, reqs: seq<Request>): (b: RequestAnalyzer)
    ensures b.recognizers == a.recognizers
    ensures |reqs| > 0 ==> b.treeRoot.Some?
    ensures a.treeRoot.Some? ==> b.treeRoot.Some? && b.treeRoot.value.value == a.treeRoot.value.value
    decreases |reqs|
  {
    if |reqs| == 0 then a else AddRequests(AddRequest(a, reqs[0]), reqs[1..])
  }

  /** `getAnalyzedRoutes`; `RequestAnalyzer.ts` throws before the first request, so a root is required. */
  function GetAnalyzedRoutes(a: RequestAnalyzer): (r: seq<Route>)
    requires a.treeRoot.Some?
    ensures forall k :: 0 <= k < |r| ==> r[k].host == a.treeRoot.value.value
  {
    AnalyzedRoutes(a.treeRoot.value)
  }

  /** The analyzer's tree has a host root and satisfies the structural invariant. */
  ghost predicate Valid(a: RequestAnalyzer) {
    a.treeRoot.Some? ==> a.treeRoot.value.kind == Host && WellFormed(a.treeRoot.value)
  }

  lemma AddRequestValid(a: RequestAnalyzer, req: Request)
    requires Valid(a) && PlaceholdersNonEmpty(a.recognizers)
    ensures Valid(AddRequest(a, req))
  {
    var root := if a.treeRoot.None? then InitTreeRoot(req.host) else a.treeRoot.value;
    RequestSegmentsProper(a.recognizers, req.path, req.query);
    DescendWellFormed(root, RequestSegments(a.recognizers, req.path, req.query));
  }

  /**
   After any sequence of requests fed to a fresh analyzer whose placeholders
   are non-empty, the tree satisfies the invariant, its host is the first
   request's, and every route carries that host.
   */
  lemma {:induction false} AddRequestsValid(a: RequestAnalyzer, reqs: seq<Request>)
    requires Valid(a) && PlaceholdersNonEmpty(a.recognizers)
    ensures Valid(AddRequests(a, reqs))
    decreases |reqs|
  {
    if |reqs| > 0 {
      AddRequestValid(a, reqs[0]);
      AddRequestsValid(AddRequest(a, reqs[0]), reqs[1..]);
    }
  }

  /** The host of every route is the first request's host; later hosts are ignored. */
  lemma HostOfFirstRequest(rs: seq<Recognizer>, reqs: seq<Request>)
    requires |reqs| > 0
    ensures var b := AddRequests(RequestAnalyzer(rs, None), reqs);
            && b.treeRoot.Some?
            && b.treeRoot.value.value == reqs[0].host
            && forall k :: 0 <= k < |GetAnalyzedRoutes(b)| ==> GetAnalyzedRoutes(b)[k].host == reqs[0].host
  {
    var first := AddRequest(RequestAnalyzer(rs, None), reqs[0]);
    assert AddRequests(RequestAnalyzer(rs, None), reqs) == AddRequests(first, reqs[1..]);
  }
}
