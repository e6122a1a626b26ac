/**
 The request tree (`IUrlPart`): one node per path segment or query pair,
 with its classified value, its type, its position and its ordered children.
 */
module UrlParts {
  import opened Text

  /** The node's `type`: the root host, a literal segment, a recognised variable, or an end marker. */
  datatype Kind = Host | Static | Var | Terminator

  /** The base of a node's `position`, before any "Optional" suffix. */
  datatype Role = HostRole | PathRole | QueryRole | TerminatorRole

  /**
   A position string, kept as its base role and the number of "Optional"
   suffixes appended to it; the suffix may be appended any number of times.
   */
  datatype Position = Position(role: Role, optionals: nat)

  function RoleName(r: Role): string {
    match r
    case HostRole => "host"
    case PathRole => "path"
    case QueryRole => "query"
    case TerminatorRole => "terminator"
  }

  /** `k` copies of "Optional" */
  function OptionalSuffix(k: nat): (r: string)
    ensures |r| == 8 * k
    ensures k > 0 ==> EndsWith(r, "Optional")
  {
    if k == 0 then "" else OptionalSuffix(k - 1) + "Optional"
  }

  /** The position as `RequestAnalyzer.ts` spells it, e.g. "queryOptionalOptional". */
  function PositionString(p: Position): string {
    RoleName(p.role) + OptionalSuffix(p.optionals)
  }

  /** `position += "Optional"` */
  function WithOptional(p: Position): (q: Position)
    ensures PositionString(q) == PositionString(p) + "Optional"
    ensures q.role == p.role && q.optionals == p.optionals + 1
  {
    Position(p.role, p.optionals + 1)
  }

  const PathPosition := Position(PathRole, 0)
  const QueryPosition := Position(QueryRole, 0)
  const TerminatorPosition := Position(TerminatorRole, 0)

  /** A position string determines the position it was built from. */
  lemma PositionStringInjective(p: Position, q: Position)
    requires PositionString(p) == PositionString(q)
    ensures p == q
  {
    var s := PositionString(p);
    assert |s| == |RoleName(p.role)| + 8 * p.optionals == |RoleName(q.role)| + 8 * q.optionals;
    assert s[0] == RoleName(p.role)[0] && s[0] == RoleName(q.role)[0];
    if p.role == HostRole || q.role == HostRole {
      assert s[0] == 'h';
    }
  }

  /** `position == "query"` holds exactly of the unsuffixed query position. */
  lemma IsQueryString(p: Position)
    ensures PositionString(p) == "query" <==> p == QueryPosition
  {
    assert PositionString(QueryPosition) == "query";
    if PositionString(p) == "query" {
      PositionStringInjective(p, QueryPosition);
    }
  }

  /** `position == "queryOptional"` holds exactly of a query position with one suffix. */
  lemma IsQueryOptionalString(p: Position)
    ensures PositionString(p) == "queryOptional" <==> p == Position(QueryRole, 1)
  {
    assert PositionString(Position(QueryRole, 1)) == "queryOptional";
    if PositionString(p) == "queryOptional" {
      PositionStringInjective(p, Position(QueryRole, 1));
    }
  }

  /** `position == "terminator"` holds exactly of the unsuffixed terminator position. */
  lemma IsTerminatorString(p: Position)
    ensures PositionString(p) == "terminator" <==> p == TerminatorPosition
  {
    assert PositionString(TerminatorPosition) == "terminator";
    if PositionString(p) == "terminator" {
      PositionStringInjective(p, TerminatorPosition);
    }
  }

  /** `position.endsWith("Optional")` holds exactly when a suffix was appended. */
  lemma EndsWithOptionalString(p: Position)
    ensures EndsWith(PositionString(p), "Optional") <==> p.optionals > 0
  {
    var s := PositionString(p);
    if p.optionals > 0 {
      var t := OptionalSuffix(p.optionals);
      assert s[|s| - 8..] == t[|t| - 8..];
    } else {
      assert s == RoleName(p.role);
      if p.role == TerminatorRole {
        assert s[2..] == "rminator";
      }
    }
  }

  datatype Node = Node(value: string, kind: Kind, position: Position, children: seq<Node>)

  /** The end marker appended below the node where a request stops. */
  const TerminatorLeaf := Node("", Terminator, TerminatorPosition, [])

  /** `childern.some(c => c.type == "terminator")` */
  predicate HasTerminator(cs: seq<Node>) {
    exists i :: 0 <= i < |cs| && cs[i].kind == Terminator
  }

  /** Siblings are told apart by value alone. */
  ghost predicate DistinctValues(cs: seq<Node>) {
    forall i, j :: 0 <= i < j < |cs| ==> cs[i].value != cs[j].value
  }

  /** The structural invariant at one node. */
  ghost predicate LocallyWellFormed(n: Node) {
    && (n.kind == Terminator <==> n.position.role == TerminatorRole)
    && (n.kind == Terminator ==> n.value == "" && n.position == TerminatorPosition && n.children == [])
    && DistinctValues(n.children)
    && (HasTerminator(n.children) ==> |n.children| == 1)
  }

  /** The structural invariant at every node of the tree. */
  ghost predicate WellFormed(n: Node) {
    LocallyWellFormed(n) && forall i :: 0 <= i < |n.children| ==> WellFormed(n.children[i])
  }
}
