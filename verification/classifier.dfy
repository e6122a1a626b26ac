/**
 Token classification (`getPatten`): the registered recognizers are tried in
 registration order and the first that matches supplies the placeholder.
 */
module Classifier {
  import opened UrlParts

  /** `IPatternRecognizer`: a match predicate and the placeholder it stands for. */
  datatype Recognizer = Recognizer(patternName: string, urlString: string, isMatch: string -> bool)

  /** The `{ type, value }` pair a token classifies to. */
  datatype Classified = Classified(kind: Kind, value: string)

  /** True when recognizer `i` is the first in `rs` that matches `token`. */
  predicate FirstMatch(rs: seq<Recognizer>, token: string, i: int) {
    && 0 <= i < |rs|
    && rs[i].isMatch(token)
    && forall j :: 0 <= j < i ==> !rs[j].isMatch(token)
  }

  function Classify(rs: seq<Recognizer>, token: string): (r: Classified)
    ensures r.kind == Var || r.kind == Static
    ensures r.kind == Var <==> exists i :: 0 <= i < |rs| && rs[i].isMatch(token)
    ensures r.kind == Static ==> r.value == token
    ensures forall i :: FirstMatch(rs, token, i) ==> r == Classified(Var, rs[i].urlString)
  {
    if |rs| == 0 then Classified(Static, token)
    else if rs[0].isMatch(token) then Classified(Var, rs[0].urlString)
    else
      var r := Classify(rs[1..], token);
      assert forall i :: FirstMatch(rs, token, i) ==> FirstMatch(rs[1..], token, i - 1);
      assert forall i :: 0 <= i < |rs[1..]| && rs[1..][i].isMatch(token) ==> rs[i + 1].isMatch(token);
      r
  }

  /** A recognised token always classifies to some recognizer's placeholder, never to itself. */
  lemma {:induction false} ClassifiedVarIsPlaceholder(rs: seq<Recognizer>, token: string)
    requires Classify(rs, token).kind == Var
    ensures exists i :: FirstMatch(rs, token, i) && Classify(rs, token).value == rs[i].urlString
  {
    if rs[0].isMatch(token) {
      assert FirstMatch(rs, token, 0);
    } else {
      ClassifiedVarIsPlaceholder(rs[1..], token);
      var i :| FirstMatch(rs[1..], token, i) && Classify(rs[1..], token).value == rs[1..][i].urlString;
      assert FirstMatch(rs, token, i + 1);
    }
  }
}

/** Registration appends: a later recognizer is consulted only when no earlier one matches. */
module Registration {
  import opened UrlParts
  import opened Classifier

  lemma {:induction false} ClassifyAfterRegister(rs: seq<Recognizer>, r: Recognizer, token: string)
    ensures (exists i :: 0 <= i < |rs| && rs[i].isMatch(token)) ==>
              Classify(rs + [r], token) == Classify(rs, token)
    ensures (forall i :: 0 <= i < |rs| ==> !rs[i].isMatch(token)) ==>
              Classify(rs + [r], token) ==
                (if r.isMatch(token) then Classified(Var, r.urlString) else Classified(Static, token))
  {
    if |rs| > 0 {
      assert (rs + [r])[1..] == rs[1..] + [r];
      ClassifyAfterRegister(rs[1..], r, token);
      if !rs[0].isMatch(token) {
        assert forall i :: 0 <= i < |rs[1..]| ==> rs[1..][i] == rs[i + 1];
      }
    } else {
      assert rs + [r] == [r];
    }
  }
}
