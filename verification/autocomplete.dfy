/**
 * Shell completion of log-group names (internal/autocomplete.go). The
 * output of `aws logs describe-log-groups --output json` is an input (None
 * when the command failed), and so is the JSON decoder that extracts the
 * names from it (None when the output does not decode).
 */
module AutoComplete {
  import opened Common

  /** The completion directives of the command-line library. */
  datatype Directive = Default | Error | NoSpace | NoFileComp | FilterFileExt | FilterDirs | KeepOrder

  predicate HasPrefix(s: string, prefix: string) {
    |prefix| <= |s| && s[..|prefix|] == prefix
  }

  /** A name is offered when nothing was typed yet, or when it starts with
    * what was typed (case-sensitive). */
  predicate Offered(name: string, toComplete: string) {
    toComplete == "" || HasPrefix(name, toComplete)
  }

  /** The names offered, in response order. */
  function Matching(names: seq<string>, toComplete: string): (r: seq<string>)
    ensures |r| <= |names|
    ensures forall j :: 0 <= j < |r| ==> Offered(r[j], toComplete)
  {
    if names == [] then []
    else (if Offered(names[0], toComplete) then [names[0]] else []) + Matching(names[1..], toComplete)
  }

  /** AutoCompleteLogGroups: on a failed command or undecodable output no
    * suggestions; otherwise the decoded names that match, in order. File
    * completion is switched off on every path. */
  method AutoCompleteLogGroups(output: Option<Bytes>, decode: Bytes -> Option<seq<string>>, toComplete: string)
    returns (suggestions: seq<string>, directive: Directive)
    ensures directive == NoFileComp
    ensures output.None? ==> suggestions == []
    ensures output.Some? && decode(output.value).None? ==> suggestions == []
    ensures output.Some? && decode(output.value).Some? ==>
      suggestions == Matching(decode(output.value).value, toComplete)
  {
    if output.None? {
      return [], NoFileComp;
    }
    var resp := decode(output.value);
    if resp.None? {
      return [], NoFileComp;
    }
    var names := resp.value;
    suggestions := [];
    var i := 0;
    while i < |names|
      invariant 0 <= i <= |names|
      invariant suggestions + Matching(names[i..], toComplete) == Matching(names, toComplete)
    {
      var name := names[i];
      ghost var before := suggestions;
      assert names[i..][1..] == names[i + 1..];
      ghost var picked := if Offered(name, toComplete) then [name] else [];
      assert Matching(names[i..], toComplete) == picked + Matching(names[i + 1..], toComplete);
      if toComplete == "" || HasPrefix(name, toComplete) {
        suggestions := suggestions + [name];
      }
      assert suggestions == before + picked;
      i := i + 1;
    }
    assert names[i..] == [];
    return suggestions, NoFileComp;
  }

  /** With nothing typed, every decoded name is suggested, in order. */
  lemma {:induction false} EmptyPrefixOffersAll(names: seq<string>)
    ensures Matching(names, "") == names
  {
    if names != [] {
      EmptyPrefixOffersAll(names[1..]);
    }
  }

  /** Each name is suggested exactly as often as it occurs when it matches,
    * and never otherwise: no matching name is dropped, duplicates are kept. */
  lemma {:induction false} MatchingCounts(names: seq<string>, toComplete: string)
    ensures forall x :: multiset(Matching(names, toComplete))[x]
                        == if Offered(x, toComplete) then multiset(names)[x] else 0
  {
    if names != [] {
      MatchingCounts(names[1..], toComplete);
      assert names == [names[0]] + names[1..];
    }
  }

  /** r is obtained from s by dropping elements, keeping the order. */
  ghost predicate IsSubsequence(r: seq<string>, s: seq<string>) {
    exists idx: seq<int> ::
      && |idx| == |r|
      && (forall j :: 0 <= j < |idx| ==> 0 <= idx[j] < |s| && r[j] == s[idx[j]])
      && (forall j, k :: 0 <= j < k < |idx| ==> idx[j] < idx[k])
  }

  lemma {:induction false} MatchingPositions(names: seq<string>, toComplete: string) returns (idx: seq<int>)
    ensures var r := Matching(names, toComplete);
      && |idx| == |r|
      && (forall j :: 0 <= j < |idx| ==> 0 <= idx[j] < |names| && r[j] == names[idx[j]])
      && (forall j, k :: 0 <= j < k < |idx| ==> idx[j] < idx[k])
  {
    if names == [] {
      idx := [];
    } else {
      var rest := MatchingPositions(names[1..], toComplete);
      var shifted := seq(|rest|, j requires 0 <= j < |rest| => rest[j] + 1);
      if Offered(names[0], toComplete) {
        idx := [0] + shifted;
      } else {
        idx := shifted;
      }
    }
  }

  /** The suggestions keep the response order. */
  lemma MatchingIsSubsequence(names: seq<string>, toComplete: string)
    ensures IsSubsequence(Matching(names, toComplete), names)
  {
    var idx := MatchingPositions(names, toComplete);
  }
}
