/** What the three plant-side line handlers of the arm simulator share: the periodic handled
    time, the `all="true"` switch of their XML configuration, the first-match selection of
    coordinates by name, and the lookup of muscles by name in the muscle subsystem. The XML
    tokenizer itself is not part of this model: the handlers receive the tokens. */
module MsarmCommon {

  datatype Option<T> = None | Some(value: T)

  /** boost::to_lower on one character (ASCII letters only). */
  function LowerChar(c: char): (r: char)
    ensures 'A' <= c <= 'Z' ==> r as int == c as int + 32
    ensures !('A' <= c <= 'Z') ==> r == c
  {
    if 'A' <= c <= 'Z' then (c as int + 32) as char else c
  }

  function ToLower(s: string): (r: string)
    ensures |r| == |s| && forall i :: 0 <= i < |s| ==> r[i] == LowerChar(s[i])
  {
    seq(|s|, i requires 0 <= i < |s| => LowerChar(s[i]))
  }

  /** The `all` attribute selects everything when it reads "true" in any letter case. */
  predicate NeedAll(all: string)
  {
    all != "" && ToLower(all) == "true"
  }

  /** Any spelling of "true" switches the selection to everything; nothing else does. */
  lemma NeedAllSpellings(all: string)
    ensures NeedAll(all) <==> |all| == 4 && all[0] in "tT" && all[1] in "rR" && all[2] in "uU" && all[3] in "eE"
  {
    if |all| == 4 {
      var low := ToLower(all);
      assert low == [LowerChar(all[0]), LowerChar(all[1]), LowerChar(all[2]), LowerChar(all[3])];
    }
  }

  /** The position of the first entry equal to name, if any. */
  function FirstIndex(names: seq<string>, name: string): (r: Option<nat>)
    ensures r.Some? <==> name in names
    ensures r.Some? ==> r.value < |names| && names[r.value] == name && forall j :: 0 <= j < r.value ==> names[j] != name
  {
    if names == [] then None
    else if names[0] == name then Some(0)
    else match FirstIndex(names[1..], name)
      case None => None
      case Some(k) => Some(k + 1)
  }

  /** For each token in order, the first coordinate of that name; tokens that name no
      coordinate are skipped. */
  function FirstMatches(tokens: seq<string>, names: seq<string>): (r: seq<nat>)
    ensures |r| <= |tokens|
    ensures forall k :: 0 <= k < |r| ==> r[k] < |names| && names[r[k]] in tokens
  {
    if tokens == [] then []
    else
      var rest := FirstMatches(tokens[..|tokens| - 1], names);
      match FirstIndex(names, tokens[|tokens| - 1])
      case None => rest
      case Some(n) => rest + [n]
  }

  /** When every token names a coordinate, the selection has one entry per token, in token
      order, and each is the first coordinate of that name. */
  lemma {:induction false} FirstMatchesAllKnown(tokens: seq<string>, names: seq<string>)
    requires forall t :: t in tokens ==> t in names
    ensures |FirstMatches(tokens, names)| == |tokens|
    ensures forall i :: 0 <= i < |tokens| ==> FirstIndex(names, tokens[i]) == Some(FirstMatches(tokens, names)[i])
    decreases |tokens|
  {
    if tokens != [] {
      var init := tokens[..|tokens| - 1];
      var last := tokens[|tokens| - 1];
      assert forall t :: t in init ==> t in tokens;
      FirstMatchesAllKnown(init, names);
      assert last in tokens;
      var n := FirstIndex(names, last).value;
      assert FirstMatches(tokens, names) == FirstMatches(init, names) + [n];
      forall i | 0 <= i < |tokens|
        ensures FirstIndex(names, tokens[i]) == Some(FirstMatches(tokens, names)[i])
      {
        if i < |init| {
          assert tokens[i] == init[i];
        }
      }
    }
  }

  /** When no token names a coordinate, nothing is selected. */
  lemma {:induction false} FirstMatchesNoneKnown(tokens: seq<string>, names: seq<string>)
    requires forall t :: t in tokens ==> t !in names
    ensures FirstMatches(tokens, names) == []
    decreases |tokens|
  {
    if tokens != [] {
      var init := tokens[..|tokens| - 1];
      assert forall t :: t in init ==> t in tokens;
      FirstMatchesNoneKnown(init, names);
      assert tokens[|tokens| - 1] in tokens;
    }
  }

  /** The selection loop of readFromXML: for each token, scan the coordinates and push the
      first one whose name is equal. */
  method SelectByName(tokens: seq<string>, names: seq<string>) returns (sel: seq<nat>)
    ensures sel == FirstMatches(tokens, names)
  {
    sel := [];
    var i := 0;
    while i < |tokens|
      invariant 0 <= i <= |tokens|
      invariant sel == FirstMatches(tokens[..i], names)
    {
      var n := 0;
      while n < |names| && names[n] != tokens[i]
        invariant 0 <= n <= |names|
        invariant forall j :: 0 <= j < n ==> names[j] != tokens[i]
      {
        n := n + 1;
      }
      assert tokens[..i + 1][..i] == tokens[..i];
      if n < |names| {
        sel := sel + [n];
      }
      i := i + 1;
    }
    assert tokens[..i] == tokens;
  }

  /** Every entry, in order. */
  function AllIndices(n: nat): (r: seq<nat>)
    ensures |r| == n && forall i :: 0 <= i < n ==> r[i] == i
  {
    seq(n, i => i)
  }

  /** The muscle list as readFromXML builds it: one entry per token, the muscle of that name or
      a null entry when the subsystem has none (the error check after the lookup tests the XML
      node, which is known to be present, instead of the lookup result). */
  function SelectMusclesAsWritten(tokens: seq<string>, subsystem: seq<string>): (r: seq<Option<nat>>)
    ensures |r| == |tokens|
    ensures forall i :: 0 <= i < |tokens| ==> r[i] == FirstIndex(subsystem, tokens[i])
  {
    seq(|tokens|, i requires 0 <= i < |tokens| => FirstIndex(subsystem, tokens[i]))
  }

  /** A name the subsystem lacks leaves a null muscle in the list, which handle later
      dereferences. */
  lemma UnknownMuscleIsNull(tokens: seq<string>, subsystem: seq<string>, i: int)
    requires 0 <= i < |tokens| && tokens[i] !in subsystem
    ensures SelectMusclesAsWritten(tokens, subsystem)[i] == None
  {
  }

  /** The muscle list with the evident intent: every token must name a muscle of the
      subsystem, otherwise configuration fails. */
  function SelectMuscles(tokens: seq<string>, subsystem: seq<string>): (r: Option<seq<nat>>)
    ensures r.Some? <==> forall t :: t in tokens ==> t in subsystem
    ensures r.Some? ==> |r.value| == |tokens|
    ensures r.Some? ==> forall i :: 0 <= i < |tokens| ==> r.value[i] < |subsystem| && subsystem[r.value[i]] == tokens[i]
    decreases |tokens|
  {
    if tokens == [] then Some([])
    else
      match FirstIndex(subsystem, tokens[0])
      case None => None
      case Some(m) =>
        match SelectMuscles(tokens[1..], subsystem)
        case None => None
        case Some(ms) => Some([m] + ms)
  }

  /** Where every name resolves, the corrected list is the as-written one without nulls. */
  lemma {:induction false} SelectMusclesAgrees(tokens: seq<string>, subsystem: seq<string>)
    requires forall t :: t in tokens ==> t in subsystem
    ensures forall i :: 0 <= i < |tokens| ==>
              SelectMusclesAsWritten(tokens, subsystem)[i] == Some(SelectMuscles(tokens, subsystem).value[i])
    decreases |tokens|
  {
    if tokens != [] {
      var rest := tokens[1..];
      assert forall t :: t in rest ==> t in tokens;
      SelectMusclesAgrees(rest, subsystem);
      assert tokens[0] in tokens;
      var m := FirstIndex(subsystem, tokens[0]).value;
      var ms := SelectMuscles(rest, subsystem).value;
      assert SelectMuscles(tokens, subsystem).value == [m] + ms;
      forall i | 0 <= i < |tokens|
        ensures SelectMusclesAsWritten(tokens, subsystem)[i] == Some(SelectMuscles(tokens, subsystem).value[i])
      {
        if i > 0 {
          assert tokens[i] == rest[i - 1];
          assert SelectMusclesAsWritten(rest, subsystem)[i - 1] == Some(ms[i - 1]);
        }
      }
    }
  }

  /** The muscle selection loop of readFromXML with the corrected error check. */
  method ResolveMuscles(tokens: seq<string>, subsystem: seq<string>) returns (ok: bool, sel: seq<nat>)
    ensures ok <==> SelectMuscles(tokens, subsystem).Some?
    ensures ok ==> sel == SelectMuscles(tokens, subsystem).value
  {
    sel := [];
    var i := 0;
    while i < |tokens|
      invariant 0 <= i <= |tokens|
      invariant forall t :: t in tokens[..i] ==> t in subsystem
      invariant |sel| == i && forall k :: 0 <= k < i ==> sel[k] < |subsystem| && subsystem[sel[k]] == tokens[k]
      invariant forall k :: 0 <= k < i ==> FirstIndex(subsystem, tokens[k]) == Some(sel[k])
    {
      var found := FirstIndex(subsystem, tokens[i]);
      if found.None? {
        assert tokens[i] in tokens;
        return false, [];
      }
      sel := sel + [found.value];
      assert tokens[..i + 1] == tokens[..i] + [tokens[i]];
      i := i + 1;
    }
    assert tokens[..i] == tokens;
    SelectMusclesAgrees(tokens, subsystem);
    ok := true;
  }
}
