/** The plant's excitation setter: on each due tick it reads one line of standard input, parses
    its tab- or space-separated fields into the four command slots, and sets the excitation of
    each selected muscle from the slot its name prefix routes it to. atof() is a parameter. */
module ExcitationHandler {
  import opened MsarmCommon

  const NUM_SLOTS: int := 4

  /** The separators given to boost::split. */
  predicate IsFieldSep(c: char)
  {
    c == '\t' || c == ' '
  }

  function SepCount(s: string): nat
  {
    if s == "" then 0 else (if IsFieldSep(s[0]) then 1 else 0) + SepCount(s[1..])
  }

  /** boost::split on tab and space without merging: every separator ends a field, so
      adjacent separators give empty fields. */
  function Split(s: string): (r: seq<string>)
    ensures |r| == 1 + SepCount(s)
    ensures forall t :: t in r ==> forall c :: c in t ==> !IsFieldSep(c)
    decreases |s|
  {
    if s == "" then [""]
    else
      var rest := Split(s[1..]);
      if IsFieldSep(s[0]) then [""] + rest
      else
        assert rest[0] in rest;
        assert forall c :: c in [s[0]] + rest[0] ==> c == s[0] || c in rest[0];
        assert forall t :: t in rest[1..] ==> t in rest;
        [[s[0]] + rest[0]] + rest[1..]
  }

  /** A separator splits the text into the fields before it and the fields after it. */
  lemma {:induction false} SplitAt(a: string, c: char, b: string)
    requires IsFieldSep(c)
    ensures Split(a + [c] + b) == Split(a) + Split(b)
    decreases |a|
  {
    if a == [] {
      assert a + [c] + b == [c] + b;
      assert ([c] + b)[1..] == b;
    } else {
      assert (a + [c] + b)[1..] == a[1..] + [c] + b;
      SplitAt(a[1..], c, b);
    }
  }

  /** Text without separators is one field. */
  lemma {:induction false} SplitWhole(s: string)
    requires forall c :: c in s ==> !IsFieldSep(c)
    ensures Split(s) == [s]
    decreases |s|
  {
    if s != "" {
      assert s[0] in s;
      forall c | c in s[1..] ensures !IsFieldSep(c) {
        assert c in s;
      }
      SplitWhole(s[1..]);
      assert [s[0]] + s[1..] == s;
    }
  }

  /** The excitation slot a muscle's name routes it to, by prefix, tried in this order:
      BIC/BRA to 3, TRI to 2, PECM/DELT1/Coraco to 1, DELT3/Infra/Latis/Teres to 0. */
  function Group(name: string): (g: Option<nat>)
    ensures g.Some? ==> g.value < 4
    ensures g == Some(3) <==> "BIC" <= name || "BRA" <= name
    ensures g == Some(2) <==> !("BIC" <= name || "BRA" <= name) && "TRI" <= name
  {
    if "BIC" <= name || "BRA" <= name then Some(3)
    else if "TRI" <= name then Some(2)
    else if "PECM" <= name || "DELT1" <= name || "Coraco" <= name then Some(1)
    else if "DELT3" <= name || "Infra" <= name || "Latis" <= name || "Teres" <= name then Some(0)
    else None
  }

  /** The excitations after the routing loop over the selected muscles. */
  function Routed(exc: seq<real>, subsystem: seq<string>, muscles: seq<nat>, cmd: seq<real>): (r: seq<real>)
    requires |exc| == |subsystem| && |cmd| == NUM_SLOTS
    requires forall k :: 0 <= k < |muscles| ==> muscles[k] < |subsystem|
    ensures |r| == |exc|
    ensures forall j :: 0 <= j < |exc| ==>
              r[j] == if j in muscles && Group(subsystem[j]).Some? then cmd[Group(subsystem[j]).value] else exc[j]
    decreases |muscles|
  {
    if muscles == [] then exc
    else
      var init := muscles[..|muscles| - 1];
      var m := muscles[|muscles| - 1];
      assert forall j :: j in muscles <==> j in init || j == m;
      var prev := Routed(exc, subsystem, init, cmd);
      match Group(subsystem[m])
      case None => prev
      case Some(g) => prev[m := cmd[g]]
  }

  /** Selected muscles of one prefix group receive the same excitation on a tick. */
  lemma SameGroupSameValue(exc: seq<real>, subsystem: seq<string>, muscles: seq<nat>, cmd: seq<real>, j: nat, k: nat)
    requires |exc| == |subsystem| && |cmd| == NUM_SLOTS
    requires forall i :: 0 <= i < |muscles| ==> muscles[i] < |subsystem|
    requires j in muscles && k in muscles && Group(subsystem[j]).Some? && Group(subsystem[j]) == Group(subsystem[k])
    ensures Routed(exc, subsystem, muscles, cmd)[j] == Routed(exc, subsystem, muscles, cmd)[k]
  {
  }

  class ExcitationSetter {
    /** The names of the muscle subsystem's muscles, by index. */
    const subsystem: seq<string>
    /** The names of the articulated body's coordinates, by index. */
    const coordNames: seq<string>
    const atof: string -> real
    /** musclesExc: the four command slots. */
    const musclesExc: array<real>
    var interval: real
    /** The time of the last handled tick. */
    var handledTime: Option<real>
    /** _muscles, as indices into the subsystem. */
    var muscles: seq<nat>
    /** _coords, as indices into the body's coordinates. */
    var coords: seq<nat>
    /** The excitation of each muscle of the subsystem. */
    var excitation: seq<real>

    ghost predicate Valid()
      reads this, musclesExc
    {
      musclesExc.Length == NUM_SLOTS && |excitation| == |subsystem| &&
      (forall k :: 0 <= k < |muscles| ==> muscles[k] < |subsystem|) &&
      (forall k :: 0 <= k < |coords| ==> coords[k] < |coordNames|)
    }

    constructor (subsystem: seq<string>, coordNames: seq<string>, atof: string -> real, excitation: seq<real>)
      requires |excitation| == |subsystem|
      ensures Valid() && fresh(musclesExc)
      ensures musclesExc[..] == [0.0, 0.0, 0.0, 0.0] && handledTime == None
      ensures muscles == [] && coords == [] && this.excitation == excitation
      ensures this.subsystem == subsystem && this.coordNames == coordNames && this.atof == atof
    {
      this.subsystem := subsystem;
      this.coordNames := coordNames;
      this.atof := atof;
      musclesExc := new real[NUM_SLOTS](_ => 0.0);
      interval := 0.0;
      handledTime := None;
      muscles := [];
      coords := [];
      this.excitation := excitation;
    }

    /** readFromXML: the event interval, the muscles (all of the subsystem, or one per name,
        failing on a name the subsystem lacks) and the coordinates (all, or the first match per
        name). Names are appended to what is already selected; "all" replaces it. */
    method ReadFromXml(interval: real, muscleAll: string, muscleTokens: seq<string>, coordAll: string, coordTokens: seq<string>)
      returns (ok: bool)
      requires Valid()
      modifies this`interval, this`muscles, this`coords
      ensures Valid()
      ensures ok <==> NeedAll(muscleAll) || SelectMuscles(muscleTokens, subsystem).Some?
      ensures this.interval == interval
      ensures !ok ==> muscles == old(muscles) && coords == old(coords)
      ensures ok && NeedAll(muscleAll) ==> muscles == AllIndices(|subsystem|)
      ensures ok && !NeedAll(muscleAll) ==> muscles == old(muscles) + SelectMuscles(muscleTokens, subsystem).value
      ensures ok && NeedAll(coordAll) ==> coords == AllIndices(|coordNames|)
      ensures ok && !NeedAll(coordAll) ==> coords == old(coords) + FirstMatches(coordTokens, coordNames)
    {
      this.interval := interval;
      if NeedAll(muscleAll) {
        muscles := AllIndices(|subsystem|);
      } else {
        var found, sel := ResolveMuscles(muscleTokens, subsystem);
        if !found {
          return false;
        }
        muscles := muscles + sel;
      }
      if NeedAll(coordAll) {
        coords := AllIndices(|coordNames|);
      } else {
        var sel := SelectByName(coordTokens, coordNames);
        coords := coords + sel;
      }
      ok := true;
    }

    /** handle: nothing happens on a tick that is not due. Otherwise a non-empty line overwrites
        slot i with the value of field i and keeps the slots past the last field; an empty line
        keeps all four. Then each selected muscle whose name routes to a slot takes that
        slot's value. More than four fields would write past the four slots. */
    method Handle(currTime: real, due: bool, input: string) returns (handled: bool)
      requires Valid()
      requires input == "" || |Split(input)| <= NUM_SLOTS
      modifies this`handledTime, this`excitation, musclesExc
      ensures Valid()
      ensures handled == due
      ensures !due ==> handledTime == old(handledTime) && excitation == old(excitation) && musclesExc[..] == old(musclesExc[..])
      ensures due ==> handledTime == Some(currTime)
      ensures due && input == "" ==> musclesExc[..] == old(musclesExc[..])
      ensures due && input != "" ==>
                forall i :: 0 <= i < NUM_SLOTS ==>
                  musclesExc[i] == if i < |Split(input)| then atof(Split(input)[i]) else old(musclesExc[i])
      ensures due ==> excitation == Routed(old(excitation), subsystem, muscles, musclesExc[..])
    {
      if !due {
        return false;
      }
      if |input| > 0 {
        ParseLine(input);
      }
      RouteExcitations();
      handledTime := Some(currTime);
      handled := true;
    }

    /** The parse loop: field i of the line goes to slot i. */
    method ParseLine(input: string)
      requires Valid() && |Split(input)| <= NUM_SLOTS
      modifies musclesExc
      ensures Valid()
      ensures forall i :: 0 <= i < NUM_SLOTS ==>
                musclesExc[i] == if i < |Split(input)| then atof(Split(input)[i]) else old(musclesExc[i])
    {
      var strs := Split(input);
      var i := 0;
      while i < |strs|
        invariant 0 <= i <= |strs|
        invariant forall k :: 0 <= k < NUM_SLOTS ==> musclesExc[k] == if k < i then atof(strs[k]) else old(musclesExc[k])
      {
        musclesExc[i] := atof(strs[i]);
        i := i + 1;
      }
    }

    /** The routing loop: each selected muscle whose name routes to a slot takes its value. */
    method RouteExcitations()
      requires Valid()
      modifies this`excitation
      ensures Valid()
      ensures excitation == Routed(old(excitation), subsystem, muscles, musclesExc[..])
    {
      var m := 0;
      while m < |muscles|
        invariant 0 <= m <= |muscles|
        invariant |excitation| == |subsystem|
        invariant excitation == Routed(old(excitation), subsystem, muscles[..m], musclesExc[..])
      {
        assert muscles[..m + 1][..m] == muscles[..m];
        var g := Group(subsystem[muscles[m]]);
        if g.Some? {
          excitation := excitation[muscles[m] := musclesExc[g.value]];
        }
        m := m + 1;
      }
      assert muscles[..m] == muscles;
    }
  }
}
