/** The plant's muscle status handler: on each due tick it stores the fibre length of every
    selected muscle in the 18 length slots and prints all 18 slots as one line on standard
    output, each value followed by two spaces. Its configuration keeps the recognised variable
    names and chooses the output file name. Stream formatting of a double is a parameter. */
module MuscleStatusHandler {
  import opened MsarmCommon
  import SpikeRows

  const NUM_LENGTHS: int := 18

  /** The muscle variables the handler recognises, in the order "all" lists them. */
  const VAR_NAMES: seq<string> := [
    "excitation", "activation", "activationDeriv", "force", "stress", "speed",
    "activeFiberForce", "passiveFiberForce", "normalizedFiberLength", "RelativeMaxContraction",
    "fiberLengthDeriv", "isometricFiberForce", "capacity"]

  /** The order in which the arm model lists its 18 muscle branches. */
  const DEFAULT_MUSCLES: seq<string> := [
    "DELT1", "DELT2", "DELT3", "Infraspinatus", "Latissimus_dorsi_1", "Latissimus_dorsi_2",
    "Latissimus_dorsi_3", "Teres_minor", "PECM1", "PECM2", "PECM3", "Coracobrachialis",
    "TRIlong", "TRIlat", "TRImed", "BIClong", "BICshort", "BRA"]

  const STATUS_SUFFIX: string := "_status.pnt"

  predicate IsVarName(name: string)
  {
    name in VAR_NAMES
  }

  /** The tokens kept by the whitelist: the recognised names, in token order. */
  function KnownVars(tokens: seq<string>): (r: seq<string>)
    ensures forall n :: n in r <==> n in tokens && n in VAR_NAMES
    ensures forall n :: multiset(r)[n] == if n in VAR_NAMES then multiset(tokens)[n] else 0
    ensures SpikeRows.SubseqOf(r, tokens)
  {
    SpikeRows.FilterCount(tokens, IsVarName);
    SpikeRows.FilterIsSubseq(tokens, IsVarName);
    SpikeRows.Filter(tokens, IsVarName)
  }

  /** The whitelist loop of readFromXML: push each recognised token, skip the others. */
  method WhitelistVars(tokens: seq<string>) returns (names: seq<string>)
    ensures names == KnownVars(tokens)
  {
    names := [];
    var i := |tokens|;
    while i > 0
      invariant 0 <= i <= |tokens|
      invariant names == SpikeRows.Filter(tokens[i..], IsVarName)
    {
      i := i - 1;
      assert tokens[i..][1..] == tokens[i + 1..];
      if IsVarName(tokens[i]) {
        names := [tokens[i]] + names;
      }
    }
  }

  /** The printed values: each value and two spaces, in slot order. */
  function Padded(vals: seq<real>, fmt: real -> string): string
  {
    if vals == [] then "" else Padded(vals[..|vals| - 1], fmt) + fmt(vals[|vals| - 1]) + "  "
  }

  /** The line printed on a handled tick. */
  function StatusLine(vals: seq<real>, fmt: real -> string): string
  {
    Padded(vals, fmt) + "\n"
  }

  class MuscleStatus {
    /** The names of the muscle subsystem's muscles, by index. */
    const subsystem: seq<string>
    const sysName: string
    const fmt: real -> string
    /** muscleLengths: the 18 length slots. */
    const muscleLengths: array<real>
    var interval: real
    var handledTime: Option<real>
    /** _muscles, as indices into the subsystem. */
    var muscles: seq<nat>
    /** _varNames. */
    var varNames: seq<string>
    /** _outFileName. */
    var outFileName: string
    /** Everything printed on standard output. */
    var written: string

    ghost predicate Valid()
      reads this, muscleLengths
    {
      muscleLengths.Length == NUM_LENGTHS &&
      (forall k :: 0 <= k < |muscles| ==> muscles[k] < |subsystem|) &&
      (forall n :: n in varNames ==> n in VAR_NAMES)
    }

    constructor (subsystem: seq<string>, sysName: string, fmt: real -> string)
      ensures Valid() && fresh(muscleLengths)
      ensures muscleLengths[..] == seq(NUM_LENGTHS, _ => 0.0)
      ensures handledTime == None && muscles == [] && varNames == [] && outFileName == "" && written == ""
      ensures this.subsystem == subsystem && this.sysName == sysName && this.fmt == fmt
    {
      this.subsystem := subsystem;
      this.sysName := sysName;
      this.fmt := fmt;
      muscleLengths := new real[NUM_LENGTHS](_ => 0.0);
      interval := 0.0;
      handledTime := None;
      muscles := [];
      varNames := [];
      outFileName := "";
      written := "";
    }

    /** readFromXML: the interval, the muscles (all, or one per name, failing on a name the
        subsystem lacks), the variable names (all 13 in their fixed order, or the recognised
        tokens) and the output file name (the PntOutput name, else the subsystem's name with
        "_status.pnt"). */
    method ReadFromXml(interval: real, muscleAll: string, muscleTokens: seq<string>,
                       varAll: string, varTokens: seq<string>, pntOutput: Option<string>)
      returns (ok: bool)
      requires Valid()
      modifies this`interval, this`muscles, this`varNames, this`outFileName
      ensures Valid()
      ensures ok <==> NeedAll(muscleAll) || SelectMuscles(muscleTokens, subsystem).Some?
      ensures this.interval == interval
      ensures ok && NeedAll(muscleAll) ==> muscles == AllIndices(|subsystem|)
      ensures ok && !NeedAll(muscleAll) ==> muscles == old(muscles) + SelectMuscles(muscleTokens, subsystem).value
      ensures ok && NeedAll(varAll) ==> varNames == old(varNames) + VAR_NAMES
      ensures ok && !NeedAll(varAll) ==> varNames == old(varNames) + KnownVars(varTokens)
      ensures ok && pntOutput.Some? ==>
                outFileName == if pntOutput.value != "" then pntOutput.value else sysName + STATUS_SUFFIX
      ensures ok && pntOutput.None? ==>
                outFileName == if old(outFileName) != "" then old(outFileName) else sysName + STATUS_SUFFIX
      ensures !ok ==> muscles == old(muscles) && outFileName == old(outFileName) && varNames == old(varNames)
    {
      this.interval := interval;
      if NeedAll(muscleAll) {
        muscles := AllIndices(|subsystem|);
      } else {
        var found, sel := ResolveMuscles(muscleTokens, subsystem);
        if !found {
          return false;
        }
        muscles := muscles + sel;
      }
      if NeedAll(varAll) {
        varNames := varNames + VAR_NAMES;
      } else {
        var kept := WhitelistVars(varTokens);
        varNames := varNames + kept;
      }
      if pntOutput.Some? {
        outFileName := pntOutput.value;
      }
      if outFileName == "" {
        outFileName := sysName + STATUS_SUFFIX;
      }
      ok := true;
    }

    /** handle: nothing happens on a tick that is not due. Otherwise slot m takes the fibre
        length of the m-th selected muscle, the slots past the selected muscles keep their
        values, and all 18 slots are printed as one line. More than 18 selected muscles would
        write past the slots. */
    method Handle(currTime: real, due: bool, fiberLength: seq<real>) returns (handled: bool)
      requires Valid() && |fiberLength| == |muscles| <= NUM_LENGTHS
      modifies this`handledTime, this`written, muscleLengths
      ensures Valid()
      ensures handled == due
      ensures !due ==> handledTime == old(handledTime) && written == old(written) && muscleLengths[..] == old(muscleLengths[..])
      ensures due ==> handledTime == Some(currTime)
      ensures due ==> muscleLengths[..] == fiberLength + old(muscleLengths[..])[|muscles|..]
      ensures due ==> written == old(written) + StatusLine(muscleLengths[..], fmt)
    {
      if !due {
        return false;
      }
      StoreLengths(fiberLength);
      PrintLengths();
      handledTime := Some(currTime);
      handled := true;
    }

    /** The muscle loop: slot m takes the m-th selected muscle's fibre length. */
    method StoreLengths(fiberLength: seq<real>)
      requires Valid() && |fiberLength| == |muscles| <= NUM_LENGTHS
      modifies muscleLengths
      ensures Valid()
      ensures muscleLengths[..] == fiberLength + old(muscleLengths[..])[|muscles|..]
    {
      var m := 0;
      while m < |muscles|
        invariant 0 <= m <= |muscles|
        invariant muscleLengths[..] == fiberLength[..m] + old(muscleLengths[..])[m..]
      {
        muscleLengths[m] := fiberLength[m];
        assert fiberLength[..m + 1] == fiberLength[..m] + [fiberLength[m]];
        m := m + 1;
      }
      assert fiberLength[..m] == fiberLength;
    }

    /** The output loop: every slot and two spaces, then the end of the line. */
    method PrintLengths()
      requires Valid()
      modifies this`written
      ensures written == old(written) + StatusLine(muscleLengths[..], fmt)
    {
      var m := 0;
      while m < NUM_LENGTHS
        invariant 0 <= m <= NUM_LENGTHS
        invariant written == old(written) + Padded(muscleLengths[..m], fmt)
      {
        assert muscleLengths[..m + 1][..m] == muscleLengths[..m];
        written := written + fmt(muscleLengths[m]) + "  ";
        m := m + 1;
      }
      assert muscleLengths[..m] == muscleLengths[..];
      written := written + "\n";
    }
  }
}
