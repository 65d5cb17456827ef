/** The plant's coordinate output handler: on each due tick it prints the value of every
    selected coordinate of the arm body, each preceded by a space, and ends the line. Its
    configuration selects the coordinates by name and chooses the output file name. Stream
    formatting of a double is a parameter. */
module CoordinateOutputHandler {
  import opened MsarmCommon

  /** The default file name suffix, spelled as the handler spells it. */
  const COORD_SUFFIX: string := "_coordates_status.pnt"

  /** The printed values: a space before each value, in selection order. */
  function Spaced(vals: seq<real>, fmt: real -> string): string
  {
    if vals == [] then "" else Spaced(vals[..|vals| - 1], fmt) + " " + fmt(vals[|vals| - 1])
  }

  /** The line printed on a handled tick. */
  function CoordLine(vals: seq<real>, fmt: real -> string): string
  {
    Spaced(vals, fmt) + "\n"
  }

  /** The values of the selected coordinates, in selection order. */
  function Selected(q: seq<real>, coords: seq<nat>): (r: seq<real>)
    requires forall k :: 0 <= k < |coords| ==> coords[k] < |q|
    ensures |r| == |coords| && forall k :: 0 <= k < |coords| ==> r[k] == q[coords[k]]
  {
    seq(|coords|, k requires 0 <= k < |coords| => q[coords[k]])
  }

  class CoordinateOutput {
    /** The names of the articulated body's coordinates, by index. */
    const coordNames: seq<string>
    const bodyName: string
    const fmt: real -> string
    var interval: real
    var handledTime: Option<real>
    /** _coords, as indices into the body's coordinates. */
    var coords: seq<nat>
    /** _outFileName. */
    var outFileName: string
    /** Everything printed on standard output. */
    var written: string

    ghost predicate Valid()
      reads this
    {
      forall k :: 0 <= k < |coords| ==> coords[k] < |coordNames|
    }

    constructor (coordNames: seq<string>, bodyName: string, fmt: real -> string)
      ensures Valid()
      ensures handledTime == None && coords == [] && outFileName == "" && written == ""
      ensures this.coordNames == coordNames && this.bodyName == bodyName && this.fmt == fmt
    {
      this.coordNames := coordNames;
      this.bodyName := bodyName;
      this.fmt := fmt;
      interval := 0.0;
      handledTime := None;
      coords := [];
      outFileName := "";
      written := "";
    }

    /** readFromXML: the interval, the coordinates (all of the body's, or for each name the
        first coordinate of that name, skipping names that match none) and the output file name
        (the PntOutput name, else the body's name with "_coordates_status.pnt"). */
    method ReadFromXml(interval: real, coordAll: string, coordTokens: seq<string>, pntOutput: Option<string>)
      requires Valid()
      modifies this`interval, this`coords, this`outFileName
      ensures Valid()
      ensures this.interval == interval
      ensures NeedAll(coordAll) ==> coords == AllIndices(|coordNames|)
      ensures !NeedAll(coordAll) ==> coords == old(coords) + FirstMatches(coordTokens, coordNames)
      ensures pntOutput.Some? ==>
                outFileName == if pntOutput.value != "" then pntOutput.value else bodyName + COORD_SUFFIX
      ensures pntOutput.None? ==>
                outFileName == if old(outFileName) != "" then old(outFileName) else bodyName + COORD_SUFFIX
    {
      this.interval := interval;
      if pntOutput.Some? {
        outFileName := pntOutput.value;
      }
      if NeedAll(coordAll) {
        coords := AllIndices(|coordNames|);
      } else {
        var sel := SelectByName(coordTokens, coordNames);
        coords := coords + sel;
      }
      if pntOutput.Some? {
        outFileName := pntOutput.value;
      }
      if outFileName == "" {
        outFileName := bodyName + COORD_SUFFIX;
      }
    }

    /** handle: nothing is printed on a tick that is not due; otherwise one line with the value
        of each selected coordinate (q holds the body's coordinate values). */
    method Handle(currTime: real, due: bool, q: seq<real>) returns (handled: bool)
      requires Valid() && |q| == |coordNames|
      modifies this`handledTime, this`written
      ensures handled == due
      ensures !due ==> handledTime == old(handledTime) && written == old(written)
      ensures due ==> handledTime == Some(currTime)
      ensures due ==> written == old(written) + CoordLine(Selected(q, coords), fmt)
    {
      if !due {
        return false;
      }
      var n := 0;
      while n < |coords|
        invariant 0 <= n <= |coords|
        invariant written == old(written) + Spaced(Selected(q, coords[..n]), fmt)
      {
        assert Selected(q, coords[..n + 1])[..n] == Selected(q, coords[..n]);
        written := written + " " + fmt(q[coords[n]]);
        n := n + 1;
      }
      assert coords[..n] == coords;
      written := written + "\n";
      handledTime := Some(currTime);
      handled := true;
    }
  }
}
