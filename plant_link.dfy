/** The two ends of the controller/plant pipe read together: the lines the plant's handlers
    print are the packets the controller's reply parser expects, and the command line the
    controller writes fills exactly the plant's four excitation slots. */
module PlantLink {
  import opened ArmMath
  import opened PlantProtocol
  import ExcitationHandler
  import MuscleStatusHandler
  import CoordinateOutputHandler
  import MsarmCommon

  /** A number is printed as one non-empty word. */
  ghost predicate PrintsOneWord(fmt: real -> string)
  {
    forall x :: IsWord(fmt(x))
  }

  /** float() accepts every number the plant prints. */
  ghost predicate ParsesBack(fmt: real -> string, parse: string -> Option<real>)
  {
    forall x :: parse(fmt(x)).Some?
  }

  /** float() reads back exactly what the plant printed: no digit is lost in printing. */
  ghost predicate ReadsBack(fmt: real -> string, parse: string -> Option<real>)
  {
    forall x :: parse(fmt(x)) == Some(x)
  }

  function Formatted(vals: seq<real>, fmt: real -> string): (r: seq<string>)
    ensures |r| == |vals| && forall i :: 0 <= i < |vals| ==> r[i] == fmt(vals[i])
  {
    seq(|vals|, i requires 0 <= i < |vals| => fmt(vals[i]))
  }

  /** Printing one more value adds its word at the end. */
  lemma FormattedSnoc(vals: seq<real>, fmt: real -> string)
    requires vals != []
    ensures Formatted(vals, fmt) == Formatted(vals[..|vals| - 1], fmt) + [fmt(vals[|vals| - 1])]
  {
    var init := vals[..|vals| - 1];
    assert forall i :: 0 <= i < |init| ==> init[i] == vals[i];
  }

  /** The numbers float() makes of the printed values, value by value. */
  function ReadBack(vals: seq<real>, fmt: real -> string, parse: string -> Option<real>): (r: seq<real>)
    ensures |r| == |vals|
  {
    seq(|vals|, i requires 0 <= i < |vals| => match parse(fmt(vals[i])) case Some(v) => v case None => 0.0)
  }

  /** float() reads the printed numbers back into the read-back values; where printing keeps
      every digit, these are the values printed. */
  lemma FieldsOfFormatted(vals: seq<real>, fmt: real -> string, parse: string -> Option<real>)
    requires ParsesBack(fmt, parse)
    ensures Fields(Formatted(vals, fmt), parse) == Some(ReadBack(vals, fmt, parse))
    ensures ReadsBack(fmt, parse) ==> ReadBack(vals, fmt, parse) == vals
  {
    var words := Formatted(vals, fmt);
    var back := ReadBack(vals, fmt, parse);
    forall i | 0 <= i < |vals| ensures parse(words[i]) == Some(back[i]) {
      var x := vals[i];
      assert words[i] == fmt(x);
      assert parse(fmt(x)).Some?;
    }
    var r := Fields(words, parse);
    assert r.Some?;
    assert r.value == back;
    if ReadsBack(fmt, parse) {
      forall i | 0 <= i < |vals| ensures back[i] == vals[i] {
        var x := vals[i];
        assert parse(fmt(x)) == Some(x);
      }
    }
  }

  /** Leading separators do not change the words. */
  lemma {:induction false} WordsSkipSpaces(sp: string, rest: string)
    requires forall c :: c in sp ==> IsSpace(c)
    ensures Words(sp + rest) == Words(rest)
    decreases |sp|
  {
    if sp != "" {
      assert sp[0] in sp;
      assert (sp + rest)[1..] == sp[1..] + rest;
      forall c | c in sp[1..] ensures IsSpace(c) {
        assert c in sp;
      }
      WordsSkipSpaces(sp[1..], rest);
    } else {
      assert sp + rest == rest;
    }
  }

  /** A word followed by separators only is that word. */
  lemma OneWord(w: string, sp: string)
    requires IsWord(w)
    requires forall c :: c in sp ==> IsSpace(c)
    ensures Words(w + sp) == [w]
  {
    if sp != "" {
      assert sp[0] in sp;
    }
    WordEndOf(w, sp);
    WordsSplitOne(w, sp);
    WordsSkipSpaces(sp, "");
    assert sp + "" == sp;
  }

  /** The word at the start of a + b lies in a when a ends with a separator. */
  lemma {:induction false} WordEndWithin(a: string, b: string)
    requires a != "" && IsSpace(a[|a| - 1])
    ensures WordEnd(a + b) == WordEnd(a) < |a|
    decreases |a|
  {
    if !IsSpace(a[0]) {
      assert (a + b)[1..] == a[1..] + b;
      WordEndWithin(a[1..], b);
    }
  }

  /** A leading separator is skipped, with or without text after it. */
  lemma WordsSpaceStep(a: string, b: string)
    requires a != "" && IsSpace(a[0])
    ensures Words(a + b) == Words(a[1..] + b) && Words(a) == Words(a[1..])
  {
    assert (a + b)[0] == a[0];
    assert (a + b)[1..] == a[1..] + b;
  }

  /** A leading word that ends inside a is split off, with or without text after a. */
  lemma WordsWordStep(a: string, b: string, k: nat)
    requires a != "" && !IsSpace(a[0]) && k == WordEnd(a) == WordEnd(a + b) && k < |a|
    ensures Words(a + b) == [a[..k]] + Words(a[k..] + b) && Words(a) == [a[..k]] + Words(a[k..])
  {
    assert (a + b)[0] == a[0];
    assert (a + b)[..k] == a[..k];
    assert (a + b)[k..] == a[k..] + b;
  }

  /** Text that ends with a separator splits independently of what follows. */
  lemma {:induction false} WordsAppend(a: string, b: string)
    requires a == "" || IsSpace(a[|a| - 1])
    ensures Words(a + b) == Words(a) + Words(b)
    decreases |a|
  {
    if a == "" {
      assert a + b == b;
    } else if IsSpace(a[0]) {
      WordsSpaceStep(a, b);
      WordsAppend(a[1..], b);
    } else {
      WordEndWithin(a, b);
      var k := WordEnd(a);
      WordsWordStep(a, b, k);
      WordsAppend(a[k..], b);
    }
  }

  /** The status line splits into the printed values, one word each. */
  lemma {:induction false} WordsOfPadded(vals: seq<real>, fmt: real -> string)
    requires PrintsOneWord(fmt)
    ensures Words(MuscleStatusHandler.Padded(vals, fmt)) == Formatted(vals, fmt)
    decreases |vals|
  {
    if vals != [] {
      var init := vals[..|vals| - 1];
      var last := vals[|vals| - 1];
      var head := MuscleStatusHandler.Padded(init, fmt);
      WordsOfPadded(init, fmt);
      assert head != "" ==> IsSpace(head[|head| - 1]);
      WordsAppend(head, fmt(last) + "  ");
      OneWord(fmt(last), "  ");
      assert MuscleStatusHandler.Padded(vals, fmt) == head + (fmt(last) + "  ");
      FormattedSnoc(vals, fmt);
    }
  }

  /** Every line the muscle status handler prints is parsed back by the controller into the
      18 numbers float() reads from it, which the reply parser takes as the muscle packet; where
      printing keeps every digit, these are the lengths printed. */
  lemma StatusLineIsMusclePacket(vals: seq<real>, fmt: real -> string, parse: string -> Option<real>)
    requires PrintsOneWord(fmt) && ParsesBack(fmt, parse)
    requires |vals| == MuscleStatusHandler.NUM_LENGTHS
    ensures Fields(Words(MuscleStatusHandler.StatusLine(vals, fmt)), parse) == Some(ReadBack(vals, fmt, parse))
    ensures |ReadBack(vals, fmt, parse)| == NUM_MUSCLES
    ensures ReadsBack(fmt, parse) ==> ReadBack(vals, fmt, parse) == vals
  {
    var head := MuscleStatusHandler.Padded(vals, fmt);
    WordsOfPadded(vals, fmt);
    assert head != "" ==> IsSpace(head[|head| - 1]);
    WordsAppend(head, "\n");
    WordsSkipSpaces("\n", "");
    assert "\n" + "" == "\n";
    assert Words(MuscleStatusHandler.StatusLine(vals, fmt)) == Formatted(vals, fmt);
    FieldsOfFormatted(vals, fmt, parse);
  }

  /** The coordinate line splits into the printed values, one word each, whatever separator
      ends it. */
  lemma {:induction false} WordsOfSpaced(vals: seq<real>, fmt: real -> string, e: char)
    requires PrintsOneWord(fmt) && IsSpace(e)
    ensures Words(CoordinateOutputHandler.Spaced(vals, fmt) + [e]) == Formatted(vals, fmt)
    decreases |vals|
  {
    var line := CoordinateOutputHandler.Spaced(vals, fmt);
    if vals == [] {
      WordsSkipSpaces([e], "");
      assert [e] + "" == [e];
      assert line + [e] == [e];
    } else {
      var init := vals[..|vals| - 1];
      var last := vals[|vals| - 1];
      var head := CoordinateOutputHandler.Spaced(init, fmt) + " ";
      WordsOfSpaced(init, fmt, ' ');
      assert line + [e] == head + (fmt(last) + [e]);
      WordsAppend(head, fmt(last) + [e]);
      OneWord(fmt(last), [e]);
    }
  }

  /** Every line the coordinate handler prints is parsed back by the controller into the
      numbers float() reads from the selected coordinates' values; with the two arm joints
      selected, that is the joint packet. Where printing keeps every digit, these are the
      values printed. */
  lemma CoordLineIsJointPacket(q: seq<real>, coords: seq<nat>, fmt: real -> string, parse: string -> Option<real>)
    requires PrintsOneWord(fmt) && ParsesBack(fmt, parse)
    requires forall k :: 0 <= k < |coords| ==> coords[k] < |q|
    ensures var sel := CoordinateOutputHandler.Selected(q, coords);
            Fields(Words(CoordinateOutputHandler.CoordLine(sel, fmt)), parse) == Some(ReadBack(sel, fmt, parse))
    ensures |coords| == NUM_JOINTS ==> |ReadBack(CoordinateOutputHandler.Selected(q, coords), fmt, parse)| == NUM_JOINTS
    ensures ReadsBack(fmt, parse) ==>
              ReadBack(CoordinateOutputHandler.Selected(q, coords), fmt, parse) == CoordinateOutputHandler.Selected(q, coords)
  {
    var vals := CoordinateOutputHandler.Selected(q, coords);
    WordsOfSpaced(vals, fmt, '\n');
    assert CoordinateOutputHandler.CoordLine(vals, fmt) == CoordinateOutputHandler.Spaced(vals, fmt) + ['\n'];
    FieldsOfFormatted(vals, fmt, parse);
  }

  /** No printed number holds the letter T, with which the end marker starts. */
  ghost predicate NoMarkLetter(fmt: real -> string)
  {
    forall x :: 'T' !in fmt(x)
  }

  /** The coordinate line holds no newline before its end and no letter T. */
  lemma {:induction false} SpacedChars(vals: seq<real>, fmt: real -> string)
    requires PrintsOneWord(fmt) && NoMarkLetter(fmt)
    ensures forall c :: c in CoordinateOutputHandler.Spaced(vals, fmt) ==> c != '\n' && c != 'T'
    decreases |vals|
  {
    if vals != [] {
      var init := vals[..|vals| - 1];
      var x := vals[|vals| - 1];
      var w := fmt(x);
      SpacedChars(init, fmt);
      assert IsWord(fmt(x)) && 'T' !in fmt(x);
      assert CoordinateOutputHandler.Spaced(vals, fmt) == CoordinateOutputHandler.Spaced(init, fmt) + " " + w;
    }
  }

  /** The status line holds no newline before its end and no letter T. */
  lemma {:induction false} PaddedChars(vals: seq<real>, fmt: real -> string)
    requires PrintsOneWord(fmt) && NoMarkLetter(fmt)
    ensures forall c :: c in MuscleStatusHandler.Padded(vals, fmt) ==> c != '\n' && c != 'T'
    decreases |vals|
  {
    if vals != [] {
      var init := vals[..|vals| - 1];
      var x := vals[|vals| - 1];
      var w := fmt(x);
      PaddedChars(init, fmt);
      assert IsWord(fmt(x)) && 'T' !in fmt(x);
      assert MuscleStatusHandler.Padded(vals, fmt) == MuscleStatusHandler.Padded(init, fmt) + w + "  ";
    }
  }

  /** A printed line is read whole, up to its newline, and holds no end marker. */
  lemma PrintedLine(body: string, rest: string)
    requires forall c :: c in body ==> c != '\n' && c != 'T'
    ensures ReadLine(body + "\n" + rest) == (body + "\n", rest)
    ensures !Contains(body + "\n", END_MARK)
  {
    var line := body + "\n";
    forall i | 0 <= i < |line| - 1 ensures line[i] != '\n' {
      assert line[i] == body[i] && body[i] in body;
    }
    ReadLineFirst(line, rest);
    assert 'T' !in line;
    NoEndMark(line);
  }

  /** One tick of the plant as the controller reads it: the coordinate handler prints the two
      joint angles and the muscle status handler the 18 fibre lengths. Read from one chunk, the
      reply loop returns exactly these two packets, as float() reads the printed numbers, and
      leaves nothing unread, whether or not the packet budget is spent. */
  lemma OneTickReply(q: seq<real>, coords: seq<nat>, lens: seq<real>, fmt: real -> string,
                     parse: string -> Option<real>, budgetSpent: bool)
    requires PrintsOneWord(fmt) && ParsesBack(fmt, parse) && NoMarkLetter(fmt)
    requires |coords| == NUM_JOINTS && forall k :: 0 <= k < |coords| ==> coords[k] < |q|
    requires |lens| == MuscleStatusHandler.NUM_LENGTHS
    ensures var joints := ReadBack(CoordinateOutputHandler.Selected(q, coords), fmt, parse);
            var muscles := ReadBack(lens, fmt, parse);
            Reply("", [CoordinateOutputHandler.CoordLine(CoordinateOutputHandler.Selected(q, coords), fmt) +
                       MuscleStatusHandler.StatusLine(lens, fmt)], [], budgetSpent, parse)
              == ReplyRun(Replied(joints, muscles), [joints, muscles], "", [])
  {
    var sel := CoordinateOutputHandler.Selected(q, coords);
    var coordBody := CoordinateOutputHandler.Spaced(sel, fmt);
    var statusBody := MuscleStatusHandler.Padded(lens, fmt);
    var cl := CoordinateOutputHandler.CoordLine(sel, fmt);
    var sl := MuscleStatusHandler.StatusLine(lens, fmt);
    var joints := ReadBack(sel, fmt, parse);
    var muscles := ReadBack(lens, fmt, parse);
    CoordLineIsJointPacket(q, coords, fmt, parse);
    StatusLineIsMusclePacket(lens, fmt, parse);
    SpacedChars(sel, fmt);
    PaddedChars(lens, fmt);
    PrintedLine(coordBody, sl);
    PrintedLine(statusBody, "");
    assert sl + "" == sl;
    ReplyJointThenMuscle(cl, sl, joints, muscles, budgetSpent, parse);
  }

  /** Fields without separators joined by single separators split back into those fields. */
  lemma {:induction false} SplitOfJoined(ws: seq<string>, sep: char)
    requires ExcitationHandler.IsFieldSep(sep) && ws != []
    requires forall w :: w in ws ==> forall c :: c in w ==> !ExcitationHandler.IsFieldSep(c)
    ensures ExcitationHandler.Split(JoinWith(ws, [sep])) == ws
    decreases |ws|
  {
    assert ws[0] in ws;
    if |ws| == 1 {
      ExcitationHandler.SplitWhole(ws[0]);
    } else {
      forall w | w in ws[1..] ensures forall c :: c in w ==> !ExcitationHandler.IsFieldSep(c) {
        assert w in ws;
      }
      SplitOfJoined(ws[1..], sep);
      ExcitationHandler.SplitWhole(ws[0]);
      ExcitationHandler.SplitAt(ws[0], sep, JoinWith(ws[1..], [sep]));
      assert JoinWith(ws, [sep]) == ws[0] + [sep] + JoinWith(ws[1..], [sep]);
    }
  }

  /** The command line the controller writes, without its newline (which getline drops),
      splits into exactly four fields, value i and a comma for the first three, so every field
      lands in its own excitation slot; where atof reads a printed value up to the comma, slot
      i takes command i. */
  lemma CommandFillsSlots(data: seq<real>, repr: real -> string, atof: string -> real)
    requires |data| == 4
    requires forall x :: forall c :: c in repr(x) ==> !ExcitationHandler.IsFieldSep(c)
    requires forall x :: atof(repr(x) + ",") == x && atof(repr(x)) == x
    ensures var line := CommandLine(data, repr);
            line != "" && line[|line| - 1] == '\n' &&
            ExcitationHandler.Split(line[..|line| - 1]) == [repr(data[0]) + ",", repr(data[1]) + ",", repr(data[2]) + ",", repr(data[3])]
    ensures var line := CommandLine(data, repr);
            |ExcitationHandler.Split(line[..|line| - 1])| == ExcitationHandler.NUM_SLOTS &&
            forall i :: 0 <= i < 4 ==> atof(ExcitationHandler.Split(line[..|line| - 1])[i]) == data[i]
  {
    var r := seq(|data|, i requires 0 <= i < |data| => repr(data[i]));
    var ws := [r[0] + ",", r[1] + ",", r[2] + ",", r[3]];
    var line := CommandLine(data, repr);
    assert JoinWith(r[3..], ", ") == r[3];
    assert JoinWith(r[2..], ", ") == r[2] + ", " + r[3];
    assert JoinWith(r[1..], ", ") == r[1] + ", " + (r[2] + ", " + r[3]);
    assert JoinWith(r, ", ") == r[0] + ", " + (r[1] + ", " + (r[2] + ", " + r[3]));
    assert JoinWith(ws[3..], [' ']) == ws[3];
    assert JoinWith(ws[2..], [' ']) == ws[2] + [' '] + ws[3];
    assert JoinWith(ws[1..], [' ']) == ws[1] + [' '] + (ws[2] + [' '] + ws[3]);
    assert JoinWith(ws, [' ']) == ws[0] + [' '] + (ws[1] + [' '] + (ws[2] + [' '] + ws[3]));
    assert JoinWith(r, ", ") == JoinWith(ws, [' ']);
    assert line[..|line| - 1] == JoinWith(r, ", ");
    forall w | w in ws ensures forall c :: c in w ==> !ExcitationHandler.IsFieldSep(c) {
      forall c | c in w ensures !ExcitationHandler.IsFieldSep(c) {
        if w != ws[3] {
          var i :| 0 <= i < 3 && w == r[i] + ",";
          assert c in r[i] || c == ',';
        }
      }
    }
    SplitOfJoined(ws, ' ');
  }

  lemma Differs(p: string, s: string, i: nat)
    requires i < |p| && i < |s| && p[i] != s[i]
    ensures !(p <= s)
  {
  }

  /** The muscle whose length the controller reads back as muscle k (DELT3, PECM1, TRIlong,
      BIClong under the default branch setting) is one that command slot k excites. */
  lemma FedBackMusclesAreCommanded()
    ensures forall k :: 0 <= k < 4 ==>
              ExcitationHandler.Group(MuscleStatusHandler.DEFAULT_MUSCLES[[2, 8, 12, 15][k]]) == MsarmCommon.Some(k)
  {
    var names := MuscleStatusHandler.DEFAULT_MUSCLES;
    assert names[2] == "DELT3" && names[8] == "PECM1" && names[12] == "TRIlong" && names[15] == "BIClong";
    Differs("BIC", "DELT3", 0);
    Differs("PECM", "DELT3", 0);
    Differs("DELT1", "DELT3", 4);
    assert ExcitationHandler.Group("DELT3") == MsarmCommon.Some(0);
    assert ExcitationHandler.Group("PECM1") == MsarmCommon.Some(1);
    assert ExcitationHandler.Group("TRIlong") == MsarmCommon.Some(2);
    assert ExcitationHandler.Group("BIClong") == MsarmCommon.Some(3);
  }
}
