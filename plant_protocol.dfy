/** The Python side of the pipe to the musculoskeletal arm: one call sends the four motor
    commands as a text line and reads reply lines until it has a joint-angle packet (2 fields) and
    a muscle-length packet (18 fields), the end-of-run marker, or the packet budget is spent.
    The plant's output arrives as chunks of text; float() and repr() are parameters. */
module PlantProtocol {
  import opened ArmMath

  const READY: string := "READY TO RUN"
  /** The plant's end-of-run marker, spelled as the plant prints it. */
  const END_MARK: string := "Totoal"
  const NUM_JOINTS: int := 2
  const NUM_MUSCLES: int := 18
  /** Which branch of each muscle stands for its length; 0 would mean the mean of the branches. */
  const BRANCH: seq<int> := [3, 1, 1, 1]

  /** The joint packet returned once the packet budget is spent. */
  const SENTINEL: seq<real> := [-3.0, -3.0]

  function Zeros(n: nat): (r: seq<real>)
    ensures |r| == n && forall i :: 0 <= i < n ==> r[i] == 0.0
  {
    seq(n, _ => 0.0)
  }

  /** Python's `sub in s` on strings. */
  function Contains(s: string, sub: string): bool
    decreases |s|
  {
    sub <= s || (s != "" && Contains(s[1..], sub))
  }

  /** sub occurs in s at position i. */
  predicate OccursAt(s: string, sub: string, i: int)
  {
    0 <= i && i + |sub| <= |s| && s[i..i + |sub|] == sub
  }

  /** Contains holds exactly when sub occurs at some position of s. */
  lemma {:induction false} ContainsAt(s: string, sub: string)
    ensures Contains(s, sub) <==> exists i :: OccursAt(s, sub, i)
    decreases |s|
  {
    if sub <= s {
      assert OccursAt(s, sub, 0);
    } else if s != "" {
      ContainsAt(s[1..], sub);
      if exists i :: OccursAt(s[1..], sub, i) {
        var i :| OccursAt(s[1..], sub, i);
        assert s[i + 1..i + 1 + |sub|] == s[1..][i..i + |sub|];
        assert OccursAt(s, sub, i + 1);
      }
      if exists i :: OccursAt(s, sub, i) {
        var i :| OccursAt(s, sub, i);
        assert i != 0;
        assert s[1..][i - 1..i - 1 + |sub|] == s[i..i + |sub|];
        assert OccursAt(s[1..], sub, i - 1);
      }
    } else {
      assert forall i :: !OccursAt(s, sub, i);
    }
  }

  /** StringIO.readline: the text up to and including the first newline (all of it when there is
      none), and the rest. */
  function ReadLine(buf: string): (r: (string, string))
    ensures r.0 + r.1 == buf
    ensures r.0 == "" <==> buf == ""
    ensures forall i :: 0 <= i < |r.0| - 1 ==> r.0[i] != '\n'
    ensures r.1 != "" ==> r.0[|r.0| - 1] == '\n'
    decreases |buf|
  {
    if buf == "" then ("", "")
    else if buf[0] == '\n' then ("\n", buf[1..])
    else
      var (line, rest) := ReadLine(buf[1..]);
      ([buf[0]] + line, rest)
  }

  /** The separators of str.split() without arguments. */
  predicate IsSpace(c: char)
  {
    c == ' ' || c == '\t' || c == '\n' || c == '\r' || c == '\U{0B}' || c == '\U{0C}'
  }

  /** A word of str.split(): non-empty, without separators. */
  predicate IsWord(w: string)
  {
    w != "" && forall c :: c in w ==> !IsSpace(c)
  }

  /** The length of the word at the start of s. */
  function WordEnd(s: string): (k: nat)
    ensures k <= |s|
    ensures forall i :: 0 <= i < k ==> !IsSpace(s[i])
    ensures k < |s| ==> IsSpace(s[k])
    decreases |s|
  {
    if s == "" || IsSpace(s[0]) then 0 else 1 + WordEnd(s[1..])
  }

  /** str.split(): the maximal runs of non-separators, in order. */
  function Words(s: string): (r: seq<string>)
    ensures forall w :: w in r ==> IsWord(w)
    decreases |s|
  {
    if s == "" then []
    else if IsSpace(s[0]) then Words(s[1..])
    else
      var k := WordEnd(s);
      [s[..k]] + Words(s[k..])
  }

  /** Words joined by single separators split back into the same words. */
  lemma {:induction false} WordsOfJoined(ws: seq<string>, sep: char)
    requires IsSpace(sep)
    requires forall w :: w in ws ==> IsWord(w)
    ensures Words(JoinWith(ws, [sep])) == ws
    decreases |ws|
  {
    if ws != [] {
      var w := ws[0];
      assert w in ws;
      if |ws| == 1 {
        WordEndOf(w, "");
        assert JoinWith(ws, [sep]) == w + "";
        WordsSplitOne(w, "");
        assert Words("") == [];
      } else {
        var tail := JoinWith(ws[1..], [sep]);
        assert JoinWith(ws, [sep]) == w + ([sep] + tail);
        WordEndOf(w, [sep] + tail);
        WordsSplitOne(w, [sep] + tail);
        assert ([sep] + tail)[1..] == tail;
        forall v | v in ws[1..] ensures IsWord(v) {
          assert v in ws;
        }
        WordsOfJoined(ws[1..], sep);
        assert Words([sep] + tail) == Words(tail);
      }
    }
  }

  /** A word followed by a separator (or nothing) is split off first. */
  lemma WordsSplitOne(w: string, rest: string)
    requires IsWord(w)
    requires rest == "" || IsSpace(rest[0])
    requires WordEnd(w + rest) == |w|
    ensures Words(w + rest) == [w] + Words(rest)
  {
    var s := w + rest;
    assert s[0] == w[0] && w[0] in w;
    assert s[..|w|] == w;
    assert s[|w|..] == rest;
  }

  lemma {:induction false} WordEndOf(w: string, rest: string)
    requires forall c :: c in w ==> !IsSpace(c)
    requires rest == "" || IsSpace(rest[0])
    ensures WordEnd(w + rest) == |w|
    decreases |w|
  {
    if w != "" {
      assert w[0] in w;
      assert (w + rest)[1..] == w[1..] + rest;
      forall c | c in w[1..] ensures !IsSpace(c) {
        assert c in w;
      }
      WordEndOf(w[1..], rest);
    } else {
      assert w + rest == rest;
    }
  }

  /** ss joined with sep between consecutive elements. */
  function JoinWith(ss: seq<string>, sep: string): string
  {
    if ss == [] then "" else if |ss| == 1 then ss[0] else ss[0] + sep + JoinWith(ss[1..], sep)
  }

  /** [float(x) for x in words]; one word float() refuses raises ValueError (None). */
  function Fields(words: seq<string>, parse: string -> Option<real>): (r: Option<seq<real>>)
    ensures r.Some? <==> forall i :: 0 <= i < |words| ==> parse(words[i]).Some?
    ensures r.Some? ==> |r.value| == |words| && forall i :: 0 <= i < |words| ==> r.value[i] == parse(words[i]).value
  {
    if words == [] then Some([])
    else
      match parse(words[0])
      case None => None
      case Some(x) =>
        match Fields(words[1..], parse)
        case None => None
        case Some(xs) => Some([x] + xs)
  }

  /** str(list): the elements' repr joined by ", " in brackets. */
  function PyListStr(data: seq<real>, repr: real -> string): string
  {
    "[" + JoinWith(seq(|data|, i requires 0 <= i < |data| => repr(data[i])), ", ") + "]"
  }

  /** The command line written to the plant: str(list)[1:-1] and a newline. */
  function CommandLine(data: seq<real>, repr: real -> string): (line: string)
    ensures line == JoinWith(seq(|data|, i requires 0 <= i < |data| => repr(data[i])), ", ") + "\n"
  {
    var s := PyListStr(data, repr);
    s[1..|s| - 1] + "\n"
  }

  /** The last field list of length n among the parsed lines, or [] when there is none. */
  function LastOf(lines: seq<seq<real>>, n: int): (r: seq<real>)
    ensures r == [] || (|r| == n && r in lines)
    ensures r == [] <==> forall i :: 0 <= i < |lines| ==> |lines[i]| != n || lines[i] == []
  {
    if lines == [] then []
    else if |lines[|lines| - 1]| == n && lines[|lines| - 1] != [] then lines[|lines| - 1]
    else LastOf(lines[..|lines| - 1], n)
  }

  /** The length of muscle k (0 deltoid, 1 pectoralis, 2 triceps, 3 biceps/brachialis) from the 18
      branch lengths: the mean of its three branches for branch setting 0, otherwise the branch
      numbered b (a negative index counts from the end, as in Python; out of range raises). */
  function MuscleLength(k: int, b: int, m: seq<real>): (r: Option<real>)
    requires 0 <= k < 4 && |m| == NUM_MUSCLES
  {
    var first := [0, 8, 12, 15][k];
    var offset := [-1, 7, 11, 14][k];
    if b == 0 then Some((m[first] + m[first + 1] + m[first + 2]) / 3.0)
    else
      var idx := b + offset;
      if 0 <= idx < NUM_MUSCLES then Some(m[idx])
      else if -NUM_MUSCLES <= idx < 0 then Some(m[NUM_MUSCLES + idx])
      else None
  }

  /** The four muscle lengths for a branch setting, None if one of them raises. */
  function AggregateLengths(branch: seq<int>, m: seq<real>): (r: Option<seq<real>>)
    requires |branch| == 4 && |m| == NUM_MUSCLES
    ensures r.Some? <==> forall k :: 0 <= k < 4 ==> MuscleLength(k, branch[k], m).Some?
    ensures r.Some? ==> |r.value| == 4 && forall k :: 0 <= k < 4 ==> r.value[k] == MuscleLength(k, branch[k], m).value
  {
    var l0 := MuscleLength(0, branch[0], m);
    var l1 := MuscleLength(1, branch[1], m);
    var l2 := MuscleLength(2, branch[2], m);
    var l3 := MuscleLength(3, branch[3], m);
    if l0.Some? && l1.Some? && l2.Some? && l3.Some? then Some([l0.value, l1.value, l2.value, l3.value])
    else None
  }

  /** Branch settings 1..3 for the deltoid and the pectoralis and 1..4 for the triceps never
      raise, and the default setting picks DELT3, PECM1, TRIlong and BIClong. */
  lemma DefaultBranches(m: seq<real>)
    requires |m| == NUM_MUSCLES
    ensures AggregateLengths(BRANCH, m) == Some([m[2], m[8], m[12], m[15]])
    ensures forall b :: 1 <= b <= 3 ==> MuscleLength(0, b, m) == Some(m[b - 1]) && MuscleLength(1, b, m) == Some(m[b + 7])
    ensures forall b :: 1 <= b <= 3 ==> MuscleLength(2, b, m) == Some(m[b + 11]) && MuscleLength(3, b, m) == Some(m[b + 14])
  {
  }

  /** What one exchange gives the caller: the joint and muscle packets, an exception, or no end
      (the source waits forever for plant output that does not come). */
  datatype Exchange = Replied(angles: seq<real>, lengths: seq<real>) | Failed | Stalled

  /** The parsed reply lines seen so far explain the two packets. */
  ghost predicate Explains(consumed: seq<seq<real>>, dR: seq<real>, dR2: seq<real>)
  {
    dR == LastOf(consumed, NUM_JOINTS) && dR2 == LastOf(consumed, NUM_MUSCLES)
  }

  /** The chunks left after the handshake: those after the first chunk holding READY TO RUN, or
      None when no chunk holds it. */
  function AfterReady(pipe: seq<string>): Option<seq<string>>
  {
    if pipe == [] then None
    else if Contains(pipe[0], READY) then Some(pipe[1..])
    else AfterReady(pipe[1..])
  }

  /** AfterReady skips exactly the chunks up to the first one that holds the ready marker. */
  lemma {:induction false} AfterReadyFirst(pipe: seq<string>)
    ensures AfterReady(pipe).None? <==> forall j :: 0 <= j < |pipe| ==> !Contains(pipe[j], READY)
    ensures AfterReady(pipe).Some? ==>
              exists k :: 0 <= k < |pipe| && Contains(pipe[k], READY) &&
                (forall j :: 0 <= j < k ==> !Contains(pipe[j], READY)) && AfterReady(pipe).value == pipe[k + 1..]
    decreases |pipe|
  {
    if pipe != [] && !Contains(pipe[0], READY) {
      var rest := pipe[1..];
      AfterReadyFirst(rest);
      assert forall j :: 1 <= j < |pipe| ==> pipe[j] == rest[j - 1];
      if AfterReady(rest).Some? {
        var k :| 0 <= k < |rest| && Contains(rest[k], READY) &&
                 (forall j :: 0 <= j < k ==> !Contains(rest[j], READY)) && AfterReady(rest).value == rest[k + 1..];
        assert pipe[k + 2..] == rest[k + 1..];
        assert forall j :: 0 <= j < k + 1 ==> !Contains(pipe[j], READY);
      }
    } else if pipe != [] {
      assert Contains(pipe[0], READY);
    }
  }

  /** The chunks to read from once the plant is ready, or None when it never becomes ready. */
  function PipeWhenReady(armReady: bool, pipe: seq<string>): Option<seq<string>>
  {
    if armReady then Some(pipe) else AfterReady(pipe)
  }

  /** One read of the reply loop: inputbuffer.readline(), and when that gives nothing, the first
      line of the next chunk the plant has written. The result is the line, the new buffer, the
      chunks still unread and whether there was nothing to read at all. */
  function Next(buffer: string, pipe: seq<string>): (r: (string, string, seq<string>, bool))
    ensures r.3 <==> buffer == "" && pipe == []
    ensures r.3 ==> r.0 == "" && r.1 == "" && r.2 == []
    ensures buffer != "" ==> r.2 == pipe && r.0 + r.1 == buffer && r.0 != ""
    ensures buffer == "" && pipe != [] ==> r.2 == pipe[1..] && r.0 + r.1 == pipe[0]
  {
    if buffer != "" then
      var (line, rest) := ReadLine(buffer);
      (line, rest, pipe, false)
    else if pipe == [] then ("", "", [], true)
    else
      var (line, rest) := ReadLine(pipe[0]);
      (line, rest, pipe[1..], false)
  }

  /** The muscle packet as returned: 18 zeros when none came. */
  function Fill(dR2: seq<real>): seq<real>
  {
    if dR2 == [] then Zeros(NUM_MUSCLES) else dR2
  }

  /** The outcome of the reply loop, the field lists it parsed, and the input it left unread. */
  datatype ReplyRun = ReplyRun(res: Exchange, lines: seq<seq<real>>, buffer: string, pipe: seq<string>)

  /** The reply loop as a function of the unread input. consumed holds the lines parsed so far;
      the packets are the last 2-field and 18-field lines among them. The loop stops once both
      packets are held, at a line with the end marker, at a word float() refuses, when the
      budget is spent and no joint packet is held (the sentinel), or, with nothing left to read,
      never (Stalled). */
  function Reply(buffer: string, pipe: seq<string>, consumed: seq<seq<real>>, budgetSpent: bool,
                 parse: string -> Option<real>): ReplyRun
    decreases |pipe|, |buffer|
  {
    var dR := LastOf(consumed, NUM_JOINTS);
    var dR2 := LastOf(consumed, NUM_MUSCLES);
    if dR != [] && dR2 != [] then ReplyRun(Replied(dR, dR2), consumed, buffer, pipe)
    else
      var (line, rest, more, dry) := Next(buffer, pipe);
      if Contains(line, END_MARK) then ReplyRun(Replied(dR, Fill(dR2)), consumed, rest, more)
      else
        match Fields(Words(line), parse)
        case None => ReplyRun(Failed, consumed, rest, more)
        case Some(tmp) =>
          var lines := consumed + [tmp];
          if LastOf(lines, NUM_JOINTS) == [] && budgetSpent then
            ReplyRun(Replied(SENTINEL, Zeros(NUM_MUSCLES)), lines, rest, more)
          else if dry then ReplyRun(Stalled, lines, rest, more)
          else Reply(rest, more, lines, budgetSpent, parse)
  }

  /** What a reply holds: the joint packet is the last 2-field line parsed and the muscle packet
      the last 18-field line (zeros when there is none), unless the budget was spent with no
      joint packet, when the sentinel and zero lengths are returned. A stalled loop has read
      everything and still lacks a packet. */
  lemma {:induction false} ReplyPackets(buffer: string, pipe: seq<string>, consumed: seq<seq<real>>, budgetSpent: bool,
                                        parse: string -> Option<real>)
    ensures var run := Reply(buffer, pipe, consumed, budgetSpent, parse);
            consumed <= run.lines &&
            (run.res.Replied? ==>
               |run.res.lengths| == NUM_MUSCLES && (run.res.angles == [] || |run.res.angles| == NUM_JOINTS) &&
               ((run.res.angles == LastOf(run.lines, NUM_JOINTS) && run.res.lengths == Fill(LastOf(run.lines, NUM_MUSCLES))) ||
                (budgetSpent && LastOf(run.lines, NUM_JOINTS) == [] &&
                 run.res.angles == SENTINEL && run.res.lengths == Zeros(NUM_MUSCLES))))
    ensures var run := Reply(buffer, pipe, consumed, budgetSpent, parse);
            run.res.Stalled? ==>
              run.buffer == "" && run.pipe == [] && (!budgetSpent || LastOf(run.lines, NUM_JOINTS) != []) &&
              (LastOf(run.lines, NUM_JOINTS) == [] || LastOf(run.lines, NUM_MUSCLES) == [])
    decreases |pipe|, |buffer|
  {
    var dR := LastOf(consumed, NUM_JOINTS);
    var dR2 := LastOf(consumed, NUM_MUSCLES);
    if dR == [] || dR2 == [] {
      var (line, rest, more, dry) := Next(buffer, pipe);
      if !Contains(line, END_MARK) && Fields(Words(line), parse).Some? {
        var tmp := Fields(Words(line), parse).value;
        var lines := consumed + [tmp];
        LastOfSnoc(consumed, tmp);
        if !(LastOf(lines, NUM_JOINTS) == [] && budgetSpent) {
          if dry {
            assert Words(line) == [];
          } else {
            ReplyPackets(rest, more, lines, budgetSpent, parse);
          }
        }
      }
    }
  }

  /** A text whose only newline ends it is read as one line. */
  lemma ReadLineWhole(s: string)
    requires forall i :: 0 <= i < |s| - 1 ==> s[i] != '\n'
    ensures ReadLine(s) == (s, "")
  {
    var r := ReadLine(s);
    assert r.0 + "" == r.0;
  }

  /** A line followed by more text is read up to its own newline. */
  lemma {:induction false} ReadLineFirst(a: string, b: string)
    requires a != "" && a[|a| - 1] == '\n'
    requires forall i :: 0 <= i < |a| - 1 ==> a[i] != '\n'
    ensures ReadLine(a + b) == (a, b)
    decreases |a|
  {
    assert (a + b)[0] == a[0];
    assert (a + b)[1..] == a[1..] + b;
    if |a| > 1 {
      ReadLineFirst(a[1..], b);
      assert [a[0]] + a[1..] == a;
    }
  }

  /** A text without the letter T holds no end marker. */
  lemma NoEndMark(s: string)
    requires 'T' !in s
    ensures !Contains(s, END_MARK)
  {
    ContainsAt(s, END_MARK);
    forall i | 0 <= i && i + |END_MARK| <= |s| ensures !OccursAt(s, END_MARK, i) {
      assert s[i] in s;
      assert s[i..i + |END_MARK|][0] == s[i] != 'T' == END_MARK[0];
    }
  }

  /** One turn of the loop that reads a line holding neither the end marker nor a word float()
      refuses, with more input to come and no sentinel due, goes on with that line parsed. */
  lemma ReplyReadsLine(buffer: string, pipe: seq<string>, consumed: seq<seq<real>>, budgetSpent: bool,
                       parse: string -> Option<real>, line: string, rest: string, more: seq<string>, tmp: seq<real>)
    requires LastOf(consumed, NUM_JOINTS) == [] || LastOf(consumed, NUM_MUSCLES) == []
    requires Next(buffer, pipe) == (line, rest, more, false)
    requires !Contains(line, END_MARK) && Fields(Words(line), parse) == Some(tmp)
    requires LastOf(consumed + [tmp], NUM_JOINTS) != [] || !budgetSpent
    ensures Reply(buffer, pipe, consumed, budgetSpent, parse) == Reply(rest, more, consumed + [tmp], budgetSpent, parse)
  {
  }

  /** Once both packets are held, the loop returns them without reading further. */
  lemma ReplyBothHeld(buffer: string, pipe: seq<string>, consumed: seq<seq<real>>, budgetSpent: bool,
                      parse: string -> Option<real>)
    requires LastOf(consumed, NUM_JOINTS) != [] && LastOf(consumed, NUM_MUSCLES) != []
    ensures Reply(buffer, pipe, consumed, budgetSpent, parse) ==
            ReplyRun(Replied(LastOf(consumed, NUM_JOINTS), LastOf(consumed, NUM_MUSCLES)), consumed, buffer, pipe)
  {
  }

  lemma NextOfChunk(a: string, b: string)
    requires ReadLine(a + b) == (a, b)
    ensures Next("", [a + b]) == (a, b, [], false)
  {
  }

  lemma NextOfBuffer(a: string)
    requires ReadLine(a) == (a, "") && a != ""
    ensures Next(a, []) == (a, "", [], false)
  {
  }

  lemma TwoPackets(joints: seq<real>, muscles: seq<real>)
    requires |joints| == NUM_JOINTS && |muscles| == NUM_MUSCLES
    ensures [] + [joints] == [joints] && [joints] + [muscles] == [joints, muscles]
    ensures LastOf([joints], NUM_JOINTS) == joints && LastOf([joints], NUM_MUSCLES) == []
    ensures LastOf([joints, muscles], NUM_JOINTS) == joints && LastOf([joints, muscles], NUM_MUSCLES) == muscles
  {
    LastOfSnoc([], joints);
    assert [] + [joints] == [joints];
    LastOfSnoc([joints], muscles);
  }

  /** A joint line followed by a muscle line in one chunk: the loop returns the two packets and
      leaves nothing unread, whether or not the budget is spent. */
  lemma ReplyJointThenMuscle(jl: string, ml: string, joints: seq<real>, muscles: seq<real>, budgetSpent: bool,
                             parse: string -> Option<real>)
    requires ReadLine(jl + ml) == (jl, ml) && ReadLine(ml) == (ml, "") && ml != ""
    requires !Contains(jl, END_MARK) && !Contains(ml, END_MARK)
    requires Fields(Words(jl), parse) == Some(joints) && |joints| == NUM_JOINTS
    requires Fields(Words(ml), parse) == Some(muscles) && |muscles| == NUM_MUSCLES
    ensures Reply("", [jl + ml], [], budgetSpent, parse) == ReplyRun(Replied(joints, muscles), [joints, muscles], "", [])
  {
    TwoPackets(joints, muscles);
    NextOfChunk(jl, ml);
    NextOfBuffer(ml);
    ReplyReadsLine("", [jl + ml], [], budgetSpent, parse, jl, ml, [], joints);
    ReplyReadsLine(ml, [], [joints], budgetSpent, parse, ml, "", [], muscles);
    ReplyBothHeld("", [], [joints, muscles], budgetSpent, parse);
  }

  /** The line "1 2" is a joint packet of the values 1 and 2. */
  lemma JointLineExample(parse: string -> Option<real>)
    requires parse("1") == Some(1.0) && parse("2") == Some(2.0)
    ensures Next("", ["1 2\n"]) == ("1 2\n", "", [], false)
    ensures !Contains("1 2\n", END_MARK)
    ensures Fields(Words("1 2\n"), parse) == Some([1.0, 2.0])
  {
    ReadLineWhole("1 2\n");
    assert WordEnd("1 2\n") == 1;
    assert WordEnd("2\n") == 1;
    assert Words("1 2\n") == ["1", "2"];
    var ws := ["1", "2"];
    assert ws[0] == "1" && ws[1] == "2";
    var f := Fields(ws, parse);
    assert f.Some? && |f.value| == 2 && f.value[0] == 1.0 && f.value[1] == 2.0;
    assert f.value == [1.0, 2.0];
  }

  /** With "1 2" as the only line the plant has written, the loop holds a joint packet and waits
      for the muscle packet, whether or not the budget is spent. */
  lemma JointOnlyStalls(parse: string -> Option<real>, budgetSpent: bool)
    requires parse("1") == Some(1.0) && parse("2") == Some(2.0)
    ensures Reply("", ["1 2\n"], [], budgetSpent, parse).res == Stalled
  {
    JointLineExample(parse);
    var lines := [[1.0, 2.0]];
    assert LastOf(lines, NUM_JOINTS) == [1.0, 2.0];
    assert Words("") == [];
    assert !Contains("", END_MARK);
    LastOfSnoc(lines, []);
    assert LastOf([[1.0, 2.0]], NUM_MUSCLES) == [];
  }

  /** With nothing to read and the budget spent, the sentinel and zero lengths are returned. */
  lemma SpentBudgetSentinel(parse: string -> Option<real>)
    ensures Reply("", [], [], true, parse).res == Replied(SENTINEL, Zeros(NUM_MUSCLES))
  {
    assert Words("") == [];
    assert !Contains("", END_MARK);
  }

  /** The end marker alone ends the loop with no joint packet and zero lengths. */
  lemma EndMarkerEndsReply(parse: string -> Option<real>, budgetSpent: bool)
    ensures Reply("", ["Totoal\n"], [], budgetSpent, parse).res == Replied([], Zeros(NUM_MUSCLES))
  {
    ReadLineWhole("Totoal\n");
    assert END_MARK <= "Totoal\n";
  }

  class ArmInterface {
    /** packetID: the number of exchanges so far. */
    var packetId: real
    var armReady: bool
    /** inputbuffer: the unread rest of the last chunk. */
    var buffer: string
    /** The chunks the plant has written and the controller has not read yet. */
    var pipe: seq<string>
    /** Everything written to the plant's standard input. */
    var written: string
    var anglesReceived: seq<real>
    var lengthsReceived: seq<real>
    const parse: string -> Option<real>
    const repr: real -> string

    ghost predicate Valid()
      reads this
    {
      packetId >= 0.0 && |lengthsReceived| == 4
    }

    /** setup: no packet yet, plant not ready, empty buffer. */
    constructor (parse: string -> Option<real>, repr: real -> string, pipe: seq<string>)
      ensures Valid()
      ensures packetId == 0.0 && !armReady && buffer == "" && this.pipe == pipe && written == ""
      ensures anglesReceived == [0.0, 0.0, 0.0, 0.0] && lengthsReceived == [0.0, 0.0, 0.0, 0.0]
      ensures this.parse == parse && this.repr == repr
    {
      packetId := 0.0;
      armReady := false;
      buffer := "";
      this.pipe := pipe;
      written := "";
      anglesReceived := [0.0, 0.0, 0.0, 0.0];
      lengthsReceived := [0.0, 0.0, 0.0, 0.0];
      this.parse := parse;
      this.repr := repr;
    }

    /** getPacketLoss: 1 only for packet id -1. */
    function GetPacketLoss(): (r: int)
      reads this
      ensures r == 1 <==> packetId == -1.0
      ensures r == 0 || r == 1
      ensures Valid() ==> r == 0
    {
      if packetId == -1.0 then 1 else 0
    }

    /** The handshake: read chunks until one contains READY TO RUN (that chunk is discarded). No
        such chunk in the pipe: the source spins forever (ready false). Once ready, it stays so. */
    method Handshake() returns (ready: bool)
      requires Valid()
      modifies this`armReady, this`pipe
      ensures Valid() && ready == armReady
      ensures ready <==> PipeWhenReady(old(armReady), old(pipe)).Some?
      ensures pipe == if ready then PipeWhenReady(old(armReady), old(pipe)).value else []
    {
      while !armReady
        invariant !old(armReady) && !armReady ==> AfterReady(pipe) == AfterReady(old(pipe))
        invariant !old(armReady) && armReady ==> AfterReady(old(pipe)) == Some(pipe)
        invariant old(armReady) ==> armReady && pipe == old(pipe)
        decreases |pipe|
      {
        if pipe == [] {
          ready := false;
          return;
        }
        var lines := pipe[0];
        pipe := pipe[1..];
        if Contains(lines, READY) {
          armReady := true;
        }
      }
      ready := true;
    }

    /** inputbuffer.readline(), and when that gives nothing, the first line of the next chunk
        the plant has written. dry: there was nothing to read at all. */
    method NextLine() returns (line: string, dry: bool)
      modifies this`buffer, this`pipe
      ensures (line, buffer, pipe, dry) == Next(old(buffer), old(pipe))
    {
      var r := ReadLine(buffer);
      line, buffer := r.0, r.1;
      dry := line == "" && pipe == [];
      if line == "" && pipe != [] {
        r := ReadLine(pipe[0]);
        pipe := pipe[1..];
        line, buffer := r.0, r.1;
      }
    }

    /** The reply loop: read lines until both packets are filled. A line with the end marker
        stops at once; a line with a word float() refuses raises; 2 fields replace the joint
        packet, 18 the muscle packet, other counts are ignored. While no joint packet is held
        and the budget is spent, the sentinel and 18 zero lengths are returned. Nothing left to
        read and no sentinel: the source waits forever (Stalled). consumed: the lines parsed. */
    method ReadReply(budgetSpent: bool) returns (res: Exchange, ghost consumed: seq<seq<real>>)
      requires Valid()
      modifies this`buffer, this`pipe
      ensures Valid()
      ensures ReplyRun(res, consumed, buffer, pipe) == Reply(old(buffer), old(pipe), [], budgetSpent, parse)
    {
      ghost var run := Reply(buffer, pipe, [], budgetSpent, parse);
      var dR: seq<real> := [];
      var dR2: seq<real> := [];
      consumed := [];
      ghost var sent := false;
      while |dR| == 0 || |dR2| == 0
        invariant !sent ==> Explains(consumed, dR, dR2) && Reply(buffer, pipe, consumed, budgetSpent, parse) == run
        invariant sent ==> dR == SENTINEL && dR2 == Zeros(NUM_MUSCLES) &&
                           run == ReplyRun(Replied(dR, dR2), consumed, buffer, pipe)
        decreases |pipe|, |buffer|, if sent then 0 else 1
      {
        var line, dry := NextLine();
        if Contains(line, END_MARK) {
          assert run == ReplyRun(Replied(dR, Fill(dR2)), consumed, buffer, pipe);
          break;
        }
        var fields := Fields(Words(line), parse);
        if fields.None? {
          res := Failed;
          return;
        }
        var tmp := fields.value;
        ClassifyStep(consumed, dR, dR2, tmp);
        consumed := consumed + [tmp];
        dR, dR2 := Classify(dR, dR2, tmp).0, Classify(dR, dR2, tmp).1;
        if |dR| == 0 && budgetSpent {
          dR := SENTINEL;
          dR2 := Zeros(NUM_MUSCLES);
          sent := true;
        } else if dry {
          res := Stalled;
          return;
        }
      }
      if dR2 == [] {
        dR2 := Zeros(NUM_MUSCLES);
      }
      res := Replied(dR, dR2);
    }

    /** sendAndReceiveDataPackets: count the packet, wait for the plant, write the command line
        (a failed write raises, since its handler reads a name assigned only later), read the
        reply, and publish the joint packet and the four muscle lengths. The packet budget is
        spent once packetID >= int(simtime / msecInterval). */
    method SendAndReceive(simtime: real, msecInterval: real, data: seq<real>, writeOk: bool)
      returns (res: Exchange)
      requires Valid() && msecInterval != 0.0 && |data| == 4
      modifies this
      ensures Valid()
      ensures packetId == old(packetId) + 1.0
      ensures PipeWhenReady(old(armReady), old(pipe)).None? ==>
                res == Stalled && !armReady && pipe == [] && buffer == old(buffer) && written == old(written)
      ensures PipeWhenReady(old(armReady), old(pipe)).Some? && !writeOk ==>
                res == Failed && armReady && pipe == PipeWhenReady(old(armReady), old(pipe)).value &&
                buffer == old(buffer) && written == old(written)
      ensures PipeWhenReady(old(armReady), old(pipe)).Some? && writeOk ==>
                armReady && written == old(written) + CommandLine(data, repr) &&
                var run := Reply(old(buffer), PipeWhenReady(old(armReady), old(pipe)).value, [],
                                 packetId >= Truncate(simtime / msecInterval) as real, parse);
                res == run.res && buffer == run.buffer && pipe == run.pipe
      ensures res.Replied? ==> |res.lengths| == NUM_MUSCLES && (res.angles == [] || |res.angles| == NUM_JOINTS)
      ensures res.Replied? ==>
                anglesReceived == res.angles &&
                lengthsReceived == [res.lengths[2], res.lengths[8], res.lengths[12], res.lengths[15]]
      ensures !res.Replied? ==> anglesReceived == old(anglesReceived) && lengthsReceived == old(lengthsReceived)
    {
      packetId := packetId + 1.0;
      var ready := Handshake();
      if !ready {
        res := Stalled;
        return;
      }
      if !writeOk {
        res := Failed;
        return;
      }
      written := written + CommandLine(data, repr);
      var budgetSpent := packetId >= Truncate(simtime / msecInterval) as real;
      ReplyPackets(buffer, pipe, [], budgetSpent, parse);
      ghost var consumed;
      res, consumed := ReadReply(budgetSpent);
      if res.Replied? {
        DefaultBranches(res.lengths);
        anglesReceived := res.angles;
        lengthsReceived := AggregateLengths(BRANCH, res.lengths).value;
      }
    }
  }

  /** A parsed line of 2 fields replaces the joint packet, of 18 the muscle packet. */
  function Classify(dR: seq<real>, dR2: seq<real>, tmp: seq<real>): (seq<real>, seq<real>)
  {
    if |tmp| == NUM_JOINTS then (tmp, dR2) else if |tmp| == NUM_MUSCLES then (dR, tmp) else (dR, dR2)
  }

  lemma ClassifyStep(consumed: seq<seq<real>>, dR: seq<real>, dR2: seq<real>, tmp: seq<real>)
    requires Explains(consumed, dR, dR2)
    ensures Explains(consumed + [tmp], Classify(dR, dR2, tmp).0, Classify(dR, dR2, tmp).1)
  {
    LastOfSnoc(consumed, tmp);
  }

  lemma {:induction false} LastOfSnoc(lines: seq<seq<real>>, x: seq<real>)
    ensures forall n :: LastOf(lines + [x], n) == if |x| == n && x != [] then x else LastOf(lines, n)
  {
    forall n ensures LastOf(lines + [x], n) == if |x| == n && x != [] then x else LastOf(lines, n) {
      assert (lines + [x])[..|lines + [x]| - 1] == lines;
    }
  }
}
