/** `parse_input` (main.py:193-216): reads the program text line by line into
    an insertion-ordered dictionary from timestep to the set of raw
    coordinates written on that line.

    A raw coordinate is what `tuple(x for x in rc.split(','))` builds: a tuple
    of strings, not yet converted to integers (that happens in
    `translate_grid`). Duplicate groups therefore collapse only when they are
    spelled the same. */
module Parser {
  import opened Common
  import opened Text
  import opened Grid

  type RawCoord = seq<string>

  /** What one line contributes. */
  datatype LineKind =
    | Malformed                                     // not exactly one ':'
    | Stop                                          // empty coordinate list: end of program
    | BadTs                                         // `int(ts)` fails
    | Item(ts: int, coords: set<RawCoord>)

  /** The pieces of `rawcoords.split(')')` read before the first empty one. */
  function LeadingGroups(pieces: seq<string>): (groups: seq<string>)
    ensures |groups| <= |pieces| && groups == pieces[..|groups|]
    ensures forall k :: 0 <= k < |groups| ==> groups[k] != []
    ensures |groups| < |pieces| ==> pieces[|groups|] == []
  {
    if pieces == [] || pieces[0] == [] then []
    else [pieces[0]] + LeadingGroups(pieces[1..])
  }

  /** The set of raw coordinates a list of groups adds. */
  function GroupSet(groups: seq<string>): set<RawCoord> {
    if groups == [] then {} else GroupSet(groups[..|groups| - 1]) + {Split(groups[|groups| - 1], ',')}
  }

  /** One line, as the body of the `for line in infile` loop reads it. */
  function ReadLine(line: string): LineKind {
    var parts := Split(Strip(line), ':');
    if |parts| != 2 then Malformed
    else
      var raw := RemoveChar(parts[1], '(');
      if raw == [] then Stop
      else
        var coords := GroupSet(LeadingGroups(Split(raw, ')')));
        match ParseInt(parts[0])
        case None => BadTs
        case Some(ts) => Item(ts, coords)
  }

  datatype ScanState =
    | Running(table: Table<set<RawCoord>>)
    | Stopped(table: Table<set<RawCoord>>)
    | Failed(error: Error)

  /** The effect of line number `index`, read as `kind`, on the dictionary
      being built. */
  function Step(st: ScanState, kind: LineKind, index: nat): (st': ScanState)
    ensures st.Running? && DistinctKeys(st.table) && !st'.Failed? ==> DistinctKeys(st'.table)
  {
    match st
    case Running(t) =>
      (match kind
       case Malformed => Failed(MalformedLine(index))
       case Stop => Stopped(t)
       case BadTs => Failed(BadTimestep(index))
       case Item(ts, coords) =>
         if ts in Keys(t) then Failed(RepeatedTimestep(ts))
         else Running(t + [Entry(ts, coords)]))
    case _ => st
  }

  /** What each line of `lines` reads as. */
  function ReadAll(lines: seq<string>): (kinds: seq<LineKind>)
    ensures |kinds| == |lines|
  {
    seq(|lines|, i requires 0 <= i < |lines| => ReadLine(lines[i]))
  }

  lemma ReadAllConcat(a: seq<string>, b: seq<string>)
    ensures ReadAll(a + b) == ReadAll(a) + ReadAll(b)
  {
    assert forall i :: 0 <= i < |a + b| ==> ReadAll(a + b)[i] == (ReadAll(a) + ReadAll(b))[i];
  }

  /** The state after reading lines of the given kinds from the top. */
  function Scan(kinds: seq<LineKind>): (st: ScanState)
    ensures !st.Failed? ==> DistinctKeys(st.table) && |st.table| <= |kinds|
  {
    if kinds == [] then Running([])
    else Step(Scan(kinds[..|kinds| - 1]), kinds[|kinds| - 1], |kinds| - 1)
  }

  function Finish(st: ScanState): Result<Table<set<RawCoord>>> {
    match st
    case Running(t) => Ok(t)
    case Stopped(t) => Ok(t)
    case Failed(e) => Err(e)
  }

  /** What `parse_input` returns, or the exception it raises. */
  function Parse(lines: seq<string>): Result<Table<set<RawCoord>>> {
    Finish(Scan(ReadAll(lines)))
  }

  /** The inner loop of `parse_input`: one raw coordinate per group, up to
      the first empty group. */
  method CollectCoords(pieces: seq<string>) returns (coords: set<RawCoord>)
    ensures coords == GroupSet(LeadingGroups(pieces))
  {
    coords := {};
    var j := 0;
    while j < |pieces|
      invariant 0 <= j <= |pieces|
      invariant forall k :: 0 <= k < j ==> pieces[k] != []
      invariant coords == GroupSet(pieces[..j])
    {
      if |pieces[j]| == 0 {
        break;
      }
      assert pieces[..j + 1][..j] == pieces[..j];
      coords := coords + {Split(pieces[j], ',')};
      j := j + 1;
    }
    LeadingGroupsAt(pieces, j);
  }

  /** The leading groups are exactly the non-empty pieces before the first
      empty one (or all pieces). */
  lemma {:induction false} LeadingGroupsAt(pieces: seq<string>, j: nat)
    requires j <= |pieces|
    requires forall k :: 0 <= k < j ==> pieces[k] != []
    requires j < |pieces| ==> pieces[j] == []
    ensures LeadingGroups(pieces) == pieces[..j]
  {
    if j > 0 {
      LeadingGroupsAt(pieces[1..], j - 1);
      assert pieces[..j] == [pieces[0]] + pieces[1..][..j - 1];
    }
  }

  /** The part of the loop body of `parse_input` that looks at one line only:
      split at ':', drop every '(', stop on an empty list, collect the groups.
      It computes what ReadLine specifies; it exists as a method only to
      hold the inner loop, CollectCoords. */
  method ReadOneLine(line: string) returns (kind: LineKind)
    ensures kind == ReadLine(line)
  {
    var parts := Split(Strip(line), ':');
    if |parts| != 2 {
      return Malformed;
    }
    var raw := RemoveChar(parts[1], '(');
    if |raw| == 0 {
      return Stop;
    }
    var coords := CollectCoords(Split(raw, ')'));
    var ts := ParseInt(parts[0]);
    if ts.None? {
      return BadTs;
    }
    kind := Item(ts.value, coords);
  }

  /** `parse_input` over the lines of the input file. */
  method ParseInput(lines: seq<string>) returns (r: Result<Table<set<RawCoord>>>)
    ensures r == Parse(lines)
  {
    var table: Table<set<RawCoord>> := [];
    var i := 0;
    while i < |lines|
      invariant 0 <= i <= |lines|
      invariant Scan(ReadAll(lines[..i])) == Running(table)
    {
      var kind := ReadOneLine(lines[i]);
      ReadNextLine(lines, i);
      match kind {
        case Malformed =>
          r := Err(MalformedLine(i));
        case Stop =>
          r := Ok(table);
        case BadTs =>
          r := Err(BadTimestep(i));
        case Item(ts, coords) =>
          if ts in Keys(table) {
            r := Err(RepeatedTimestep(ts));
          } else {
            table := table + [Entry(ts, coords)];
            i := i + 1;
            continue;
          }
      }
      ParseSettledAt(lines, i);
      return;
    }
    assert lines[..i] == lines;
    r := Ok(table);
  }

  lemma ReadNextLine(lines: seq<string>, i: nat)
    requires i < |lines|
    ensures ReadAll(lines[..i + 1]) == ReadAll(lines[..i]) + [ReadLine(lines[i])]
  {
    ReadAllConcat(lines[..i], [lines[i]]);
    assert lines[..i + 1] == lines[..i] + [lines[i]];
  }

  /** Once line `i` stops or fails the reading, it decides the result. */
  lemma ParseSettledAt(lines: seq<string>, i: nat)
    requires i < |lines|
    requires !Scan(ReadAll(lines[..i + 1])).Running?
    ensures Parse(lines) == Finish(Scan(ReadAll(lines[..i + 1])))
  {
    ScanSettled(ReadAll(lines[..i + 1]), ReadAll(lines[i + 1..]));
    ReadAllConcat(lines[..i + 1], lines[i + 1..]);
    assert lines[..i + 1] + lines[i + 1..] == lines;
  }

  // ---------------------------------------------------------------------
  // Properties of the parser.

  /** Once reading has stopped or failed, later lines change nothing. */
  lemma {:induction false} ScanSettled(kinds: seq<LineKind>, more: seq<LineKind>)
    requires !Scan(kinds).Running?
    ensures Scan(kinds + more) == Scan(kinds)
  {
    if more != [] {
      var init := more[..|more| - 1];
      ScanSettled(kinds, init);
      var all := kinds + more;
      assert all[..|all| - 1] == kinds + init;
      assert Scan(all) == Step(Scan(kinds + init), all[|all| - 1], |all| - 1);
    } else {
      assert kinds + more == kinds;
    }
  }

  /** A line whose coordinate list is empty ends the program: whatever
      follows it is never read, and the result is that of the lines before. */
  lemma StopLineEndsProgram(before: seq<string>, line: string, after: seq<string>)
    requires ReadLine(line) == Stop
    ensures Parse(before + [line] + after) == Parse(before)
  {
    var kb := ReadAll(before);
    ReadAllConcat(before, [line]);
    ReadAllConcat(before + [line], after);
    assert ReadAll([line]) == [Stop];
    assert (kb + [Stop])[..|kb|] == kb;
    ScanSettled(kb + [Stop], ReadAll(after));
  }

  /** A timestep written on two lines raises instead of merging the sets. */
  lemma RepeatedTimestepFails(before: seq<string>, line: string, after: seq<string>, ts: int)
    requires Scan(ReadAll(before)).Running? && ts in Keys(Scan(ReadAll(before)).table)
    requires ReadLine(line).Item? && ReadLine(line).ts == ts
    ensures Parse(before + [line] + after) == Err(RepeatedTimestep(ts))
  {
    var kb := ReadAll(before);
    var k := ReadLine(line);
    ReadAllConcat(before, [line]);
    ReadAllConcat(before + [line], after);
    assert ReadAll([line]) == [k];
    assert (kb + [k])[..|kb|] == kb;
    assert Scan(kb + [k]) == Step(Scan(kb), k, |kb|);
    assert Scan(kb + [k]) == Failed(RepeatedTimestep(ts));
    ScanSettled(kb + [k], ReadAll(after));
  }

  // ---------------------------------------------------------------------
  // Programs written in the input format of `parse_input`,
  // `TS: <coords>`, parse back to what was written.

  /** `x,y`: one group as it stands between the parentheses. */
  function Group(c: Coord): string {
    ShowInt(c.x) + "," + ShowInt(c.y)
  }

  /** `(x,y)`. */
  function CoordText(c: Coord): string {
    "(" + Group(c) + ")"
  }

  function CoordsText(cs: seq<Coord>): string {
    if cs == [] then "" else CoordText(cs[0]) + CoordsText(cs[1..])
  }

  /** `<timestep>:(x,y)(x,y)...`. */
  function ProgramLine(ts: int, cs: seq<Coord>): string {
    ShowInt(ts) + ":" + CoordsText(cs)
  }

  /** The raw coordinate `tuple(rc.split(','))` reads from `(x,y)`. */
  function RawOf(c: Coord): RawCoord {
    [ShowInt(c.x), ShowInt(c.y)]
  }

  /** The raw coordinates of a list of coordinates, each once. */
  function RawSet(cs: seq<Coord>): set<RawCoord> {
    set c | c in cs :: RawOf(c)
  }

  /** A coordinate as it stands on a line: the white space in front of its
      `(`, then `(x,y)`. `0:(1,2)(3,4)` writes every coordinate with no white
      space, `0: (1,2) (3,4)` with one space in front of each. */
  datatype Written = Written(pad: string, at: Coord)

  /** Every coordinate of the list written with the same white space in
      front. */
  function Padded(pad: string, cs: seq<Coord>): (ws: seq<Written>)
    ensures |ws| == |cs|
    ensures forall k :: 0 <= k < |cs| ==> ws[k] == Written(pad, cs[k])
  {
    seq(|cs|, k requires 0 <= k < |cs| => Written(pad, cs[k]))
  }

  /** Every written coordinate has only white space in front of it. */
  predicate Blanks(ws: seq<Written>) {
    forall k :: 0 <= k < |ws| ==> Blank(ws[k].pad)
  }

  function WrittenText(ws: seq<Written>): string {
    if ws == [] then "" else ws[0].pad + CoordText(ws[0].at) + WrittenText(ws[1..])
  }

  /** `<timestep>:` and the written coordinates. */
  function WrittenLine(ts: int, ws: seq<Written>): string {
    ShowInt(ts) + ":" + WrittenText(ws)
  }

  /** What is left of a written coordinate between two ')' once every '('
      is dropped. */
  function WrittenGroup(w: Written): string {
    w.pad + Group(w.at)
  }

  /** The raw coordinate `tuple(rc.split(','))` reads from a written
      coordinate: the white space in front stays in its first field. */
  function WrittenRaw(w: Written): RawCoord {
    [w.pad + ShowInt(w.at.x), ShowInt(w.at.y)]
  }

  function WrittenRawSet(ws: seq<Written>): set<RawCoord> {
    set w | w in ws :: WrittenRaw(w)
  }

  function WrittenGroups(ws: seq<Written>): (gs: seq<string>)
    ensures |gs| == |ws|
    ensures forall k :: 0 <= k < |ws| ==> gs[k] == WrittenGroup(ws[k])
  {
    if ws == [] then [] else [WrittenGroup(ws[0])] + WrittenGroups(ws[1..])
  }

  predicate SignedDigits(s: string) {
    forall i :: 0 <= i < |s| ==> IsDigit(s[i]) || s[i] == '-'
  }

  lemma ShowIntShape(n: int)
    ensures ShowInt(n) != [] && SignedDigits(ShowInt(n))
    ensures !IsSpace(ShowInt(n)[0])
  {
  }

  /** `str(n)` holds none of the punctuation of the format. */
  lemma ShowIntLacks(n: int)
    ensures ShowInt(n) != []
    ensures ',' !in ShowInt(n) && ')' !in ShowInt(n) && ':' !in ShowInt(n) && '(' !in ShowInt(n)
  {
    ShowIntShape(n);
  }

  lemma WrittenGroupShape(w: Written)
    requires Blank(w.pad)
    ensures WrittenGroup(w) != [] && ')' !in WrittenGroup(w) && ':' !in WrittenGroup(w)
    ensures '(' !in WrittenGroup(w)
    ensures Split(WrittenGroup(w), ',') == WrittenRaw(w)
  {
    BlankLacks(w.pad, ',');
    BlankLacks(w.pad, ')');
    BlankLacks(w.pad, ':');
    BlankLacks(w.pad, '(');
    ShowIntLacks(w.at.x);
    ShowIntLacks(w.at.y);
    var a, b := w.pad + ShowInt(w.at.x), ShowInt(w.at.y);
    assert WrittenGroup(w) == a + [','] + b;
    assert Join([a, b], ',') == a + [','] + b;
    SplitJoin([a, b], ',');
  }

  lemma {:induction false} WrittenTextNoColon(ws: seq<Written>)
    requires Blanks(ws)
    ensures ':' !in WrittenText(ws)
  {
    if ws != [] {
      WrittenTextNoColon(ws[1..]);
      WrittenGroupShape(ws[0]);
    }
  }

  /** White space holds no character that is not white space. */
  lemma BlankLacks(pad: string, ch: char)
    requires Blank(pad) && !IsSpace(ch)
    ensures ch !in pad
  {
  }

  lemma GroupShape(c: Coord)
    ensures '(' !in Group(c)
  {
    ShowIntShape(c.x);
    ShowIntShape(c.y);
  }

  lemma RemoveParenPlain(c: Coord, rest: string)
    ensures RemoveChar(CoordText(c) + rest, '(') == Group(c) + [')'] + RemoveChar(rest, '(')
  {
    var g := Group(c);
    GroupShape(c);
    assert CoordText(c) + rest == ['('] + (g + ([')'] + rest));
    RemoveCharConcat(['('], g + ([')'] + rest), '(');
    assert RemoveChar(['('], '(') == [];
    RemoveCharConcat(g, [')'] + rest, '(');
    RemoveCharAbsent(g, '(');
    RemoveCharConcat([')'], rest, '(');
    assert RemoveChar([')'], '(') == [')'];
  }

  lemma RemoveParen(w: Written, rest: string)
    requires Blank(w.pad)
    ensures RemoveChar(w.pad + CoordText(w.at) + rest, '(')
            == WrittenGroup(w) + [')'] + RemoveChar(rest, '(')
  {
    var tail := CoordText(w.at) + rest;
    assert w.pad + CoordText(w.at) + rest == w.pad + tail;
    RemoveCharConcat(w.pad, tail, '(');
    BlankLacks(w.pad, '(');
    RemoveCharAbsent(w.pad, '(');
    RemoveParenPlain(w.at, rest);
    assert w.pad + (Group(w.at) + [')'] + RemoveChar(rest, '('))
        == WrittenGroup(w) + [')'] + RemoveChar(rest, '(');
  }

  lemma JoinCons(g: string, l: seq<string>, sep: char)
    requires |l| >= 1
    ensures Join([g] + l, sep) == g + [sep] + Join(l, sep)
  {
    assert ([g] + l)[1..] == l;
  }

  /** Dropping the '(' of the written coordinates leaves their groups joined
      by ')', followed by one empty piece. */
  lemma {:induction false} WrittenTextGroups(ws: seq<Written>)
    requires Blanks(ws)
    ensures RemoveChar(WrittenText(ws), '(') == Join(WrittenGroups(ws) + [[]], ')')
  {
    if ws != [] {
      var rest := WrittenText(ws[1..]);
      WrittenTextGroups(ws[1..]);
      RemoveParen(ws[0], rest);
      var l := WrittenGroups(ws[1..]) + [[]];
      JoinCons(WrittenGroup(ws[0]), l, ')');
      assert [WrittenGroup(ws[0])] + l == WrittenGroups(ws) + [[]];
    }
  }

  lemma {:induction false} LeadingWrittenGroups(ws: seq<Written>)
    requires Blanks(ws)
    ensures LeadingGroups(WrittenGroups(ws) + [[]]) == WrittenGroups(ws)
  {
    forall k | 0 <= k < |ws| ensures WrittenGroups(ws)[k] != [] {
      WrittenGroupShape(ws[k]);
    }
    LeadingGroupsAt(WrittenGroups(ws) + [[]], |ws|);
    assert (WrittenGroups(ws) + [[]])[..|ws|] == WrittenGroups(ws);
  }

  lemma {:induction false} GroupSetOfWritten(ws: seq<Written>)
    requires Blanks(ws)
    ensures GroupSet(WrittenGroups(ws)) == WrittenRawSet(ws)
  {
    if ws != [] {
      var init := ws[..|ws| - 1];
      var last := ws[|ws| - 1];
      assert ws == init + [last];
      WrittenGroupsSnoc(init, last);
      GroupSetSnoc(WrittenGroups(init), WrittenGroup(last));
      GroupSetOfWritten(init);
      WrittenGroupShape(last);
      WrittenRawSetSnoc(init, last);
    }
  }

  lemma WrittenGroupsSnoc(ws: seq<Written>, w: Written)
    ensures WrittenGroups(ws + [w]) == WrittenGroups(ws) + [WrittenGroup(w)]
  {
  }

  lemma WrittenRawSetSnoc(ws: seq<Written>, w: Written)
    ensures WrittenRawSet(ws + [w]) == WrittenRawSet(ws) + {WrittenRaw(w)}
  {
  }

  lemma GroupSetSnoc(groups: seq<string>, g: string)
    ensures GroupSet(groups + [g]) == GroupSet(groups) + {Split(g, ',')}
  {
    assert (groups + [g])[..|groups|] == groups;
  }

  lemma RawSetSnoc(cs: seq<Coord>, c: Coord)
    ensures RawSet(cs + [c]) == RawSet(cs) + {RawOf(c)}
  {
  }

  lemma {:induction false} WrittenTextLast(ws: seq<Written>)
    requires ws != []
    ensures WrittenText(ws) != [] && WrittenText(ws)[|WrittenText(ws)| - 1] == ')'
  {
    if |ws| > 1 {
      WrittenTextLast(ws[1..]);
    }
  }

  /** A line with at least one coordinate, each with only white space in
      front, reads as its timestep and the set of the raw coordinates
      written; the white space stays in the first field of each. */
  lemma ReadWrittenLine(ts: int, ws: seq<Written>)
    requires ws != [] && Blanks(ws)
    ensures ReadLine(WrittenLine(ts, ws)) == Item(ts, WrittenRawSet(ws))
  {
    var line := WrittenLine(ts, ws);
    var head, body := ShowInt(ts), WrittenText(ws);
    ShowIntShape(ts);
    WrittenTextLast(ws);
    WrittenTextNoColon(ws);
    assert Strip(line) == line by {
      assert TrimStart(line) == line;
      assert line[|line| - 1] == ')';
    }
    assert Split(Strip(line), ':') == [head, body] by {
      assert ':' !in head;
      assert Join([head, body], ':') == line;
      SplitJoin([head, body], ':');
    }
    var gs := WrittenGroups(ws) + [[]];
    WrittenTextGroups(ws);
    assert RemoveChar(body, '(') == Join(gs, ')');
    WrittenGroupShape(ws[0]);
    assert Join(gs, ')') != [];
    assert Split(Join(gs, ')'), ')') == gs by {
      forall k | 0 <= k < |gs| ensures ')' !in gs[k] {
        if k < |ws| {
          WrittenGroupShape(ws[k]);
        }
      }
      SplitJoin(gs, ')');
    }
    LeadingWrittenGroups(ws);
    GroupSetOfWritten(ws);
    ParseShowInt(ts);
  }

  /** `(x,y)(x,y)...` is the list written with no white space. */
  lemma {:induction false} PlainText(cs: seq<Coord>)
    ensures WrittenText(Padded("", cs)) == CoordsText(cs)
  {
    if cs != [] {
      var ws := Padded("", cs);
      PlainText(cs[1..]);
      assert ws[1..] == Padded("", cs[1..]);
      assert ws[0].pad + CoordText(ws[0].at) == CoordText(cs[0]);
    }
  }

  lemma PlainRaw(c: Coord)
    ensures WrittenRaw(Written("", c)) == RawOf(c)
  {
    assert "" + ShowInt(c.x) == ShowInt(c.x);
  }

  /** With no white space in front, the raw coordinates are those of the
      coordinates. */
  lemma PlainRawSet(cs: seq<Coord>)
    ensures WrittenRawSet(Padded("", cs)) == RawSet(cs)
  {
    var ws := Padded("", cs);
    forall rc | rc in RawSet(cs) ensures rc in WrittenRawSet(ws) {
      var c :| c in cs && rc == RawOf(c);
      var k :| 0 <= k < |cs| && cs[k] == c;
      PlainRaw(c);
      assert WrittenRaw(ws[k]) == rc;
    }
    forall rc | rc in WrittenRawSet(ws) ensures rc in RawSet(cs) {
      var w :| w in ws && rc == WrittenRaw(w);
      var k :| 0 <= k < |ws| && ws[k] == w;
      PlainRaw(cs[k]);
      assert RawOf(cs[k]) == rc;
    }
  }

  /** A line `ts:(x,y)(x,y)...` with at least one coordinate reads as its
      timestep and the set of its coordinates. */
  lemma ReadProgramLine(ts: int, cs: seq<Coord>)
    requires cs != []
    ensures ReadLine(ProgramLine(ts, cs)) == Item(ts, RawSet(cs))
  {
    PlainText(cs);
    PlainRawSet(cs);
    ReadWrittenLine(ts, Padded("", cs));
  }

  /** The lines `ts:(x,y)(x,y)...` of a program. */
  function ProgramLines(prog: seq<(int, seq<Coord>)>): (lines: seq<string>)
    ensures |lines| == |prog|
  {
    if prog == [] then []
    else ProgramLines(prog[..|prog| - 1]) + [ProgramLine(prog[|prog| - 1].0, prog[|prog| - 1].1)]
  }

  /** The dictionary such a program should produce. */
  function ProgramTable(prog: seq<(int, seq<Coord>)>): (t: Table<set<RawCoord>>)
    ensures |t| == |prog|
  {
    if prog == [] then []
    else ProgramTable(prog[..|prog| - 1])
         + [Entry(prog[|prog| - 1].0, RawSet(prog[|prog| - 1].1))]
  }

  /** What each line of such a program reads as. */
  function ProgramKinds(prog: seq<(int, seq<Coord>)>): (kinds: seq<LineKind>)
    ensures |kinds| == |prog|
  {
    if prog == [] then []
    else ProgramKinds(prog[..|prog| - 1])
         + [Item(prog[|prog| - 1].0, RawSet(prog[|prog| - 1].1))]
  }

  lemma {:induction false} ReadProgramLines(prog: seq<(int, seq<Coord>)>)
    requires forall i :: 0 <= i < |prog| ==> prog[i].1 != []
    ensures ReadAll(ProgramLines(prog)) == ProgramKinds(prog)
  {
    if prog != [] {
      var init := prog[..|prog| - 1];
      var ts, cs := prog[|prog| - 1].0, prog[|prog| - 1].1;
      var line := ProgramLine(ts, cs);
      ReadProgramLines(init);
      ReadProgramLine(ts, cs);
      ReadAllConcat(ProgramLines(init), [line]);
      assert ReadAll([line]) == [Item(ts, RawSet(cs))];
      assert ProgramLines(prog) == ProgramLines(init) + [line];
    }
  }

  lemma {:induction false} ScanProgramKinds(prog: seq<(int, seq<Coord>)>)
    requires forall i, j :: 0 <= i < j < |prog| ==> prog[i].0 != prog[j].0
    ensures Scan(ProgramKinds(prog)) == Running(ProgramTable(prog))
  {
    if prog != [] {
      var init := prog[..|prog| - 1];
      var ts := prog[|prog| - 1].0;
      ScanProgramKinds(init);
      var t := ProgramTable(init);
      forall k | 0 <= k < |t|
        ensures t[k].ts != ts
      {
        ProgramTableKeys(init, k);
        assert init[k] == prog[k];
      }
      ScanItem(ProgramKinds(init), t, ts, RawSet(prog[|prog| - 1].1));
    }
  }

  /** Writing a program with distinct timesteps and non-empty coordinate
      lists as lines `ts:(x,y)(x,y)...` and parsing it gives back every
      timestep, in order, with the set of its coordinates. */
  lemma ParseProgram(prog: seq<(int, seq<Coord>)>)
    requires forall i :: 0 <= i < |prog| ==> prog[i].1 != []
    requires forall i, j :: 0 <= i < j < |prog| ==> prog[i].0 != prog[j].0
    ensures Scan(ReadAll(ProgramLines(prog))) == Running(ProgramTable(prog))
    ensures Parse(ProgramLines(prog)) == Ok(ProgramTable(prog))
  {
    ReadProgramLines(prog);
    ScanProgramKinds(prog);
  }

  /** Reading one more line with a new timestep appends its entry. */
  lemma ScanNextLine(lines: seq<string>, line: string, t: Table<set<RawCoord>>, ts: int,
                     coords: set<RawCoord>)
    requires Scan(ReadAll(lines)) == Running(t) && ts !in Keys(t)
    requires ReadLine(line) == Item(ts, coords)
    ensures Scan(ReadAll(lines + [line])) == Running(t + [Entry(ts, coords)])
  {
    ReadAllConcat(lines, [line]);
    ScanItem(ReadAll(lines), t, ts, coords);
  }

  lemma ScanItem(kinds: seq<LineKind>, t: Table<set<RawCoord>>, ts: int, coords: set<RawCoord>)
    requires Scan(kinds) == Running(t) && ts !in Keys(t)
    ensures Scan(kinds + [Item(ts, coords)]) == Running(t + [Entry(ts, coords)])
  {
    assert (kinds + [Item(ts, coords)])[..|kinds|] == kinds;
  }

  lemma {:induction false} ProgramTableKeys(prog: seq<(int, seq<Coord>)>, k: nat)
    requires k < |prog|
    ensures ProgramTable(prog)[k].ts == prog[k].0
  {
    if k < |prog| - 1 {
      ProgramTableKeys(prog[..|prog| - 1], k);
    }
  }

  /** A program written as lines `ts:(x,y)(x,y)...` followed by a line with an empty
      coordinate list parses to that program's dictionary, whatever comes
      after. */
  lemma ProgramThenStop(prog: seq<(int, seq<Coord>)>, ts: int, after: seq<string>)
    requires forall i :: 0 <= i < |prog| ==> prog[i].1 != []
    requires forall i, j :: 0 <= i < j < |prog| ==> prog[i].0 != prog[j].0
    ensures Parse(ProgramLines(prog) + [ProgramLine(ts, [])] + after) == Ok(ProgramTable(prog))
  {
    ParseProgram(prog);
    ReadStopLine(ts);
    StopLineEndsProgram(ProgramLines(prog), ProgramLine(ts, []), after);
  }

  /** An example program: `0:(1,2)(3,4)`, `1:`, `2:(5,6)` parses to
      timestep 0 alone, with the raw coordinates of its line (which
      ExampleRawSet spells out); the line of timestep 2 is never read. */
  lemma ExampleProgram(a: Coord, b: Coord, c: Coord)
    requires a == Coord(1, 2) && b == Coord(3, 4) && c == Coord(5, 6)
    ensures Parse([ProgramLine(0, [a, b]), ProgramLine(1, []), ProgramLine(2, [c])])
            == Ok([Entry(0, RawSet([a, b]))])
  {
    var prog := [(0, [a, b])];
    ProgramThenStop(prog, 1, [ProgramLine(2, [c])]);
    assert ProgramLines(prog) + [ProgramLine(1, [])] + [ProgramLine(2, [c])]
        == [ProgramLine(0, [a, b]), ProgramLine(1, []), ProgramLine(2, [c])];
    assert ProgramTable(prog) == [Entry(0, RawSet([a, b]))];
  }

  /** The raw coordinates of `(1,2)(3,4)` are the string pairs `('1', '2')`
      and `('3', '4')`. */
  lemma ExampleRawSet(a: Coord, b: Coord)
    requires a == Coord(1, 2) && b == Coord(3, 4)
    ensures RawSet([a, b]) == {["1", "2"], ["3", "4"]}
  {
    RawSetSnoc([], a);
    RawSetSnoc([a], b);
    assert [] + [a] == [a] && [a] + [b] == [a, b];
    assert ShowInt(1) == "1" && ShowInt(2) == "2";
    assert ShowInt(3) == "3" && ShowInt(4) == "4";
  }

  /** The text of the example program's lines. */
  lemma ExampleLines()
    ensures ProgramLine(0, [Coord(1, 2), Coord(3, 4)]) == "0:(1,2)(3,4)"
    ensures ProgramLine(1, []) == "1:"
    ensures ProgramLine(2, [Coord(5, 6)]) == "2:(5,6)"
  {
    assert ShowInt(0) == "0" && ShowInt(1) == "1" && ShowInt(2) == "2";
    assert ShowInt(3) == "3" && ShowInt(4) == "4";
    var a, b := Coord(1, 2), Coord(3, 4);
    assert CoordText(a) == "(1,2)";
    assert CoordText(b) == "(3,4)";
    assert [a, b][1..] == [b];
    assert CoordsText([b]) == "(3,4)";
    assert CoordsText([a, b]) == "(1,2)(3,4)";
    assert ShowInt(5) == "5" && ShowInt(6) == "6";
    assert CoordsText([Coord(5, 6)]) == "(5,6)";
  }

  /** A line with a timestep and nothing after the colon ends the program. */
  lemma ReadStopLine(ts: int)
    ensures ReadLine(ProgramLine(ts, [])) == Stop
  {
    var head := ShowInt(ts);
    var line := ProgramLine(ts, []);
    ShowIntShape(ts);
    assert line == head + [':'];
    assert Strip(line) == line by {
      assert TrimStart(line) == line;
      assert line[|line| - 1] == ':';
    }
    assert Split(line, ':') == [head, []] by {
      assert ':' !in head;
      assert Join([head, []], ':') == line;
      SplitJoin([head, []], ':');
    }
  }

  /** A group written twice on one line is kept once. */
  lemma DuplicateGroupsCollapse(ts: int, c: Coord)
    ensures ReadLine(ProgramLine(ts, [c, c])) == ReadLine(ProgramLine(ts, [c]))
    ensures ReadLine(ProgramLine(ts, [c])) == Item(ts, {RawOf(c)})
  {
    ReadProgramLine(ts, [c, c]);
    ReadProgramLine(ts, [c]);
    assert RawSet([c, c]) == {RawOf(c)};
    assert RawSet([c]) == {RawOf(c)};
  }
}
