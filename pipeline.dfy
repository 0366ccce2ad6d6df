/** The translation branch of `main` (main.py:30-57): parse the program,
    translate the grid, describe every frame for the JSON file, then pack
    the frames and write one `.od` line per frame, the values separated by
    single spaces. */
module Pipeline {
  import opened Common
  import opened Text
  import opened Grid
  import opened Parser
  import opened Translator
  import opened Encoder
  import opened Description

  /** `' '.join([str(st) for st in ts])`, without the line break. */
  function OdLine(frame: seq<int>): string
    requires |frame| >= 1
  {
    Join(Map(frame, ShowInt), ' ')
  }

  function SomeInt(n: int): Option<int> {
    Some(n)
  }

  lemma ShowIntNoSpace(n: int)
    ensures ' ' !in ShowInt(n)
  {
    var ds := NatDigits(if n < 0 then -n else n);
    assert forall i :: 0 <= i < |ds| ==> ds[i] != ' ';
  }

  /** An `.od` line splits at its spaces into the decimal texts of the frame
      values, which read back as the values. */
  lemma OdLineRoundTrip(frame: seq<int>)
    requires |frame| >= 1
    ensures Split(OdLine(frame), ' ') == Map(frame, ShowInt)
    ensures Map(Split(OdLine(frame), ' '), ParseInt) == Map(frame, SomeInt)
  {
    var parts := Map(frame, ShowInt);
    forall i | 0 <= i < |parts| ensures ' ' !in parts[i] {
      MapAt(frame, ShowInt, i);
      ShowIntNoSpace(frame[i]);
    }
    SplitJoin(parts, ' ');
    forall i | 0 <= i < |frame| ensures Map(parts, ParseInt)[i] == Map(frame, SomeInt)[i] {
      MapAt(parts, ParseInt, i);
      MapAt(frame, ShowInt, i);
      MapAt(frame, SomeInt, i);
      ParseShowInt(frame[i]);
    }
  }

  /** What the translation branch produces: the JSON records, the frames
      and their `.od` lines. */
  datatype Output = Output(json: seq<FrameRecord>, frames: seq<seq<int>>, od: seq<string>)

  /** The frames `coord_to_bytemap` returned, as the lines of the `.od`
      file. */
  method OdLines(bytemap: seq<seq<int>>) returns (lines: seq<string>)
    requires forall i :: 0 <= i < |bytemap| ==> |bytemap[i]| == Columns
    ensures |lines| == |bytemap|
    ensures forall i :: 0 <= i < |bytemap| ==> lines[i] == OdLine(bytemap[i])
  {
    lines := [];
    var i := 0;
    while i < |bytemap|
      invariant 0 <= i <= |bytemap| && |lines| == i
      invariant forall j :: 0 <= j < i ==> lines[j] == OdLine(bytemap[j])
    {
      lines := lines + [OdLine(bytemap[i])];
      i := i + 1;
    }
  }

  /** The JSON record and the frame of one timestep describe the same
      electrodes, and the frame is made of bytes. */
  predicate Consistent(rec: FrameRecord, frame: seq<int>) {
    Shaped(rec.rows) && |frame| == Columns
    && (forall c :: 0 <= c < Columns ==> 0 <= frame[c] <= 255)
    && ReadRows(rec.rows) == DecodeFrame(frame)
  }

  /** Records and frames built from the same translated dictionary agree. */
  lemma AllConsistent(t: Table<seq<Coord>>, json: seq<FrameRecord>, frames: seq<seq<int>>)
    requires |json| == |t| && |frames| == |t|
    requires forall i :: 0 <= i < |t| ==> InColumns(t[i].val) && InRows(t[i].val)
    requires forall i :: 0 <= i < |t| ==> json[i].rows == Describe(Lights(t[i].val))
    requires forall i :: 0 <= i < |t| ==> frames[i] == MaskFrame(Electrodes(t[i].val))
    ensures forall i :: 0 <= i < |t| ==> Consistent(json[i], frames[i])
  {
    forall i | 0 <= i < |t| ensures Consistent(json[i], frames[i]) {
      DescriptionAgreesWithMask(t[i].val);
      MaskFrameBytes(Electrodes(t[i].val));
    }
  }

  /** What the translation branch writes for a translated dictionary: one
      JSON record, one frame and one `.od` line per timestep, the record and
      the frame describing the same electrodes. */
  predicate Rendered(t: Table<seq<Coord>>, out: Output) {
    |out.json| == |t| && |out.frames| == |t| && |out.od| == |t|
    && forall i :: 0 <= i < |t| ==>
         out.json[i] == FrameRecord(Describe(Lights(t[i].val)), t[i].ts)
         && out.frames[i] == MaskFrame(Electrodes(t[i].val))
         && out.od[i] == OdLine(out.frames[i])
         && Consistent(out.json[i], out.frames[i])
  }

  /** The error the translation branch raises for a translated dictionary.
      The JSON loop runs over every timestep first, so the first timestep with
      a row that does not index the JSON rows is reported before any negative
      row; without one, the first timestep with a negative row is reported. */
  predicate RenderFailure(t: Table<seq<Coord>>, e: Error) {
    ((exists i :: 0 <= i < |t| && !Indexable(t[i].val)) ==>
       exists i :: 0 <= i < |t| && !Indexable(t[i].val)
                   && (forall j :: 0 <= j < i ==> Indexable(t[j].val))
                   && e == RowOutOfRange(t[i].ts))
    && ((forall i :: 0 <= i < |t| ==> Indexable(t[i].val)) ==>
          exists i :: 0 <= i < |t| && !InRows(t[i].val)
                      && (forall j :: 0 <= j < i ==> InRows(t[j].val))
                      && e == NegativeShift(t[i].ts))
  }

  /** The JSON description and the `.od` lines of a translated dictionary,
      packing with the corrected encoder. */
  method RenderFrames(t: Table<seq<Coord>>) returns (r: Result<Output>)
    requires forall i :: 0 <= i < |t| ==> InColumns(t[i].val)
    ensures r.Ok? <==> forall i :: 0 <= i < |t| ==> InRows(t[i].val)
    ensures r.Ok? ==> Rendered(t, r.value)
    ensures r.Err? ==> RenderFailure(t, r.error)
  {
    forall i | 0 <= i < |t|
      ensures InRows(t[i].val) ==> Indexable(t[i].val)
      ensures Indexable(t[i].val) ==> forall k :: 0 <= k < |t[i].val| ==> t[i].val[k].y < Rows
    {
      IndexableRows(t[i].val);
    }
    var json := DescribeFrames(t);
    if json.Err? {
      return Err(json.error);
    }
    var bytemap := CoordToMaskBytemap(t);
    if bytemap.Err? {
      return Err(bytemap.error);
    }
    AllConsistent(t, json.value, bytemap.value);
    var od := OdLines(bytemap.value);
    r := Ok(Output(json.value, bytemap.value, od));
  }

  /** Every coordinate set of the parsed dictionary converts to integers. */
  predicate AllWellFormed(t: Table<set<RawCoord>>) {
    forall i :: 0 <= i < |t| ==> WellFormed(t[i].val)
  }

  /** `translated` is the dictionary `translate_grid` builds from `t`: the
      same timesteps in the same order, each coordinate set taken in the
      order `orders[i]` and translated. */
  predicate TranslatedFrom(t: Table<set<RawCoord>>, translated: Table<seq<Coord>>,
                           orders: seq<seq<RawCoord>>) {
    Keys(translated) == Keys(t) && |orders| == |t|
    && forall i :: 0 <= i < |t| ==>
         multiset(orders[i]) == multiset(t[i].val) && TranslateSeq(orders[i]) == Some(translated[i].val)
  }

  /** The whole translation branch over the lines of a program file.
      `translated` is the dictionary after `translate_grid`, its lists in the
      iteration order `orders` of the coordinate sets. The first stage that
      fails decides the error: the parser, then the first timestep with a
      coordinate that does not convert, then RenderFrames. */
  method TranslateProgram(lines: seq<string>)
    returns (r: Result<Output>, ghost translated: Table<seq<Coord>>, ghost orders: seq<seq<RawCoord>>)
    ensures Parse(lines).Err? ==> r == Err(Parse(lines).error)
    ensures Parse(lines).Ok? && !AllWellFormed(Parse(lines).value) ==>
              var t := Parse(lines).value;
              exists i :: 0 <= i < |t| && !WellFormed(t[i].val)
                          && (forall j :: 0 <= j < i ==> WellFormed(t[j].val))
                          && r == Err(MalformedCoordinate(t[i].ts))
    ensures Parse(lines).Ok? && AllWellFormed(Parse(lines).value) ==>
              TranslatedFrom(Parse(lines).value, translated, orders)
              && (r.Ok? <==> forall i :: 0 <= i < |translated| ==> InRows(translated[i].val))
              && (r.Ok? ==> Rendered(translated, r.value))
              && (r.Err? ==> RenderFailure(translated, r.error))
    ensures r.Ok? ==> Parse(lines).Ok? && AllWellFormed(Parse(lines).value)
  {
    translated, orders := [], [];
    var parsed := ParseInput(lines);
    if parsed.Err? {
      return Err(parsed.error), translated, orders;
    }
    var t := parsed.value;
    var grid;
    grid, orders := TranslateGrid(t);
    if grid.Err? {
      return Err(grid.error), translated, orders;
    }
    var tt := grid.value;
    translated := tt;
    TranslatedShape(t, tt, orders);
    r := RenderFrames(tt);
  }

  /** `0:(1,2) (1,2)` names electrode (1, 2) twice, the second time with a
      space in front. The two raw coordinates differ, so the set keeps both;
      in either order both translate to electrode (2, 2), and the frame as
      written sums column 2 to 8, the bit of electrode (2, 3). The corrected
      frame switches on (2, 2) alone. */
  lemma MixedSpacingDoubles(a: Written, b: Written, order: seq<RawCoord>)
    requires a == Written("", Coord(1, 2)) && b == Written(" ", Coord(1, 2))
    requires multiset(order) == multiset{WrittenRaw(a), WrittenRaw(b)}
    ensures WrittenLine(0, [a, b]) == "0:(1,2) (1,2)"
    ensures ReadLine(WrittenLine(0, [a, b])) == Item(0, {WrittenRaw(a), WrittenRaw(b)})
    ensures WrittenRaw(a) != WrittenRaw(b)
    ensures TranslateSeq(order) == Some([Coord(2, 2), Coord(2, 2)])
    ensures DecodeFrame(Frame([Coord(2, 2), Coord(2, 2)])) == {Coord(2, 3)}
    ensures DecodeFrame(MaskFrame(Electrodes([Coord(2, 2), Coord(2, 2)]))) == {Coord(2, 2)}
  {
    MixedSpacingLine(a, b);
    assert Blank(" ");
    TwoWritingsTranslate(a, b, order);
    DoubledElectrode(Coord(2, 2));
  }

  lemma MixedSpacingLine(a: Written, b: Written)
    requires a == Written("", Coord(1, 2)) && b == Written(" ", Coord(1, 2))
    ensures WrittenLine(0, [a, b]) == "0:(1,2) (1,2)"
    ensures ReadLine(WrittenLine(0, [a, b])) == Item(0, {WrittenRaw(a), WrittenRaw(b)})
    ensures WrittenRaw(a) != WrittenRaw(b)
  {
    MixedSpacingText(a, b);
    assert Blank(" ");
    assert Blanks([a, b]);
    ReadWrittenLine(0, [a, b]);
    assert WrittenRawSet([a, b]) == {WrittenRaw(a), WrittenRaw(b)};
    assert |WrittenRaw(a)[0]| != |WrittenRaw(b)[0]|;
  }

  lemma MixedSpacingText(a: Written, b: Written)
    requires a == Written("", Coord(1, 2)) && b == Written(" ", Coord(1, 2))
    ensures WrittenLine(0, [a, b]) == "0:(1,2) (1,2)"
  {
    assert ShowInt(0) == "0" && ShowInt(1) == "1" && ShowInt(2) == "2";
    assert [a, b][1..] == [b] && [b][1..] == [];
    assert CoordText(Coord(1, 2)) == "(1,2)";
    assert WrittenText([b]) == " (1,2)";
    assert WrittenText([a, b]) == "(1,2) (1,2)";
  }

  /** Two writings of one coordinate, with different white space in front,
      translate to its electrode twice, whichever comes first. */
  lemma TwoWritingsTranslate(a: Written, b: Written, order: seq<RawCoord>)
    requires Blank(a.pad) && Blank(b.pad) && a.at == b.at
    requires multiset(order) == multiset{WrittenRaw(a), WrittenRaw(b)}
    ensures TranslateSeq(order) == Some([Translate(a.at), Translate(a.at)])
  {
    ToLogicalWritten(a);
    ToLogicalWritten(b);
    assert |order| == 2;
    forall i | 0 <= i < |order| ensures ToLogical(order[i]) == Some(a.at) {
      assert order[i] in multiset(order);
    }
    var t := Translate(a.at);
    forall i | 0 <= i < |order| ensures Map(order, Physical)[i] == t {
      MapAt(order, Physical, i);
    }
    assert AllConvert(order);
    assert Map(order, Physical) == [t, t];
  }
}
