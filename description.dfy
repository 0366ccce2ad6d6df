/** The JSON frame description built in `main` (main.py:41-50): for every
    timestep, eight strings `y0` .. `y7` of sixteen characters, character c of
    `y{r}` being '1' when electrode (c, r) is switched on, and the frame
    number.

    The rows are a Python list indexed with the coordinate's row, so a row
    in -8 .. -1 counts from the end of the list and lights row 8 + y; any
    other row outside 0 .. 7 raises IndexError. */
module Description {
  import opened Common
  import opened Grid
  import opened Encoder

  datatype FrameRecord = FrameRecord(rows: seq<string>, frame: int)

  /** The list index `ys[y]` reaches for a list of Rows rows, or None when
      Python raises IndexError. */
  function RowIndex(y: int): (i: Option<int>)
    ensures i.Some? <==> -Rows <= y < Rows
    ensures i.Some? ==> 0 <= i.value < Rows && i.value % Rows == y % Rows
  {
    if 0 <= y < Rows then Some(y)
    else if -Rows <= y < 0 then Some(y + Rows)
    else None
  }

  /** Every coordinate of the list indexes the row list. */
  predicate Indexable(cs: seq<Coord>) {
    forall i :: 0 <= i < |cs| ==> RowIndex(cs[i].y).Some?
  }

  /** Rows inside a byte index the row list, and a row that indexes it is
      below Rows. */
  lemma IndexableRows(cs: seq<Coord>)
    ensures InRows(cs) ==> Indexable(cs)
    ensures Indexable(cs) ==> forall k :: 0 <= k < |cs| ==> cs[k].y < Rows
  {
  }

  /** The cells a list of coordinates switches on in the description. */
  function Lights(cs: seq<Coord>): set<Coord> {
    set c | c in cs && RowIndex(c.y).Some? :: Coord(c.x, RowIndex(c.y).value)
  }

  function Cell(on: bool): char {
    if on then '1' else '0'
  }

  /** The eight row strings describing a set of switched-on cells. */
  function Describe(s: set<Coord>): (rows: seq<string>)
    ensures |rows| == Rows
    ensures forall r :: 0 <= r < Rows ==> |rows[r]| == Columns
    ensures forall r, c :: 0 <= r < Rows && 0 <= c < Columns ==>
              (rows[r][c] == '1' <==> Coord(c, r) in s) && rows[r][c] in {'0', '1'}
  {
    seq(Rows, r => seq(Columns, c => Cell(Coord(c, r) in s)))
  }

  /** Row strings of the right shape: Rows strings of Columns characters. */
  predicate Shaped(rows: seq<string>) {
    |rows| == Rows && forall r :: 0 <= r < Rows ==> |rows[r]| == Columns
  }

  /** The cells a description switches on: an independent reading of the
      row strings. */
  function ReadRows(rows: seq<string>): set<Coord>
    requires Shaped(rows)
  {
    set r, c | 0 <= r < Rows && 0 <= c < Columns && rows[r][c] == '1' :: Coord(c, r)
  }

  lemma LightsSnoc(cs: seq<Coord>, c: Coord)
    requires RowIndex(c.y).Some?
    ensures Lights(cs + [c]) == Lights(cs) + {Coord(c.x, RowIndex(c.y).value)}
  {
    assert forall d :: d in cs + [c] <==> d in cs || d == c;
  }

  /** One timestep of the loop in `main`: a grid of '0', a '1' at
      `ys[y][x]` for every coordinate, and the rows joined into strings. */
  method DescribeFrame(coords: seq<Coord>, ts: int) returns (r: Result<FrameRecord>)
    requires InColumns(coords)
    ensures r.Ok? <==> Indexable(coords)
    ensures r.Ok? ==> r.value == FrameRecord(Describe(Lights(coords)), ts)
    ensures r.Err? ==> r.error == RowOutOfRange(ts)
  {
    var ys := new char[Rows, Columns]((_, _) => '0');
    var k := 0;
    assert Lights(coords[..0]) == {};
    while k < |coords|
      invariant 0 <= k <= |coords|
      invariant Indexable(coords[..k])
      invariant forall i, j :: 0 <= i < Rows && 0 <= j < Columns ==>
                  ys[i, j] == Cell(Coord(j, i) in Lights(coords[..k]))
    {
      var c := coords[k];
      var row := RowIndex(c.y);
      if row.None? {
        assert !Indexable(coords) by {
          assert coords[k] == c;
        }
        return Err(RowOutOfRange(ts));
      }
      assert coords[..k + 1] == coords[..k] + [c];
      LightsSnoc(coords[..k], c);
      ys[row.value, c.x] := '1';
      k := k + 1;
    }
    assert coords[..k] == coords;
    var rows: seq<string> := [];
    var i := 0;
    while i < Rows
      invariant 0 <= i <= Rows
      invariant rows == Describe(Lights(coords))[..i]
    {
      var line := seq(Columns, j requires 0 <= j < Columns reads ys => ys[i, j]);
      assert line == Describe(Lights(coords))[i];
      rows := rows + [line];
      i := i + 1;
    }
    r := Ok(FrameRecord(rows, ts));
  }

  /** `json_rep`: one record per timestep in the dictionary's order; the
      first timestep with a row outside -8 .. 7 raises. */
  method DescribeFrames(t: Table<seq<Coord>>) returns (r: Result<seq<FrameRecord>>)
    requires forall i :: 0 <= i < |t| ==> InColumns(t[i].val)
    ensures r.Ok? <==> forall i :: 0 <= i < |t| ==> Indexable(t[i].val)
    ensures r.Ok? ==>
              |r.value| == |t|
              && forall i :: 0 <= i < |t| ==> r.value[i] == FrameRecord(Describe(Lights(t[i].val)), t[i].ts)
    ensures r.Err? ==>
              exists i :: 0 <= i < |t| && !Indexable(t[i].val)
                          && (forall j :: 0 <= j < i ==> Indexable(t[j].val))
                          && r.error == RowOutOfRange(t[i].ts)
  {
    var out: seq<FrameRecord> := [];
    var i := 0;
    while i < |t|
      invariant 0 <= i <= |t| && |out| == i
      invariant forall j :: 0 <= j < i ==>
                  Indexable(t[j].val) && out[j] == FrameRecord(Describe(Lights(t[j].val)), t[j].ts)
    {
      var rec := DescribeFrame(t[i].val, t[i].ts);
      if rec.Err? {
        return Err(rec.error);
      }
      out := out + [rec.value];
      i := i + 1;
    }
    r := Ok(out);
  }

  // ---------------------------------------------------------------------
  // Reading the description back.

  /** Reading the rows gives back the cells described, as long as they are
      cells of the physical grid. */
  lemma ReadDescribe(s: set<Coord>)
    requires forall p :: p in s ==> InPhysicalGrid(p)
    ensures Shaped(Describe(s)) && ReadRows(Describe(s)) == s
  {
    var rows := Describe(s);
    forall p | p in s ensures p in ReadRows(rows) {
      assert rows[p.y][p.x] == '1';
    }
  }

  /** Row strings over '0' and '1' are the description of what they read
      as. */
  lemma DescribeRead(rows: seq<string>)
    requires Shaped(rows)
    requires forall r, c :: 0 <= r < Rows && 0 <= c < Columns ==> rows[r][c] in {'0', '1'}
    ensures Describe(ReadRows(rows)) == rows
  {
    var d := Describe(ReadRows(rows));
    forall r | 0 <= r < Rows ensures d[r] == rows[r] {
      forall c | 0 <= c < Columns ensures d[r][c] == rows[r][c] {
        if rows[r][c] == '1' {
          assert Coord(c, r) in ReadRows(rows);
        }
      }
    }
  }

  /** Every described cell is an electrode: the lit cells lie in the
      physical grid. */
  lemma LightsInGrid(cs: seq<Coord>)
    requires InColumns(cs)
    ensures forall p :: p in Lights(cs) ==> InPhysicalGrid(p)
  {
    forall p | p in Lights(cs) ensures InPhysicalGrid(p) {
      var c :| c in cs && RowIndex(c.y).Some? && p == Coord(c.x, RowIndex(c.y).value);
      var i :| 0 <= i < |cs| && cs[i] == c;
    }
  }

  // ---------------------------------------------------------------------
  // The description and the frames.

  /** For rows inside a byte the description lights exactly the electrodes
      of the list, and so agrees with the corrected frame. */
  lemma DescriptionAgreesWithMask(cs: seq<Coord>)
    requires InColumns(cs) && InRows(cs)
    ensures Lights(cs) == Electrodes(cs)
    ensures ReadRows(Describe(Lights(cs))) == DecodeFrame(MaskFrame(Electrodes(cs)))
  {
    forall p | p in Electrodes(cs) ensures p in Lights(cs) && InPhysicalGrid(p) {
      var i :| 0 <= i < |cs| && cs[i] == p;
    }
    LightsInGrid(cs);
    ReadDescribe(Lights(cs));
    DecodeMaskFrame(Electrodes(cs));
  }

  /** Without repeated coordinates the frame `coord_to_bytemap` sends
      decodes to the cells the description shows. */
  lemma DescriptionAgreesWithFrame(cs: seq<Coord>)
    requires InColumns(cs) && InRows(cs) && NoRepeats(cs)
    ensures Shiftable(cs) && DecodeFrame(Frame(cs)) == ReadRows(Describe(Lights(cs)))
  {
    DistinctFrameBytes(cs);
    DescriptionAgreesWithMask(cs);
    LightsInGrid(cs);
    ReadDescribe(Lights(cs));
  }

  /** A negative row wraps in the description, `ys[-1]` being the last row,
      while the same coordinate makes `1 << y` raise in
      `coord_to_bytemap`. */
  lemma NegativeRowWraps(c: Coord)
    requires c == Coord(3, -1)
    ensures Indexable([c]) && Lights([c]) == {Coord(3, 7)}
    ensures !Shiftable([c])
  {
    assert forall d :: d in [c] <==> d == c;
  }

  /** Port requests `(-1,0)` and `(-1,2)`: the description shows electrode
      (0, 1), the frame as written switches on (0, 2). */
  lemma CollisionDescriptionDisagrees(a: Coord, b: Coord, p: Coord)
    requires a == Coord(-1, 0) && b == Coord(-1, 2) && p == Coord(0, 1)
    ensures Translate(a) == Translate(b) == p
    ensures ReadRows(Describe(Lights([p, p]))) == {p}
    ensures Shiftable([p, p]) && DecodeFrame(Frame([p, p])) == {Coord(0, 2)}
  {
    PortCollisionWrongElectrode(a, b, p);
    assert InColumns([p, p]) && InRows([p, p]);
    DescriptionAgreesWithMask([p, p]);
  }
}
