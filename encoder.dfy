/** `coord_to_bytemap` (main.py:144-155): one 16-entry frame per timestep,
    entry c holding `1 << y` summed over the physical coordinates (c, y) of
    that timestep.

    The frame is meant to be a bit mask: bit r of entry c says whether
    electrode (c, r) is on. Summing is only the same as setting bits when no
    electrode occurs twice, and `translate_grid` sends several port requests
    to one electrode. MaskFrame is the bit-mask reading, with its bound and
    its decoding proved; ColumnSumIsMask says when the two agree and the
    Findings lemmas show inputs where they do not. */
module Encoder {
  import opened Common
  import opened Grid

  function Pow2(n: nat): (p: nat)
    ensures p >= 1
  {
    if n == 0 then 1 else 2 * Pow2(n - 1)
  }

  /** `1 << y` is defined: no coordinate has a negative row. */
  predicate Shiftable(cs: seq<Coord>) {
    forall i :: 0 <= i < |cs| ==> cs[i].y >= 0
  }

  predicate InColumns(cs: seq<Coord>) {
    forall i :: 0 <= i < |cs| ==> 0 <= cs[i].x < Columns
  }

  /** What `this_ts[col]` accumulates: `1 << y` for every coordinate of the
      list in column col, repetitions included. */
  function ColumnSum(cs: seq<Coord>, col: int): nat
    requires Shiftable(cs)
  {
    if cs == [] then 0
    else
      var c := cs[|cs| - 1];
      ColumnSum(cs[..|cs| - 1], col) + (if c.x == col then Pow2(c.y) else 0)
  }

  /** The frame as written: entry c is the column sum of column c. */
  function Frame(cs: seq<Coord>): (f: seq<int>)
    requires Shiftable(cs)
    ensures |f| == Columns
  {
    seq(Columns, col => ColumnSum(cs, col))
  }

  /** The body of the outer loop of `coord_to_bytemap` for one timestep:
      `this_ts = [0]*16`, then `this_ts[x] += 1 << y` for every coordinate;
      a negative row raises. */
  method EncodeFrame(coords: seq<Coord>, ts: int) returns (r: Result<seq<int>>)
    requires InColumns(coords)
    ensures r.Ok? <==> Shiftable(coords)
    ensures r.Ok? ==> r.value == Frame(coords)
    ensures r.Err? ==> r.error == NegativeShift(ts)
  {
    var thisTs := new int[Columns](_ => 0);
    var k := 0;
    while k < |coords|
      invariant 0 <= k <= |coords|
      invariant Shiftable(coords[..k])
      invariant forall col :: 0 <= col < Columns ==> thisTs[col] == ColumnSum(coords[..k], col)
    {
      var c := coords[k];
      if c.y < 0 {
        return Err(NegativeShift(ts));
      }
      assert coords[..k + 1][..k] == coords[..k];
      thisTs[c.x] := thisTs[c.x] + Pow2(c.y);
      k := k + 1;
    }
    assert coords[..k] == coords;
    r := Ok(thisTs[..]);
  }

  /** `coord_to_bytemap`: one frame per timestep, in the dictionary's order;
      the first timestep with a negative row raises. */
  method CoordToBytemap(t: Table<seq<Coord>>) returns (r: Result<seq<seq<int>>>)
    requires forall i :: 0 <= i < |t| ==> InColumns(t[i].val)
    ensures r.Ok? <==> forall i :: 0 <= i < |t| ==> Shiftable(t[i].val)
    ensures r.Ok? ==> |r.value| == |t| && forall i :: 0 <= i < |t| ==> r.value[i] == Frame(t[i].val)
    ensures r.Err? ==>
              exists i :: 0 <= i < |t| && !Shiftable(t[i].val)
                          && (forall j :: 0 <= j < i ==> Shiftable(t[j].val))
                          && r.error == NegativeShift(t[i].ts)
  {
    var bytemap: seq<seq<int>> := [];
    var i := 0;
    while i < |t|
      invariant 0 <= i <= |t| && |bytemap| == i
      invariant forall j :: 0 <= j < i ==> Shiftable(t[j].val) && bytemap[j] == Frame(t[j].val)
    {
      var frame := EncodeFrame(t[i].val, t[i].ts);
      if frame.Err? {
        return Err(frame.error);
      }
      bytemap := bytemap + [frame.value];
      i := i + 1;
    }
    r := Ok(bytemap);
  }

  // ---------------------------------------------------------------------
  // The as-written frame.

  lemma {:induction false} ColumnSumConcat(a: seq<Coord>, b: seq<Coord>, col: int)
    requires Shiftable(a) && Shiftable(b)
    ensures Shiftable(a + b)
    ensures ColumnSum(a + b, col) == ColumnSum(a, col) + ColumnSum(b, col)
  {
    if b != [] {
      var b' := b[..|b| - 1];
      assert (a + b)[..|a + b| - 1] == a + b';
      ColumnSumConcat(a, b', col);
    } else {
      assert a + b == a;
    }
  }

  /** The order of the coordinates does not matter: `coords.sort()` and the
      iteration order of the sets `translate_grid` walked change no frame. */
  lemma {:induction false} ColumnSumPermutation(a: seq<Coord>, b: seq<Coord>, col: int)
    requires multiset(a) == multiset(b) && Shiftable(a)
    ensures Shiftable(b)
    ensures ColumnSum(a, col) == ColumnSum(b, col)
  {
    forall i | 0 <= i < |b| ensures b[i].y >= 0 {
      assert b[i] in multiset(a);
    }
    if a == [] {
      MultisetNil(a, b);
    } else {
      var init, last := a[..|a| - 1], a[|a| - 1];
      assert a == init + [last];
      assert last in multiset(b);
      var k :| 0 <= k < |b| && b[k] == last;
      var b1, b2 := b[..k], b[k + 1..];
      assert b == b1 + [last] + b2;
      MultisetCancel(init, b1, b2, last);
      ColumnSumPermutation(init, b1 + b2, col);
      ColumnSumConcat(b1, [last], col);
      ColumnSumConcat(b1 + [last], b2, col);
      ColumnSumConcat(b1, b2, col);
    }
  }

  lemma FramePermutation(a: seq<Coord>, b: seq<Coord>)
    requires multiset(a) == multiset(b) && Shiftable(a)
    ensures Shiftable(b) && Frame(a) == Frame(b)
  {
    ColumnSumPermutation(a, b, 0);
    forall col | 0 <= col < Columns ensures ColumnSum(a, col) == ColumnSum(b, col) {
      ColumnSumPermutation(a, b, col);
    }
  }

  /** The example in the comment of `coord_to_bytemap`: `[[0, 3], [0, 2],
      [1, 1]]` gives `[12, 2, 0, ..., 0]`. */
  lemma FrameExample()
    ensures Frame([Coord(0, 3), Coord(0, 2), Coord(1, 1)])
            == [12, 2, 0, 0, 0, 0, 0, 0, 0, 0, 0, 0, 0, 0, 0, 0]
  {
    var c0, c1, c2 := Coord(0, 3), Coord(0, 2), Coord(1, 1);
    var cs := [c0, c1, c2];
    assert cs[..2] == [c0, c1] && [c0, c1][..1] == [c0] && [c0][..0] == [];
    assert Pow2(3) == 8 && Pow2(2) == 4 && Pow2(1) == 2;
    forall col | 0 <= col < Columns
      ensures ColumnSum(cs, col) == if col == 0 then 12 else if col == 1 then 2 else 0
    {
      assert ColumnSum([c0], col) == if col == 0 then 8 else 0;
      assert ColumnSum([c0, c1], col) == if col == 0 then 12 else 0;
    }
  }

  // ---------------------------------------------------------------------
  // The bit-mask reading.

  /** `v >> k` for a non-negative v. */
  function Shift(v: nat, k: nat): nat {
    if k == 0 then v else Shift(v, k - 1) / 2
  }

  /** Bit k of v, `(v >> k) & 1`. */
  function Bit(v: nat, k: nat): nat {
    Shift(v, k) % 2
  }

  /** Bits r .. Rows - 1 of the mask of column col: bit i - r is set exactly
      when electrode (col, i) is in s. */
  function MaskColumn(s: set<Coord>, col: int, r: nat): nat
    decreases Rows - r
  {
    if r >= Rows then 0
    else (if Coord(col, r) in s then 1 else 0) + 2 * MaskColumn(s, col, r + 1)
  }

  /** The evidently intended frame of a set of electrodes: entry c is the bit
      mask of column c. */
  function MaskFrame(s: set<Coord>): (f: seq<int>)
    ensures |f| == Columns
  {
    seq(Columns, col => MaskColumn(s, col, 0))
  }

  /** The electrodes a frame switches on: (c, r) for every set bit r < Rows
      of entry c. */
  function DecodeFrame(f: seq<int>): set<Coord>
    requires |f| == Columns && forall c :: 0 <= c < Columns ==> f[c] >= 0
  {
    set col, row | 0 <= col < Columns && 0 <= row < Rows && Bit(f[col], row) == 1 :: Coord(col, row)
  }

  /** A column of Rows electrodes fills one byte. */
  lemma ByteWidth()
    ensures Pow2(Rows) == 256
  {
    assert Rows == 8;
  }

  /** Every mask fits in the remaining bits; the whole column fits in a byte. */
  lemma {:induction false} MaskColumnBound(s: set<Coord>, col: int, r: nat)
    requires r <= Rows
    ensures MaskColumn(s, col, r) < Pow2(Rows - r)
    decreases Rows - r
  {
    if r < Rows {
      MaskColumnBound(s, col, r + 1);
      assert Pow2(Rows - r) == 2 * Pow2(Rows - (r + 1));
    }
  }

  lemma MaskFrameBytes(s: set<Coord>)
    ensures forall c :: 0 <= c < Columns ==> 0 <= MaskFrame(s)[c] <= 255
  {
    forall c | 0 <= c < Columns ensures MaskFrame(s)[c] <= 255 {
      MaskColumnBound(s, c, 0);
      ByteWidth();
    }
  }

  /** Shifting the full mask right by k leaves the mask from row k on. */
  lemma {:induction false} ShiftMask(s: set<Coord>, col: int, k: nat)
    requires k <= Rows
    ensures Shift(MaskColumn(s, col, 0), k) == MaskColumn(s, col, k)
  {
    if k > 0 {
      ShiftMask(s, col, k - 1);
    }
  }

  /** Bit r of the mask of column col says whether (col, r) is in s. */
  lemma MaskBit(s: set<Coord>, col: int, r: nat)
    requires r < Rows
    ensures Bit(MaskColumn(s, col, 0), r) == if Coord(col, r) in s then 1 else 0
  {
    ShiftMask(s, col, r);
  }

  /** Decoding the mask frame of electrodes of the physical grid gives them
      back. */
  lemma DecodeMaskFrame(s: set<Coord>)
    requires forall p :: p in s ==> InPhysicalGrid(p)
    ensures DecodeFrame(MaskFrame(s)) == s
  {
    forall p | p in s ensures p in DecodeFrame(MaskFrame(s)) {
      MaskBit(s, p.x, p.y);
    }
    forall p | p in DecodeFrame(MaskFrame(s)) ensures p in s {
      MaskBit(s, p.x, p.y);
    }
  }

  /** A value below 2^(Rows - r) shifted right by r is rebuilt by the mask of
      its own bits. */
  lemma {:induction false} MaskOfBits(f: seq<int>, col: int, r: nat)
    requires |f| == Columns && forall c :: 0 <= c < Columns ==> 0 <= f[c] <= 255
    requires 0 <= col < Columns && r <= Rows
    ensures MaskColumn(DecodeFrame(f), col, r) == Shift(f[col], r)
    decreases Rows - r
  {
    ShiftBound(f[col], r);
    if r < Rows {
      MaskOfBits(f, col, r + 1);
      assert Coord(col, r) in DecodeFrame(f) <==> Bit(f[col], r) == 1;
    } else {
      ByteWidth();
    }
  }

  lemma {:induction false} ShiftBound(v: nat, k: nat)
    requires v < Pow2(Rows) && k <= Rows
    ensures Shift(v, k) < Pow2(Rows - k)
  {
    if k > 0 {
      ShiftBound(v, k - 1);
      assert Pow2(Rows - (k - 1)) == 2 * Pow2(Rows - k);
    }
  }

  /** Conversely every frame of bytes is the mask frame of what it switches
      on. */
  lemma MaskFrameOfDecode(f: seq<int>)
    requires |f| == Columns && forall c :: 0 <= c < Columns ==> 0 <= f[c] <= 255
    ensures MaskFrame(DecodeFrame(f)) == f
  {
    forall c | 0 <= c < Columns ensures MaskFrame(DecodeFrame(f))[c] == f[c] {
      MaskOfBits(f, c, 0);
    }
  }

  // ---------------------------------------------------------------------
  // When the sum is the mask.

  /** The electrodes a list of coordinates names, each once. */
  function Electrodes(cs: seq<Coord>): set<Coord> {
    set c | c in cs
  }

  /** Every row fits in a byte. */
  predicate InRows(cs: seq<Coord>) {
    forall i :: 0 <= i < |cs| ==> 0 <= cs[i].y < Rows
  }

  predicate NoRepeats(cs: seq<Coord>) {
    forall i, j :: 0 <= i < j < |cs| ==> cs[i] != cs[j]
  }

  /** What electrode p adds to the mask of column col from row r on. */
  function Contribution(p: Coord, col: int, r: nat): nat {
    if p.x == col && r <= p.y then Pow2(p.y - r) else 0
  }

  /** Adding an electrode that is not there yet adds its bit. */
  lemma {:induction false} MaskAdd(s: set<Coord>, p: Coord, col: int, r: nat)
    requires p !in s && 0 <= p.y < Rows && r <= Rows
    ensures MaskColumn(s + {p}, col, r) == MaskColumn(s, col, r) + Contribution(p, col, r)
    decreases Rows - r
  {
    if r < Rows {
      MaskAdd(s, p, col, r + 1);
      var here := Coord(col, r);
      assert (here in s + {p}) == (here in s || here == p);
      if p.x == col && r < p.y {
        assert Contribution(p, col, r) == 2 * Contribution(p, col, r + 1);
      } else if here == p {
        assert Contribution(p, col, r) == 1 && Contribution(p, col, r + 1) == 0;
      } else {
        assert Contribution(p, col, r) == 0 && Contribution(p, col, r + 1) == 0;
      }
    }
  }

  /** For coordinates that are pairwise distinct and whose rows fit in a
      byte, the sum `coord_to_bytemap` computes is the bit mask. */
  lemma {:induction false} ColumnSumIsMask(cs: seq<Coord>, col: int)
    requires NoRepeats(cs) && InRows(cs)
    ensures Shiftable(cs)
    ensures ColumnSum(cs, col) == MaskColumn(Electrodes(cs), col, 0)
  {
    if cs != [] {
      var init, last := cs[..|cs| - 1], cs[|cs| - 1];
      ColumnSumIsMask(init, col);
      assert Electrodes(cs) == Electrodes(init) + {last} by {
        assert cs == init + [last];
      }
      assert last !in Electrodes(init);
      MaskAdd(Electrodes(init), last, col, 0);
    }
  }

  lemma FrameIsMask(cs: seq<Coord>)
    requires NoRepeats(cs) && InRows(cs)
    ensures Shiftable(cs) && Frame(cs) == MaskFrame(Electrodes(cs))
  {
    forall col | 0 <= col < Columns ensures ColumnSum(cs, col) == MaskColumn(Electrodes(cs), col, 0) {
      ColumnSumIsMask(cs, col);
    }
  }

  /** Hence the bound the check at main.py:119 looks for holds, and the
      frame decodes to exactly the electrodes of the list. */
  lemma DistinctFrameBytes(cs: seq<Coord>)
    requires NoRepeats(cs) && InRows(cs) && InColumns(cs)
    ensures Shiftable(cs)
    ensures forall c :: 0 <= c < Columns ==> 0 <= Frame(cs)[c] <= 255
    ensures DecodeFrame(Frame(cs)) == Electrodes(cs)
  {
    FrameIsMask(cs);
    MaskFrameBytes(Electrodes(cs));
    DecodeMaskFrame(Electrodes(cs));
  }

  // ---------------------------------------------------------------------
  // The corrected encoder: `this_ts[x] |= 1 << y`.

  /** `v | (1 << k)` for a non-negative v. */
  function SetBit(v: nat, k: nat): nat {
    if Bit(v, k) == 1 then v else v + Pow2(k)
  }

  /** Setting the bit of an electrode gives the mask of the set with it. */
  lemma SetBitMask(s: set<Coord>, p: Coord, col: int)
    requires 0 <= p.y < Rows
    ensures MaskColumn(s + {p}, col, 0)
            == if p.x == col then SetBit(MaskColumn(s, col, 0), p.y) else MaskColumn(s, col, 0)
  {
    if p in s {
      assert s + {p} == s;
      if p.x == col {
        MaskBit(s, col, p.y);
      }
    } else {
      MaskAdd(s, p, col, 0);
      if p.x == col {
        MaskBit(s, col, p.y);
      }
    }
  }

  /** One step of the corrected loop: setting the bit of electrode c in its
      column gives the mask frame of the set with c added. */
  lemma MaskFrameSetBit(s: set<Coord>, c: Coord)
    requires 0 <= c.x < Columns && 0 <= c.y < Rows
    ensures MaskFrame(s + {c}) == MaskFrame(s)[c.x := SetBit(MaskFrame(s)[c.x], c.y)]
  {
    forall col | 0 <= col < Columns
      ensures MaskFrame(s + {c})[col] == MaskFrame(s)[c.x := SetBit(MaskFrame(s)[c.x], c.y)][col]
    {
      SetBitMask(s, c, col);
    }
  }

  /** The corrected loop body: every electrode of the timestep sets its
      bit, however often it is named. A negative row raises as `1 << y`
      does; a row above the byte is refused instead of spilling into the
      next value. */
  method EncodeMaskFrame(coords: seq<Coord>, ts: int) returns (r: Result<seq<int>>)
    requires InColumns(coords)
    ensures r.Ok? <==> InRows(coords)
    ensures r.Ok? ==> r.value == MaskFrame(Electrodes(coords))
    ensures r.Err? ==> r.error == NegativeShift(ts) || r.error == RowOutOfRange(ts)
    ensures r.Err? && Shiftable(coords) ==> r.error == RowOutOfRange(ts)
    ensures r.Err? && (forall i :: 0 <= i < |coords| ==> coords[i].y < Rows) ==> r.error == NegativeShift(ts)
  {
    var thisTs := new int[Columns](_ => 0);
    assert Electrodes(coords[..0]) == {};
    forall col | 0 <= col < Columns ensures MaskColumn({}, col, 0) == 0 {
      MaskEmpty(col, 0);
    }
    var k := 0;
    while k < |coords|
      invariant 0 <= k <= |coords|
      invariant InRows(coords[..k])
      invariant thisTs[..] == MaskFrame(Electrodes(coords[..k]))
    {
      var c := coords[k];
      if c.y < 0 {
        return Err(NegativeShift(ts));
      }
      if c.y >= Rows {
        return Err(RowOutOfRange(ts));
      }
      assert Electrodes(coords[..k + 1]) == Electrodes(coords[..k]) + {c} by {
        assert coords[..k + 1] == coords[..k] + [c];
      }
      MaskFrameSetBit(Electrodes(coords[..k]), c);
      thisTs[c.x] := SetBit(thisTs[c.x], c.y);
      k := k + 1;
    }
    assert coords[..k] == coords;
    r := Ok(thisTs[..]);
  }

  /** The corrected `coord_to_bytemap`: one mask frame per timestep, in the
      dictionary's order; the first timestep with a row outside the byte
      raises. */
  method CoordToMaskBytemap(t: Table<seq<Coord>>) returns (r: Result<seq<seq<int>>>)
    requires forall i :: 0 <= i < |t| ==> InColumns(t[i].val)
    ensures r.Ok? <==> forall i :: 0 <= i < |t| ==> InRows(t[i].val)
    ensures r.Ok? ==> |r.value| == |t| && forall i :: 0 <= i < |t| ==> r.value[i] == MaskFrame(Electrodes(t[i].val))
    ensures r.Err? ==>
              exists i :: 0 <= i < |t| && !InRows(t[i].val)
                          && (forall j :: 0 <= j < i ==> InRows(t[j].val))
                          && (r.error == NegativeShift(t[i].ts) || r.error == RowOutOfRange(t[i].ts))
                          && (Shiftable(t[i].val) ==> r.error == RowOutOfRange(t[i].ts))
                          && ((forall k :: 0 <= k < |t[i].val| ==> t[i].val[k].y < Rows) ==>
                                r.error == NegativeShift(t[i].ts))
  {
    var bytemap: seq<seq<int>> := [];
    var i := 0;
    while i < |t|
      invariant 0 <= i <= |t| && |bytemap| == i
      invariant forall j :: 0 <= j < i ==> InRows(t[j].val) && bytemap[j] == MaskFrame(Electrodes(t[j].val))
    {
      var frame := EncodeMaskFrame(t[i].val, t[i].ts);
      if frame.Err? {
        return Err(frame.error);
      }
      bytemap := bytemap + [frame.value];
      i := i + 1;
    }
    r := Ok(bytemap);
  }

  // ---------------------------------------------------------------------
  // Findings: the port translation is many-to-one, so a program without a
  // repeated coordinate can still name one electrode twice.

  /** `(14,6)` and `(17,6)` both reach east-port electrode (15, 7): column
      15 sums to 256, which main.py:119 flags and `int.to_bytes(_, 1)`
      rejects, where the mask is 128. */
  lemma PortCollisionOverflow(a: Coord, b: Coord, q: Coord)
    requires a == Coord(X + 1, 6) && b == Coord(X + 4, 6) && q == Coord(X + 2, 7)
    ensures Translate(a) == Translate(b) == q
    ensures Frame([q, q])[X + 2] == 256
    ensures MaskFrame(Electrodes([q, q]))[X + 2] == 128
  {
    assert [q, q][..1] == [q] && [q][..0] == [];
    assert Pow2(7) == 128;
    assert ColumnSum([q], X + 2) == 128;
    assert ColumnSum([q, q], X + 2) == 256;
    assert Electrodes([q, q]) == {} + {q};
    MaskAdd({}, q, X + 2, 0);
    MaskEmpty(X + 2, 0);
  }

  /** `(-1,0)` and `(-1,2)` both reach west-port electrode (0, 1): column 0
      sums to 4, which is the bit of electrode (0, 2), an electrode nobody
      asked for. */
  lemma PortCollisionWrongElectrode(a: Coord, b: Coord, p: Coord)
    requires a == Coord(-1, 0) && b == Coord(-1, 2) && p == Coord(0, 1)
    ensures Translate(a) == Translate(b) == p
    ensures Frame([p, p]) == MaskFrame({Coord(0, 2)})
    ensures DecodeFrame(Frame([p, p])) == {Coord(0, 2)}
    ensures DecodeFrame(MaskFrame(Electrodes([p, p]))) == {p}
  {
    assert [p, p][..1] == [p] && [p][..0] == [];
    var f := Frame([p, p]);
    forall c | 0 <= c < Columns ensures f[c] == if c == 0 then 4 else 0 {
      assert ColumnSum([p], c) == if c == 0 then 2 else 0;
      assert ColumnSum([p, p], c) == if c == 0 then 4 else 0;
    }
    MaskColumn2({Coord(0, 2)});
    assert f == MaskFrame({Coord(0, 2)});
    DecodeMaskFrame({Coord(0, 2)});
    assert Electrodes([p, p]) == {p};
    DecodeMaskFrame({p});
  }

  /** An electrode named twice adds its bit twice, which is the bit of the
      electrode one row up: the frame as written switches on (x, y + 1)
      instead of (x, y), where the mask switches on (x, y). */
  lemma DoubledElectrode(p: Coord)
    requires 0 <= p.x < Columns && 0 <= p.y < Rows - 1
    ensures Shiftable([p, p]) && Frame([p, p]) == MaskFrame({Coord(p.x, p.y + 1)})
    ensures DecodeFrame(Frame([p, p])) == {Coord(p.x, p.y + 1)}
    ensures DecodeFrame(MaskFrame(Electrodes([p, p]))) == {p}
  {
    var q := Coord(p.x, p.y + 1);
    assert [p, p][..1] == [p] && [p][..0] == [] && [q][..0] == [];
    FrameIsMask([q]);
    assert Electrodes([q]) == {q};
    forall c | 0 <= c < Columns ensures Frame([p, p])[c] == Frame([q])[c] {
      DoubledColumn(p, c);
    }
    DecodeMaskFrame({q});
    assert Electrodes([p, p]) == {p};
    DecodeMaskFrame({p});
  }

  lemma DoubledColumn(p: Coord, c: int)
    requires 0 <= p.y
    ensures Shiftable([p, p])
    ensures ColumnSum([p, p], c) == ColumnSum([Coord(p.x, p.y + 1)], c)
  {
    var q := Coord(p.x, p.y + 1);
    assert [p, p][..1] == [p] && [p][..0] == [] && [q][..0] == [];
    assert Pow2(q.y) == 2 * Pow2(p.y);
  }

  lemma MaskColumn2(s: set<Coord>)
    requires s == {Coord(0, 2)}
    ensures MaskFrame(s)[0] == 4
    ensures forall c :: 1 <= c < Columns ==> MaskFrame(s)[c] == 0
  {
    assert MaskColumn(s, 0, 3) == 0 by {
      MaskAdd({}, Coord(0, 2), 0, 3);
      MaskEmpty(0, 3);
    }
    forall c | 1 <= c < Columns ensures MaskColumn(s, c, 0) == 0 {
      MaskAdd({}, Coord(0, 2), c, 0);
      MaskEmpty(c, 0);
    }
  }

  lemma {:induction false} MaskEmpty(col: int, r: nat)
    requires r <= Rows
    ensures MaskColumn({}, col, r) == 0
    decreases Rows - r
  {
    if r < Rows {
      MaskEmpty(col, r + 1);
    }
  }
}
