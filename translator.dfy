/** `translate_grid` (main.py:158-190): every raw coordinate of every
    timestep is converted to integers and moved from the logical grid to the
    physical electrode array.

    The coordinates of a timestep are a Python set, whose iteration order is
    an implementation detail; the loop below picks any remaining element and
    reports the order it used as a ghost out-parameter. The lemmas show that
    the order only permutes the translated list. */
module Translator {
  import opened Common
  import opened Text
  import opened Grid
  import opened Parser

  /** `int(coord[0]), int(coord[1])`: None when the tuple has fewer than two
      fields or a field is not a decimal integer (IndexError / ValueError).
      Fields after the second are ignored. */
  function ToLogical(rc: RawCoord): Option<Coord> {
    if |rc| < 2 then None
    else
      match (ParseInt(rc[0]), ParseInt(rc[1]))
      case (Some(x), Some(y)) => Some(Coord(x, y))
      case _ => None
  }

  /** Every raw coordinate of the set converts to integers. */
  predicate WellFormed(coords: set<RawCoord>) {
    forall rc :: rc in coords ==> ToLogical(rc).Some?
  }

  /** Every raw coordinate of the list converts to integers. */
  predicate AllConvert(order: seq<RawCoord>) {
    forall i :: 0 <= i < |order| ==> ToLogical(order[i]).Some?
  }

  /** The physical electrode a raw coordinate addresses. It is extended to
      raw coordinates that do not convert so that it can be mapped over any
      list; TranslateSeq uses it only on converting ones. */
  function Physical(rc: RawCoord): Coord {
    match ToLogical(rc)
    case Some(c) => Translate(c)
    case None => Coord(0, 0)
  }

  /** The translated list `new_coords` for the raw coordinates taken in the
      order `order`, or None when one of them does not convert. */
  function TranslateSeq(order: seq<RawCoord>): Option<seq<Coord>> {
    if AllConvert(order) then Some(Map(order, Physical)) else None
  }

  /** The conversion reads back the decimal pair `(x,y)` writes. */
  lemma ToLogicalRawOf(c: Coord)
    ensures ToLogical(RawOf(c)) == Some(c)
  {
    ParseShowInt(c.x);
    ParseShowInt(c.y);
  }

  /** `int(' 1')` skips the white space the parser leaves in front of the
      first field, so a written coordinate converts to what was written. */
  lemma ToLogicalWritten(w: Written)
    requires Blank(w.pad)
    ensures ToLogical(WrittenRaw(w)) == Some(w.at)
  {
    ParseIntPadded(w.pad, w.at.x);
    ParseShowInt(w.at.y);
  }

  /** The coordinates the raw coordinates of a set convert to. */
  function Logical(coords: set<RawCoord>): set<Coord> {
    set rc | rc in coords && ToLogical(rc).Some? :: ToLogical(rc).value
  }

  /** A line with white space in front of each coordinate reads as its
      timestep and raw coordinates that all convert, to exactly the
      coordinates written. */
  lemma ReadWrittenCoords(ts: int, ws: seq<Written>)
    requires ws != [] && Blanks(ws)
    ensures ReadLine(WrittenLine(ts, ws)) == Item(ts, WrittenRawSet(ws))
    ensures WellFormed(WrittenRawSet(ws))
    ensures Logical(WrittenRawSet(ws)) == set w | w in ws :: w.at
  {
    ReadWrittenLine(ts, ws);
    forall w | w in ws ensures ToLogical(WrittenRaw(w)) == Some(w.at) {
      var k :| 0 <= k < |ws| && ws[k] == w;
      ToLogicalWritten(w);
    }
  }

  /** The form `TS: <space-separated list of coords>` of `parse_input`, a
      space in front of every `(x,y)`, reads as the coordinates written. */
  lemma ReadSpacedLine(ts: int, cs: seq<Coord>)
    requires cs != []
    ensures ReadLine(WrittenLine(ts, Padded(" ", cs))) == Item(ts, WrittenRawSet(Padded(" ", cs)))
    ensures WellFormed(WrittenRawSet(Padded(" ", cs)))
    ensures Logical(WrittenRawSet(Padded(" ", cs))) == set c | c in cs
  {
    var ws := Padded(" ", cs);
    assert Blank(" ");
    ReadWrittenCoords(ts, ws);
    forall c | c in cs ensures c in set w | w in ws :: w.at {
      var k :| 0 <= k < |cs| && cs[k] == c;
      assert ws[k].at == c;
    }
  }

  /** Every translated column lies in the physical grid. */
  lemma TranslateSeqColumns(order: seq<RawCoord>)
    requires TranslateSeq(order).Some?
    ensures forall k :: 0 <= k < |TranslateSeq(order).value| ==> 0 <= TranslateSeq(order).value[k].x < Columns
  {
    forall k | 0 <= k < |order| ensures 0 <= Map(order, Physical)[k].x < Columns {
      MapAt(order, Physical, k);
    }
  }

  /** Entry k of the translated list is the translation of raw coordinate k. */
  lemma TranslateSeqAt(order: seq<RawCoord>, k: nat)
    requires TranslateSeq(order).Some? && k < |order|
    ensures |TranslateSeq(order).value| == |order|
    ensures TranslateSeq(order).value[k] == Translate(ToLogical(order[k]).value)
  {
    MapAt(order, Physical, k);
  }

  /** Taking the raw coordinates in another order permutes the translated
      list and changes nothing else. */
  lemma TranslateSeqPermutation(a: seq<RawCoord>, b: seq<RawCoord>)
    requires multiset(a) == multiset(b)
    ensures TranslateSeq(a).Some? == TranslateSeq(b).Some?
    ensures TranslateSeq(a).Some? ==> multiset(TranslateSeq(a).value) == multiset(TranslateSeq(b).value)
  {
    forall i | 0 <= i < |a| ensures a[i] in multiset(b) {
      assert a[i] in multiset(a);
    }
    forall i | 0 <= i < |b| ensures b[i] in multiset(a) {
      assert b[i] in multiset(b);
    }
    if AllConvert(a) {
      MapPermutation(a, b, Physical);
    }
  }

  /** An enumeration of a set, without repetition, is as long as the set. */
  lemma EnumerationLength<T>(order: seq<T>, s: set<T>)
    requires multiset(order) == multiset(s)
    ensures |order| == |s|
  {
    assert |multiset(order)| == |order|;
    assert |multiset(s)| == |s|;
  }

  /** The inner loop of `translate_grid` for one timestep `ts`: converts and
      translates every raw coordinate of the set in some order. */
  method TranslateCoords(coords: set<RawCoord>, ts: int) returns (r: Result<seq<Coord>>, ghost order: seq<RawCoord>)
    ensures r.Ok? <==> WellFormed(coords)
    ensures r.Ok? ==> multiset(order) == multiset(coords) && TranslateSeq(order) == Some(r.value)
    ensures r.Err? ==> r.error == MalformedCoordinate(ts)
  {
    var rest := coords;
    var newCoords: seq<Coord> := [];
    order := [];
    while rest != {}
      invariant rest <= coords
      invariant multiset(order) + multiset(rest) == multiset(coords)
      invariant TranslateSeq(order) == Some(newCoords)
      decreases |rest|
    {
      var rc :| rc in rest;
      var c := ToLogical(rc);
      if c.None? {
        return Err(MalformedCoordinate(ts)), order;
      }
      newCoords := newCoords + [Translate(c.value)];
      assert (order + [rc])[..|order|] == order;
      assert AllConvert(order + [rc]) by {
        assert forall i :: 0 <= i < |order| ==> (order + [rc])[i] == order[i];
      }
      order := order + [rc];
      rest := rest - {rc};
    }
    assert multiset(order) == multiset(coords);
    forall rc | rc in coords
      ensures ToLogical(rc).Some?
    {
      assert rc in multiset(order);
    }
    r := Ok(newCoords);
  }

  /** `translate_grid`: the dictionary with every coordinate set replaced by
      its translated list; the first timestep holding a coordinate that does
      not convert raises. */
  method TranslateGrid(t: Table<set<RawCoord>>) returns (r: Result<Table<seq<Coord>>>, ghost orders: seq<seq<RawCoord>>)
    ensures r.Ok? <==> forall i :: 0 <= i < |t| ==> WellFormed(t[i].val)
    ensures r.Ok? ==>
              Keys(r.value) == Keys(t) && |orders| == |t|
              && forall i :: 0 <= i < |t| ==>
                   multiset(orders[i]) == multiset(t[i].val)
                   && TranslateSeq(orders[i]) == Some(r.value[i].val)
    ensures r.Err? ==>
              exists i :: 0 <= i < |t| && !WellFormed(t[i].val)
                          && (forall j :: 0 <= j < i ==> WellFormed(t[j].val))
                          && r.error == MalformedCoordinate(t[i].ts)
  {
    var out: Table<seq<Coord>> := [];
    orders := [];
    var i := 0;
    while i < |t|
      invariant 0 <= i <= |t|
      invariant |out| == i && |orders| == i
      invariant forall j :: 0 <= j < i ==> out[j].ts == t[j].ts && WellFormed(t[j].val)
      invariant forall j :: 0 <= j < i ==>
                  multiset(orders[j]) == multiset(t[j].val) && TranslateSeq(orders[j]) == Some(out[j].val)
    {
      var res, order := TranslateCoords(t[i].val, t[i].ts);
      if res.Err? {
        return Err(res.error), orders;
      }
      out := out + [Entry(t[i].ts, res.value)];
      orders := orders + [order];
      i := i + 1;
    }
    r := Ok(out);
  }

  /** What `translate_grid` hands on, whatever order the sets were walked
      in: the same keys, one list per timestep as long as its set, and every
      column inside the physical grid. */
  lemma TranslatedShape(t: Table<set<RawCoord>>, out: Table<seq<Coord>>, orders: seq<seq<RawCoord>>)
    requires Keys(out) == Keys(t) && |orders| == |t|
    requires forall i :: 0 <= i < |t| ==>
               multiset(orders[i]) == multiset(t[i].val) && TranslateSeq(orders[i]) == Some(out[i].val)
    ensures |out| == |t|
    ensures forall i :: 0 <= i < |t| ==> out[i].ts == t[i].ts && |out[i].val| == |t[i].val|
    ensures forall i, k :: 0 <= i < |out| && 0 <= k < |out[i].val| ==> 0 <= out[i].val[k].x < Columns
  {
    forall i | 0 <= i < |t|
      ensures |out[i].val| == |t[i].val|
      ensures forall k :: 0 <= k < |out[i].val| ==> 0 <= out[i].val[k].x < Columns
    {
      TranslateSeqColumns(orders[i]);
      EnumerationLength(orders[i], t[i].val);
    }
  }
}
