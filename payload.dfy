/** What `control_opendrop` and `transmit` send for one timestep
    (main.py:80-84, main.py:113-124): the sixteen frame values followed by the
    sixteen-entry control word, each written as one big-endian byte with
    `int.to_bytes(_, length=1)`, which raises OverflowError for a value
    outside 0 .. 255. */
module Payload {
  import opened Common
  import opened Grid
  import opened Encoder

  newtype byte = x: int | 0 <= x < 256

  /** Entries of the control word. */
  const ControlLength: nat := 16
  /** `control_data[10]`, `[11]` and `[12]`: the three temperatures. */
  const Temperature: nat := 25

  /** `control_data`: zeros, with the three temperature entries at 25. */
  function ControlData(): (d: seq<int>)
    ensures |d| == ControlLength
    ensures forall i :: 0 <= i < ControlLength ==> d[i] == (if 10 <= i <= 12 then Temperature else 0)
  {
    seq(ControlLength, i => if 10 <= i <= 12 then Temperature as int else 0)
  }

  /** `byte_ts + control_data`. */
  function Message(frame: seq<int>): seq<int> {
    frame + ControlData()
  }

  predicate IsByte(v: int) {
    0 <= v < 256
  }

  /** `int.to_bytes(v, length=1, byteorder='big')` for every value in turn;
      the first value that does not fit raises. */
  function ToBytes(vs: seq<int>): Result<seq<byte>> {
    if vs == [] then Ok([])
    else
      match ToBytes(vs[..|vs| - 1])
      case Err(e) => Err(e)
      case Ok(bs) =>
        var v := vs[|vs| - 1];
        if IsByte(v) then Ok(bs + [v as byte]) else Err(ByteOverflow(|vs| - 1))
  }

  /** The values the bytes stand for. */
  function Values(bs: seq<byte>): (vs: seq<int>)
    ensures |vs| == |bs|
  {
    seq(|bs|, i requires 0 <= i < |bs| => bs[i] as int)
  }

  /** The conversion succeeds exactly when every value is a byte, and then
      the bytes stand for the values; otherwise it reports the first value
      that is not. */
  lemma ToBytesSpec(vs: seq<int>)
    ensures ToBytes(vs).Ok? <==> forall i :: 0 <= i < |vs| ==> IsByte(vs[i])
    ensures ToBytes(vs).Ok? ==> Values(ToBytes(vs).value) == vs
    ensures ToBytes(vs).Err? ==>
              ToBytes(vs).error.ByteOverflow?
              && var i := ToBytes(vs).error.index;
              i < |vs| && !IsByte(vs[i]) && forall j :: 0 <= j < i ==> IsByte(vs[j])
  {
    ToBytesOk(vs);
    if ToBytes(vs).Err? {
      ToBytesErr(vs);
    }
  }

  lemma {:induction false} ToBytesOk(vs: seq<int>)
    ensures ToBytes(vs).Ok? <==> forall i :: 0 <= i < |vs| ==> IsByte(vs[i])
    ensures ToBytes(vs).Ok? ==> Values(ToBytes(vs).value) == vs
  {
    if vs != [] {
      var init, v := vs[..|vs| - 1], vs[|vs| - 1];
      assert vs == init + [v];
      ToBytesOk(init);
      if ToBytes(init).Ok? && IsByte(v) {
        assert Values(ToBytes(init).value + [v as byte]) == init + [v];
      }
    }
  }

  lemma {:induction false} ToBytesErr(vs: seq<int>)
    requires ToBytes(vs).Err?
    ensures ToBytes(vs).error.ByteOverflow?
    ensures var i := ToBytes(vs).error.index;
            i < |vs| && !IsByte(vs[i]) && forall j :: 0 <= j < i ==> IsByte(vs[j])
  {
    var init, v := vs[..|vs| - 1], vs[|vs| - 1];
    assert forall j :: 0 <= j < |init| ==> vs[j] == init[j];
    if ToBytes(init).Err? {
      ToBytesErr(init);
    } else {
      ToBytesOk(init);
    }
  }

  /** Bytes converted back to values convert to the same bytes. */
  lemma ToBytesValues(bs: seq<byte>)
    ensures ToBytes(Values(bs)) == Ok(bs)
  {
    assert forall i :: 0 <= i < |bs| ==> IsByte(Values(bs)[i]);
    ToBytesSpec(Values(bs));
    var out := ToBytes(Values(bs)).value;
    assert Values(out) == Values(bs);
    forall i | 0 <= i < |bs| ensures out[i] == bs[i] {
      assert Values(out)[i] == Values(bs)[i];
    }
    assert out == bs;
  }

  /** The loop of `transmit`: every value of `byte_ts + control_data` is
      converted and written in order. */
  method Transmit(frame: seq<int>) returns (r: Result<seq<byte>>)
    ensures r == ToBytes(Message(frame))
  {
    var message := Message(frame);
    var sent: seq<byte> := [];
    var i := 0;
    while i < |message|
      invariant 0 <= i <= |message|
      invariant ToBytes(message[..i]) == Ok(sent)
    {
      assert message[..i + 1][..i] == message[..i];
      var v := message[i];
      if !IsByte(v) {
        ToBytesPrefix(message, i + 1);
        return Err(ByteOverflow(i));
      }
      sent := sent + [v as byte];
      i := i + 1;
    }
    assert message[..i] == message;
    r := Ok(sent);
  }

  /** Once a prefix fails, every longer list fails with the same error. */
  lemma {:induction false} ToBytesPrefix(vs: seq<int>, n: nat)
    requires 0 < n <= |vs| && ToBytes(vs[..n]).Err?
    ensures ToBytes(vs) == ToBytes(vs[..n])
    decreases |vs| - n
  {
    if n < |vs| {
      assert vs[..n + 1][..n] == vs[..n];
      ToBytesPrefix(vs, n + 1);
    } else {
      assert vs[..n] == vs;
    }
  }

  // ---------------------------------------------------------------------
  // The payload layout.

  /** The payload of a 16-entry frame is 32 values: the frame, then the
      control word. */
  lemma MessageLayout(frame: seq<int>)
    requires |frame| == Columns
    ensures |Message(frame)| == 32
    ensures Message(frame)[..Columns] == frame && Message(frame)[Columns..] == ControlData()
    ensures forall i :: 0 <= i < 32 ==>
              Message(frame)[i] == if i < Columns then frame[i] else ControlData()[i - Columns]
  {
  }

  /** The control word always fits: a frame of bytes is sent whole. */
  lemma ByteFrameSends(frame: seq<int>)
    requires |frame| == Columns && forall c :: 0 <= c < Columns ==> IsByte(frame[c])
    ensures ToBytes(Message(frame)).Ok?
    ensures Values(ToBytes(Message(frame)).value) == frame + ControlData()
  {
    ToBytesSpec(Message(frame));
  }

  /** A mask frame is always sent whole. */
  lemma MaskFrameSends(s: set<Coord>)
    ensures ToBytes(Message(MaskFrame(s))).Ok?
  {
    MaskFrameBytes(s);
    ByteFrameSends(MaskFrame(s));
  }

  /** The colliding port requests `(14,6)` and `(17,6)`: the frame as
      written is refused at its sixteenth value, the corrected frame is
      sent. */
  lemma CollisionFrameRefused(q: Coord)
    requires q == Coord(X + 2, 7)
    ensures Shiftable([q, q]) && ToBytes(Message(Frame([q, q]))) == Err(ByteOverflow(X + 2))
    ensures ToBytes(Message(MaskFrame(Electrodes([q, q])))).Ok?
  {
    PortCollisionOverflow(Coord(X + 1, 6), Coord(X + 4, 6), q);
    var f := Frame([q, q]);
    assert [q, q][..1] == [q] && [q][..0] == [];
    forall c | 0 <= c < X + 2 ensures f[c] == 0 {
      assert ColumnSum([q], c) == 0;
    }
    var m := Message(f);
    ToBytesSpec(m);
    assert m[X + 2] == 256;
    assert ToBytes(m).error.index == X + 2;
    MaskFrameSends(Electrodes([q, q]));
  }
}
