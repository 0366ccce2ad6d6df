/** Shared vocabulary of the translation pipeline: optional values, the
    errors the Python program raises, and the insertion-ordered timestep
    dictionary that every stage passes on to the next. */
module Common {

  datatype Option<T> = None | Some(value: T)

  /** The exceptions main.py can raise while translating a program. */
  datatype Error =
    | MalformedLine(line: nat)         // `ts, rawcoords = ...split(':')` does not unpack (ValueError)
    | BadTimestep(line: nat)           // `int(ts)` fails (ValueError)
    | RepeatedTimestep(ts: int)        // `set += set` on a timestep seen before (TypeError)
    | MalformedCoordinate(ts: int)     // `int(coord[0]), int(coord[1])` fails (IndexError / ValueError)
    | NegativeShift(ts: int)           // `1 << coord[1]` with a negative row (ValueError)
    | RowOutOfRange(ts: int)           // `ys[coord[1]]` outside the eight row lists (IndexError)
    | ByteOverflow(index: nat)         // `int.to_bytes(b, length=1)` with b outside [0, 255] (OverflowError)

  datatype Result<T> = Ok(value: T) | Err(error: Error)

  /** One key/value pair of a timestep dictionary. */
  datatype Entry<V> = Entry(ts: int, val: V)

  /** A Python dict keyed by timestep, in insertion order (which is its
      iteration order). */
  type Table<V> = seq<Entry<V>>

  function Keys<V>(t: Table<V>): (ks: seq<int>)
    ensures |ks| == |t|
    ensures forall i :: 0 <= i < |t| ==> ks[i] == t[i].ts
  {
    if t == [] then [] else Keys(t[..|t| - 1]) + [t[|t| - 1].ts]
  }

  /** The dictionary invariant: no key occurs twice. */
  predicate DistinctKeys<V>(t: Table<V>) {
    forall i, j :: 0 <= i < j < |t| ==> t[i].ts != t[j].ts
  }

  /** `[f(x) for x in s]`. */
  function Map<A, B>(s: seq<A>, f: A -> B): (r: seq<B>)
    ensures |r| == |s|
  {
    if s == [] then [] else Map(s[..|s| - 1], f) + [f(s[|s| - 1])]
  }

  lemma {:induction false} MapAt<A, B>(s: seq<A>, f: A -> B, i: nat)
    requires i < |s|
    ensures Map(s, f)[i] == f(s[i])
  {
    if i < |s| - 1 {
      MapAt(s[..|s| - 1], f, i);
    }
  }

  lemma {:induction false} MapConcat<A, B>(a: seq<A>, b: seq<A>, f: A -> B)
    ensures Map(a + b, f) == Map(a, f) + Map(b, f)
  {
    if b != [] {
      var b' := b[..|b| - 1];
      assert (a + b)[..|a + b| - 1] == a + b';
      MapConcat(a, b', f);
    } else {
      assert a + b == a;
    }
  }

  /** Mapping two arrangements of the same elements gives two arrangements
      of the same results. */
  lemma {:induction false} MapPermutation<A, B>(a: seq<A>, b: seq<A>, f: A -> B)
    requires multiset(a) == multiset(b)
    ensures multiset(Map(a, f)) == multiset(Map(b, f))
  {
    if a == [] {
      MultisetNil(a, b);
    } else {
      var init, last := a[..|a| - 1], a[|a| - 1];
      assert a == init + [last];
      var b1, b2 := SplitAround(b, last);
      MultisetCancel(init, b1, b2, last);
      MapPermutation(init, b1 + b2, f);
      MapConcat(init, [last], f);
      MapMiddle(b1, last, b2, f);
    }
  }

  /** An element of b cuts it into the part before and the part after one
      of its occurrences. */
  lemma SplitAround<A>(b: seq<A>, x: A) returns (b1: seq<A>, b2: seq<A>)
    requires x in multiset(b)
    ensures b == b1 + [x] + b2
  {
    var k :| 0 <= k < |b| && b[k] == x;
    b1, b2 := b[..k], b[k + 1..];
    assert b == b1 + [x] + b2;
  }

  /** Mapping a list with x in the middle gives the results of the rest and
      f(x). */
  lemma MapMiddle<A, B>(b1: seq<A>, x: A, b2: seq<A>, f: A -> B)
    ensures multiset(Map(b1 + [x] + b2, f)) == multiset(Map(b1 + b2, f)) + multiset{f(x)}
  {
    MapConcat(b1 + [x], b2, f);
    MapConcat(b1, [x], f);
    MapConcat(b1, b2, f);
  }

  lemma MultisetCancel<A>(init: seq<A>, b1: seq<A>, b2: seq<A>, x: A)
    requires multiset(init + [x]) == multiset(b1 + [x] + b2)
    ensures multiset(init) == multiset(b1 + b2)
  {
    calc {
      multiset(init);
      multiset(init + [x]) - multiset{x};
      multiset(b1 + [x] + b2) - multiset{x};
      multiset(b1) + multiset(b2);
    }
  }

  lemma MultisetNil<A>(a: seq<A>, b: seq<A>)
    requires multiset(a) == multiset(b) && a == []
    ensures b == []
  {
    assert |multiset(b)| == |b|;
  }
}
