/** Vocabulary shared by the other modules. */
module Basics {

  datatype Option<+T> = None | Some(value: T)

  type Byte = x: int | 0 <= x < 256

  function Min(a: nat, b: nat): nat {
    if a <= b then a else b
  }

  /** `buf` with `data` stored from index `at` on. */
  function Overwrite(buf: seq<Byte>, at: nat, data: seq<Byte>): (b: seq<Byte>)
    ensures |b| == |buf|
    ensures forall i :: 0 <= i < |buf| ==> b[i] == if at <= i < at + |data| then data[i - at] else buf[i]
  {
    seq(|buf|, i requires 0 <= i < |buf| => if at <= i < at + |data| then data[i - at] else buf[i])
  }

  lemma OverwriteElsewhere(buf: seq<Byte>, at: nat, data: seq<Byte>, lo: nat, hi: nat)
    requires lo <= hi <= |buf| && (hi <= at || at + |data| <= lo)
    ensures Overwrite(buf, at, data)[lo..hi] == buf[lo..hi]
  {
  }

  lemma OverwriteWritten(buf: seq<Byte>, at: nat, data: seq<Byte>)
    requires at + |data| <= |buf|
    ensures Overwrite(buf, at, data)[at..at + |data|] == data
  {
    var b := Overwrite(buf, at, data);
    assert forall i :: 0 <= i < |data| ==> b[at + i] == data[i];
  }

  lemma OverwriteIsSplice(buf: seq<Byte>, at: nat, data: seq<Byte>)
    requires at + |data| <= |buf|
    ensures Overwrite(buf, at, data) == buf[..at] + data + buf[at + |data|..]
  {
  }

  /** The concatenation of a sequence of sequences. */
  function Flatten<T>(ss: seq<seq<T>>): seq<T> {
    if ss == [] then [] else ss[0] + Flatten(ss[1..])
  }

  lemma {:induction false} FlattenAppend<T>(a: seq<seq<T>>, b: seq<seq<T>>)
    ensures Flatten(a + b) == Flatten(a) + Flatten(b)
  {
    if a == [] {
      assert a + b == b;
    } else {
      FlattenAppend(a[1..], b);
      assert (a + b)[1..] == a[1..] + b;
      Associative(a[0], Flatten(a[1..]), Flatten(b));
    }
  }

  lemma Associative<T>(a: seq<T>, b: seq<T>, c: seq<T>)
    ensures (a + b) + c == a + (b + c)
  {
  }

  lemma SliceSplit<T>(s: seq<T>, a: nat, b: nat, c: nat)
    requires a <= b <= c <= |s|
    ensures s[a..c] == s[a..b] + s[b..c]
  {
  }

  /** Two FIFO steps in a row: what left, then what is left, equals what was there, then what came. */
  lemma ChainFifo<T>(before: seq<T>, in1: seq<T>, out1: seq<T>, mid: seq<T>, in2: seq<T>, out2: seq<T>, after: seq<T>)
    requires out1 + mid == before + in1
    requires out2 + after == mid + in2
    ensures (out1 + out2) + after == before + (in1 + in2)
  {
    Associative(out1, out2, after);
    Associative(out1, mid, in2);
    Associative(before, in1, in2);
  }

  lemma FlattenOne<T>(s: seq<T>)
    ensures Flatten([s]) == s
  {
    assert [s][1..] == [];
  }

  lemma {:induction false} FlattenLast<T>(ss: seq<seq<T>>)
    requires ss != []
    ensures Flatten(ss) == Flatten(ss[..|ss| - 1]) + ss[|ss| - 1]
  {
    var init, last := ss[..|ss| - 1], ss[|ss| - 1];
    assert init + [last] == ss;
    FlattenAppend(init, [last]);
    FlattenOne(last);
  }
}
