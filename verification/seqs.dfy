/** Generic list building: the append loop over a list, and the
    concatenation of a list of pieces. */
module Seqs {

  /** The append loop over a list: one result per element, in order. */
  function MapInOrder<A, B>(f: A -> B, xs: seq<A>): (ys: seq<B>)
    ensures |ys| == |xs|
    ensures forall i :: 0 <= i < |xs| ==> ys[i] == f(xs[i])
  {
    if xs == [] then []
    else
      var front := xs[..|xs| - 1];
      var init := MapInOrder(f, front);
      assert forall i :: 0 <= i < |front| ==> front[i] == xs[i];
      init + [f(xs[|xs| - 1])]
  }

  /** Mapping a concatenation maps each part. */
  lemma MapConcat<A, B>(f: A -> B, xs: seq<A>, ys: seq<A>)
    ensures MapInOrder(f, xs + ys) == MapInOrder(f, xs) + MapInOrder(f, ys)
  {
    var l, r := MapInOrder(f, xs + ys), MapInOrder(f, xs) + MapInOrder(f, ys);
    assert |l| == |r|;
    forall i | 0 <= i < |l|
      ensures l[i] == r[i]
    {
      if i < |xs| {
        assert (xs + ys)[i] == xs[i];
      } else {
        assert (xs + ys)[i] == ys[i - |xs|];
      }
    }
  }

  /** The pieces one after the other. */
  function Flatten<T>(parts: seq<seq<T>>): (r: seq<T>)
    ensures parts == [] ==> r == []
    ensures parts != [] ==> |r| >= |parts[0]| && r[..|parts[0]|] == parts[0]
  {
    if parts == [] then []
    else
      var r := parts[0] + Flatten(parts[1..]);
      assert r[..|parts[0]|] == parts[0];
      r
  }

  /** Flattening a concatenation concatenates the flattened parts. */
  lemma {:induction false} FlattenConcat<T>(a: seq<seq<T>>, b: seq<seq<T>>)
    ensures Flatten(a + b) == Flatten(a) + Flatten(b)
    decreases |a|
  {
    if a == [] {
      assert a + b == b;
    } else {
      assert (a + b)[0] == a[0];
      assert (a + b)[1..] == a[1..] + b;
      FlattenConcat(a[1..], b);
    }
  }

  /** A middle part framed by a head and a tail starts with the head and
      ends with the tail. */
  lemma Framed<T>(head: seq<T>, middle: seq<T>, tail: seq<T>)
    ensures (head + middle + tail)[..|head|] == head
    ensures (head + middle + tail)[|head + middle + tail| - |tail|..] == tail
  {
  }

  /** Two fields between three delimiters sit at fixed offsets. */
  lemma Fields<T>(a: seq<T>, x: seq<T>, b: seq<T>, y: seq<T>, c: seq<T>)
    ensures var w := a + x + b + y + c;
      && |w| == |a| + |x| + |b| + |y| + |c|
      && w[..|a|] == a
      && w[|a|..|a| + |x|] == x
      && w[|a| + |x|..|a| + |x| + |b|] == b
      && w[|a| + |x| + |b|..|w| - |c|] == y
      && w[|w| - |c|..] == c
  {
  }
}
