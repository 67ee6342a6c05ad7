/** Keeping, in order, the results a partial function gives on a sequence:
    the shape of a loop that pushes a result for some inputs and skips the rest. */
module Seqs {
  import opened Wrappers

  /** The defined results of `f` over `xs`, in the order of `xs`. */
  function FilterMap<A, B>(f: A -> Option<B>, xs: seq<A>): (ys: seq<B>)
    ensures |ys| <= |xs|
  {
    if |xs| == 0 then []
    else FilterMap(f, xs[..|xs| - 1]) + ToSeq(f(xs[|xs| - 1]))
  }

  /** Filtering distributes over concatenation. */
  lemma {:induction false} FilterMapAppend<A, B>(f: A -> Option<B>, a: seq<A>, b: seq<A>)
    ensures FilterMap(f, a + b) == FilterMap(f, a) + FilterMap(f, b)
    decreases |b|
  {
    if |b| == 0 {
      assert a + b == a;
    } else {
      var b' := b[..|b| - 1];
      assert (a + b)[..|a + b| - 1] == a + b';
      FilterMapAppend(f, a, b');
    }
  }

  /** One more input: the loop step. */
  lemma FilterMapStep<A, B>(f: A -> Option<B>, xs: seq<A>, i: nat)
    requires i < |xs|
    ensures FilterMap(f, xs[..i + 1]) == FilterMap(f, xs[..i]) + ToSeq(f(xs[i]))
  {
    assert xs[..i + 1][..i] == xs[..i];
  }

  /** Nothing is kept when `f` is undefined everywhere on `xs`. */
  lemma {:induction false} FilterMapNone<A, B>(f: A -> Option<B>, xs: seq<A>)
    requires forall k :: 0 <= k < |xs| ==> f(xs[k]).None?
    ensures FilterMap(f, xs) == []
  {
    if |xs| > 0 {
      FilterMapNone(f, xs[..|xs| - 1]);
    }
  }

  /** When `f` is defined everywhere on `xs`, nothing is dropped. */
  lemma {:induction false} FilterMapAllSome<A, B>(f: A -> Option<B>, xs: seq<A>, ys: seq<B>)
    requires |xs| == |ys| && forall k :: 0 <= k < |xs| ==> f(xs[k]) == Some(ys[k])
    ensures FilterMap(f, xs) == ys
  {
    if |xs| > 0 {
      var n := |xs| - 1;
      FilterMapAllSome(f, xs[..n], ys[..n]);
      assert ys == ys[..n] + [ys[n]];
    }
  }

  /** Inputs on which `f` is undefined, at either end, leave no trace. */
  lemma FilterMapDropEnds<A, B>(f: A -> Option<B>, x: A, xs: seq<A>, y: A)
    requires f(x).None? && f(y).None?
    ensures FilterMap(f, [x] + xs + [y]) == FilterMap(f, xs)
  {
    assert FilterMap(f, [x]) == [] by {
      assert [x][..0] == [];
    }
    assert FilterMap(f, [y]) == [] by {
      assert [y][..0] == [];
    }
    assert FilterMap(f, [x] + xs) == FilterMap(f, xs) by {
      FilterMapAppend(f, [x], xs);
    }
    FilterMapAppend(f, [x] + xs, [y]);
  }

  /** An input on which `f` is undefined leaves no trace wherever it stands. */
  lemma FilterMapSkip<A, B>(f: A -> Option<B>, xs: seq<A>, x: A, ys: seq<A>)
    requires f(x).None?
    ensures FilterMap(f, xs + [x] + ys) == FilterMap(f, xs + ys)
  {
    assert FilterMap(f, [x]) == [] by {
      assert [x][..0] == [];
    }
    assert FilterMap(f, xs + [x]) == FilterMap(f, xs) by {
      FilterMapAppend(f, xs, [x]);
    }
    FilterMapAppend(f, xs + [x], ys);
    FilterMapAppend(f, xs, ys);
  }

  /** The positions of `xs` where `f` is defined, in increasing order. */
  function Origins<A, B>(f: A -> Option<B>, xs: seq<A>): seq<nat> {
    if |xs| == 0 then []
    else
      var last := |xs| - 1;
      Origins(f, xs[..last]) + (if f(xs[last]).Some? then [last] else [])
  }

  /** Each kept result comes from its origin, origins strictly increase (so
      results keep the order of their inputs), and every position where `f`
      is defined is an origin. */
  lemma OriginsSpec<A, B>(f: A -> Option<B>, xs: seq<A>)
    ensures |Origins(f, xs)| == |FilterMap(f, xs)|
    ensures forall k :: 0 <= k < |Origins(f, xs)| ==>
      Origins(f, xs)[k] < |xs| && f(xs[Origins(f, xs)[k]]) == Some(FilterMap(f, xs)[k])
    ensures forall k, m :: 0 <= k < m < |Origins(f, xs)| ==> Origins(f, xs)[k] < Origins(f, xs)[m]
    ensures forall i :: 0 <= i < |xs| && f(xs[i]).Some? ==> i in Origins(f, xs)
  {
    OriginsSound(f, xs);
    OriginsIncreasing(f, xs);
    OriginsComplete(f, xs);
  }

  lemma {:induction false} OriginsSound<A, B>(f: A -> Option<B>, xs: seq<A>)
    ensures |Origins(f, xs)| == |FilterMap(f, xs)|
    ensures forall k :: 0 <= k < |Origins(f, xs)| ==>
      Origins(f, xs)[k] < |xs| && f(xs[Origins(f, xs)[k]]) == Some(FilterMap(f, xs)[k])
  {
    if |xs| > 0 {
      var last := |xs| - 1;
      var init := xs[..last];
      OriginsSound(f, init);
      var prev, prevYs := Origins(f, init), FilterMap(f, init);
      var idx, ys := Origins(f, xs), FilterMap(f, xs);
      var tail := ToSeq(f(xs[last]));
      assert idx == prev + (if f(xs[last]).Some? then [last] else []);
      assert ys == prevYs + tail;
      forall k | 0 <= k < |idx|
        ensures idx[k] < |xs| && f(xs[idx[k]]) == Some(ys[k])
      {
        if k < |prev| {
          assert idx[k] == prev[k] && ys[k] == prevYs[k];
          assert xs[prev[k]] == init[prev[k]];
        } else {
          assert idx[k] == last && ys[k] == tail[0];
        }
      }
    }
  }

  lemma {:induction false} OriginsIncreasing<A, B>(f: A -> Option<B>, xs: seq<A>)
    ensures forall k :: 0 <= k < |Origins(f, xs)| ==> Origins(f, xs)[k] < |xs|
    ensures forall k, m :: 0 <= k < m < |Origins(f, xs)| ==> Origins(f, xs)[k] < Origins(f, xs)[m]
  {
    if |xs| > 0 {
      var last := |xs| - 1;
      var init := xs[..last];
      OriginsIncreasing(f, init);
      var prev, idx := Origins(f, init), Origins(f, xs);
      assert idx == prev + (if f(xs[last]).Some? then [last] else []);
      forall k | 0 <= k < |idx| ensures idx[k] < |xs| {
        if k < |prev| { assert idx[k] == prev[k]; }
      }
      forall k, m | 0 <= k < m < |idx| ensures idx[k] < idx[m] {
        assert idx[k] == prev[k];
        if m < |prev| {
          assert idx[m] == prev[m];
        }
      }
    }
  }

  lemma {:induction false} OriginsComplete<A, B>(f: A -> Option<B>, xs: seq<A>)
    ensures forall i :: 0 <= i < |xs| && f(xs[i]).Some? ==> i in Origins(f, xs)
  {
    if |xs| > 0 {
      var last := |xs| - 1;
      var init := xs[..last];
      OriginsComplete(f, init);
      var prev, idx := Origins(f, init), Origins(f, xs);
      assert idx == prev + (if f(xs[last]).Some? then [last] else []);
      forall i | 0 <= i < |xs| && f(xs[i]).Some? ensures i in idx {
        if i < last {
          assert xs[i] == init[i];
          assert i in prev;
        }
      }
    }
  }
}
