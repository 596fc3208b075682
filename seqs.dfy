/**
 * Sequence operations that both versions of the text splitter are built from:
 * JavaScript's `String.prototype.split` with a one-character separator,
 * `Array.prototype.join`, and the "wrap every element in a tag pair" step that
 * turns a word into letter spans.
 */
module Seqs {

  datatype Option<T> = None | Some(value: T)

  /** Number of occurrences of `x` in `s`. */
  function Count<T(==)>(s: seq<T>, x: T): nat
  {
    if s == [] then 0 else (if s[0] == x then 1 else 0) + Count(s[1..], x)
  }

  /**
   * `s.split(sep)` for a one-element separator: the pieces between the
   * separators, in order. An empty input gives one empty piece, as in
   * JavaScript (`"".split("\n")` is `[""]`).
   */
  function Split<T(==)>(s: seq<T>, sep: T): (r: seq<seq<T>>)
    ensures |r| > 0
    decreases |s|
  {
    if s == [] then [[]]
    else
      var rest := Split(s[1..], sep);
      if s[0] == sep then [[]] + rest
      else [[s[0]] + rest[0]] + rest[1..]
  }

  /** `parts.join(sep)`. */
  function Join<T>(parts: seq<seq<T>>, sep: seq<T>): (r: seq<T>)
    ensures parts != [] ==> parts[0] <= r
    ensures |parts| > 1 ==> parts[0] + sep <= r
  {
    if parts == [] then []
    else if |parts| == 1 then parts[0]
    else parts[0] + sep + Join(parts[1..], sep)
  }

  /** Dropping `i` elements from `b + rest`, regrouped at `j`. */
  lemma {:induction false} DropConcat<T>(b: seq<T>, rest: seq<T>, i: nat, j: nat)
    requires i <= j <= |b|
    ensures (b + rest)[i..] == b[i..j] + (b[j..] + rest)
  {
    var l, r := (b + rest)[i..], b[i..j] + (b[j..] + rest);
    assert |l| == |r|;
    forall k | 0 <= k < |l| ensures l[k] == r[k] {
      assert l[k] == (b + rest)[i + k];
    }
  }

  /** A slice of the tail is a slice of the whole, one further on. */
  lemma {:induction false} TailSlice<T>(s: seq<T>, a: nat, b: nat)
    requires a <= b && b + 1 <= |s|
    ensures s[1..][a..b] == s[a + 1..b + 1]
  {
    assert forall k | 0 <= k < b - a :: s[1..][a..b][k] == s[a + 1 + k];
  }

  /** A join of several parts is the first part, the separator, and the join of the rest. */
  lemma {:induction false} JoinCons<T>(parts: seq<seq<T>>, sep: seq<T>)
    requires |parts| > 1
    ensures Join(parts, sep) == parts[0] + (sep + Join(parts[1..], sep))
  {
  }

  /** Joining the pieces of a split with the separator gives back the input. */
  lemma {:induction false} JoinSplit<T>(s: seq<T>, sep: T)
    ensures Join(Split(s, sep), [sep]) == s
    decreases |s|
  {
    if s != [] {
      var rest := Split(s[1..], sep);
      JoinSplit(s[1..], sep);
      if s[0] == sep {
        assert Split(s, sep) == [[]] + rest;
        assert Join([[]] + rest, [sep]) == [] + [sep] + Join(rest, [sep]);
      } else {
        var head := [s[0]] + rest[0];
        assert Split(s, sep) == [head] + rest[1..];
        if |rest| == 1 {
          assert Join(rest, [sep]) == rest[0];
        } else {
          assert Join(rest, [sep]) == rest[0] + [sep] + Join(rest[1..], [sep]);
          assert ([head] + rest[1..])[1..] == rest[1..];
        }
      }
    }
  }

  /** There is one more piece than there are separators. */
  lemma {:induction false} SplitCount<T>(s: seq<T>, sep: T)
    ensures |Split(s, sep)| == Count(s, sep) + 1
    decreases |s|
  {
    if s != [] {
      SplitCount(s[1..], sep);
    }
  }

  /** No piece of a split contains the separator. */
  lemma {:induction false} SplitPiecesFree<T>(s: seq<T>, sep: T)
    ensures forall i | 0 <= i < |Split(s, sep)| :: sep !in Split(s, sep)[i]
    decreases |s|
  {
    if s != [] {
      var rest := Split(s[1..], sep);
      SplitPiecesFree(s[1..], sep);
      if s[0] != sep {
        var r := Split(s, sep);
        assert r == [[s[0]] + rest[0]] + rest[1..];
        forall i | 0 <= i < |r| ensures sep !in r[i] {
          if i == 0 {
            assert sep !in rest[0];
          } else {
            assert r[i] == rest[i];
          }
        }
      }
    }
  }

  /** Splitting a join of separator-free pieces gives back the pieces. */
  lemma {:induction false} SplitJoin<T>(parts: seq<seq<T>>, sep: T)
    requires |parts| > 0
    requires forall i | 0 <= i < |parts| :: sep !in parts[i]
    ensures Split(Join(parts, [sep]), sep) == parts
    decreases |parts|
  {
    if |parts| == 1 {
      SplitFree(parts[0], sep);
    } else {
      SplitJoin(parts[1..], sep);
      SplitPrefix(parts[0], sep, Join(parts[1..], [sep]));
      assert Join(parts, [sep]) == parts[0] + ([sep] + Join(parts[1..], [sep]));
      assert [parts[0]] + parts[1..] == parts;
    }
  }

  /** A separator-free sequence splits into itself. */
  lemma {:induction false} SplitFree<T>(s: seq<T>, sep: T)
    requires sep !in s
    ensures Split(s, sep) == [s]
    decreases |s|
  {
    if s != [] {
      SplitFree(s[1..], sep);
      assert [s[0]] + s[1..] == s;
    }
  }

  /** Splitting `a + [sep] + b` with `a` separator-free puts `a` first. */
  lemma {:induction false} SplitPrefix<T>(a: seq<T>, sep: T, b: seq<T>)
    requires sep !in a
    ensures Split(a + ([sep] + b), sep) == [a] + Split(b, sep)
    decreases |a|
  {
    if a == [] {
      assert a + ([sep] + b) == [sep] + b;
      assert ([sep] + b)[1..] == b;
    } else {
      SplitPrefix(a[1..], sep, b);
      assert (a + ([sep] + b))[1..] == a[1..] + ([sep] + b);
      assert [a[0]] + a[1..] == a;
    }
  }

  /**
   * Every element of `xs` between `open` and `close`, in order:
   * `[...xs].map(x => open + x + close).join('')`.
   */
  function WrapEach<T>(xs: seq<T>, open: seq<T>, close: seq<T>): (r: seq<T>)
    ensures xs == [] <==> r == []
    ensures xs != [] ==> open <= r
  {
    if xs == [] then [] else open + [xs[0]] + close + WrapEach(xs[1..], open, close)
  }

  /** True when `m` starts with one whole `open x close` group. */
  predicate StartsGroup<T(==)>(m: seq<T>, open: seq<T>, close: seq<T>)
  {
    |open| + 1 + |close| <= |m| && m[..|open|] == open && m[|open| + 1..|open| + 1 + |close|] == close
  }

  /**
   * Reads `open x close` groups off the front of `m` for as long as there are
   * any; returns the elements read, in order, and what is left.
   */
  function UnwrapEach<T(==)>(m: seq<T>, open: seq<T>, close: seq<T>): (r: (seq<T>, seq<T>))
    ensures |r.1| <= |m|
    decreases |m|
  {
    if StartsGroup(m, open, close) then
      var g := |open| + 1 + |close|;
      var inner := UnwrapEach(m[g..], open, close);
      ([m[|open|]] + inner.0, inner.1)
    else ([], m)
  }

  /**
   * Reading the groups back from a wrapped sequence gives the original
   * elements, one per group, in order, as long as what follows the groups does
   * not begin with `open`.
   */
  lemma {:induction false} UnwrapWrap<T>(xs: seq<T>, open: seq<T>, close: seq<T>, rest: seq<T>)
    requires !(open <= rest)
    ensures UnwrapEach(WrapEach(xs, open, close) + rest, open, close) == (xs, rest)
    decreases |xs|
  {
    var m := WrapEach(xs, open, close) + rest;
    if xs == [] {
      assert m == rest;
    } else {
      var tail := WrapEach(xs[1..], open, close) + rest;
      assert m == open + [xs[0]] + close + tail;
      var g := |open| + 1 + |close|;
      assert m[..|open|] == open;
      assert m[|open| + 1..g] == close;
      assert m[g..] == tail;
      assert m[|open|] == xs[0];
      UnwrapWrap(xs[1..], open, close, rest);
      assert [xs[0]] + xs[1..] == xs;
    }
  }

  /** Wrapping adds exactly one `open` and one `close` per element. */
  lemma {:induction false} WrapEachLength<T>(xs: seq<T>, open: seq<T>, close: seq<T>)
    ensures |WrapEach(xs, open, close)| == |xs| * (|open| + 1 + |close|)
    decreases |xs|
  {
    if xs != [] {
      WrapEachLength(xs[1..], open, close);
    }
  }

  /** A sequence is its five slices at `i <= j <= k <= l`, put back together. */
  lemma {:induction false} Slices<T>(s: seq<T>, i: nat, j: nat, k: nat, l: nat)
    requires i <= j <= k <= l <= |s|
    ensures s == s[..i] + (s[i..j] + (s[j..k] + (s[k..l] + s[l..])))
    ensures s[..k] == s[..i] + (s[i..j] + s[j..k])
  {
  }

  /** Concatenation regrouped to the right. */
  lemma {:induction false} Regroup<T>(a: seq<T>, b: seq<T>, c: seq<T>, d: seq<T>)
    ensures (a + (b + c)) + d == a + (b + (c + d))
  {
  }

  /** The first `k` elements of a sequence with `c` in front. */
  lemma {:induction false} ConsTake<T>(c: T, u: seq<T>, k: nat)
    requires 0 < k <= |u| + 1
    ensures ([c] + u)[..k] == [c] + u[..k - 1]
  {
  }

  /** A non-empty sequence followed by anything: its head, then its tail followed by the rest. */
  lemma {:induction false} HeadTail<T>(l: seq<T>, rest: seq<T>)
    requires l != []
    ensures (l + rest)[0] == l[0] && (l + rest)[1..] == l[1..] + rest
    ensures [l[0]] + (l[1..] + rest) == l + rest
  {
  }

  /** A sequence that starts with `p`: its first `|p|` elements are `p`, the rest is what follows. */
  lemma {:induction false} PrefixDrop<T>(p: seq<T>, x: seq<T>)
    ensures p <= p + x && (p + x)[..|p|] == p && (p + x)[|p|..] == x
  {
  }

  /** One element in front of a display of three. */
  lemma {:induction false} ConsThree<T>(a: T, b: T, c: T, d: T)
    ensures [a] + [b, c, d] == [a, b, c, d]
  {
  }

  /** One element in front of a display of two. */
  lemma {:induction false} ConsTwo<T>(a: T, b: T, c: T)
    ensures [a] + [b, c] == [a, b, c]
  {
  }
}
