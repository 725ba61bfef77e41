/** Sequence operations that the client and the server borrow from their
    languages: numpy/Python `a[:stop]`, numpy `tobytes` flattening, and the
    JavaScript index filter `list.filter((_, i) => i !== index)`. */
module Seqs {

  /** `a[:stop]` for a non-negative `stop`: the first `stop` elements, or all
      of them when `stop` is past the end. */
  function SliceTo<T>(a: seq<T>, stop: nat): (r: seq<T>)
    ensures |r| == if stop <= |a| then stop else |a|
    ensures r <= a
  {
    if stop <= |a| then a[..stop] else a
  }

  /** Python/numpy `a[:stop]` for any integer `stop`: a negative `stop`
      counts from the end, and a stop still negative after that selects
      nothing. */
  function PyPrefix<T>(a: seq<T>, stop: int): (r: seq<T>)
    ensures stop >= 0 ==> |r| == if stop <= |a| then stop else |a|
    ensures stop < 0 ==> |r| == if |a| + stop < 0 then 0 else |a| + stop
    ensures r <= a
  {
    if stop >= 0 then SliceTo(a, stop)
    else if |a| + stop < 0 then []
    else a[..|a| + stop]
  }

  /** Concatenation of a sequence of sequences, in order. */
  function Concat<T>(ss: seq<seq<T>>): seq<T>
  {
    if ss == [] then [] else Concat(ss[..|ss| - 1]) + ss[|ss| - 1]
  }

  /** Concatenation distributes over appending sequences of pieces. */
  lemma {:induction false} ConcatAppend<T>(a: seq<seq<T>>, b: seq<seq<T>>)
    ensures Concat(a + b) == Concat(a) + Concat(b)
  {
    if b == [] {
      assert a + b == a;
    } else {
      var ab, init, last := a + b, b[..|b| - 1], b[|b| - 1];
      assert ab[..|ab| - 1] == a + init && ab[|ab| - 1] == last;
      ConcatAppend(a, init);
      calc {
        Concat(ab);
        Concat(a + init) + last;
        Concat(a) + Concat(init) + last;
        Concat(a) + (Concat(init) + last);
      }
    }
  }

  /** When every piece has length `n`, the concatenation has `|ss| * n`
      elements. */
  lemma {:induction false} ConcatUniformLength<T>(ss: seq<seq<T>>, n: nat)
    requires forall i :: 0 <= i < |ss| ==> |ss[i]| == n
    ensures |Concat(ss)| == |ss| * n
  {
    if ss != [] {
      ConcatUniformLength(ss[..|ss| - 1], n);
      assert |Concat(ss)| == (|ss| - 1) * n + n;
    }
  }

  /** Keeping fewer pieces keeps a prefix of the concatenation. */
  lemma ConcatPrefix<T>(ss: seq<seq<T>>, k: nat)
    requires k <= |ss|
    ensures Concat(ss[..k]) <= Concat(ss)
  {
    assert ss == ss[..k] + ss[k..];
    ConcatAppend(ss[..k], ss[k..]);
  }

  /** `s.filter((_, i) => i !== index)`: every element whose position differs
      from `index`, in order. An `index` outside the sequence (negative, too
      large) matches no position. */
  function Without<T>(s: seq<T>, index: int): (r: seq<T>)
    ensures 0 <= index < |s| ==> r == s[..index] + s[index + 1..]
    ensures !(0 <= index < |s|) ==> r == s
  {
    if s == [] then []
    else Without(s[..|s| - 1], index) + (if index == |s| - 1 then [] else [s[|s| - 1]])
  }
}
