/**
 * Moving one element of a list, the way both `reorderSections` and
 * `handleDrop` do it: copy the list, `splice(from, 1)` the element out,
 * then `splice(to, 0, element)` it back in.
 */
module Splice {

  /** How Array.prototype.splice resolves its start argument against an
      array of length `len`: negative values count from the end, and the
      result is clamped to 0..len. */
  function ResolveIndex(k: int, len: nat): (r: nat)
    ensures r <= len
    ensures 0 <= k <= len ==> r == k
    ensures k > len ==> r == len
    ensures k < 0 && 0 <= len + k ==> r == len + k
    ensures len + k < 0 ==> r == 0
  {
    if k < 0 then (if len + k < 0 then 0 else len + k)
    else if k > len then len
    else k
  }

  /** The list with the element at `from` taken out and reinserted so that
      it sits at index `to` of the result. */
  function Moved<T>(s: seq<T>, from: nat, to: nat): (r: seq<T>)
    requires from < |s| && to < |s|
  {
    var rest := s[..from] + s[from + 1..];
    rest[..to] + [s[from]] + rest[to..]
  }

  /** A move keeps the length and the elements, and puts the moved one at `to`. */
  lemma MovedIsPermutation<T>(s: seq<T>, from: nat, to: nat)
    requires from < |s| && to < |s|
    ensures |Moved(s, from, to)| == |s|
    ensures Moved(s, from, to)[to] == s[from]
    ensures multiset(Moved(s, from, to)) == multiset(s)
  {
    var rest := s[..from] + s[from + 1..];
    assert s == s[..from] + [s[from]] + s[from + 1..];
    assert rest == rest[..to] + rest[to..];
    calc {
      multiset(Moved(s, from, to));
      multiset(rest[..to]) + multiset([s[from]]) + multiset(rest[to..]);
      multiset(rest) + multiset([s[from]]);
      multiset(s[..from]) + multiset(s[from + 1..]) + multiset([s[from]]);
      multiset(s);
    }
  }

  /** Elements that neither cross `from` nor `to` keep their index. */
  lemma MovedKeepsOutside<T>(s: seq<T>, from: nat, to: nat, k: nat)
    requires from < |s| && to < |s| && k < |s|
    requires (k < from && k < to) || (k > from && k > to)
    ensures Moved(s, from, to)[k] == s[k]
  {
  }

  /** Moving back from `to` to `from` undoes a move. */
  lemma {:induction false} MoveBackRestores<T>(s: seq<T>, from: nat, to: nat)
    requires from < |s| && to < |s|
    ensures |Moved(s, from, to)| == |s|
    ensures Moved(Moved(s, from, to), to, from) == s
  {
    MovedIsPermutation(s, from, to);
    var m := Moved(s, from, to);
    var rest := s[..from] + s[from + 1..];
    assert m == rest[..to] + [s[from]] + rest[to..];
    assert m[to] == s[from];
    assert m[..to] + m[to + 1..] == rest;
    assert Moved(m, to, from) == rest[..from] + [s[from]] + rest[from..];
    assert rest[..from] == s[..from];
    assert rest[from..] == s[from + 1..];
  }

  /** Moving an element onto its own index changes nothing. */
  lemma MoveInPlaceIsIdentity<T>(s: seq<T>, k: nat)
    requires k < |s|
    ensures Moved(s, k, k) == s
  {
    assert s[..k] + s[k + 1..] == (s[..k] + s[k + 1..])[..k] + (s[..k] + s[k + 1..])[k..];
  }

  /** `splice(f, 1)` on an array: the tail moves one place left over the
      removed slot; the last slot keeps its old value. */
  method CloseGap<T>(a: array<T>, f: nat)
    requires f < a.Length
    modifies a
    ensures a[..a.Length - 1] == old(a[..f]) + old(a[f + 1..])
    ensures a[a.Length - 1] == old(a[a.Length - 1])
  {
    ghost var s := a[..];
    var i := f;
    while i < a.Length - 1
      invariant f <= i <= a.Length - 1
      invariant forall k | 0 <= k < f :: a[k] == s[k]
      invariant forall k | f <= k < i :: a[k] == s[k + 1]
      invariant forall k | i <= k < a.Length :: a[k] == s[k]
    {
      a[i] := a[i + 1];
      i := i + 1;
    }
    assert a[..a.Length - 1] == s[..f] + s[f + 1..];
  }

  /** The shift of `splice(t, 0, x)`: everything from `t` on moves one place
      right, dropping the last slot's value; slot `t` is then free. */
  method OpenGap<T>(a: array<T>, t: nat)
    requires t < a.Length
    modifies a
    ensures a[..t] == old(a[..t])
    ensures a[t + 1..] == old(a[t..a.Length - 1])
  {
    ghost var s := a[..];
    var j := a.Length - 1;
    while j > t
      invariant t <= j <= a.Length - 1
      invariant forall k | 0 <= k <= j :: a[k] == s[k]
      invariant forall k | j < k < a.Length :: a[k] == s[k - 1]
    {
      a[j] := a[j - 1];
      j := j - 1;
    }
    assert a[t + 1..] == s[t..a.Length - 1];
  }

  /** The copy-and-splice move, on an array as the source does it: close the
      gap at the removed slot, then open one at the (resolved) target index.
      `from` must name an element, since splicing out of range removes
      nothing and would insert `undefined`. */
  method Move<T>(s: seq<T>, from: int, to: int) returns (r: seq<T>)
    requires |s| > 0 && from < |s|
    ensures r == Moved(s, ResolveIndex(from, |s|), ResolveIndex(to, |s| - 1))
  {
    var n := |s|;
    var a := new T[n](i requires 0 <= i < n => s[i]);
    var f := ResolveIndex(from, n);
    var t := ResolveIndex(to, n - 1);
    var m := a[f];
    CloseGap(a, f);
    ghost var b := a[..];
    OpenGap(a, t);
    ghost var c := a[..];
    a[t] := m;
    r := a[..];
    assert r == c[t := s[f]];
    GapsMakeMove(s, f, t, b, c);
  }

  /** The array contents after closing the gap at `f` (b) and opening one
      at `t` filled with the moved element (r) are the specified move. */
  lemma GapsMakeMove<T>(s: seq<T>, f: nat, t: nat, b: seq<T>, c: seq<T>)
    requires f < |s| && t < |s| && |b| == |s| && |c| == |s|
    requires b[..|s| - 1] == s[..f] + s[f + 1..]
    requires c[..t] == b[..t] && c[t + 1..] == b[t..|s| - 1]
    ensures c[t := s[f]] == Moved(s, f, t)
  {
    var rest := s[..f] + s[f + 1..];
    var r := c[t := s[f]];
    assert r[..t] == c[..t] && r[t + 1..] == c[t + 1..];
    assert b[..t] == rest[..t] && b[t..|s| - 1] == rest[t..];
    assert r == r[..t] + [r[t]] + r[t + 1..];
  }
}
