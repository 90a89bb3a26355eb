/** Slices of the arrays of the language, whose index may wrap around. */
module Slices {
  import opened Options
  import opened Remainders

  // The remainder the original takes: never negative.
  function Imod(x: int, n: nat): (r: nat)
    requires n > 0
    ensures r < n
  {
    x % n
  }

  /* What the operations mean. */

  function Least(a: int, b: int): int { if a < b then a else b }

  // An error for a negative index of an array that is not cyclic.
  function SliceIndex(i: int, len: nat): (r: Option<nat>)
    ensures r.Some? <==> i >= 0
    ensures r.Some? ==> r.value <= len
  {
    if i < 0 then None else Some(Least(i, len))
  }

  // Element i of a cyclic array.
  function Cyclic<T>(s: seq<T>, i: int): T
    requires s != []
  {
    s[Imod(i, |s|)]
  }

  /** The elements from left to right, None for an error. */
  function SliceOf<T>(s: seq<T>, cycle: bool, left: int, right: int): Option<seq<T>> {
    if right < left then None
    else if left == right || s == [] then Some([])
    else if cycle then Some(seq(right - left, k requires 0 <= k => Cyclic(s, left + k)))
    else
      match (SliceIndex(left, |s|), SliceIndex(right, |s|))
      case (Some(l), Some(r)) => Some(s[l..r])
      case _ => None
  }

  // The end of a cyclic slice, in 1..n.
  function SliceEnd(right: int, n: nat): int
    requires n > 0
  {
    if Imod(right, n) == 0 then n else Imod(right, n)
  }

  /** When a slice may be assigned to. */
  predicate Assignable<T>(s: seq<T>, cycle: bool, left: int, right: int, v: seq<T>) {
    && left <= right
    && if !cycle then left >= 0
       else if left == right then !OutOfRange(s, cycle, left, right, v)
       else right <= left + |s| && (Imod(left, |s|) < SliceEnd(right, |s|) || |v| == right - left)
  }

  /** When elements would be inserted outside the array: in an empty cyclic array
      the index is not reduced. */
  predicate OutOfRange<T>(s: seq<T>, cycle: bool, left: int, right: int, v: seq<T>) {
    cycle && s == [] && left == right && left != 0 && v != []
  }

  // What an assignment comes to: done, an error of the language, or an insertion
  // outside the array, which the original does not detect.
  datatype Outcome = Done | Refused | Outside

  /* The class. */

  class Array<T(0)> {
    var items: seq<T>
    var cycle: bool

    method Slice(left: int, right: int) returns (r: Option<seq<T>>)
      ensures r == SliceOf(items, cycle, left, right)
    {
      if right < left {
        return None;
      }
      if left == right || |items| == 0 {
        return Some([]);
      }
      var length := |items|;
      if cycle {
        var n := right - left;
        var result := new T[n];
        var i, ri := Imod(left, length), 0;
        while ri < n
          invariant 0 <= ri <= n && i == Imod(left + ri, length)
          invariant forall k :: 0 <= k < ri ==> result[k] == Cyclic(items, left + k)
        {
          Onward(left + ri, 1, length);
          result[ri] := items[i];
          ri := ri + 1;
          i := i + 1;
          if i >= length {
            i := i - length;
          }
        }
        assert result[..] == SliceOf(items, cycle, left, right).value;
        return Some(result[..]);
      } else {
        var l, h := SliceIndex(left, length), SliceIndex(right, length);
        if l.None? || h.None? {
          return None;
        }
        return Some(items[l.value..h.value]);
      }
    }

    method SetNonBridgingSlice(l: nat, r: nat, v: seq<T>)
      requires l <= r <= |items|
      modifies this`items
      ensures items == old(items[..l]) + v + old(items[r..])
    {
      var n := r - l;
      if |v| == n {
        items := items[..l] + v + items[l + |v|..];
      } else if |v| < n {
        items := items[..l] + v + items[l + |v|..];
        items := items[..l + |v|] + items[r..];
      } else {
        items := items[..l] + v[..n] + items[l + n..];
        items := items[..r] + v[n..] + items[r..];
        assert v == v[..n] + v[n..];
      }
    }

    method SetBridgingSlice(l: nat, r: nat, v: seq<T>)
      requires r <= l <= |items| && r + |items| - l == |v|
      modifies this`items
      ensures items == v[|old(items)| - l..] + old(items[r..l]) + v[..|old(items)| - l]
    {
      var len := |items|;
      items := items[..l] + v[..len - l];
      items := v[len - l..] + items[|v| - (len - l)..];
    }

    /** Assigning a slice. */
    method SetSlice(left: int, right: int, v: seq<T>) returns (r: Outcome)
      modifies this`items
      ensures r == Done <==> Assignable(old(items), cycle, left, right, v)
      ensures r == Outside <==> OutOfRange(old(items), cycle, left, right, v)
      ensures items == if r == Done then AfterSet(old(items), cycle, left, right, v) else old(items)
    {
      hide Imod, InSlice, SliceEnd;
      if right < left {
        return Refused;
      }
      var length := |items|;
      if cycle {
        if right == left {
          // With no elements the index is taken as it is.
          var l := if length == 0 then left else Imod(left, length);
          if length == 0 && l != 0 {
            // Nothing to insert, or an insertion outside.
            return if |v| == 0 then Done else Outside;
          }
          SetNonBridgingSlice(l, l, v);
        } else {
          if left + length < right {
            return Refused;
          }
          var l, h := Imod(left, length), Imod(right, length);
          if h == 0 {
            h := length;
          }
          AfterCyclic(items, left, right, v);
          if l < h {
            SetNonBridgingSlice(l, h, v);
          } else {
            if h + length - l == |v| {
              SetBridgingSlice(l, h, v);
            } else {
              return Refused;
            }
          }
        }
      } else {
        var l, h := SliceIndex(left, length), SliceIndex(right, length);
        if l.None? || h.None? {
          return Refused;
        }
        SetNonBridgingSlice(l.value, h.value, v);
      }
      return Done;
    }

    /** The helper behind delete: default arguments are None. */
    method Delete(iti: Option<int>, itj: Option<int>) returns (ok: bool)
      modifies this`items
      ensures ok == Deletable(old(items), cycle, iti, itj)
      ensures items == if ok then AfterDelete(old(items), cycle, iti, itj) else old(items)
    {
      hide Imod, Kept;
      if iti.None? && itj.None? {
        items := [];
        return true;
      }
      var i := if iti.None? then itj.value else iti.value;
      var j := if iti.None? || itj.None? then i else itj.value;
      var asize := |items|;
      if cycle && asize > 0 {
        if j - i + 1 >= asize {
          items := [];
          return true;
        }
        KeptWhole(items, i, j);
        i, j := Imod(i, asize), Imod(j, asize);
        if j >= i {
          items := items[..i] + items[j + 1..];
        } else {
          items := items[..i];
          items := items[j + 1..];
        }
        return true;
      }
      if i < 0 || i >= asize || i > j || j >= asize {
        return false;
      }
      items := items[..i] + items[j + 1..];
      return true;
    }
  }

  /** The array after an assignment. */
  function AfterSet<T>(s: seq<T>, cycle: bool, left: int, right: int, v: seq<T>): seq<T>
    requires Assignable(s, cycle, left, right, v)
  {
    if !cycle then s[..Least(left, |s|)] + v + s[Least(right, |s|)..]
    else if s == [] then v
    else if left == right then s[..Imod(left, |s|)] + v + s[Imod(left, |s|)..]
    else
      var l, r := Imod(left, |s|), SliceEnd(right, |s|);
      if l < r then s[..l] + v + s[r..]
      else seq(|s|, k requires 0 <= k < |s| => if InSlice(k, left, |v|, |s|) then v[Imod(k - left, |s|)] else s[k])
  }

  // Position k is one of those from left on.
  predicate InSlice(k: int, left: int, size: nat, n: nat)
    requires n > 0
  {
    Imod(k - left, n) < size
  }

  // The range of a delete, with its defaults.
  function FirstDeleted(iti: Option<int>, itj: Option<int>): int
    requires iti.Some? || itj.Some?
  {
    if iti.None? then itj.value else iti.value
  }

  function LastDeleted(iti: Option<int>, itj: Option<int>): int
    requires iti.Some? || itj.Some?
  {
    if itj.None? then iti.value else itj.value
  }

  predicate Deletable<T>(s: seq<T>, cycle: bool, iti: Option<int>, itj: Option<int>) {
    (iti.None? && itj.None?) || (cycle && s != []) || 0 <= FirstDeleted(iti, itj) <= LastDeleted(iti, itj) < |s|
  }

  // Position k of a cyclic array is met on the way from i to j.
  predicate Met(k: int, i: int, j: int, n: nat)
    requires n > 0
  {
    Imod(k - i, n) <= Imod(j - i, n)
  }

  // The elements before position m that are not met, in order.
  function Kept<T>(s: seq<T>, m: nat, i: int, j: int): seq<T>
    requires m <= |s|
  {
    if m == 0 then []
    else Kept(s, m - 1, i, j) + if Met(m - 1, i, j, |s|) then [] else [s[m - 1]]
  }

  /** The array after a delete. */
  function AfterDelete<T>(s: seq<T>, cycle: bool, iti: Option<int>, itj: Option<int>): seq<T>
    requires Deletable(s, cycle, iti, itj)
  {
    if iti.None? && itj.None? then []
    else
      var i, j := FirstDeleted(iti, itj), LastDeleted(iti, itj);
      if !cycle || s == [] then s[..i] + s[j + 1..]
      else if j - i + 1 >= |s| then []
      else Kept(s, |s|, i, j)
  }

  /* Going around. */

  lemma ImodSmall(x: int, n: nat)
    requires n > 0 && 0 <= x < n
    ensures Imod(x, n) == x
  {
  }

  // Going on by at most a whole turn.
  lemma Onward(left: int, d: int, n: nat)
    requires n > 0 && 0 <= d <= n
    ensures Imod(left + d, n) == if Imod(left, n) + d < n then Imod(left, n) + d else Imod(left, n) + d - n
  {
    if d < n {
      ModAdd(left, d, n);
    } else {
      assert (left / n + 1) * n == left / n * n + n;
      DivModUnique(left + n, left / n + 1, left % n, n);
    }
  }

  lemma Apart(k: int, h: int, n: nat)
    requires n > 0
    ensures Imod(k - h, n) == if Imod(k, n) >= Imod(h, n) then Imod(k, n) - Imod(h, n) else Imod(k, n) - Imod(h, n) + n
  {
    ModSub(k, h, n);
  }

  lemma BridgeLength(left: int, right: int, n: nat)
    requires n > 0 && left < right <= left + n
    ensures var l, r := Imod(left, n), SliceEnd(right, n); (if l < r then r - l else r + n - l) == right - left
  {
    hide Imod;
    Onward(left, right - left, n);
  }

  // The two ways of assigning to a cyclic slice.
  lemma AfterCyclic<T>(s: seq<T>, left: int, right: int, v: seq<T>)
    requires s != [] && left < right <= left + |s|
    ensures SliceEnd(right, |s|) == if Imod(right, |s|) == 0 then |s| else Imod(right, |s|)
    ensures var l, r, n := Imod(left, |s|), SliceEnd(right, |s|), |s|;
            && 0 <= l < n && 0 < r <= n
            && (Assignable(s, true, left, right, v) <==> l < r || r + n - l == |v|)
            && (l < r ==> AfterSet(s, true, left, right, v) == s[..l] + v + s[r..])
            && (l >= r && r + n - l == |v| ==> AfterSet(s, true, left, right, v) == v[n - l..] + s[r..l] + v[..n - l])
  {
    hide Imod;
    BridgeLength(left, right, |s|);
    var l, r, n := Imod(left, |s|), SliceEnd(right, |s|), |s|;
    if l >= r && r + n - l == |v| {
      var after, bridged := AfterSet(s, true, left, right, v), v[n - l..] + s[r..l] + v[..n - l];
      forall k | 0 <= k < n
        ensures after[k] == bridged[k]
      {
        ImodSmall(k, n);
        Apart(k, left, n);
      }
      assert after == bridged;
    }
  }

  /* Properties. */

  // Which element an assignment puts at position k.
  lemma SetAt<T>(s: seq<T>, left: int, right: int, v: seq<T>, k: nat)
    requires s != [] && left <= right <= left + |s| && |v| == right - left && k < |s|
    requires Assignable(s, true, left, right, v)
    ensures var r := AfterSet(s, true, left, right, v);
            |r| == |s| && r[k] == if InSlice(k, left, |v|, |s|) then v[Imod(k - left, |s|)] else s[k]
  {
    hide Imod;
    ImodSmall(k, |s|);
    Apart(k, left, |s|);
    if left < right {
      BridgeLength(left, right, |s|);
    }
  }

  // Element k of the slice is in the slice, at distance k.
  lemma InSliceAt(left: int, k: nat, n: nat)
    requires n > 0 && k < n
    ensures Imod(Imod(left + k, n) - left, n) == k
  {
    hide Imod;
    Onward(left, k, n);
    ImodSmall(Imod(left + k, n), n);
    Apart(Imod(left + k, n), left, n);
  }

  lemma CanAssign<T>(s: seq<T>, left: int, right: int, v: seq<T>)
    requires s != [] && left <= right <= left + |s| && |v| == right - left
    ensures Assignable(s, true, left, right, v)
  {
  }

  /** A cyclic slice of at most the whole array can be assigned as many elements
      as it has; reading it then gives those elements, and every other position
      is as before. */
  lemma SetThenSlice<T>(s: seq<T>, left: int, right: int, v: seq<T>)
    requires s != [] && left <= right <= left + |s| && |v| == right - left
    ensures Assignable(s, true, left, right, v)
    ensures var r := AfterSet(s, true, left, right, v);
            && |r| == |s|
            && SliceOf(r, true, left, right) == Some(v)
            && forall k :: 0 <= k < |s| && !InSlice(k, left, |v|, |s|) ==> r[k] == s[k]
  {
    hide Imod, AfterSet, Assignable;
    CanAssign(s, left, right, v);
    var n, r := |s|, AfterSet(s, true, left, right, v);
    SetAt(s, left, right, v, 0);
    forall k | 0 <= k < n
      ensures r[k] == if InSlice(k, left, |v|, n) then v[Imod(k - left, n)] else s[k]
    {
      SetAt(s, left, right, v, k);
    }
    forall k | 0 <= k < right - left
      ensures Cyclic(r, left + k) == v[k]
    {
      InSliceAt(left, k, n);
    }
    assert SliceOf(r, true, left, right).value == v;
  }

  /** In an array that is not cyclic, the slice assigned reads back wherever the
      new elements end, and what was after the slice follows them. */
  lemma SetThenSlicePlain<T>(s: seq<T>, left: int, right: int, v: seq<T>)
    requires Assignable(s, false, left, right, v)
    ensures var r, l := AfterSet(s, false, left, right, v), Least(left, |s|);
            && SliceOf(r, false, l, l + |v|) == Some(v)
            && SliceOf(r, false, 0, l) == Some(s[..l])
            && SliceOf(r, false, l + |v|, |r|) == Some(s[Least(right, |s|)..])
  {
    var r, l := AfterSet(s, false, left, right, v), Least(left, |s|);
    assert r[l..l + |v|] == v;
    assert r[0..l] == s[..l];
    assert r[l + |v|..|r|] == s[Least(right, |s|)..];
  }

  // Without going past the end a cyclic slice is a plain one.
  lemma UnwrappedSlice<T>(s: seq<T>, l: nat, h: nat)
    requires l <= h <= |s|
    ensures SliceOf(s, true, l, h) == Some(s[l..h])
  {
    hide Imod;
    forall k | 0 <= k < h - l
      ensures Cyclic(s, l + k) == s[l..h][k]
    {
      ImodSmall(l + k, |s|);
    }
    if l < h {
      assert SliceOf(s, true, l, h).value == s[l..h];
    }
  }

  /** Which slices of a cyclic array may be assigned: at most one turn, and if the
      slice goes past the end, only as many elements as it has. */
  lemma AssignableIff<T>(s: seq<T>, left: int, right: int, v: seq<T>)
    ensures Assignable(s, false, left, right, v) <==> 0 <= left <= right
    ensures s != [] ==>
              (Assignable(s, true, left, right, v) <==>
               left <= right <= left + |s| && (Imod(left, |s|) + (right - left) <= |s| || |v| == right - left))
    ensures Assignable([], true, left, right, v) <==> left == right && (left == 0 || v == [])
  {
    hide Imod;
    if s != [] && left < right <= left + |s| {
      BridgeLength(left, right, |s|);
    }
  }

  /** Any number of elements replace a cyclic slice that does not go past the end,
      in its place: before them is what was before the slice, after them what was
      after it.  An empty slice stands for a place to insert. */
  lemma SetThenSliceCyclic<T>(s: seq<T>, left: int, right: int, v: seq<T>)
    requires s != [] && left <= right && Imod(left, |s|) + (right - left) <= |s|
    ensures Assignable(s, true, left, right, v)
    ensures var r, p := AfterSet(s, true, left, right, v), Imod(left, |s|);
            && |r| == |s| - (right - left) + |v|
            && SliceOf(r, true, 0, p) == SliceOf(s, true, 0, p)
            && SliceOf(r, true, p, p + |v|) == Some(v)
            && SliceOf(r, true, p + |v|, |r|) == SliceOf(s, true, p + (right - left), |s|)
  {
    hide Imod, SliceOf;
    AssignableIff(s, left, right, v);
    var r, p, e := AfterSet(s, true, left, right, v), Imod(left, |s|), Imod(left, |s|) + (right - left);
    if left < right {
      BridgeLength(left, right, |s|);
    }
    assert r == s[..p] + v + s[e..];
    UnwrappedSlice(r, 0, p);
    UnwrappedSlice(s, 0, p);
    UnwrappedSlice(r, p, p + |v|);
    UnwrappedSlice(r, p + |v|, |r|);
    UnwrappedSlice(s, e, |s|);
    assert r[0..p] == s[0..p] && r[p..p + |v|] == v && r[p + |v|..|r|] == s[e..|s|];
  }

  /** The slice of a whole cyclic array, from anywhere, is a rotation. */
  lemma WholeSlice<T>(s: seq<T>, left: int)
    requires s != []
    ensures SliceOf(s, true, left, left + |s|) == Some(s[Imod(left, |s|)..] + s[..Imod(left, |s|)])
  {
    hide Imod;
    var rotated := s[Imod(left, |s|)..] + s[..Imod(left, |s|)];
    forall k | 0 <= k < |s|
      ensures Cyclic(s, left + k) == rotated[k]
    {
      Onward(left, k, |s|);
    }
    assert SliceOf(s, true, left, left + |s|).value == rotated;
  }

  /** A cyclic slice goes around the array as often as its length takes: one turn is
      the rotation from its left end, and further on it repeats. */
  lemma CyclicSlice<T>(s: seq<T>, left: int, right: int)
    requires s != [] && left <= right
    ensures var r, p := SliceOf(s, true, left, right), Imod(left, |s|);
            && r.Some? && |r.value| == right - left
            && (forall k :: 0 <= k < |r.value| && k < |s| ==> r.value[k] == (s[p..] + s[..p])[k])
            && forall k :: |s| <= k < |r.value| ==> r.value[k] == r.value[k - |s|]
  {
    hide Imod;
    var r, n := SliceOf(s, true, left, right).value, |s|;
    forall k | 0 <= k < |r| && k < n
      ensures r[k] == (s[Imod(left, n)..] + s[..Imod(left, n)])[k]
    {
      Onward(left, k, n);
    }
    forall k | n <= k < |r|
      ensures r[k] == r[k - n]
    {
      Onward(left + (k - n), n, n);
      assert left + (k - n) + n == left + k;
      assert Imod(left + k, n) == Imod(left + (k - n), n);
      assert r[k] == Cyclic(s, left + k) && r[k - n] == Cyclic(s, left + (k - n));
    }
  }

  /** A slice is an error exactly when it is backward, or starts before an array that
      is not cyclic; there it stops at the end of the array. */
  lemma PlainSlice<T>(s: seq<T>, cycle: bool, left: int, right: int)
    ensures SliceOf(s, cycle, left, right).None? <==>
            right < left || (!cycle && s != [] && left < right && left < 0)
    ensures 0 <= left <= right ==>
              var r := SliceOf(s, false, left, right);
              && r.Some? && |r.value| == (if left >= |s| then 0 else Least(right, |s|) - left)
              && forall k :: 0 <= k < |r.value| ==> r.value[k] == s[left + k]
  {
  }

  // When position k is met.
  lemma MetAt(k: int, i: int, j: int, n: nat)
    requires n > 0 && 0 <= k < n
    ensures var a, b := Imod(i, n), Imod(j, n); Met(k, i, j, n) <==> if a <= b then a <= k <= b else k >= a || k <= b
  {
    hide Imod;
    ImodSmall(k, n);
    Apart(k, i, n);
    Apart(j, i, n);
  }

  // What erasing one or two ranges keeps.
  lemma {:induction false} KeptIs<T>(s: seq<T>, m: nat, i: int, j: int)
    requires s != [] && m <= |s|
    ensures var a, b := Imod(i, |s|), Imod(j, |s|);
            Kept(s, m, i, j) ==
            if a <= b then s[..Least(m, a)] + s[Least(m, b + 1)..m]
            else s[Least(m, b + 1)..Least(m, a)]
  {
    hide Imod, Met;
    if m > 0 {
      KeptIs(s, m - 1, i, j);
      MetAt(m - 1, i, j, |s|);
      KeptOne(s, m - 1, Imod(i, |s|), Imod(j, |s|));
    }
  }

  // One position more of what is kept.
  lemma KeptOne<T>(s: seq<T>, k: nat, a: nat, b: nat)
    requires k < |s|
    ensures a <= b ==>
              s[..Least(k + 1, a)] + s[Least(k + 1, b + 1)..k + 1] ==
              s[..Least(k, a)] + s[Least(k, b + 1)..k] + if a <= k <= b then [] else [s[k]]
    ensures a > b ==>
              s[Least(k + 1, b + 1)..Least(k + 1, a)] ==
              s[Least(k, b + 1)..Least(k, a)] + if k >= a || k <= b then [] else [s[k]]
  {
  }

  lemma KeptWhole<T>(s: seq<T>, i: int, j: int)
    requires s != []
    ensures var a, b := Imod(i, |s|), Imod(j, |s|);
            Kept(s, |s|, i, j) == if a <= b then s[..a] + s[b + 1..] else s[b + 1..a]
  {
    hide Imod, Kept;
    KeptIs(s, |s|, i, j);
  }

  // Index m of a cyclic array is position k.
  predicate Reduces(m: int, n: nat, k: int)
    requires n > 0
  {
    Imod(m, n) == k
  }

  /** The positions met are exactly those that the indices from i on reduce to, up
      to the first that reduces to what j does. */
  lemma MetIff(k: int, i: int, j: int, n: nat)
    requires n > 0 && 0 <= k < n
    ensures Met(k, i, j, n) <==> exists m :: i <= m <= i + Imod(j - i, n) && Reduces(m, n, k)
    ensures i <= j < i + n ==> i + Imod(j - i, n) == j
  {
    hide Imod;
    if i <= j < i + n {
      ImodSmall(j - i, n);
    }
    var d := Imod(k - i, n);
    ImodSmall(k, n);
    Apart(k, i, n);
    Onward(i, d, n);
    assert Reduces(i + d, n, k);
    forall m | i <= m <= i + Imod(j - i, n) && Reduces(m, n, k)
      ensures m == i + d
    {
      Onward(i, m - i, n);
    }
  }

  // How many positions a cyclic delete removes.
  function Removed(i: int, j: int, n: nat): (r: nat)
    requires n > 0
    ensures 0 < r <= n
    ensures i <= j < i + n ==> r == j - i + 1
  {
    if i <= j < i + n then j - i + 1 else Imod(j - i, n) + 1
  }

  /** A cyclic delete of a whole turn or more leaves nothing.  Otherwise it removes
      one stretch going around: if the stretch passes the end, what is left starts
      after it; if not, what is left is what was before and what was after. */
  lemma DeleteCyclic<T>(s: seq<T>, i: int, j: int)
    requires s != []
    ensures Deletable(s, true, Some(i), Some(j))
    ensures j - i + 1 >= |s| ==> AfterDelete(s, true, Some(i), Some(j)) == []
    ensures j - i + 1 < |s| ==>
              var r, a, size := AfterDelete(s, true, Some(i), Some(j)), Imod(i, |s|), Removed(i, j, |s|);
              && |r| == |s| - size
              && forall k :: 0 <= k < |r| ==>
                   r[k] == s[if a + size > |s| then k + (a + size - |s|) else if k < a then k else k + size]
  {
    hide Imod, Kept;
    if j - i + 1 < |s| {
      KeptIs(s, |s|, i, j);
      Apart(j, i, |s|);
      if i <= j {
        ImodSmall(j - i, |s|);
      }
    }
  }

  /** A delete from an array that is not cyclic removes positions i to j, which must
      exist, and moves what follows up. */
  lemma DeletePlain<T>(s: seq<T>, i: int, j: int)
    ensures Deletable(s, false, Some(i), Some(j)) <==> 0 <= i <= j < |s|
    ensures 0 <= i <= j < |s| ==>
              var r := AfterDelete(s, false, Some(i), Some(j));
              && |r| == |s| - (j - i + 1)
              && (forall k :: 0 <= k < i ==> r[k] == s[k])
              && forall k :: i <= k < |r| ==> r[k] == s[k + (j - i + 1)]
  {
  }

  /** Without arguments everything is deleted; with one, that position only, which a
      cyclic array with elements always has. */
  lemma DeleteDefaults<T>(s: seq<T>, cycle: bool, i: int)
    ensures Deletable(s, cycle, None, None) && AfterDelete(s, cycle, None, None) == []
    ensures Deletable(s, cycle, None, Some(i)) <==> Deletable(s, cycle, Some(i), Some(i))
    ensures Deletable(s, cycle, Some(i), None) <==> Deletable(s, cycle, Some(i), Some(i))
    ensures Deletable(s, cycle, Some(i), Some(i)) ==>
              && AfterDelete(s, cycle, None, Some(i)) == AfterDelete(s, cycle, Some(i), Some(i))
              && AfterDelete(s, cycle, Some(i), None) == AfterDelete(s, cycle, Some(i), Some(i))
    ensures Deletable(s, cycle, Some(i), Some(i)) <==> (cycle && s != []) || 0 <= i < |s|
  {
  }
}
