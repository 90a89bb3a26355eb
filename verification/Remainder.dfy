// Remainders and one turn around a table or a cyclic array.
module Remainders {

  lemma MultipleBounds(k: int, m: int)
    requires m > 0
    ensures k >= 1 ==> k * m >= m
    ensures k <= -1 ==> k * m <= -m
  {
  }

  lemma DivModUnique(x: int, q: int, r: int, m: nat)
    requires m > 0 && x == q * m + r && 0 <= r < m
    ensures x % m == r
  {
    MultipleBounds(x / m - q, m);
    assert (x / m - q) * m == r - x % m;
  }

  // Going on by less than a whole turn wraps around at most once.
  lemma ModAdd(h: int, d: int, cap: nat)
    requires cap > 0 && 0 <= d < cap
    ensures (h + d) % cap == if h % cap + d < cap then h % cap + d else h % cap + d - cap
  {
    var q, r := h / cap, h % cap;
    assert h == q * cap + r;
    var s := if r + d < cap then r + d else r + d - cap;
    var q' := if r + d < cap then q else q + 1;
    assert q' * cap == q * cap + if r + d < cap then 0 else cap;
    assert h + d == q' * cap + s;
    DivModUnique(h + d, q', s, cap);
  }

  // The way from h to k.
  lemma ModSub(k: int, h: int, cap: nat)
    requires cap > 0
    ensures (k - h) % cap == if k % cap >= h % cap then k % cap - h % cap else k % cap - h % cap + cap
  {
    var q := k / cap - h / cap;
    var r := k % cap - h % cap;
    assert k - h == q * cap + r;
    if r >= 0 {
      DivModUnique(k - h, q, r, cap);
    } else {
      assert (q - 1) * cap == q * cap - cap;
      DivModUnique(k - h, q - 1, r + cap, cap);
    }
  }
}
