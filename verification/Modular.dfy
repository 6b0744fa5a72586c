/** Facts about indices modulo a ring's capacity. */
module Modular {

  lemma MulAtLeast(cap: int, k: int)
    requires cap > 0 && k > 0
    ensures cap * k >= cap
  {
    assert (k - 1) * cap >= 0;
  }

  /** Two indices less than a whole ring apart never share a slot. */
  lemma ModDistinct(i: nat, j: nat, cap: nat)
    requires cap > 0 && i < j < i + cap
    ensures i % cap != j % cap
  {
    var a, b := i / cap, j / cap;
    assert i == cap * a + i % cap && j == cap * b + j % cap;
    if i % cap == j % cap {
      assert j - i == cap * b - cap * a == cap * (b - a);
      if a < b { MulAtLeast(cap, b - a); }
      if b < a { MulAtLeast(cap, a - b); }
    }
  }

  lemma ModUnique(x: nat, cap: nat, q: nat, r: nat)
    requires cap > 0 && x == cap * q + r && r < cap
    ensures x % cap == r
  {
    var q', r' := x / cap, x % cap;
    assert cap * q' + r' == cap * q + r;
    assert cap * (q' - q) == r - r' by { assert cap * (q' - q) == cap * q' - cap * q; }
    if q' > q { MulAtLeast(cap, q' - q); }
    if q' < q { MulAtLeast(cap, q - q'); }
  }

  lemma AddMod(p: nat, cap: nat)
    requires cap > 0
    ensures (p + cap) % cap == p % cap
  {
    var q, r := p / cap, p % cap;
    assert p == cap * q + r;
    assert p + cap == cap * (q + 1) + r;
    ModUnique(p + cap, cap, q + 1, r);
  }

  /** Stepping a wrapped index is wrapping the stepped index. */
  lemma WrapStep(p: nat, i: nat, cap: nat)
    requires cap > 0 && i < cap
    ensures (p % cap + i) % cap == (p + i) % cap
  {
    var q, r := p / cap, p % cap;
    assert p == cap * q + r;
    if r + i < cap {
      ModUnique(p + i, cap, q, r + i);
      ModUnique(r + i, cap, 0, r + i);
    } else {
      assert p + i == cap * (q + 1) + (r + i - cap);
      ModUnique(p + i, cap, q + 1, r + i - cap);
      ModUnique(r + i, cap, 1, r + i - cap);
    }
  }
}
