/** The few facts about remainders that index arithmetic needs. */
module Modular {

  lemma MulAtLeast(len: int, k: int)
    requires len > 0 && k >= 1
    ensures len * k >= len
  {
  }

  lemma MulNeg(len: int, k: int)
    ensures len * -k == -(len * k)
  {
  }

  lemma SmallMultiple(d: int, k: int, len: int)
    requires len > 0 && d == len * k && -len < d < len
    ensures d == 0
  {
    if k >= 1 {
      MulAtLeast(len, k);
    } else if k <= -1 {
      MulNeg(len, k);
      MulAtLeast(len, -k);
    }
  }

  lemma DivUnique(a: int, q: int, m: int, len: int)
    requires len > 0 && 0 <= m < len && a == len * q + m
    ensures a % len == m
  {
    var q', m' := a / len, a % len;
    assert a == len * q' + m';
    assert m' - m == len * (q - q');
    SmallMultiple(m' - m, q - q', len);
  }

  lemma ModAdd(a: int, n: int, len: int)
    requires len > 0
    ensures (a % len + n) % len == (a + n) % len
  {
    var q, q' := a / len, (a % len + n) / len;
    assert a == len * q + a % len;
    assert a % len + n == len * q' + (a % len + n) % len;
    assert a + n == len * (q + q') + (a % len + n) % len;
    DivUnique(a + n, q + q', (a % len + n) % len, len);
  }

  lemma ModSame(a: int, x: int, y: int, len: int)
    requires len > 0 && x % len == y % len
    ensures (x + a) % len == (y + a) % len
  {
    ModAdd(x, a, len);
    ModAdd(y, a, len);
  }

  lemma ModCancel(a: int, x: int, y: int, len: int)
    requires len > 0
    ensures (a + x) % len == (a + y) % len <==> x % len == y % len
  {
    if (a + x) % len == (a + y) % len {
      ModSame(-a, a + x, a + y, len);
      assert a + x + -a == x && a + y + -a == y;
    }
    if x % len == y % len {
      ModSame(a, x, y, len);
    }
  }
}
