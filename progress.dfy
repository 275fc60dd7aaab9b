/**
 * The integer percentage `int(done*100/total) if total else 0`, shared by
 * the fallback worker and the aria2 status poll. On non-negative operands
 * Python's truncation of the float quotient is integer division.
 */
module Progress {

  function Percent(done: nat, total: nat): nat {
    if total == 0 then 0 else done * 100 / total
  }

  /** No more than 100 while the count does not exceed the announced total. */
  lemma PercentAtMost100(done: nat, total: nat)
    requires done <= total
    ensures Percent(done, total) <= 100
  {
    if total > 0 {
      var q := done * 100 / total;
      assert q * total <= done * 100;
      assert done * 100 <= total * 100;
    }
  }

  /** The whole total is 100 percent. */
  lemma PercentOfTotal(total: nat)
    requires total > 0
    ensures Percent(total, total) == 100
  {
    var q, r := total * 100 / total, total * 100 % total;
    assert q * total + r == total * 100 && 0 <= r < total;
    var k: int := 100 - q;
    assert k * total == r;
  }

  /** More bytes never give a smaller percentage. */
  lemma PercentMonotone(a: nat, b: nat, total: nat)
    requires a <= b
    ensures Percent(a, total) <= Percent(b, total)
  {
    if total > 0 {
      var qa, qb := a * 100 / total, b * 100 / total;
      assert qa * total <= a * 100 by {
        assert a * 100 == qa * total + a * 100 % total;
      }
      assert b * 100 < (qb + 1) * total by {
        assert b * 100 == qb * total + b * 100 % total;
      }
      if qa > qb {
        MulMonotone(qb + 1, qa, total);
      }
    }
  }

  lemma MulMonotone(x: int, y: int, z: nat)
    requires x <= y
    ensures x * z <= y * z
  {
    assert y * z - x * z == (y - x) * z;
  }
}
