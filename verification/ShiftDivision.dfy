/** do_div: division of a 64-bit number by 10, 16, 8 or 2^31 with shifts and 32-bit temporaries
  * (lab8/libs/mips32s.h).
  */
module ShiftDivision {

  const WORD: nat := 0x1_0000_0000
  const DOUBLE: nat := 0x1_0000_0000_0000_0000

  /** Least number whose estimated quotient no longer fits 32 bits. */
  const TEN_LIMIT: nat := 5368709122

  /** The low 32 bits, as an assignment to an unsigned variable keeps them. */
  function Low(x: int): (r: nat)
    ensures r < WORD
  {
    x % WORD
  }

  lemma LowIs(x: int, r: nat, k: int)
    requires r < WORD && x == r + WORD * k
    ensures Low(x) == r
  {
  }

  lemma LowSplit(x: int) returns (k: int)
    ensures x == Low(x) + WORD * k && (x >= 0 ==> k >= 0)
  {
    k := x / WORD;
  }

  lemma LowSame(x: int)
    requires 0 <= x < WORD
    ensures Low(x) == x
  {
  }

  /** Ten times q in 32 bits, from two shifts and an addition. */
  function TenTimes(q: nat): nat {
    Low(Low(Low(q * 4) + q) * 2)
  }

  lemma TenTimesIs(q: nat) returns (k: int)
    ensures q * 10 == TenTimes(q) + WORD * k
  {
    hide Low;
    var i := LowSplit(q * 4);
    var j := LowSplit(Low(q * 4) + q);
    var l := LowSplit(Low(Low(q * 4) + q) * 2);
    k := l + 2 * j + 2 * i;
  }

  /** The quotient estimated by the additions, before the final shift. */
  function Estimate(n: nat): (q: nat)
    ensures q < WORD
  {
    var q1 := Low(n / 2 + n / 4);
    var q2 := Low(q1 + q1 / 16);
    var q3 := Low(q2 + q2 / 256);
    Low(q3 + q3 / 65536)
  }

  function Rest(n: nat, q: nat): nat {
    Low(n - TenTimes(q))
  }

  function Corrected(n: nat, q: nat): nat {
    Low(q + Low(Rest(n, q) + 6) / 16)
  }

  lemma RestIs(n: nat, q: nat)
    requires 0 <= n - 10 * q < WORD
    ensures Rest(n, q) == n - 10 * q
  {
    hide Low, TenTimes;
    var k := TenTimesIs(q);
    LowIs(n - TenTimes(q), n - 10 * q, k);
  }

  lemma CorrectedRight(n: nat, q: nat)
    requires 0 <= n - 10 * q <= 15 && q < WORD - 1
    ensures Corrected(n, q) == n / 10 && Rest(n, Corrected(n, q)) == n % 10
  {
    hide Low, TenTimes, Rest;
    RestIs(n, q);
    LowSame(n - 10 * q + 6);
    var q' := if n - 10 * q < 10 then q else q + 1;
    LowSame(q');
    assert (n - 10 * q + 6) / 16 == q' - q;
    RestIs(n, q');
  }

  /** The rounding of the five steps together loses less than 16 of the number. */
  lemma Close(n: int, q1: int, q2: int, q3: int, q4: int, q: int)
    requires 0 <= n < TEN_LIMIT
    requires 4 * q1 <= 3 * n <= 4 * q1 + 5 && 16 * q2 <= 17 * q1 <= 16 * q2 + 15
    requires 256 * q3 <= 257 * q2 <= 256 * q3 + 255 && 65536 * q4 <= 65537 * q3 <= 65536 * q4 + 65535
    requires 8 * q <= q4 <= 8 * q + 7
    ensures 0 <= n - 10 * q <= 15 && q4 < WORD
  {
  }

  lemma Thirds(n: nat)
    ensures var q := n / 2 + n / 4; 4 * q <= 3 * n <= 4 * q + 5
  {
  }

  lemma EstimateClose(n: nat)
    requires n < TEN_LIMIT
    ensures 0 <= n - 10 * (Estimate(n) / 8) <= 15
  {
    hide Low;
    var q1 := n / 2 + n / 4;
    var q2 := q1 + q1 / 16;
    var q3 := q2 + q2 / 256;
    var q4 := q3 + q3 / 65536;
    Thirds(n);
    Close(n, q1, q2, q3, q4, q4 / 8);
    LowSame(q1);
    LowSame(q2);
    LowSame(q3);
    LowSame(q4);
  }

  /** A sum that overflows leaves little; one that does not is exact. */
  lemma Carry(x: nat, y: nat)
    requires x < WORD && y <= x
    ensures if x + y < WORD then Low(x + y) == x + y else Low(x + y) < y
  {
    hide Low;
    if x + y < WORD {
      LowSame(x + y);
    } else {
      LowIs(x + y, x + y - WORD, 1);
    }
  }

  /** What the later additions make of a small sum. */
  lemma LaterSmall(q1: nat)
    requires q1 <= 1744830464
    ensures var q2 := Low(q1 + q1 / 16);
            var q3 := Low(q2 + q2 / 256);
            Low(q3 + q3 / 65536) <= 1861152494
  {
    hide Low;
    Carry(q1, q1 / 16);
    var q2 := Low(q1 + q1 / 16);
    Carry(q2, q2 / 256);
    var q3 := Low(q2 + q2 / 256);
    Carry(q3, q3 / 65536);
  }

  lemma LaterOverflows(q1: nat)
    requires 4026531841 <= q1 < WORD
    ensures var q2 := Low(q1 + q1 / 16);
            var q3 := Low(q2 + q2 / 256);
            Low(q3 + q3 / 65536) <= 1861152494
  {
    hide Low;
    Carry(q1, q1 / 16);
    var q2 := Low(q1 + q1 / 16);
    Carry(q2, q2 / 256);
    var q3 := Low(q2 + q2 / 256);
    Carry(q3, q3 / 65536);
    if q1 + q1 / 16 < WORD {
      assert q2 >= 4278190081;
      if q2 + q2 / 256 < WORD {
        assert q3 >= 4294901761;
      }
    }
  }

  /** From the limit on, one of the additions overflows, or the quotient is above anything the estimate can be
    * corrected to.
    */
  lemma Overflows(n: nat)
    requires TEN_LIMIT <= n
    ensures Estimate(n) / 8 + WORD / 16 <= n / 10
  {
    hide Low;
    var a := n / 2 + n / 4;
    if n >= 8053063680 {
      hide Estimate;
    } else if a < WORD {
      LowSame(a);
      LaterOverflows(a);
    } else {
      LowIs(a, a - WORD, 1);
      LaterSmall(a - WORD);
    }
  }

  /** Division by ten is right exactly below the limit, which lies above 2^32. */
  lemma TenDivExact(n: nat)
    ensures (Corrected(n, Estimate(n) / 8) == n / 10 && Rest(n, Corrected(n, Estimate(n) / 8)) == n % 10)
            <==> n < TEN_LIMIT
  {
    hide Low, Estimate, TenTimes, Rest;
    if n < TEN_LIMIT {
      EstimateClose(n);
      CorrectedRight(n, Estimate(n) / 8);
    } else {
      CorrectionSmall(n, Estimate(n) / 8);
      Overflows(n);
    }
  }

  /** At the limit itself the last addition comes to 2^32, and the quotient to an eighth of what it should be. */
  lemma TenDivFails()
    ensures Corrected(TEN_LIMIT, Estimate(TEN_LIMIT) / 8) == 67108864 != TEN_LIMIT / 10
    ensures Rest(TEN_LIMIT, 67108864) == 402653186
  {
    hide Low;
    LowSame(4026531841);
    LowSame(4278190081);
    LowSame(4294901761);
    LowIs(WORD, 0, 1);
    assert Estimate(TEN_LIMIT) == 0;
    LowSame(0);
    assert TenTimes(0) == 0;
    LowIs(TEN_LIMIT, 1073741826, 1);
    LowSame(1073741832);
    LowSame(67108864);
    LowSame(268435456);
    LowSame(335544320);
    LowSame(671088640);
    LowIs(TEN_LIMIT - 671088640, 402653186, 1);
  }

  /** The correction adds at most 2^28. */
  lemma CorrectionSmall(n: nat, q: nat)
    requires q < WORD / 8
    ensures Corrected(n, q) < q + WORD / 16
  {
    hide Low, Rest;
    LowSame(q + Low(Rest(n, q) + 6) / 16);
  }

  /** The macro: it divides n in place and yields the remainder. For any base but 10, 16, 8 and 2^31
    * it yields 3 and leaves 1.
    */
  method DoDiv(n: nat, base: nat) returns (rest: nat, mod: nat)
    requires n < DOUBLE
    ensures base == 10 ==> (rest == n / 10 && mod == n % 10 <==> n < TEN_LIMIT) && rest < WORD
    ensures base == 16 || base == 8 || base == 0x8000_0000 ==> rest == n / base && mod == n % base
    ensures base != 10 && base != 16 && base != 8 && base != 0x8000_0000 ==> rest == 1 && mod == 3
  {
    hide Low, TenTimes;
    if base == 10 {
      var q := Low(n / 2 + n / 4);
      q := Low(q + q / 16);
      q := Low(q + q / 256);
      q := Low(q + q / 65536);
      q := q / 8;
      mod := Low(n - TenTimes(q));
      q := Low(q + Low(mod + 6) / 16);
      mod := Low(n - TenTimes(q));
      rest := q;
      TenDivExact(n);
    } else if base == 16 {
      rest, mod := n / 16, n % 16;
    } else if base == 8 {
      rest, mod := n / 8, n % 8;
    } else if base == 0x8000_0000 {
      rest, mod := n / 0x8000_0000, n % 0x8000_0000;
    } else {
      rest, mod := 1, 3;
    }
  }
}
