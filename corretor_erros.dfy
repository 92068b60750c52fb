/** Hamming error correction (class `CorretorHamming`): parity bits at the
    power-of-two positions of a 1-indexed codeword, syndrome decoding with
    single-bit correction, and the block-wise helpers used by the
    transmitter and the receiver. The encoder and decoder work in place on
    an array of n + 1 cells whose cell 0 is unused, as the original does
    with a padded Python list. */
module CorretorErros {
  import opened Bits
  import Conversor

  // ===== Python's `&` and `^` on non-negative integers =====

  function And(a: nat, b: nat): nat
  {
    if a == 0 || b == 0 then 0
    else 2 * And(a / 2, b / 2) + (if a % 2 == 1 && b % 2 == 1 then 1 else 0)
  }

  /** `a ^ b` on the bit values the encoder and decoder handle. */
  function Xor(a: nat, b: nat): (r: nat)
    ensures IsBit(r)
    ensures IsBit(a) && IsBit(b) ==> r == (a + b) % 2
  {
    if a == b then 0 else 1
  }

  /** Bit `i` of `j`, least significant first. */
  function Bit(j: nat, i: nat): (b: nat)
    ensures IsBit(b)
  {
    if i == 0 then j % 2 else Bit(j / 2, i - 1)
  }

  lemma {:induction false} AndSelf(x: nat)
    ensures And(x, x) == x
  {
    if x > 0 {
      AndSelf(x / 2);
    }
  }

  /** `j & 2**i` is non-zero exactly when bit i of j is set. */
  lemma {:induction false} AndPow2(j: nat, i: nat)
    ensures (And(j, Pow2(i)) != 0) == (Bit(j, i) == 1)
  {
    if j == 0 {
      BitOfZero(i);
    } else if i == 0 {
      assert And(j, 1) == 2 * And(j / 2, 0) + j % 2;
    } else {
      assert Pow2(i) % 2 == 0 && Pow2(i) / 2 == Pow2(i - 1);
      assert And(j, Pow2(i)) == 2 * And(j / 2, Pow2(i - 1));
      AndPow2(j / 2, i - 1);
    }
  }

  lemma {:induction false} BitOfPow2(a: nat, b: nat)
    ensures Bit(Pow2(a), b) == if a == b then 1 else 0
  {
    if b > 0 {
      if a == 0 {
        BitOfZero(b - 1);
      } else {
        assert Pow2(a) / 2 == Pow2(a - 1);
        BitOfPow2(a - 1, b - 1);
      }
    }
  }

  lemma {:induction false} BitOfZero(i: nat)
    ensures Bit(0, i) == 0
  {
    if i > 0 {
      BitOfZero(i - 1);
    }
  }

  /** Distinct parity positions share no bit. */
  lemma AndPow2Pow2(a: nat, b: nat)
    ensures (And(Pow2(a), Pow2(b)) != 0) == (a == b)
  {
    AndPow2(Pow2(a), b);
    BitOfPow2(a, b);
  }

  /** The syndrome accumulation: bits 0..r-1 of k weighted by their powers. */
  function BinSum(k: nat, r: nat): nat
  {
    if r == 0 then 0 else BinSum(k, r - 1) + Bit(k, r - 1) * Pow2(r - 1)
  }

  lemma {:induction false} BinSumShift(k: nat, r: nat)
    requires r >= 1
    ensures BinSum(k, r) == k % 2 + 2 * BinSum(k / 2, r - 1)
  {
    if r >= 2 {
      BinSumShift(k, r - 1);
      assert Bit(k, r - 1) == Bit(k / 2, r - 2);
      assert Pow2(r - 1) == 2 * Pow2(r - 2);
    }
  }

  lemma {:induction false} BinSumValue(k: nat, r: nat)
    requires k < Pow2(r)
    ensures BinSum(k, r) == k
  {
    if r > 0 {
      BinSumShift(k, r);
      BinSumValue(k / 2, r - 1);
    }
  }

  // ===== positions =====

  /** The test `(i & (i - 1)) != 0`: position i carries data. */
  predicate IsDataPos(i: nat)
    requires i >= 1
  {
    And(i, i - 1) != 0
  }

  /** Within [2**a, 2**(a+1)) the only position failing the test is 2**a. */
  lemma {:induction false} PowerOfTwoTest(n: nat, a: nat)
    requires Pow2(a) <= n < Pow2(a + 1)
    ensures !IsDataPos(n) <==> n == Pow2(a)
  {
    if a > 0 {
      if n % 2 == 1 {
        assert And(n, n - 1) == 2 * And(n / 2, (n - 1) / 2);
        AndSelf(n / 2);
      } else {
        assert And(n, n - 1) == 2 * And(n / 2, n / 2 - 1);
        PowerOfTwoTest(n / 2, a - 1);
      }
    }
  }

  lemma ParityPosNotData(i: nat)
    ensures !IsDataPos(Pow2(i))
  {
    PowerOfTwoTest(Pow2(i), i);
  }

  /** Number of data positions among 1..n. */
  function DataCount(n: nat): nat
  {
    if n == 0 then 0 else DataCount(n - 1) + (if IsDataPos(n) then 1 else 0)
  }

  lemma {:induction false} DataCountValue(n: nat, a: nat)
    requires Pow2(a) <= n < Pow2(a + 1)
    ensures DataCount(n) == n - (a + 1)
    decreases n
  {
    PowerOfTwoTest(n, a);
    if n == Pow2(a) {
      if a > 0 {
        DataCountValue(n - 1, a - 1);
      }
    } else {
      DataCountValue(n - 1, a);
    }
  }

  lemma {:induction false} Pow2AtLeast(k: nat)
    ensures Pow2(k) >= k + 1
  {
    if k > 0 {
      Pow2AtLeast(k - 1);
    }
  }

  // ===== number of parity bits =====

  function ParityCountFrom(m: nat, r: nat): (c: nat)
    requires r <= m + 1
    ensures r <= c && Pow2(c) >= m + c + 1
    ensures c == r || Pow2(c - 1) < m + c
    decreases m + 1 - r
  {
    if Pow2(r) >= m + r + 1 then r
    else
      assert r < m + 1 by {
        if r == m + 1 {
          Pow2AtLeast(m);
        }
      }
      ParityCountFrom(m, r + 1)
  }

  lemma {:induction false} ParityCountFromLeast(m: nat, r: nat)
    requires r <= m + 1
    requires forall k :: 0 <= k < r ==> Pow2(k) < m + k + 1
    ensures forall k :: 0 <= k < ParityCountFrom(m, r) ==> Pow2(k) < m + k + 1
    decreases m + 1 - r
  {
    if Pow2(r) < m + r + 1 {
      assert r < m + 1 by {
        if r == m + 1 {
          Pow2AtLeast(m);
        }
      }
      ParityCountFromLeast(m, r + 1);
    }
  }

  /** `calcular_bits_paridade`: the least r with 2**r >= m + r + 1. */
  function ParityCount(m: nat): (r: nat)
    ensures Pow2(r) >= m + r + 1
    ensures r == 0 || Pow2(r - 1) < m + r
  {
    ParityCountFrom(m, 0)
  }

  lemma ParityCountLeast(m: nat)
    ensures forall k :: 0 <= k < ParityCount(m) ==> Pow2(k) < m + k + 1
  {
    ParityCountFromLeast(m, 0);
  }

  /** Exactly one r is the least with 2**r >= m + r + 1. */
  lemma ParityCountUnique(m: nat, r: nat)
    requires Pow2(r) >= m + r + 1
    requires forall k :: 0 <= k < r ==> Pow2(k) < m + k + 1
    ensures r == ParityCount(m)
  {
    ParityCountLeast(m);
  }

  /** The decoder's loop: the least r with 2**r >= n + 1. */
  function CheckCountFrom(n: nat, r: nat): (c: nat)
    requires r <= n + 1
    ensures r <= c && Pow2(c) >= n + 1
    ensures c == r || Pow2(c - 1) < n + 1
    decreases n + 1 - r
  {
    if Pow2(r) >= n + 1 then r
    else
      assert r < n + 1 by {
        if r == n + 1 {
          Pow2AtLeast(n + 1);
        }
      }
      CheckCountFrom(n, r + 1)
  }

  lemma {:induction false} CheckCountFromLeast(n: nat, r: nat)
    requires r <= n + 1
    requires forall k :: 0 <= k < r ==> Pow2(k) < n + 1
    ensures forall k :: 0 <= k < CheckCountFrom(n, r) ==> Pow2(k) < n + 1
    decreases n + 1 - r
  {
    if Pow2(r) < n + 1 {
      assert r < n + 1 by {
        if r == n + 1 {
          Pow2AtLeast(n + 1);
        }
      }
      CheckCountFromLeast(n, r + 1);
    }
  }

  function CheckCount(n: nat): (r: nat)
    ensures Pow2(r) >= n + 1
    ensures r == 0 || Pow2(r - 1) < n + 1
  {
    CheckCountFrom(n, 0)
  }

  lemma CheckCountLeast(n: nat)
    ensures forall k :: 0 <= k < CheckCount(n) ==> Pow2(k) < n + 1
  {
    CheckCountFromLeast(n, 0);
  }

  lemma CheckCountUnique(n: nat, r: nat)
    requires Pow2(r) >= n + 1
    requires forall k :: 0 <= k < r ==> Pow2(k) < n + 1
    ensures r == CheckCount(n)
  {
    CheckCountLeast(n);
  }

  /** For a codeword of m + r bits the decoder finds the encoder's r again. */
  lemma CheckCountOfCodeword(m: nat)
    ensures CheckCount(m + ParityCount(m)) == ParityCount(m)
  {
    var r := ParityCount(m);
    forall k | 0 <= k < r
      ensures Pow2(k) < m + r + 1
    {
      Pow2Monotonic(k, r - 1);
    }
    CheckCountUnique(m + r, r);
  }

  /** ... and m of its m + r positions carry data. */
  lemma DataCountOfCodeword(m: nat)
    ensures DataCount(m + ParityCount(m)) == m
  {
    var r := ParityCount(m);
    if r == 0 {
      assert m == 0;
    } else {
      DataCountValue(m + r, r - 1);
    }
  }

  // ===== the codeword as an (n+1)-cell list, cell 0 unused =====

  /** The XOR over positions j in 1..hi with `j & p != 0`. */
  function Parity(h: seq<nat>, p: nat, hi: nat): nat
    requires hi < |h|
  {
    if hi == 0 then 0
    else if And(hi, p) != 0 then Xor(Parity(h, p, hi - 1), h[hi])
    else Parity(h, p, hi - 1)
  }

  /** Data placed at the data positions in order, zeros elsewhere. */
  function Placed(d: seq<nat>, n: nat): (h: seq<nat>)
    ensures |h| == n + 1
  {
    seq(n + 1, i requires 0 <= i <= n =>
      if 1 <= i && IsDataPos(i) && DataCount(i - 1) < |d| then d[DataCount(i - 1)] else 0)
  }

  /** The parity loop after `i` turns: position 2**c holds the parity of
      the list as it stood at turn c. */
  function WithParities(h: seq<nat>, i: nat): (w: seq<nat>)
    requires i == 0 || Pow2(i - 1) < |h|
    ensures |w| == |h|
  {
    if i == 0 then h
    else
      var w := WithParities(h, i - 1);
      w[Pow2(i - 1) := Parity(w, Pow2(i - 1), |h| - 1)]
  }

  /** The values at the data positions among 1..hi, in order. */
  function Extract(h: seq<nat>, hi: nat): seq<nat>
    requires hi < |h|
  {
    if hi == 0 then [] else Extract(h, hi - 1) + (if IsDataPos(hi) then [h[hi]] else [])
  }

  /** Sum of 2**c over the first i failing checks. */
  function Syndrome(h: seq<nat>, i: nat, n: nat): nat
    requires n < |h|
  {
    if i == 0 then 0
    else Syndrome(h, i - 1, n) + (if Parity(h, Pow2(i - 1), n) != 0 then Pow2(i - 1) else 0)
  }

  /** The n + 1 cells `codificar` fills, before it drops cell 0. */
  function Codeword(d: seq<nat>): (w: seq<nat>)
    ensures |w| == |d| + ParityCount(|d|) + 1
  {
    WithParities(Placed(d, |d| + ParityCount(|d|)), ParityCount(|d|))
  }

  /** `codificar`. */
  function Encode(d: seq<nat>): (c: seq<nat>)
    ensures |c| == |d| + ParityCount(|d|)
  {
    Codeword(d)[1..]
  }

  /** The data bits of a codeword, uncorrected. */
  function DataBits(c: seq<nat>): seq<nat>
  {
    Extract([0] + c, |c|)
  }

  /** `decodificar`: the data bits after correction, and the syndrome. */
  function Decode(c: seq<nat>): (seq<nat>, nat)
  {
    var n := |c|;
    var h := [0] + c;
    var s := Syndrome(h, CheckCount(n), n);
    var h2 := if s != 0 && s <= n then h[s := Xor(h[s], 1)] else h;
    (Extract(h2, n), s)
  }

  // ----- facts about the spec functions -----

  lemma {:induction false} ParityIsBit(h: seq<nat>, p: nat, hi: nat)
    requires hi < |h|
    ensures IsBit(Parity(h, p, hi))
  {
    if hi > 0 {
      ParityIsBit(h, p, hi - 1);
    }
  }

  /** Changing a position that the check does not cover leaves it alone. */
  lemma {:induction false} ParityUpdateOutside(h: seq<nat>, p: nat, hi: nat, k: nat, v: nat)
    requires hi < |h| && k < |h|
    requires k == 0 || k > hi || And(k, p) == 0
    ensures Parity(h[k := v], p, hi) == Parity(h, p, hi)
  {
    hide And, Pow2, Xor;
    if hi > 0 {
      ParityUpdateOutside(h, p, hi - 1, k, v);
    }
  }

  /** Changing a covered position adds the old and the new bit mod 2. */
  lemma {:induction false} ParityUpdateInside(h: seq<nat>, p: nat, hi: nat, k: nat, v: nat)
    requires hi < |h| && IsBits(h) && IsBit(v)
    requires 1 <= k <= hi && And(k, p) != 0
    ensures Parity(h[k := v], p, hi) == (Parity(h, p, hi) + h[k] + v) % 2
  {
    if hi == k {
      ParityUpdateHere(h, p, k, v);
    } else {
      ParityUpdateInside(h, p, hi - 1, k, v);
      ParityUpdateAbove(h, p, hi, k, v);
    }
  }

  /** The step at the changed position itself. */
  lemma ParityUpdateHere(h: seq<nat>, p: nat, k: nat, v: nat)
    requires k < |h| && IsBits(h) && IsBit(v)
    requires 1 <= k && And(k, p) != 0
    ensures Parity(h[k := v], p, k) == (Parity(h, p, k) + h[k] + v) % 2
  {
    hide And, Pow2, Xor;
    var h' := h[k := v];
    var a := Parity(h, p, k - 1);
    ParityIsBit(h, p, k - 1);
    ParityUpdateOutside(h, p, k - 1, k, v);
    assert Parity(h', p, k) == Xor(a, v) && Parity(h, p, k) == Xor(a, h[k]);
    SwapMod2(a, h[k], v, 0);
  }

  /** The step at a position above the changed one. */
  lemma ParityUpdateAbove(h: seq<nat>, p: nat, hi: nat, k: nat, v: nat)
    requires hi < |h| && IsBits(h) && IsBit(v) && 1 <= k < hi
    requires Parity(h[k := v], p, hi - 1) == (Parity(h, p, hi - 1) + h[k] + v) % 2
    ensures Parity(h[k := v], p, hi) == (Parity(h, p, hi) + h[k] + v) % 2
  {
    hide And, Pow2, Xor;
    var h' := h[k := v];
    var a := Parity(h, p, hi - 1);
    var a' := Parity(h', p, hi - 1);
    ParityIsBit(h, p, hi - 1);
    assert h'[hi] == h[hi];
    if And(hi, p) != 0 {
      assert Parity(h', p, hi) == Xor(a', h[hi]) && Parity(h, p, hi) == Xor(a, h[hi]);
      SwapMod2(a, h[k], v, h[hi]);
    }
  }

  /** Adding u + v to a bit and then b, or b and then u + v, mod 2. */
  lemma SwapMod2(a: nat, u: nat, v: nat, b: nat)
    requires IsBit(a) && IsBit(u) && IsBit(v) && IsBit(b)
    ensures ((a + u + v) % 2 + b) % 2 == ((a + b) % 2 + u + v) % 2
    ensures (a + v) % 2 == ((a + u) % 2 + u + v) % 2
  {
    assert (a + u + v) % 2 == (if a + u + v == 1 || a + u + v == 3 then 1 else 0);
    assert (a + b) % 2 == (if a + b == 1 then 1 else 0);
    assert (a + u) % 2 == (if a + u == 1 then 1 else 0);
  }

  lemma {:induction false} ExtractLength(h: seq<nat>, hi: nat)
    requires hi < |h|
    ensures |Extract(h, hi)| == DataCount(hi)
  {
    if hi > 0 {
      ExtractLength(h, hi - 1);
    }
  }

  lemma {:induction false} ExtractBits(h: seq<nat>, hi: nat)
    requires hi < |h| && IsBits(h)
    ensures IsBits(Extract(h, hi))
  {
    if hi > 0 {
      ExtractBits(h, hi - 1);
    }
  }

  /** Lists equal at the data positions give the same data. */
  lemma {:induction false} ExtractAgree(h1: seq<nat>, h2: seq<nat>, hi: nat)
    requires hi < |h1| && hi < |h2|
    requires forall k :: 1 <= k <= hi && IsDataPos(k) ==> h1[k] == h2[k]
    ensures Extract(h1, hi) == Extract(h2, hi)
  {
    if hi > 0 {
      ExtractAgree(h1, h2, hi - 1);
    }
  }

  lemma {:induction false} ExtractPlaced(d: seq<nat>, n: nat, hi: nat)
    requires hi <= n && DataCount(hi) <= |d|
    ensures Extract(Placed(d, n), hi) == d[..DataCount(hi)]
  {
    if hi > 0 {
      ExtractPlaced(d, n, hi - 1);
      if IsDataPos(hi) {
        assert d[..DataCount(hi)] == d[..DataCount(hi - 1)] + [d[DataCount(hi - 1)]];
      }
    }
  }

  lemma PlacedZeroAtParity(d: seq<nat>, n: nat)
    ensures forall c :: 0 <= c && Pow2(c) <= n ==> Placed(d, n)[Pow2(c)] == 0
  {
    forall c | 0 <= c && Pow2(c) <= n
      ensures Placed(d, n)[Pow2(c)] == 0
    {
      ParityPosNotData(c);
    }
  }

  lemma PlacedBits(d: seq<nat>, n: nat)
    requires IsBits(d)
    ensures IsBits(Placed(d, n))
  {
  }

  /** The parity loop keeps bits, never touches a data position or cell 0,
      and has not yet touched the positions 2**c for c >= i. */
  lemma WithParitiesFrame(h: seq<nat>, i: nat)
    requires i == 0 || Pow2(i - 1) < |h|
    requires IsBits(h)
    ensures IsBits(WithParities(h, i))
    ensures |h| >= 1 ==> WithParities(h, i)[0] == h[0]
    ensures forall k :: 1 <= k < |h| && IsDataPos(k) ==> WithParities(h, i)[k] == h[k]
    ensures forall c :: i <= c && Pow2(c) < |h| ==> WithParities(h, i)[Pow2(c)] == h[Pow2(c)]
  {
    WithParitiesKeepsBits(h, i);
    WithParitiesKeepsData(h, i);
    WithParitiesPending(h, i);
  }

  lemma {:induction false} WithParitiesKeepsBits(h: seq<nat>, i: nat)
    requires i == 0 || Pow2(i - 1) < |h|
    requires IsBits(h)
    ensures IsBits(WithParities(h, i))
    ensures |h| >= 1 ==> WithParities(h, i)[0] == h[0]
  {
    hide And, Pow2, Parity, Xor, IsDataPos;
    if i > 0 {
      if i > 1 {
        Pow2Monotonic(i - 2, i - 1);
      }
      WithParitiesKeepsBits(h, i - 1);
      ParityIsBit(WithParities(h, i - 1), Pow2(i - 1), |h| - 1);
    }
  }

  lemma {:induction false} WithParitiesKeepsData(h: seq<nat>, i: nat)
    requires i == 0 || Pow2(i - 1) < |h|
    ensures forall k :: 1 <= k < |h| && IsDataPos(k) ==> WithParities(h, i)[k] == h[k]
  {
    if i > 0 {
      if i > 1 {
        assert Pow2(i - 2) <= Pow2(i - 1);
      }
      WithParitiesKeepsData(h, i - 1);
      ParityPosNotData(i - 1);
    }
  }

  lemma {:induction false} WithParitiesPending(h: seq<nat>, i: nat)
    requires i == 0 || Pow2(i - 1) < |h|
    ensures forall c :: i <= c && Pow2(c) < |h| ==> WithParities(h, i)[Pow2(c)] == h[Pow2(c)]
  {
    if i > 0 {
      if i > 1 {
        assert Pow2(i - 2) <= Pow2(i - 1);
      }
      WithParitiesPending(h, i - 1);
      forall c | i <= c && Pow2(c) < |h|
        ensures WithParities(h, i)[Pow2(c)] == h[Pow2(c)]
      {
        BitOfPow2(c, i - 1);
        BitOfPow2(i - 1, i - 1);
      }
    }
  }

  /** After i turns every check c < i is satisfied. */
  lemma {:induction false} WithParitiesChecks(h: seq<nat>, i: nat)
    requires i == 0 || Pow2(i - 1) < |h|
    requires IsBits(h) && |h| >= 1
    requires forall c :: 0 <= c && Pow2(c) < |h| ==> h[Pow2(c)] == 0
    ensures forall c :: 0 <= c < i ==> Parity(WithParities(h, i), Pow2(c), |h| - 1) == 0
  {
    hide And, Pow2, Parity, Xor, IsDataPos;
    if i > 0 {
      if i > 1 {
        Pow2Monotonic(i - 2, i - 1);
      }
      WithParitiesChecks(h, i - 1);
      var w := WithParities(h, i - 1);
      var n := |h| - 1;
      SlotStillZero(h, i - 1);
      var w2 := w[Pow2(i - 1) := Parity(w, Pow2(i - 1), n)];
      forall c | 0 <= c < i
        ensures Parity(w2, Pow2(c), n) == 0
      {
        CheckAfterWrite(w, n, i - 1, c);
      }
      assert WithParities(h, i) == w2;
    }
  }

  /** Before turn j the slot 2**j still holds its 0. */
  lemma SlotStillZero(h: seq<nat>, j: nat)
    requires Pow2(j) < |h| && IsBits(h) && h[Pow2(j)] == 0
    ensures IsBits(WithParities(h, j)) && WithParities(h, j)[Pow2(j)] == 0
  {
    if j > 0 {
      assert Pow2(j - 1) <= Pow2(j);
    }
    WithParitiesKeepsBits(h, j);
    WithParitiesPending(h, j);
  }

  /** One turn of the parity loop: check i becomes satisfied and the
      earlier checks stay so. */
  lemma CheckAfterWrite(w: seq<nat>, n: nat, i: nat, c: nat)
    requires |w| == n + 1 && IsBits(w) && Pow2(i) <= n && c <= i
    requires c < i ==> Parity(w, Pow2(c), n) == 0
    requires w[Pow2(i)] == 0
    ensures Parity(w[Pow2(i) := Parity(w, Pow2(i), n)], Pow2(c), n) == 0
  {
    var p := Pow2(i);
    var q := Parity(w, p, n);
    ParityIsBit(w, p, n);
    AndPow2Pow2(i, c);
    if c < i {
      assert And(p, Pow2(c)) == 0;
      ParityUpdateOutside(w, Pow2(c), n, p, q);
    } else {
      assert And(p, p) != 0 && 1 <= p <= n;
      ParityUpdateInside(w, p, n, p, q);
      assert Parity(w[p := q], p, n) == (q + 0 + q) % 2;
    }
  }

  /** Flipping the bit at k fails exactly the checks whose bit is set in k. */
  lemma FlipFailsChecks(w: seq<nat>, n: nat, r: nat, k: nat)
    requires |w| == n + 1 && IsBits(w) && 1 <= k <= n
    requires forall c :: 0 <= c < r ==> Parity(w, Pow2(c), n) == 0
    ensures forall c :: 0 <= c < r ==> Parity(w[k := 1 - w[k]], Pow2(c), n) == Bit(k, c)
  {
    forall c | 0 <= c < r
      ensures Parity(w[k := 1 - w[k]], Pow2(c), n) == Bit(k, c)
    {
      AndPow2(k, c);
      if And(k, Pow2(c)) != 0 {
        ParityUpdateInside(w, Pow2(c), n, k, 1 - w[k]);
      } else {
        ParityUpdateOutside(w, Pow2(c), n, k, 1 - w[k]);
      }
    }
  }

  lemma {:induction false} SyndromeZero(h: seq<nat>, i: nat, n: nat)
    requires n < |h|
    requires forall c :: 0 <= c < i ==> Parity(h, Pow2(c), n) == 0
    ensures Syndrome(h, i, n) == 0
  {
    if i > 0 {
      SyndromeZero(h, i - 1, n);
    }
  }

  lemma {:induction false} SyndromeOfBits(h: seq<nat>, i: nat, n: nat, k: nat)
    requires n < |h|
    requires forall c :: 0 <= c < i ==> Parity(h, Pow2(c), n) == Bit(k, c)
    ensures Syndrome(h, i, n) == BinSum(k, i)
  {
    hide And, Parity, Bit;
    if i > 0 {
      SyndromeOfBits(h, i - 1, n, k);
    }
  }

  /** The full (n+1)-cell codeword built by `codificar`: bits, cell 0 unused. */
  lemma CodewordFrame(d: seq<nat>)
    requires IsBits(d)
    ensures IsBits(Codeword(d)) && Codeword(d)[0] == 0 && [0] + Encode(d) == Codeword(d)
  {
    var r := ParityCount(|d|);
    var n := |d| + r;
    var pl := Placed(d, n);
    var w := Codeword(d);
    assert w == WithParities(pl, r);
    PlacedBits(d, n);
    WithParitiesFrame(pl, r);
    assert [0] + w[1..] == w;
  }

  /** The parity loop run on placed data leaves the data in place. */
  lemma PlacedParitiesData(d: seq<nat>, n: nat, r: nat)
    requires IsBits(d) && DataCount(n) <= |d|
    requires r == 0 || Pow2(r - 1) <= n
    ensures Extract(WithParities(Placed(d, n), r), n) == d[..DataCount(n)]
  {
    var pl := Placed(d, n);
    PlacedBits(d, n);
    WithParitiesFrame(pl, r);
    ExtractAgree(WithParities(pl, r), pl, n);
    ExtractPlaced(d, n, n);
  }

  lemma PlacedParitiesWhole(d: seq<nat>, n: nat, r: nat)
    requires IsBits(d) && DataCount(n) == |d|
    requires r == 0 || Pow2(r - 1) <= n
    ensures Extract(WithParities(Placed(d, n), r), n) == d
  {
    PlacedParitiesData(d, n, r);
    assert d[..|d|] == d;
  }

  /** The parity loop run on placed data satisfies its r checks. */
  lemma PlacedParitiesChecks(d: seq<nat>, n: nat, r: nat)
    requires IsBits(d)
    requires r == 0 || Pow2(r - 1) <= n
    ensures forall c :: 0 <= c < r ==> Parity(WithParities(Placed(d, n), r), Pow2(c), n) == 0
  {
    PlacedZeroAtParity(d, n);
    PlacedBits(d, n);
    WithParitiesChecks(Placed(d, n), r);
  }

  /** Its data positions hold d in order. */
  lemma CodewordData(d: seq<nat>)
    requires IsBits(d)
    ensures Extract(Codeword(d), |d| + ParityCount(|d|)) == d
  {
    hide And, Pow2, DataCount, Extract, WithParities, Placed, Parity, IsDataPos, ParityCount, ParityCountFrom;
    DataCountOfCodeword(|d|);
    PlacedParitiesWhole(d, |d| + ParityCount(|d|), ParityCount(|d|));
  }

  /** Its r parity checks are satisfied. */
  lemma CodewordChecks(d: seq<nat>)
    requires IsBits(d)
    ensures forall c :: 0 <= c < ParityCount(|d|) ==> Parity(Codeword(d), Pow2(c), |d| + ParityCount(|d|)) == 0
  {
    var r := ParityCount(|d|);
    PlacedParitiesChecks(d, |d| + r, r);
  }

  lemma EncodeStructure(d: seq<nat>)
    requires IsBits(d)
    ensures IsBits(Codeword(d)) && Codeword(d)[0] == 0 && [0] + Encode(d) == Codeword(d)
    ensures Extract(Codeword(d), |d| + ParityCount(|d|)) == d
    ensures forall c :: 0 <= c < ParityCount(|d|) ==> Parity(Codeword(d), Pow2(c), |d| + ParityCount(|d|)) == 0
  {
    CodewordFrame(d);
    CodewordData(d);
    CodewordChecks(d);
  }

  // ----- the properties of codificar and decodificar -----

  /** The codeword has m + r bits, the data in order at the data positions,
      and every parity check at 2**0 .. 2**(r-1) satisfied. */
  lemma EncodeLayout(d: seq<nat>)
    requires IsBits(d)
    ensures |Encode(d)| == |d| + ParityCount(|d|) && IsBits(Encode(d))
    ensures DataBits(Encode(d)) == d
    ensures forall c :: 0 <= c < ParityCount(|d|) ==> Parity([0] + Encode(d), Pow2(c), |Encode(d)|) == 0
  {
    EncodeStructure(d);
  }

  /** `decodificar(codificar(d)) == (d, 0)`. */
  lemma DecodeEncode(d: seq<nat>)
    requires IsBits(d)
    ensures Decode(Encode(d)) == (d, 0)
  {
    hide And, Pow2, DataCount, Extract, WithParities, Placed, Parity, IsDataPos, ParityCount, ParityCountFrom, Syndrome, CheckCount, CheckCountFrom;
    EncodeLayout(d);
    CheckCountOfCodeword(|d|);
    DecodeClean(Encode(d), ParityCount(|d|));
    assert DataBits(Encode(d)) == d;
  }

  /** A codeword whose r checks all hold decodes to its data, syndrome 0. */
  lemma DecodeClean(c: seq<nat>, r: nat)
    requires CheckCount(|c|) == r
    requires forall k :: 0 <= k < r ==> Parity([0] + c, Pow2(k), |c|) == 0
    ensures Decode(c) == (Extract([0] + c, |c|), 0)
  {
    SyndromeZero([0] + c, r, |c|);
  }

  /** One flipped bit at 1-indexed position k is found and corrected. */
  lemma DecodeCorrectsSingleFlip(d: seq<nat>, k: nat)
    requires IsBits(d) && 1 <= k <= |Encode(d)|
    ensures IsBits(Encode(d)) && Decode(Flip(Encode(d), k - 1)) == (d, k)
  {
    hide And, Pow2, DataCount, Extract, WithParities, Placed, Parity, IsDataPos, ParityCount, ParityCountFrom, Syndrome, CheckCount, CheckCountFrom, Decode;
    EncodeStructure(d);
    CheckCountOfCodeword(|d|);
    var r := ParityCount(|d|);
    var w := Codeword(d);
    DecodeFlipped(w, |d| + r, r, k);
  }

  lemma FlippedSyndrome(w: seq<nat>, n: nat, r: nat, k: nat)
    requires |w| == n + 1 && IsBits(w) && 1 <= k <= n && n < Pow2(r)
    requires forall c :: 0 <= c < r ==> Parity(w, Pow2(c), n) == 0
    ensures Syndrome(w[k := 1 - w[k]], r, n) == k
  {
    FlipFailsChecks(w, n, r, k);
    SyndromeOfBits(w[k := 1 - w[k]], r, n, k);
    BinSumValue(k, r);
  }

  /** A codeword whose r checks hold, with one bit flipped at k <= n < 2**r. */
  lemma DecodeFlipped(w: seq<nat>, n: nat, r: nat, k: nat)
    requires |w| == n + 1 && IsBits(w) && w[0] == 0 && 1 <= k <= n
    requires CheckCount(n) == r && n < Pow2(r)
    requires forall c :: 0 <= c < r ==> Parity(w, Pow2(c), n) == 0
    ensures Decode(Flip(w[1..], k - 1)) == (Extract(w, n), k)
  {
    hide And, Pow2, DataCount, Extract, Parity, IsDataPos, WithParities, Placed, ParityCount, ParityCountFrom,
      CheckCount, CheckCountFrom;
    var c := Flip(w[1..], k - 1);
    var h := [0] + c;
    assert h == w[k := 1 - w[k]];
    FlippedSyndrome(w, n, r, k);
    var s := Syndrome(h, r, n);
    var h2 := h[k := Xor(h[k], 1)];
    assert h2 == w;
    assert |c| == n && [0] + c == h;
    assert Decode(c) == (Extract(h2, n), s);
  }

  /** Correction happens only for a syndrome in 1..n; otherwise the data
      bits are read as they are. */
  lemma DecodeCorrectionRange(c: seq<nat>)
    requires IsBits(c)
    ensures IsBits(Decode(c).0) && |Decode(c).0| == DataCount(|c|)
    ensures Decode(c).1 == 0 || Decode(c).1 > |c| ==> Decode(c).0 == DataBits(c)
    ensures 0 < Decode(c).1 <= |c| ==> Decode(c).0 == DataBits(Flip(c, Decode(c).1 - 1))
  {
    hide And, Pow2, DataCount, Extract, WithParities, Placed, Parity, IsDataPos, ParityCount, ParityCountFrom,
      Syndrome, CheckCount, CheckCountFrom;
    var n := |c|;
    var h := [0] + c;
    var s := Decode(c).1;
    if s != 0 && s <= n {
      assert h[s := Xor(h[s], 1)] == [0] + Flip(c, s - 1);
      ExtractBits([0] + Flip(c, s - 1), n);
      ExtractLength([0] + Flip(c, s - 1), n);
    } else {
      ExtractBits(h, n);
      ExtractLength(h, n);
    }
  }

  // ===== the methods of CorretorHamming =====

  method CalcularBitsParidade(tamanhoDados: nat) returns (r: nat)
    ensures r == ParityCount(tamanhoDados)
    ensures Pow2(r) >= tamanhoDados + r + 1
    ensures forall k :: 0 <= k < r ==> Pow2(k) < tamanhoDados + k + 1
  {
    r := 0;
    while Pow2(r) < tamanhoDados + r + 1
      invariant r <= tamanhoDados + 1
      invariant forall k :: 0 <= k < r ==> Pow2(k) < tamanhoDados + k + 1
      decreases tamanhoDados + 1 - r
    {
      assert r < tamanhoDados + 1 by {
        if r == tamanhoDados + 1 {
          Pow2AtLeast(tamanhoDados);
        }
      }
      r := r + 1;
    }
    ParityCountUnique(tamanhoDados, r);
  }

  /** XOR of every position 1..n of `hamming` whose index has the bit
      `posParidade` set: the inner loop shared by encoding and decoding. */
  method ParidadeDoGrupo(hamming: array<nat>, posParidade: nat) returns (paridade: nat)
    requires hamming.Length >= 1
    ensures paridade == Parity(hamming[..], posParidade, hamming.Length - 1)
  {
    var n := hamming.Length - 1;
    paridade := 0;
    var jj := 1;
    while jj <= n
      invariant 1 <= jj <= n + 1
      invariant paridade == Parity(hamming[..], posParidade, jj - 1)
    {
      if And(jj, posParidade) != 0 {
        paridade := Xor(paridade, hamming[jj]);
      }
      jj := jj + 1;
    }
  }

  /** Writes the data bits, in order, into the non-power-of-two positions
      1..n of a zeroed array (the first loop of `codificar`). */
  method PosicionarDados(hamming: array<nat>, dadosBits: seq<nat>)
    requires hamming.Length >= 1
    requires forall k :: 0 <= k < hamming.Length ==> hamming[k] == 0
    modifies hamming
    ensures hamming[..] == Placed(dadosBits, hamming.Length - 1)
  {
    var n := hamming.Length - 1;
    var m := |dadosBits|;
    ghost var placed := Placed(dadosBits, n);
    var j := 0;
    var i := 1;
    while i <= n
      invariant 1 <= i <= n + 1
      invariant j == if DataCount(i - 1) < m then DataCount(i - 1) else m
      invariant forall k :: 0 <= k <= n ==> hamming[k] == if k < i then placed[k] else 0
    {
      assert placed[i] == if IsDataPos(i) && DataCount(i - 1) < m then dadosBits[DataCount(i - 1)] else 0;
      assert DataCount(i) == DataCount(i - 1) + if IsDataPos(i) then 1 else 0;
      if And(i, i - 1) != 0 {
        if j < |dadosBits| {
          hamming[i] := dadosBits[j];
          j := j + 1;
        }
      }
      i := i + 1;
    }
    assert hamming[..] == placed;
  }

  /** Sets parity positions 1, 2, 4, ..., 2^(r-1) in turn, each to the XOR
      of its group as the array stands at that moment (the second loop of
      `codificar`). */
  method PreencherParidades(hamming: array<nat>, r: nat)
    requires hamming.Length >= 1
    requires r == 0 || Pow2(r - 1) < hamming.Length
    modifies hamming
    ensures hamming[..] == WithParities(old(hamming[..]), r)
  {
    ghost var inicial := hamming[..];
    var b := 0;
    while b < r
      invariant 0 <= b <= r
      invariant b == 0 || Pow2(b - 1) < hamming.Length
      invariant hamming[..] == WithParities(inicial, b)
    {
      Pow2Monotonic(b, r - 1);
      var posParidade := Pow2(b);
      var paridade := ParidadeDoGrupo(hamming, posParidade);
      ghost var antes := hamming[..];
      hamming[posParidade] := paridade;
      assert hamming[..] == antes[posParidade := paridade];
      b := b + 1;
    }
  }

  /** The list the encoder's two loops leave behind, less cell 0, is the
      codeword. */
  lemma EncodeOfFilled(d: seq<nat>, r: nat, w: seq<nat>)
    requires r == ParityCount(|d|)
    requires w == WithParities(Placed(d, |d| + r), r)
    ensures w[1..] == Encode(d)
  {
  }

  method Codificar(dadosBits: seq<nat>) returns (codigo: seq<nat>)
    requires IsBits(dadosBits)
    ensures codigo == Encode(dadosBits)
  {
    var m := |dadosBits|;
    var r := CalcularBitsParidade(m);
    var n := m + r;
    var hamming := new nat[n + 1](_ => 0);
    PosicionarDados(hamming, dadosBits);
    ghost var posicionado := hamming[..];
    PreencherParidades(hamming, r);
    EncodeOfFilled(dadosBits, r, hamming[..]);
    codigo := hamming[1..];
  }

  /** Sum of the parity positions whose group check fails (the syndrome
      loop of `decodificar`). */
  method CalcularSindrome(hamming: array<nat>, r: nat) returns (sindrome: nat)
    requires hamming.Length >= 1
    ensures sindrome == Syndrome(hamming[..], r, hamming.Length - 1)
  {
    sindrome := 0;
    var b := 0;
    while b < r
      invariant 0 <= b <= r
      invariant sindrome == Syndrome(hamming[..], b, hamming.Length - 1)
    {
      var posParidade := Pow2(b);
      var paridade := ParidadeDoGrupo(hamming, posParidade);
      if paridade != 0 {
        sindrome := sindrome + posParidade;
      }
      b := b + 1;
    }
  }

  /** The values at the non-power-of-two positions 1..n, in order (the last
      loop of `decodificar`). */
  method ExtrairDados(hamming: array<nat>) returns (dados: seq<nat>)
    requires hamming.Length >= 1
    ensures dados == Extract(hamming[..], hamming.Length - 1)
  {
    var n := hamming.Length - 1;
    dados := [];
    var i := 1;
    while i <= n
      invariant 1 <= i <= n + 1
      invariant dados == Extract(hamming[..], i - 1)
    {
      if And(i, i - 1) != 0 {
        dados := dados + [hamming[i]];
      }
      i := i + 1;
    }
  }

  method Decodificar(hammingBits: seq<nat>) returns (dados: seq<nat>, sindrome: nat)
    requires IsBits(hammingBits)
    ensures (dados, sindrome) == Decode(hammingBits)
  {
    var n := |hammingBits|;
    var hamming := new nat[n + 1](k => if 1 <= k <= n then hammingBits[k - 1] else 0);
    assert hamming[..] == [0] + hammingBits;
    var r := 0;
    while Pow2(r) < n + 1
      invariant r <= n + 1
      invariant forall k :: 0 <= k < r ==> Pow2(k) < n + 1
      decreases n + 1 - r
    {
      assert r < n + 1 by {
        if r == n + 1 {
          Pow2AtLeast(n + 1);
        }
      }
      r := r + 1;
    }
    CheckCountUnique(n, r);
    sindrome := CalcularSindrome(hamming, r);
    if sindrome != 0 && sindrome <= n {
      hamming[sindrome] := Xor(hamming[sindrome], 1);
    }
    dados := ExtrairDados(hamming);
  }

  // ----- adicionar: 4-bit blocks of the bytes' bits -----

  /** A block shorter than four bits is completed with zeros. */
  function Pad4(bloco: seq<nat>): (r: seq<nat>)
    ensures |bloco| <= 4 ==> |r| == 4 && r[..|bloco|] == bloco
    ensures IsBits(bloco) ==> IsBits(r)
  {
    if |bloco| < 4 then bloco + Zeros(4 - |bloco|) else bloco
  }

  /** The blocks of `range(0, len(t), 4)` in order, each zero-padded to
      four bits and encoded on its own. */
  function HammingBlocks(t: seq<nat>): seq<nat>
    decreases |t|
  {
    if |t| == 0 then [] else Encode(Pad4(Slice(t, 0, 4))) + HammingBlocks(Drop(t, 4))
  }

  /** `adicionar`: the bits of the bytes, encoded four at a time. */
  function Added(dados: seq<nat>): seq<nat>
  {
    HammingBlocks(BitsOfBytes(dados))
  }

  lemma HammingBlocksStep(t: seq<nat>, i: nat)
    requires i < |t|
    ensures HammingBlocks(Drop(t, i)) == Encode(Pad4(Slice(t, i, i + 4))) + HammingBlocks(Drop(t, i + 4))
  {
    var u := Drop(t, i);
    assert Slice(u, 0, 4) == Slice(t, i, i + 4);
    assert Drop(u, 4) == Drop(t, i + 4);
  }

  /** The block loop's invariant survives appending block i's code. */
  lemma BlockLoopStep(t: seq<nat>, i: nat, completo: seq<nat>, x: seq<nat>)
    requires i < |t| && x == Encode(Pad4(Slice(t, i, i + 4)))
    requires completo + HammingBlocks(Drop(t, i)) == HammingBlocks(t)
    ensures (completo + x) + HammingBlocks(Drop(t, i + 4)) == HammingBlocks(t)
  {
    HammingBlocksStep(t, i);
    AccumulateStep(completo, x, HammingBlocks(Drop(t, i)), HammingBlocks(Drop(t, i + 4)), HammingBlocks(t));
  }

  /** Past the end nothing is left to encode. */
  lemma BlockLoopDone(t: seq<nat>, i: nat, completo: seq<nat>)
    requires i >= |t| && completo + HammingBlocks(Drop(t, i)) == HammingBlocks(t)
    ensures completo == HammingBlocks(t)
  {
    assert Drop(t, i) == [] && completo + [] == completo;
  }

  /** The block loop of `adicionar`: each 4-bit slice, zero-padded when
      short, is encoded and appended. */
  method CodificarBlocos(todosBits: seq<nat>) returns (completo: seq<nat>)
    requires IsBits(todosBits)
    ensures completo == HammingBlocks(todosBits)
  {
    hide And, Pow2, Parity, Extract, DataCount, IsDataPos, WithParities, Placed, Xor, ParityCount, ParityCountFrom, Encode, Codeword, HammingBlocks;
    completo := [];
    var i: nat := 0;
    while i < |todosBits|
      invariant completo + HammingBlocks(Drop(todosBits, i)) == HammingBlocks(todosBits)
    {
      var bloco := Slice(todosBits, i, i + 4);
      if |bloco| < 4 {
        bloco := bloco + Zeros(4 - |bloco|);
      }
      assert bloco == Pad4(Slice(todosBits, i, i + 4));
      var hammingBloco := Codificar(bloco);
      BlockLoopStep(todosBits, i, completo, hammingBloco);
      completo := completo + hammingBloco;
      i := i + 4;
    }
    BlockLoopDone(todosBits, i, completo);
  }

  /** `adicionar`: the byte-to-bits loop (the same as the converter's) and
      then the block loop. */
  method Adicionar(dados: seq<nat>) returns (completo: seq<nat>)
    ensures completo == Added(dados)
  {
    var todosBits := Conversor.BytesParaBits(dados);
    completo := CodificarBlocos(todosBits);
  }

  /** Four data bits take three parity bits. */
  lemma ParityCountOfFour()
    ensures ParityCount(4) == 3
  {
    ParityCountUnique(4, 3);
  }

  lemma EncodeFour(b: seq<nat>)
    requires |b| == 4 && IsBits(b)
    ensures |Encode(b)| == 7 && IsBits(Encode(b))
  {
    ParityCountOfFour();
    EncodeLayout(b);
  }

  /** Block k of `e + hs`, for k >= 1, is block k - 1 of `hs` when `e`
      has seven bits; and likewise for 4-bit slices. */
  lemma ShiftedBlock(e: seq<nat>, hs: seq<nat>, t: seq<nat>, k: nat)
    requires |e| == 7 && 1 <= k && 7 * k + 7 <= |e| + |hs| && 4 * k + 4 <= |t|
    ensures (e + hs)[7 * k .. 7 * k + 7] == hs[7 * (k - 1) .. 7 * (k - 1) + 7]
    ensures t[4 * k .. 4 * k + 4] == t[4..][4 * (k - 1) .. 4 * (k - 1) + 4]
  {
  }

  /** For 4n bits: n blocks of seven, block k encoding bits 4k..4k+3. */
  lemma {:induction false} HammingBlocksShape(t: seq<nat>, n: nat)
    requires IsBits(t) && |t| == 4 * n
    ensures IsBits(HammingBlocks(t)) && |HammingBlocks(t)| == 7 * n
    ensures forall k :: 0 <= k < n ==> HammingBlocks(t)[7 * k .. 7 * k + 7] == Encode(t[4 * k .. 4 * k + 4])
    decreases n
  {
    hide And, Pow2, Parity, Extract, DataCount, IsDataPos, WithParities, Placed, Xor, ParityCount, ParityCountFrom,
      Encode, Codeword;
    if n > 0 {
      var b := t[..4];
      var rest := Drop(t, 4);
      assert Pad4(Slice(t, 0, 4)) == b;
      assert rest == t[4..];
      EncodeFour(b);
      HammingBlocksShape(rest, n - 1);
      var e := Encode(b);
      var hs := HammingBlocks(rest);
      assert HammingBlocks(t) == e + hs;
      forall k | 0 <= k < n
        ensures (e + hs)[7 * k .. 7 * k + 7] == Encode(t[4 * k .. 4 * k + 4])
      {
        if k == 0 {
          assert (e + hs)[..7] == e;
        } else {
          ShiftedBlock(e, hs, t, k);
        }
      }
    }
  }

  /** Seven bits per block of four, so fourteen bits per byte; block k of
      the output is the encoding of bits 4k..4k+3 of the input bytes. */
  lemma AddedLayout(dados: seq<nat>)
    requires AllBytes(dados)
    ensures IsBits(Added(dados)) && |Added(dados)| == 14 * |dados|
    ensures |BitsOfBytes(dados)| == 8 * |dados|
    ensures forall k :: 0 <= k < 2 * |dados| ==>
      Added(dados)[7 * k .. 7 * k + 7] == Encode(BitsOfBytes(dados)[4 * k .. 4 * k + 4])
  {
    BitsOfBytesShape(dados);
    HammingBlocksShape(BitsOfBytes(dados), 2 * |dados|);
  }

  // ----- verificar: complete 8-bit chunks decoded, then regrouped into bytes -----

  /** Data bits of each complete 8-bit chunk in turn; a trailing partial
      chunk is skipped. */
  function DecodedData(hb: seq<nat>): seq<nat>
    decreases |hb|
  {
    if |hb| < 8 then [] else Decode(Slice(hb, 0, 8)).0 + DecodedData(Drop(hb, 8))
  }

  /** Number of complete chunks whose syndrome is not zero. */
  function Corrections(hb: seq<nat>): nat
    decreases |hb|
  {
    if |hb| < 8 then 0 else (if Decode(Slice(hb, 0, 8)).1 != 0 then 1 else 0) + Corrections(Drop(hb, 8))
  }

  lemma ChunkStep(hb: seq<nat>, i: nat)
    requires i < |hb|
    ensures |Slice(hb, i, i + 8)| == 8 ==>
      DecodedData(Drop(hb, i)) == Decode(Slice(hb, i, i + 8)).0 + DecodedData(Drop(hb, i + 8)) &&
      Corrections(Drop(hb, i)) == (if Decode(Slice(hb, i, i + 8)).1 != 0 then 1 else 0) + Corrections(Drop(hb, i + 8))
    ensures |Slice(hb, i, i + 8)| < 8 ==>
      DecodedData(Drop(hb, i)) == [] && Corrections(Drop(hb, i)) == 0 && Drop(hb, i + 8) == []
  {
    var u := Drop(hb, i);
    assert Slice(u, 0, 8) == Slice(hb, i, i + 8);
    assert Drop(u, 8) == Drop(hb, i + 8);
  }

  /** An 8-bit chunk has 4 data positions: 3, 5, 6 and 7. */
  lemma DataCountOfEight()
    ensures DataCount(8) == 4
  {
    DataCountValue(8, 3);
  }

  /** Four data bits and at most one correction per complete chunk. */
  lemma {:induction false} DecodedShape(hb: seq<nat>, n: nat)
    requires IsBits(hb) && 8 * n <= |hb| < 8 * n + 8
    ensures IsBits(DecodedData(hb)) && |DecodedData(hb)| == 4 * n
    ensures Corrections(hb) <= n
    decreases n
  {
    if n > 0 {
      var c := Slice(hb, 0, 8);
      assert c == hb[..8];
      DataCountOfEight();
      DecodeCorrectionRange(c);
      DecodedShape(Drop(hb, 8), n - 1);
    }
  }

  /** `verificar`: the bytes made of the decoded data bits, and how many
      chunks had a non-zero syndrome. */
  function Verified(hb: seq<nat>): (seq<nat>, nat)
    requires IsBits(hb)
  {
    DecodedShape(hb, |hb| / 8);
    (BytesOfBits(DecodedData(hb)), Corrections(hb))
  }

  /** At most one correction per complete chunk; four data bits per chunk,
      regrouped into whole bytes. */
  lemma VerifiedBounds(hb: seq<nat>)
    requires IsBits(hb)
    ensures Verified(hb).1 <= |hb| / 8
    ensures AllBytes(Verified(hb).0) && |Verified(hb).0| == 4 * (|hb| / 8) / 8
  {
    DecodedShape(hb, |hb| / 8);
    BytesOfBitsShape(DecodedData(hb));
  }

  /** The chunk loop of `verificar`: every complete 8-bit chunk is decoded,
      its data bits appended and a non-zero syndrome counted. */
  method DecodificarBlocos(hammingBits: seq<nat>) returns (dadosBits: seq<nat>, errosCorrigidos: nat)
    requires IsBits(hammingBits)
    ensures dadosBits == DecodedData(hammingBits)
    ensures errosCorrigidos == Corrections(hammingBits)
  {
    dadosBits := [];
    errosCorrigidos := 0;
    var i := 0;
    while i < |hammingBits|
      invariant dadosBits + DecodedData(Drop(hammingBits, i)) == DecodedData(hammingBits)
      invariant errosCorrigidos + Corrections(Drop(hammingBits, i)) == Corrections(hammingBits)
    {
      var bloco := Slice(hammingBits, i, i + 8);
      ChunkStep(hammingBits, i);
      if |bloco| == 8 {
        var dados, erro := Decodificar(bloco);
        AccumulateStep(dadosBits, dados, DecodedData(Drop(hammingBits, i)),
          DecodedData(Drop(hammingBits, i + 8)), DecodedData(hammingBits));
        dadosBits := dadosBits + dados;
        if erro != 0 {
          errosCorrigidos := errosCorrigidos + 1;
        }
      }
      i := i + 8;
    }
    assert Drop(hammingBits, i) == [] && dadosBits + [] == dadosBits;
  }

  /** `verificar`: the chunk loop, then the data bits regrouped into bytes
      by the same loop as the converter's. */
  method Verificar(hammingBits: seq<nat>) returns (dadosBytes: seq<nat>, errosCorrigidos: nat)
    requires IsBits(hammingBits)
    ensures (dadosBytes, errosCorrigidos) == Verified(hammingBits)
  {
    var dadosBits;
    dadosBits, errosCorrigidos := DecodificarBlocos(hammingBits);
    DecodedShape(hammingBits, |hammingBits| / 8);
    dadosBytes := Conversor.BitsParaBytes(dadosBits);
  }
}
