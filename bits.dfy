/** Shared vocabulary of the link simulator: lists of Python integers that are
    bits or bytes, the two Python idioms the code uses to move between them
    (`format(n, '0Wb')` and `int(''.join(map(str, xs)), 2)`), and grouping
    into 8-bit chunks. */
module Bits {

  datatype Option<T> = None | Some(value: T)

  /** Errors the core raises: a frame over the configured size (ValueError in
      the framers), an integer list that `int(..., 2)` cannot parse
      (ValueError inside the conversion idiom), and the transmitter's wrapped
      "try a shorter message" error. */
  datatype Erro =
    | QuadroMuitoGrande(tamanho: nat, maximo: nat)
    | ValorInvalido
    | MensagemMuitoGrande(causa: Erro)

  datatype Result<T> = Success(value: T) | Failure(error: Erro)

  function Pow2(k: nat): (r: nat)
    ensures r >= 1
  {
    if k == 0 then 1 else 2 * Pow2(k - 1)
  }

  lemma {:induction false} Pow2Monotonic(a: nat, b: nat)
    requires a <= b
    ensures Pow2(a) <= Pow2(b)
  {
    if a < b {
      Pow2Monotonic(a, b - 1);
    }
  }

  lemma {:induction false} Pow2Add(a: nat, b: nat)
    ensures Pow2(a + b) == Pow2(a) * Pow2(b)
    decreases a
  {
    if a > 0 {
      Pow2Add(a - 1, b);
    }
  }

  /** The widths the code formats to: a byte, a 16-bit header, a 32-bit CRC. */
  lemma Pow2Values()
    ensures Pow2(8) == 256 && Pow2(16) == 0x1_0000 && Pow2(32) == 0x1_0000_0000
  {
    Pow2Add(8, 8);
    Pow2Add(16, 16);
  }

  predicate IsBit(x: nat) { x == 0 || x == 1 }

  predicate IsBits(s: seq<nat>) { forall i :: 0 <= i < |s| ==> IsBit(s[i]) }

  /** A list of bits with the bit at index `k` inverted. */
  function Flip(s: seq<nat>, k: nat): (r: seq<nat>)
    requires k < |s| && IsBits(s)
    ensures |r| == |s| && IsBits(r) && r[k] != s[k]
    ensures forall j :: 0 <= j < |s| && j != k ==> r[j] == s[j]
  {
    s[k := 1 - s[k]]
  }

  /** Python's `s[i:]` for a non-negative start. */
  function Drop<T>(s: seq<T>, i: nat): seq<T>
  {
    if i <= |s| then s[i..] else []
  }

  /** One turn of a loop that appends to an accumulator: `acc + rest == whole`
      and `rest == x + rest'` give `(acc + x) + rest' == whole`. */
  lemma AccumulateStep<T>(acc: seq<T>, x: seq<T>, rest: seq<T>, rest': seq<T>, whole: seq<T>)
    requires acc + rest == whole && rest == x + rest'
    ensures (acc + x) + rest' == whole
  {
    assert (acc + x) + rest' == acc + (x + rest');
  }

  /** Python's `s[lo:hi]` for non-negative bounds: both are clamped to the length. */
  function Slice<T>(s: seq<T>, lo: nat, hi: nat): (r: seq<T>)
    ensures |r| == if lo <= hi && lo <= |s| then (if hi <= |s| then hi else |s|) - lo else 0
    ensures forall k :: 0 <= k < |r| ==> r[k] == s[lo + k]
  {
    var h := if hi <= |s| then hi else |s|;
    if lo <= h then s[lo..h] else []
  }

  /** A full chunk of width `w` at `i`: it is the head of `s[i:]`, and what
      follows it is `s[i+w:]`. */
  lemma ChunkAt<T>(s: seq<T>, i: nat, w: nat)
    requires i + w <= |s|
    ensures Slice(s, i, i + w) == Drop(s, i)[..w]
    ensures |Drop(s, i)| >= w && Drop(s, i)[w..] == Drop(s, i + w)
  {
  }

  /** A short last chunk: nothing follows it. */
  lemma ShortTail<T>(s: seq<T>, i: nat, w: nat)
    requires w >= 1 && |s| < i + w
    ensures |Drop(s, i)| < w && Drop(s, i + w) == []
  {
  }

  function Zeros(k: nat): (r: seq<nat>)
    ensures |r| == k && IsBits(r)
    ensures forall i :: 0 <= i < k ==> r[i] == 0
  {
    seq(k, _ => 0)
  }

  /** Big-endian value of a list of bits: the first element is the most significant. */
  function BitsValue(s: seq<nat>): nat
  {
    if s == [] then 0 else 2 * BitsValue(s[..|s| - 1]) + s[|s| - 1]
  }

  lemma {:induction false} BitsValueBound(s: seq<nat>)
    requires IsBits(s)
    ensures BitsValue(s) < Pow2(|s|)
  {
    if s != [] {
      BitsValueBound(s[..|s| - 1]);
    }
  }

  lemma {:induction false} BitsValueLeadingZeros(k: nat, s: seq<nat>)
    ensures BitsValue(Zeros(k) + s) == BitsValue(s)
  {
    if s == [] {
      assert Zeros(k) + s == Zeros(k);
      if k > 0 {
        assert Zeros(k)[..k - 1] == Zeros(k - 1);
        BitsValueLeadingZeros(k - 1, []);
        assert Zeros(k - 1) + [] == Zeros(k - 1);
      }
    } else {
      var p := s[..|s| - 1];
      assert (Zeros(k) + s)[..|Zeros(k) + s| - 1] == Zeros(k) + p;
      BitsValueLeadingZeros(k, p);
    }
  }

  /** Two bit lists of the same length with the same value are equal. */
  lemma {:induction false} BitsValueInjective(a: seq<nat>, b: seq<nat>)
    requires IsBits(a) && IsBits(b) && |a| == |b|
    requires BitsValue(a) == BitsValue(b)
    ensures a == b
  {
    if a != [] {
      var n := |a| - 1;
      assert a[n] == b[n];
      BitsValueInjective(a[..n], b[..n]);
      assert a == a[..n] + [a[n]] && b == b[..n] + [b[n]];
    }
  }

  /** `bin(n)[2:]` as a list of bits: no leading zeros, "0" for zero. */
  function Binary(n: nat): (r: seq<nat>)
    ensures |r| >= 1 && IsBits(r) && BitsValue(r) == n
    ensures n < Pow2(|r|)
    ensures n >= 1 ==> Pow2(|r| - 1) <= n
    decreases n
  {
    if n < 2 then [n]
    else
      var p := Binary(n / 2);
      assert (p + [n % 2])[..|p|] == p;
      p + [n % 2]
  }

  /** Python's `format(n, '0Wb')` as a list of bits: the binary digits of `n`,
      left-padded with zeros to `width`; wider when `n` needs more digits. */
  function Format(n: nat, width: nat): (r: seq<nat>)
    ensures IsBits(r) && BitsValue(r) == n
    ensures |r| >= width
    ensures width >= 1 && n < Pow2(width) ==> |r| == width
  {
    var b := Binary(n);
    assert width >= 1 && n < Pow2(width) ==> |b| <= width by {
      if width >= 1 && n < Pow2(width) && width < |b| {
        Pow2Monotonic(width, |b| - 1);
      }
    }
    if |b| < width then
      BitsValueLeadingZeros(width - |b|, b);
      Zeros(width - |b|) + b
    else b
  }

  /** A list of bits of length `w` is the `w`-wide format of its own value. */
  lemma FormatOfBitsValue(s: seq<nat>)
    requires IsBits(s) && s != []
    ensures Format(BitsValue(s), |s|) == s
  {
    BitsValueBound(s);
    BitsValueInjective(Format(BitsValue(s), |s|), s);
  }

  // ----- int(''.join(map(str, xs)), 2) -----

  function DigitChar(d: nat): char
    requires d < 10
  {
    ('0' as int + d) as char
  }

  /** `str(n)` for a non-negative integer. */
  function Decimal(n: nat): (r: string)
    ensures |r| >= 1
    decreases n
  {
    if n < 10 then [DigitChar(n)] else Decimal(n / 10) + [DigitChar(n % 10)]
  }

  /** `''.join(map(str, xs))`. */
  function Join(xs: seq<nat>): string
  {
    if xs == [] then "" else Join(xs[..|xs| - 1]) + Decimal(xs[|xs| - 1])
  }

  predicate IsBinaryString(t: string)
  {
    forall i :: 0 <= i < |t| ==> t[i] == '0' || t[i] == '1'
  }

  function DigitsValue(t: string): nat
    requires IsBinaryString(t)
  {
    if t == [] then 0 else 2 * DigitsValue(t[..|t| - 1]) + (if t[|t| - 1] == '1' then 1 else 0)
  }

  /** `int(t, 2)` on a string made only of decimal digits: it raises on the
      empty string and on any digit other than 0 and 1. */
  function ParseBase2(t: string): Option<nat>
  {
    if t != [] && IsBinaryString(t) then Some(DigitsValue(t)) else None
  }

  /** `int(''.join(map(str, xs)), 2)`; None stands for the ValueError it raises. */
  function ParseBinary(xs: seq<nat>): Option<nat>
  {
    ParseBase2(Join(xs))
  }

  lemma {:induction false} JoinOfBits(xs: seq<nat>)
    requires IsBits(xs)
    ensures |Join(xs)| == |xs| && IsBinaryString(Join(xs))
    ensures DigitsValue(Join(xs)) == BitsValue(xs)
  {
    if xs != [] {
      var p := xs[..|xs| - 1];
      JoinOfBits(p);
      var x := xs[|xs| - 1];
      assert Decimal(x) == [DigitChar(x)];
      var t := Join(xs);
      assert t == Join(p) + [DigitChar(x)];
      assert t[..|t| - 1] == Join(p);
    }
  }

  /** On a non-empty list of bits the idiom is the big-endian value. */
  lemma ParseBinaryOfBits(xs: seq<nat>)
    requires IsBits(xs) && xs != []
    ensures ParseBinary(xs) == Some(BitsValue(xs))
  {
    JoinOfBits(xs);
  }

  lemma {:induction false} JoinContains(xs: seq<nat>, i: nat)
    requires i < |xs|
    ensures exists k :: 0 <= k < |Join(xs)| && Join(xs)[k] == Decimal(xs[i])[|Decimal(xs[i])| - 1]
  {
    var p := xs[..|xs| - 1];
    var d := Decimal(xs[|xs| - 1]);
    assert Join(xs) == Join(p) + d;
    if i == |xs| - 1 {
      assert Join(xs)[|Join(p)| + |d| - 1] == d[|d| - 1];
    } else {
      JoinContains(p, i);
      var k :| 0 <= k < |Join(p)| && Join(p)[k] == Decimal(p[i])[|Decimal(p[i])| - 1];
      assert Join(xs)[k] == Join(p)[k];
    }
  }

  /** An element from 2 to 9 makes the idiom raise. */
  lemma ParseBinaryRejectsDigit(xs: seq<nat>, i: nat)
    requires i < |xs| && 2 <= xs[i] <= 9
    ensures ParseBinary(xs) == None
  {
    JoinContains(xs, i);
  }

  // ----- grouping into bytes -----

  /** The loop `for i in range(0, len(bits), 8)` that keeps only complete
      chunks and converts each with the parsing idiom; None if any raises. */
  function ParseBytes(s: seq<nat>): Option<seq<nat>>
  {
    if |s| < 8 then Some([])
    else match ParseBinary(s[..8])
      case None => None
      case Some(v) => Prepend([v], ParseBytes(s[8..]))
  }

  /** The same grouping on a list of bits, where parsing cannot fail. */
  function BytesOfBits(s: seq<nat>): seq<nat>
    requires IsBits(s)
  {
    if |s| < 8 then [] else [BitsValue(s[..8])] + BytesOfBits(s[8..])
  }

  /** `Some(acc + rest)` when `rest` is there: used by loops that build a
      list while parsing. */
  function Prepend(acc: seq<nat>, o: Option<seq<nat>>): Option<seq<nat>>
  {
    if o.None? then None else Some(acc + o.value)
  }

  /** One turn of a loop that builds the list of parsed chunks. */
  lemma ParseBytesStep(t: seq<nat>, acc: seq<nat>)
    requires |t| >= 8 && ParseBinary(t[..8]).Some?
    ensures Prepend(acc, ParseBytes(t)) == Prepend(acc + [ParseBinary(t[..8]).value], ParseBytes(t[8..]))
  {
    var v := ParseBinary(t[..8]).value;
    var rest := ParseBytes(t[8..]);
    assert ParseBytes(t) == Prepend([v], rest);
    if rest.Some? {
      assert acc + ([v] + rest.value) == acc + [v] + rest.value;
    }
  }

  lemma {:induction false} ParseBytesOfBits(s: seq<nat>)
    requires IsBits(s)
    ensures ParseBytes(s) == Some(BytesOfBits(s))
    decreases |s|
  {
    if |s| >= 8 {
      ParseBinaryOfBits(s[..8]);
      ParseBytesOfBits(s[8..]);
    }
  }

  lemma {:induction false} BytesOfBitsShape(s: seq<nat>)
    requires IsBits(s)
    ensures |BytesOfBits(s)| == |s| / 8
    ensures forall k :: 0 <= k < |BytesOfBits(s)| ==> BytesOfBits(s)[k] < 256
    ensures forall k :: 0 <= k < |BytesOfBits(s)| ==> BytesOfBits(s)[k] == BitsValue(s[8 * k .. 8 * k + 8])
    decreases |s|
  {
    if |s| >= 8 {
      BytesOfBitsShape(s[8..]);
      BitsValueBound(s[..8]);
      var r := BytesOfBits(s);
      forall k | 1 <= k < |r|
        ensures r[k] == BitsValue(s[8 * k .. 8 * k + 8])
      {
        assert s[8..][8 * (k - 1) .. 8 * (k - 1) + 8] == s[8 * k .. 8 * k + 8];
      }
    }
  }

  /** `bytes_para_bits`: each value expanded with `format(byte, '08b')`. */
  function BitsOfBytes(bytes: seq<nat>): (r: seq<nat>)
    ensures IsBits(r)
  {
    if bytes == [] then [] else Format(bytes[0], 8) + BitsOfBytes(bytes[1..])
  }

  predicate AllBytes(bytes: seq<nat>) { forall i :: 0 <= i < |bytes| ==> bytes[i] < 256 }

  lemma {:induction false} BitsOfBytesShape(bytes: seq<nat>)
    requires AllBytes(bytes)
    ensures |BitsOfBytes(bytes)| == 8 * |bytes|
    ensures forall k :: 0 <= k < |bytes| ==> BitsOfBytes(bytes)[8 * k .. 8 * k + 8] == Format(bytes[k], 8)
  {
    hide BitsValue, ParseBinary;
    if bytes != [] {
      assert Pow2(8) == 256;
      BitsOfBytesShape(bytes[1..]);
      var r := BitsOfBytes(bytes);
      forall k | 1 <= k < |bytes|
        ensures r[8 * k .. 8 * k + 8] == Format(bytes[k], 8)
      {
        assert r[8 * k .. 8 * k + 8] == BitsOfBytes(bytes[1..])[8 * (k - 1) .. 8 * (k - 1) + 8];
      }
    }
  }

  /** Grouping undoes expansion for values in 0..255. */
  lemma {:induction false} BytesOfBitsOfBytes(bytes: seq<nat>)
    requires AllBytes(bytes)
    ensures BytesOfBits(BitsOfBytes(bytes)) == bytes
  {
    if bytes != [] {
      assert Pow2(8) == 256;
      BitsOfBytesShape([bytes[0]]);
      var f := Format(bytes[0], 8);
      var s := BitsOfBytes(bytes);
      assert s[..8] == f && s[8..] == BitsOfBytes(bytes[1..]);
      BytesOfBitsOfBytes(bytes[1..]);
    }
  }
}
