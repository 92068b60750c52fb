/** Framing (camada de enlace): a 16-bit length header (`EnquadradorContagem`)
    or HDLC-style bit stuffing between `01111110` flags
    (`EnquadradorFlagsBits`), the transparency rule of section 5.2 of RFC 1662.
    The abstract base class becomes a datatype with one variant per framer;
    each variant keeps the maximum payload size, in bits, read from the
    configuration at construction. */
module Enquadrador {
  import opened Bits

  /** Configured maximum frame size, in bytes. */
  const TAMANHO_MAX_QUADRO: nat := 256

  /** The flag pattern 0x7E. */
  const FLAG: seq<nat> := [0, 1, 1, 1, 1, 1, 1, 0]

  const ONES5: seq<nat> := [1, 1, 1, 1, 1]

  datatype Enquadrador =
    | EnquadradorContagem(tamanhoMaxQuadro: nat)
    | EnquadradorFlagsBits(tamanhoMaxQuadro: nat)

  /** Both constructors turn the configured size in bytes into bits. */
  function NovoContagem(tamanhoMaxQuadroBytes: nat): Enquadrador
  {
    EnquadradorContagem(tamanhoMaxQuadroBytes * 8)
  }

  function NovoFlagsBits(tamanhoMaxQuadroBytes: nat): Enquadrador
  {
    EnquadradorFlagsBits(tamanhoMaxQuadroBytes * 8)
  }

  // ===== EnquadradorContagem: pure list operations =====

  /** Refuses a payload over the maximum; otherwise prepends its length
      as `format(len, '016b')`. */
  function ContagemEnquadrar(tamanhoMax: nat, bits: seq<nat>): (r: Result<seq<nat>>)
    ensures r.Failure? <==> |bits| > tamanhoMax
    ensures r.Failure? ==> r.error == QuadroMuitoGrande(|bits|, tamanhoMax)
    ensures r.Success? && |bits| < Pow2(16) ==>
      |r.value| == |bits| + 16 && IsBits(r.value[..16]) &&
      BitsValue(r.value[..16]) == |bits| && r.value[16..] == bits
  {
    if |bits| > tamanhoMax then Failure(QuadroMuitoGrande(|bits|, tamanhoMax))
    else
      var header := Format(|bits|, 16);
      assert (header + bits)[..|header|] == header;
      Success(header + bits)
  }

  /** Reads the first 16 values as the length L and returns `quadro[16:16+L]`;
      fewer than 16 values give the empty list. None is the ValueError of
      the parsing idiom on a header that is not binary. */
  function ContagemDesenquadrar(quadro: seq<nat>): (r: Option<seq<nat>>)
    ensures |quadro| < 16 ==> r == Some([])
    ensures r.Some? ==> r.value <= Drop(quadro, 16)
    ensures |quadro| >= 16 && IsBits(quadro[..16]) ==>
      r.Some? && |r.value| == if BitsValue(quadro[..16]) <= |quadro| - 16 then BitsValue(quadro[..16]) else |quadro| - 16
  {
    if |quadro| < 16 then Some([])
    else
      assert IsBits(quadro[..16]) ==> ParseBinary(quadro[..16]) == Some(BitsValue(quadro[..16])) by {
        if IsBits(quadro[..16]) { ParseBinaryOfBits(quadro[..16]); }
      }
      match ParseBinary(quadro[..16])
      case None => None
      case Some(tamanho) =>
        var r := Slice(quadro, 16, 16 + tamanho);
        assert r <= quadro[16..];
        Some(r)
  }

  lemma ContagemRoundTrip(tamanhoMax: nat, bits: seq<nat>)
    requires |bits| <= tamanhoMax && |bits| < Pow2(16)
    ensures ContagemEnquadrar(tamanhoMax, bits).Success?
    ensures ContagemDesenquadrar(ContagemEnquadrar(tamanhoMax, bits).value) == Some(bits)
  {
    var q := ContagemEnquadrar(tamanhoMax, bits).value;
    assert q[16..] == bits;
    assert Slice(q, 16, 16 + |bits|) == bits;
  }

  // ===== EnquadradorFlagsBits: bit stuffing =====

  /** The stuffing loop from a count `c` of ones already sent: every bit is
      copied, and a 0 is inserted after the fifth consecutive 1. */
  function Stuff(bits: seq<nat>, c: nat): seq<nat>
  {
    if bits == [] then []
    else if bits[0] == 1 then
      if c + 1 == 5 then [1, 0] + Stuff(bits[1..], 0) else [1] + Stuff(bits[1..], c + 1)
    else [bits[0]] + Stuff(bits[1..], 0)
  }

  /** The destuffing loop: every value is copied, and after the fifth
      consecutive 1 the next value, whatever it is, is skipped. */
  function Unstuff(bits: seq<nat>, c: nat): seq<nat>
    decreases |bits|
  {
    if bits == [] then []
    else if bits[0] == 1 then
      if c + 1 == 5 then [1] + Unstuff(Drop(bits, 2), 0) else [1] + Unstuff(bits[1..], c + 1)
    else [bits[0]] + Unstuff(bits[1..], 0)
  }

  function FlagsFramed(bits: seq<nat>): seq<nat>
  {
    FLAG + Stuff(bits, 0) + FLAG
  }

  function FlagsUnframed(quadro: seq<nat>): seq<nat>
  {
    if |quadro| <= 2 * |FLAG| then [] else Unstuff(quadro[|FLAG|..|quadro| - |FLAG|], 0)
  }

  method FlagsEnquadrar(tamanhoMax: nat, bits: seq<nat>) returns (r: Result<seq<nat>>)
    ensures r.Failure? <==> |bits| > tamanhoMax
    ensures r.Failure? ==> r.error == QuadroMuitoGrande(|bits|, tamanhoMax)
    ensures r.Success? ==> r.value == FlagsFramed(bits)
    ensures r.Success? ==> r.value[..8] == FLAG && r.value[|r.value| - 8..] == FLAG
    ensures r.Success? ==> ZeroAfterFiveOnes(Stuff(bits, 0)) && NoSixOnes(Stuff(bits, 0))
  {
    if |bits| > tamanhoMax {
      return Failure(QuadroMuitoGrande(|bits|, tamanhoMax));
    }
    var quadro := FLAG;
    ghost var stuffed: seq<nat> := [];
    var contadorUns := 0;
    var i := 0;
    while i < |bits|
      invariant 0 <= i <= |bits| && contadorUns < 5
      invariant quadro == FLAG + stuffed
      invariant stuffed + Stuff(bits[i..], contadorUns) == Stuff(bits, 0)
    {
      var bit := bits[i];
      assert bits[i..][1..] == bits[i + 1..];
      quadro := quadro + [bit];
      stuffed := stuffed + [bit];
      if bit == 1 {
        contadorUns := contadorUns + 1;
        if contadorUns == 5 {
          quadro := quadro + [0];
          stuffed := stuffed + [0];
          contadorUns := 0;
        }
      } else {
        contadorUns := 0;
      }
      i := i + 1;
    }
    quadro := quadro + FLAG;
    StuffZeroAfterFiveOnes(bits, 0);
    ZeroAfterFiveOnesNoSix(Stuff(bits, 0));
    assert [] + Stuff(bits, 0) == Stuff(bits, 0);
    return Success(quadro);
  }

  method FlagsDesenquadrar(quadro: seq<nat>) returns (dados: seq<nat>)
    ensures dados == FlagsUnframed(quadro)
    ensures |quadro| <= 16 ==> dados == []
  {
    var tamFlag := |FLAG|;
    if |quadro| <= 2 * tamFlag {
      return [];
    }
    var bits := quadro[tamFlag..|quadro| - tamFlag];
    dados := [];
    var contadorUns := 0;
    var i := 0;
    while i < |bits|
      invariant 0 <= i <= |bits| + 1 && contadorUns < 5
      invariant dados + Unstuff(Drop(bits, i), contadorUns) == Unstuff(bits, 0)
    {
      var bit := bits[i];
      dados := dados + [bit];
      assert Drop(bits, i)[1..] == Drop(bits, i + 1);
      assert Drop(Drop(bits, i), 2) == Drop(bits, i + 2);
      if bit == 1 {
        contadorUns := contadorUns + 1;
        if contadorUns == 5 {
          i := i + 1;
          contadorUns := 0;
        }
      } else {
        contadorUns := 0;
      }
      i := i + 1;
    }
  }

  // ----- properties of bit stuffing -----

  /** Five consecutive ones starting at `i` are followed by a 0. */
  predicate ZeroFollowsRunAt(s: seq<nat>, i: nat)
  {
    i + 5 <= |s| && s[i..i + 5] == ONES5 ==> i + 5 < |s| && s[i + 5] == 0
  }

  predicate ZeroAfterFiveOnes(s: seq<nat>)
  {
    forall i :: 0 <= i < |s| ==> ZeroFollowsRunAt(s, i)
  }

  predicate SixOnesAt(s: seq<nat>, i: nat)
  {
    i + 6 <= |s| && s[i..i + 6] == ONES5 + [1]
  }

  /** No six consecutive ones anywhere, so the flag cannot occur inside. */
  predicate NoSixOnes(s: seq<nat>)
  {
    forall i :: 0 <= i < |s| ==> !SixOnesAt(s, i)
  }

  function Ones(k: nat): (r: seq<nat>)
    ensures |r| == k && forall j :: 0 <= j < k ==> r[j] == 1
  {
    seq(k, _ => 1)
  }

  lemma ZeroFollowsRunShift(pre: seq<nat>, x: seq<nat>, j: nat)
    requires j < |x| && ZeroFollowsRunAt(x, j)
    ensures ZeroFollowsRunAt(pre + x, |pre| + j)
  {
    var s := pre + x;
    var i := |pre| + j;
    if i + 5 <= |s| {
      assert s[i..i + 5] == x[j..j + 5];
      if i + 5 < |s| {
        assert s[i + 5] == x[j + 5];
      }
    }
  }

  /** A window that holds a value other than 1 is not a run of five ones. */
  lemma BrokenRun(s: seq<nat>, i: nat, k: nat)
    requires i <= k < i + 5 && k < |s| && s[k] != 1
    ensures ZeroFollowsRunAt(s, i)
  {
    if i + 5 <= |s| {
      assert s[i..i + 5][k - i] == s[k];
    }
  }

  /** A run of five ones closed by the stuffed 0, then a well-stuffed tail. */
  lemma AfterStuffedZero(x: seq<nat>)
    requires ZeroAfterFiveOnes(x)
    ensures ZeroAfterFiveOnes(Ones(5) + [0] + x)
  {
    var pre := Ones(5) + [0];
    var s := pre + x;
    forall i | 0 <= i < |s| ensures ZeroFollowsRunAt(s, i) {
      if i == 0 {
        assert s[0..5] == ONES5;
      } else if i <= 5 {
        BrokenRun(s, i, 5);
      } else {
        ZeroFollowsRunShift(pre, x, i - 6);
      }
    }
  }

  /** Fewer than five ones, a value that is not 1, then a well-stuffed tail. */
  lemma AfterNonOne(c: nat, b: nat, x: seq<nat>)
    requires c < 5 && b != 1 && ZeroAfterFiveOnes(x)
    ensures ZeroAfterFiveOnes(Ones(c) + [b] + x)
  {
    var pre := Ones(c) + [b];
    var s := pre + x;
    forall i | 0 <= i < |s| ensures ZeroFollowsRunAt(s, i) {
      if i <= c {
        BrokenRun(s, i, c);
      } else {
        ZeroFollowsRunShift(pre, x, i - c - 1);
      }
    }
  }

  /** After `c` ones (c < 5), stuffing never lets five ones go without a 0. */
  lemma {:induction false} StuffZeroAfterFiveOnes(bits: seq<nat>, c: nat)
    requires c < 5
    ensures ZeroAfterFiveOnes(Ones(c) + Stuff(bits, c))
    decreases |bits|
  {
    if bits == [] {
      assert Ones(c) + Stuff(bits, c) == Ones(c);
    } else if bits[0] == 1 && c + 1 == 5 {
      var x := Stuff(bits[1..], 0);
      StuffZeroAfterFiveOnes(bits[1..], 0);
      assert Ones(0) + x == x;
      AfterStuffedZero(x);
      assert Ones(c) + Stuff(bits, c) == Ones(5) + [0] + x;
    } else if bits[0] == 1 {
      StuffZeroAfterFiveOnes(bits[1..], c + 1);
      assert Ones(c) + Stuff(bits, c) == Ones(c + 1) + Stuff(bits[1..], c + 1);
    } else {
      var x := Stuff(bits[1..], 0);
      StuffZeroAfterFiveOnes(bits[1..], 0);
      assert Ones(0) + x == x;
      AfterNonOne(c, bits[0], x);
      assert Ones(c) + Stuff(bits, c) == Ones(c) + [bits[0]] + x;
    }
  }

  lemma ZeroAfterFiveOnesNoSix(s: seq<nat>)
    requires ZeroAfterFiveOnes(s)
    ensures NoSixOnes(s)
  {
    forall i | 0 <= i < |s|
      ensures !SixOnesAt(s, i)
    {
      assert ZeroFollowsRunAt(s, i);
      if i + 6 <= |s| {
        assert s[i..i + 5] == s[i..i + 6][..5];
        assert s[i + 5] == s[i..i + 6][5];
      }
    }
  }

  /** Destuffing undoes stuffing from the same count, for every list of values. */
  lemma {:induction false} UnstuffStuff(bits: seq<nat>, c: nat)
    requires c < 5
    ensures Unstuff(Stuff(bits, c), c) == bits
    decreases |bits|
  {
    if bits != [] {
      if bits[0] == 1 && c + 1 == 5 {
        var x := Stuff(bits[1..], 0);
        assert Drop([1, 0] + x, 2) == x;
        UnstuffStuff(bits[1..], 0);
      } else if bits[0] == 1 {
        assert ([1] + Stuff(bits[1..], c + 1))[1..] == Stuff(bits[1..], c + 1);
        UnstuffStuff(bits[1..], c + 1);
      } else {
        assert ([bits[0]] + Stuff(bits[1..], 0))[1..] == Stuff(bits[1..], 0);
        UnstuffStuff(bits[1..], 0);
      }
    }
  }

  /** `desenquadrar(enquadrar(b)) == b`, including the empty payload. */
  lemma FlagsRoundTrip(bits: seq<nat>)
    ensures FlagsUnframed(FlagsFramed(bits)) == bits
  {
    var q := FlagsFramed(bits);
    UnstuffStuff(bits, 0);
    if bits == [] {
      assert |q| == 16;
    } else {
      assert Stuff(bits, 0) != [];
      assert q[8..|q| - 8] == Stuff(bits, 0);
    }
  }

  /** Destuffing only drops values: everything it returns was in its input. */
  lemma {:induction false} UnstuffKeepsValues(bits: seq<nat>, c: nat)
    ensures forall x :: x in Unstuff(bits, c) ==> x in bits
    decreases |bits|
  {
    if bits != [] {
      if bits[0] == 1 && c + 1 == 5 {
        UnstuffKeepsValues(Drop(bits, 2), 0);
        assert forall x :: x in Drop(bits, 2) ==> x in bits;
      } else if bits[0] == 1 {
        UnstuffKeepsValues(bits[1..], c + 1);
      } else {
        UnstuffKeepsValues(bits[1..], 0);
      }
    }
  }

  /** Six ones: five ones, a stuffed 0, then the sixth; 23 bits in all. */
  lemma SixOnesExample()
    ensures Stuff([1, 1, 1, 1, 1, 1], 0) == [1, 1, 1, 1, 1, 0, 1]
    ensures |FlagsFramed([1, 1, 1, 1, 1, 1])| == 23
  {
    var six: seq<nat> := [1, 1, 1, 1, 1, 1];
    assert six[1..] == [1, 1, 1, 1, 1];
    assert six[1..][1..] == [1, 1, 1, 1];
    assert six[1..][1..][1..] == [1, 1, 1];
    assert six[1..][1..][1..][1..] == [1, 1];
    assert six[1..][1..][1..][1..][1..] == [1];
  }

  // ----- the base-class interface, dispatched on the variant -----

  function Framed(e: Enquadrador, bits: seq<nat>): Result<seq<nat>>
  {
    match e
    case EnquadradorContagem(m) => ContagemEnquadrar(m, bits)
    case EnquadradorFlagsBits(m) =>
      if |bits| > m then Failure(QuadroMuitoGrande(|bits|, m)) else Success(FlagsFramed(bits))
  }

  function Unframed(e: Enquadrador, quadro: seq<nat>): Option<seq<nat>>
  {
    match e
    case EnquadradorContagem(_) => ContagemDesenquadrar(quadro)
    case EnquadradorFlagsBits(_) => Some(FlagsUnframed(quadro))
  }

  method Enquadrar(e: Enquadrador, bits: seq<nat>) returns (r: Result<seq<nat>>)
    ensures r == Framed(e, bits)
    ensures r.Failure? <==> |bits| > e.tamanhoMaxQuadro
  {
    match e
    case EnquadradorContagem(m) => r := ContagemEnquadrar(m, bits);
    case EnquadradorFlagsBits(m) => r := FlagsEnquadrar(m, bits);
  }

  method Desenquadrar(e: Enquadrador, quadro: seq<nat>) returns (r: Option<seq<nat>>)
    ensures r == Unframed(e, quadro)
    ensures e.EnquadradorFlagsBits? ==> r.Some?
  {
    match e
    case EnquadradorContagem(_) => r := ContagemDesenquadrar(quadro);
    case EnquadradorFlagsBits(_) =>
      var dados := FlagsDesenquadrar(quadro);
      r := Some(dados);
  }

  /** Every framer refuses exactly the payloads over its maximum, with the
      same error. */
  lemma FramedResult(e: Enquadrador, bits: seq<nat>)
    ensures Framed(e, bits).Failure? <==> |bits| > e.tamanhoMaxQuadro
    ensures Framed(e, bits).Failure? ==> Framed(e, bits).error == QuadroMuitoGrande(|bits|, e.tamanhoMaxQuadro)
  {
  }

  /** Every framer undoes itself on a payload it accepts. */
  lemma FramingRoundTrip(e: Enquadrador, bits: seq<nat>)
    requires |bits| <= e.tamanhoMaxQuadro && |bits| < Pow2(16)
    ensures Framed(e, bits).Success?
    ensures Unframed(e, Framed(e, bits).value) == Some(bits)
  {
    match e
    case EnquadradorContagem(m) => ContagemRoundTrip(m, bits);
    case EnquadradorFlagsBits(_) => FlagsRoundTrip(bits);
  }

  /** Unframing never invents a value: both framers return values taken
      from the frame (a slice, or the destuffed body). */
  lemma UnframedKeepsValues(e: Enquadrador, quadro: seq<nat>)
    ensures Unframed(e, quadro).Some? ==> forall x :: x in Unframed(e, quadro).value ==> x in quadro
  {
    match e
    case EnquadradorContagem(_) =>
    case EnquadradorFlagsBits(_) =>
      if |quadro| > 2 * |FLAG| {
        var corpo := quadro[|FLAG|..|quadro| - |FLAG|];
        UnstuffKeepsValues(corpo, 0);
        assert forall x :: x in corpo ==> x in quadro;
      }
  }
}
