/** Baseband line codes (camada física): NRZ-Polar, Manchester and bipolar
    AMI. The abstract base class becomes a datatype with one variant per
    line code, each carrying the amplitude its constructor settled on. A
    numpy array of samples is a `seq<real>`; the codes only negate the
    amplitude and test a sample's sign or zeroness, so no rounding arises. */
module ModuladorDigital {
  import opened Bits

  /** The configured default amplitude. */
  const AMPLITUDE: real := 5.0

  datatype Modulador =
    | NRZPolar(amplitude: real)
    | Manchester(amplitude: real)
    | Bipolar(amplitude: real)

  /** `amplitude or config.AMPLITUDE`: a missing or zero amplitude is falsy
      and gives way to the default, any other value is kept. */
  function AmplitudeEfetiva(amplitude: Option<real>): (a: real)
    ensures a != 0.0
    ensures amplitude.Some? && amplitude.value != 0.0 ==> a == amplitude.value
    ensures amplitude.None? || amplitude.value == 0.0 ==> a == AMPLITUDE
  {
    if amplitude.Some? && amplitude.value != 0.0 then amplitude.value else AMPLITUDE
  }

  function NovoNRZPolar(amplitude: Option<real>): (m: Modulador)
    ensures m.NRZPolar? && m.amplitude != 0.0
  {
    NRZPolar(AmplitudeEfetiva(amplitude))
  }

  function NovoManchester(amplitude: Option<real>): (m: Modulador)
    ensures m.Manchester? && m.amplitude != 0.0
  {
    Manchester(AmplitudeEfetiva(amplitude))
  }

  function NovoBipolar(amplitude: Option<real>): (m: Modulador)
    ensures m.Bipolar? && m.amplitude != 0.0
  {
    Bipolar(AmplitudeEfetiva(amplitude))
  }

  // ===== NRZ-Polar =====

  /** One sample per bit: +A for a 1, -A for anything else. */
  function NrzSinal(a: real, bits: seq<nat>): (s: seq<real>)
    ensures |s| == |bits|
  {
    if bits == [] then [] else [if bits[0] == 1 then a else -a] + NrzSinal(a, bits[1..])
  }

  /** A positive sample reads as 1, anything else as 0. */
  function NrzBits(sinal: seq<real>): (bits: seq<nat>)
    ensures |bits| == |sinal| && IsBits(bits)
  {
    if sinal == [] then [] else [if sinal[0] > 0.0 then 1 else 0] + NrzBits(sinal[1..])
  }

  method NrzCodificar(a: real, bits: seq<nat>) returns (sinal: seq<real>)
    ensures sinal == NrzSinal(a, bits)
  {
    sinal := [];
    var i := 0;
    while i < |bits|
      invariant 0 <= i <= |bits|
      invariant sinal + NrzSinal(a, bits[i..]) == NrzSinal(a, bits)
    {
      assert bits[i..][1..] == bits[i + 1..];
      var amostra := if bits[i] == 1 then a else -a;
      AccumulateStep(sinal, [amostra], NrzSinal(a, bits[i..]), NrzSinal(a, bits[i + 1..]), NrzSinal(a, bits));
      sinal := sinal + [amostra];
      i := i + 1;
    }
    assert sinal + [] == sinal;
  }

  method NrzDecodificar(sinal: seq<real>) returns (bits: seq<nat>)
    ensures bits == NrzBits(sinal)
  {
    bits := [];
    var i := 0;
    while i < |sinal|
      invariant 0 <= i <= |sinal|
      invariant bits + NrzBits(sinal[i..]) == NrzBits(sinal)
    {
      assert sinal[i..][1..] == sinal[i + 1..];
      var bit: nat := if sinal[i] > 0.0 then 1 else 0;
      AccumulateStep(bits, [bit], NrzBits(sinal[i..]), NrzBits(sinal[i + 1..]), NrzBits(sinal));
      bits := bits + [bit];
      i := i + 1;
    }
    assert bits + [] == bits;
  }

  /** Sample k is +A exactly when bit k is 1. */
  lemma {:induction false} NrzSamples(a: real, bits: seq<nat>)
    ensures forall k :: 0 <= k < |bits| ==> NrzSinal(a, bits)[k] == if bits[k] == 1 then a else -a
  {
    if bits != [] {
      NrzSamples(a, bits[1..]);
    }
  }

  /** With a positive amplitude, decoding gives the bits back. */
  lemma {:induction false} NrzRoundTrip(a: real, bits: seq<nat>)
    requires IsBits(bits) && a > 0.0
    ensures NrzBits(NrzSinal(a, bits)) == bits
  {
    if bits != [] {
      NrzRoundTrip(a, bits[1..]);
      assert bits == [bits[0]] + bits[1..];
    }
  }

  /** With a negative amplitude, every bit comes back inverted. */
  lemma {:induction false} NrzNegativeInverts(a: real, bits: seq<nat>)
    requires IsBits(bits) && a < 0.0
    ensures forall k :: 0 <= k < |bits| ==> NrzBits(NrzSinal(a, bits))[k] == 1 - bits[k]
  {
    if bits != [] {
      NrzNegativeInverts(a, bits[1..]);
    }
  }

  // ===== Manchester =====

  /** Two samples per bit, a transition in the middle: 1 gives [-A, +A] and
      anything else [+A, -A]. */
  function ManchesterSinal(a: real, bits: seq<nat>): (s: seq<real>)
    ensures |s| == 2 * |bits|
  {
    if bits == [] then []
    else (if bits[0] == 1 then [-a, a] else [a, -a]) + ManchesterSinal(a, bits[1..])
  }

  /** Samples taken in pairs; a rising pair (negative then positive) reads
      as 1, any other pair as 0, and an odd trailing sample is ignored. */
  function ManchesterBits(sinal: seq<real>): (bits: seq<nat>)
    ensures 2 * |bits| <= |sinal| < 2 * |bits| + 2 && IsBits(bits)
    decreases |sinal|
  {
    if |sinal| < 2 then []
    else [if sinal[0] < 0.0 && sinal[1] > 0.0 then 1 else 0] + ManchesterBits(sinal[2..])
  }

  method ManchesterCodificar(a: real, bits: seq<nat>) returns (sinal: seq<real>)
    ensures sinal == ManchesterSinal(a, bits)
  {
    sinal := [];
    var i := 0;
    while i < |bits|
      invariant 0 <= i <= |bits|
      invariant sinal + ManchesterSinal(a, bits[i..]) == ManchesterSinal(a, bits)
    {
      assert bits[i..][1..] == bits[i + 1..];
      var par := if bits[i] == 1 then [-a, a] else [a, -a];
      AccumulateStep(sinal, par, ManchesterSinal(a, bits[i..]), ManchesterSinal(a, bits[i + 1..]), ManchesterSinal(a, bits));
      sinal := sinal + par;
      i := i + 1;
    }
    assert sinal + [] == sinal;
  }

  lemma ManchesterBitsStep(sinal: seq<real>, i: nat)
    requires i + 1 < |sinal|
    ensures ManchesterBits(Drop(sinal, i)) ==
      [if sinal[i] < 0.0 && sinal[i + 1] > 0.0 then 1 else 0] + ManchesterBits(Drop(sinal, i + 2))
  {
    assert Drop(sinal, i)[2..] == Drop(sinal, i + 2);
  }

  /** A full pair at `i` appends its bit. */
  lemma ManchesterLoopStep(sinal: seq<real>, i: nat, bits: seq<nat>)
    requires i + 1 < |sinal| && bits + ManchesterBits(Drop(sinal, i)) == ManchesterBits(sinal)
    ensures (bits + [if sinal[i] < 0.0 && sinal[i + 1] > 0.0 then 1 else 0]) + ManchesterBits(Drop(sinal, i + 2))
      == ManchesterBits(sinal)
  {
    var bit: nat := if sinal[i] < 0.0 && sinal[i + 1] > 0.0 then 1 else 0;
    ManchesterBitsStep(sinal, i);
    AccumulateStep(bits, [bit], ManchesterBits(Drop(sinal, i)), ManchesterBits(Drop(sinal, i + 2)), ManchesterBits(sinal));
  }

  /** A lone trailing sample adds nothing. */
  lemma ManchesterLoopTail(sinal: seq<real>, i: nat, bits: seq<nat>)
    requires |sinal| <= i + 1 && bits + ManchesterBits(Drop(sinal, i)) == ManchesterBits(sinal)
    ensures bits + ManchesterBits(Drop(sinal, i + 2)) == ManchesterBits(sinal)
  {
    assert |Drop(sinal, i)| < 2 && Drop(sinal, i + 2) == [];
  }

  method ManchesterDecodificar(sinal: seq<real>) returns (bits: seq<nat>)
    ensures bits == ManchesterBits(sinal)
  {
    hide ManchesterBits;
    bits := [];
    var i := 0;
    while i < |sinal|
      invariant bits + ManchesterBits(Drop(sinal, i)) == ManchesterBits(sinal)
    {
      if i + 1 < |sinal| {
        var bit: nat := if sinal[i] < 0.0 && sinal[i + 1] > 0.0 then 1 else 0;
        ManchesterLoopStep(sinal, i, bits);
        bits := bits + [bit];
      } else {
        ManchesterLoopTail(sinal, i, bits);
      }
      i := i + 2;
    }
    assert Drop(sinal, i) == [] && bits + [] == bits;
  }

  /** Samples 2k and 2k + 1 are the pair for bit k. */
  lemma {:induction false} ManchesterSamples(a: real, bits: seq<nat>)
    ensures forall k :: 0 <= k < |bits| ==>
      ManchesterSinal(a, bits)[2 * k .. 2 * k + 2] == if bits[k] == 1 then [-a, a] else [a, -a]
  {
    if bits != [] {
      ManchesterSamples(a, bits[1..]);
      var p := if bits[0] == 1 then [-a, a] else [a, -a];
      var rest := ManchesterSinal(a, bits[1..]);
      forall k | 0 <= k < |bits|
        ensures (p + rest)[2 * k .. 2 * k + 2] == if bits[k] == 1 then [-a, a] else [a, -a]
      {
        if k > 0 {
          assert (p + rest)[2 * k .. 2 * k + 2] == rest[2 * (k - 1) .. 2 * (k - 1) + 2];
        }
      }
    }
  }

  /** With a positive amplitude, decoding gives the bits back. */
  lemma {:induction false} ManchesterRoundTrip(a: real, bits: seq<nat>)
    requires IsBits(bits) && a > 0.0
    ensures ManchesterBits(ManchesterSinal(a, bits)) == bits
  {
    if bits != [] {
      var s := ManchesterSinal(a, bits);
      assert s[2..] == ManchesterSinal(a, bits[1..]);
      ManchesterRoundTrip(a, bits[1..]);
      assert bits == [bits[0]] + bits[1..];
    }
  }

  /** A trailing unpaired sample changes nothing. */
  lemma {:induction false} ManchesterIgnoresOddSample(sinal: seq<real>, x: real)
    requires 2 * |ManchesterBits(sinal)| == |sinal|
    ensures ManchesterBits(sinal + [x]) == ManchesterBits(sinal)
    decreases |sinal|
  {
    if |sinal| >= 2 {
      assert (sinal + [x])[2..] == sinal[2..] + [x];
      ManchesterIgnoresOddSample(sinal[2..], x);
    }
  }

  // ===== Bipolar (AMI) =====

  /** Number of non-zero values (the marks). */
  function Marks(bits: seq<nat>): (n: nat)
    ensures n <= |bits|
  {
    if bits == [] then 0 else (if bits[0] != 0 then 1 else 0) + Marks(bits[1..])
  }

  /** A 0 gives a 0 sample; any other value gives the current pulse
      `ultimo`, which then changes sign. */
  function BipolarSinal(ultimo: real, bits: seq<nat>): (s: seq<real>)
    ensures |s| == |bits|
    decreases |bits|
  {
    if bits == [] then []
    else if bits[0] == 0 then [0.0] + BipolarSinal(ultimo, bits[1..])
    else [ultimo] + BipolarSinal(-ultimo, bits[1..])
  }

  /** A zero sample reads as 0, any other as 1. */
  function BipolarBits(sinal: seq<real>): (bits: seq<nat>)
    ensures |bits| == |sinal| && IsBits(bits)
  {
    if sinal == [] then [] else [if sinal[0] == 0.0 then 0 else 1] + BipolarBits(sinal[1..])
  }

  method BipolarCodificar(a: real, bits: seq<nat>) returns (sinal: seq<real>)
    ensures sinal == BipolarSinal(a, bits)
  {
    sinal := [];
    var ultimoValor := a;
    var i := 0;
    while i < |bits|
      invariant 0 <= i <= |bits|
      invariant sinal + BipolarSinal(ultimoValor, bits[i..]) == BipolarSinal(a, bits)
    {
      assert bits[i..][1..] == bits[i + 1..];
      if bits[i] == 0 {
        AccumulateStep(sinal, [0.0], BipolarSinal(ultimoValor, bits[i..]),
          BipolarSinal(ultimoValor, bits[i + 1..]), BipolarSinal(a, bits));
        sinal := sinal + [0.0];
      } else {
        AccumulateStep(sinal, [ultimoValor], BipolarSinal(ultimoValor, bits[i..]),
          BipolarSinal(-ultimoValor, bits[i + 1..]), BipolarSinal(a, bits));
        sinal := sinal + [ultimoValor];
        ultimoValor := -ultimoValor;
      }
      i := i + 1;
    }
    assert sinal + [] == sinal;
  }

  method BipolarDecodificar(sinal: seq<real>) returns (bits: seq<nat>)
    ensures bits == BipolarBits(sinal)
  {
    bits := [];
    var i := 0;
    while i < |sinal|
      invariant 0 <= i <= |sinal|
      invariant bits + BipolarBits(sinal[i..]) == BipolarBits(sinal)
    {
      assert sinal[i..][1..] == sinal[i + 1..];
      var bit: nat := if sinal[i] == 0.0 then 0 else 1;
      AccumulateStep(bits, [bit], BipolarBits(sinal[i..]), BipolarBits(sinal[i + 1..]), BipolarBits(sinal));
      bits := bits + [bit];
      i := i + 1;
    }
    assert bits + [] == bits;
  }

  /** Alternate mark inversion: a 0 gives 0, and the mark at position k
      gives `u` when an even number of marks precede it, `-u` otherwise. */
  lemma {:induction false} BipolarSample(u: real, bits: seq<nat>, k: nat)
    requires k < |bits|
    ensures BipolarSinal(u, bits)[k] == if bits[k] == 0 then 0.0 else if Marks(bits[..k]) % 2 == 0 then u else -u
    decreases k
  {
    if k > 0 {
      var u' := if bits[0] == 0 then u else -u;
      BipolarSample(u', bits[1..], k - 1);
      assert bits[..k][1..] == bits[1..][..k - 1];
    }
  }

  lemma BipolarSamples(u: real, bits: seq<nat>)
    ensures forall k :: 0 <= k < |bits| ==>
      BipolarSinal(u, bits)[k] == if bits[k] == 0 then 0.0 else if Marks(bits[..k]) % 2 == 0 then u else -u
  {
    forall k | 0 <= k < |bits|
      ensures BipolarSinal(u, bits)[k] == if bits[k] == 0 then 0.0 else if Marks(bits[..k]) % 2 == 0 then u else -u
    {
      BipolarSample(u, bits, k);
    }
  }

  /** Every pulse is +u or -u, so a non-zero amplitude keeps marks non-zero. */
  lemma {:induction false} BipolarRoundTrip(u: real, bits: seq<nat>)
    requires IsBits(bits) && u != 0.0
    ensures BipolarBits(BipolarSinal(u, bits)) == bits
    decreases |bits|
  {
    if bits != [] {
      var u' := if bits[0] == 0 then u else -u;
      BipolarRoundTrip(u', bits[1..]);
      assert bits == [bits[0]] + bits[1..];
    }
  }

  // ===== the base-class interface, dispatched on the variant =====

  function Codificado(m: Modulador, bits: seq<nat>): seq<real>
  {
    match m
    case NRZPolar(a) => NrzSinal(a, bits)
    case Manchester(a) => ManchesterSinal(a, bits)
    case Bipolar(a) => BipolarSinal(a, bits)
  }

  function Decodificado(m: Modulador, sinal: seq<real>): (bits: seq<nat>)
    ensures IsBits(bits)
  {
    match m
    case NRZPolar(_) => NrzBits(sinal)
    case Manchester(_) => ManchesterBits(sinal)
    case Bipolar(_) => BipolarBits(sinal)
  }

  method Codificar(m: Modulador, bits: seq<nat>) returns (sinal: seq<real>)
    ensures sinal == Codificado(m, bits)
    ensures |sinal| == if m.Manchester? then 2 * |bits| else |bits|
  {
    match m
    case NRZPolar(a) => sinal := NrzCodificar(a, bits);
    case Manchester(a) => sinal := ManchesterCodificar(a, bits);
    case Bipolar(a) => sinal := BipolarCodificar(a, bits);
  }

  method Decodificar(m: Modulador, sinal: seq<real>) returns (bits: seq<nat>)
    ensures bits == Decodificado(m, sinal)
    ensures IsBits(bits)
  {
    match m
    case NRZPolar(_) => bits := NrzDecodificar(sinal);
    case Manchester(_) => bits := ManchesterDecodificar(sinal);
    case Bipolar(_) => bits := BipolarDecodificar(sinal);
  }

  /** Every line code undoes itself on bits: NRZ-Polar and Manchester need a
      positive amplitude, AMI only a non-zero one. */
  lemma ModulationRoundTrip(m: Modulador, bits: seq<nat>)
    requires IsBits(bits)
    requires if m.Bipolar? then m.amplitude != 0.0 else m.amplitude > 0.0
    ensures Decodificado(m, Codificado(m, bits)) == bits
  {
    match m
    case NRZPolar(a) => NrzRoundTrip(a, bits);
    case Manchester(a) => ManchesterRoundTrip(a, bits);
    case Bipolar(a) => BipolarRoundTrip(a, bits);
  }

  /** A modulator built with the default amplitude decodes its own signal. */
  lemma DefaultRoundTrip(bits: seq<nat>)
    requires IsBits(bits)
    ensures Decodificado(NovoNRZPolar(None), Codificado(NovoNRZPolar(None), bits)) == bits
    ensures Decodificado(NovoManchester(None), Codificado(NovoManchester(None), bits)) == bits
    ensures Decodificado(NovoBipolar(None), Codificado(NovoBipolar(None), bits)) == bits
  {
    ModulationRoundTrip(NovoNRZPolar(None), bits);
    ModulationRoundTrip(NovoManchester(None), bits);
    ModulationRoundTrip(NovoBipolar(None), bits);
  }
}
