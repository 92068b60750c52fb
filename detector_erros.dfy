/** Error detection (camada de enlace): even parity per 8-bit block, an 8-bit
    complement checksum, and a table-driven "CRC-32" whose table has only 16
    entries and a fallback branch, so it is not the CRC-32 of clause 3.2.9 of
    IEEE 802.3. The abstract base class becomes a datatype with one variant
    per detector. Every `verificar` is total on lists of integers: the
    receiver hands it byte values, and the parsing idiom then raises
    ValueError, modelled as None. */
module DetectorErros {
  import opened Bits

  /** Stored by the CRC detector's constructor and never used. */
  const CRC32_POLYNOMIAL: nat := 0x04C11DB7

  /** The CRC detector's table, as initialised by its constructor. */
  const TABELA: seq<bv32> := [
    0x00000000, 0x77073096, 0xEE0E612C, 0x990951BA,
    0x076DC419, 0x706AF48F, 0xE963A535, 0x9E6495A3,
    0x0EDB8832, 0x79DCB8A4, 0xE0D5E91E, 0x97D2D988,
    0x09B64C2B, 0x7EB17CBD, 0xE7B82D07, 0x90BF1D91
  ]

  datatype Detector =
    | DetectorParidade
    | DetectorChecksum
    | DetectorCRC32(polinomio: nat, tabela: seq<bv32>)

  function NovoCRC32(): Detector
  {
    DetectorCRC32(CRC32_POLYNOMIAL, TABELA)
  }

  /** Python's `sum`. */
  function Sum(s: seq<nat>): nat
  {
    if s == [] then 0 else s[0] + Sum(s[1..])
  }

  // ===== DetectorParidade =====

  /** Each complete 8-value block followed by its sum mod 2; a trailing
      partial block is dropped. */
  function WithParity(bits: seq<nat>): seq<nat>
  {
    if |bits| < 8 then [] else bits[..8] + [Sum(bits[..8]) % 2] + WithParity(bits[8..])
  }

  /** The blocks of 9 with `i + 8 < len`: their first 8 values are kept, and
      the flag is set when a 9th value differs from the block's sum mod 2. */
  function ParityChecked(s: seq<nat>): (seq<nat>, bool)
  {
    if |s| < 9 then ([], false)
    else
      var rest := ParityChecked(s[9..]);
      (s[..8] + rest.0, s[8] != Sum(s[..8]) % 2 || rest.1)
  }

  method ParidadeAdicionar(bits: seq<nat>) returns (r: seq<nat>)
    ensures r == WithParity(bits)
    ensures |r| == 9 * (|bits| / 8)
    ensures forall k :: 0 <= k < |bits| / 8 ==>
      r[9 * k .. 9 * k + 8] == bits[8 * k .. 8 * k + 8] && r[9 * k + 8] == Sum(bits[8 * k .. 8 * k + 8]) % 2
  {
    r := [];
    var i := 0;
    while i < |bits|
      invariant r + WithParity(Drop(bits, i)) == WithParity(bits)
    {
      var bloco := Slice(bits, i, i + 8);
      ParityAddStep(bits, i, r);
      if |bloco| == 8 {
        var paridade := Sum(bloco) % 2;
        r := r + bloco;
        r := r + [paridade];
      }
      i := i + 8;
    }
    assert Drop(bits, i) == [];
    WithParityLayout(bits);
  }

  /** One turn of the loop of `DetectorParidade.adicionar`. */
  lemma ParityAddStep(bits: seq<nat>, i: nat, r: seq<nat>)
    requires i < |bits| && r + WithParity(Drop(bits, i)) == WithParity(bits)
    ensures var bloco := Slice(bits, i, i + 8);
      |bloco| == 8 ==> ((r + bloco) + [Sum(bloco) % 2]) + WithParity(Drop(bits, i + 8)) == WithParity(bits)
    ensures |Slice(bits, i, i + 8)| < 8 ==> r + WithParity(Drop(bits, i + 8)) == WithParity(bits)
  {
    var t := Drop(bits, i);
    if i + 8 <= |bits| {
      ChunkAt(bits, i, 8);
      var x := t[..8] + [Sum(t[..8]) % 2];
      AccumulateStep(r, x, WithParity(t), WithParity(t[8..]), WithParity(bits));
      assert (r + t[..8]) + [Sum(t[..8]) % 2] == r + x;
    } else {
      ShortTail(bits, i, 8);
    }
  }

  method ParidadeVerificar(s: seq<nat>) returns (bits: seq<nat>, temErro: bool)
    ensures (bits, temErro) == ParityChecked(s)
    ensures |bits| == 8 * (|s| / 9)
  {
    bits := [];
    temErro := false;
    var i := 0;
    while i < |s|
      invariant bits + ParityChecked(Drop(s, i)).0 == ParityChecked(s).0
      invariant (temErro || ParityChecked(Drop(s, i)).1) == ParityChecked(s).1
    {
      ParityCheckStep(s, i, bits, temErro);
      if i + 8 < |s| {
        var bloco := s[i..i + 8];
        var paridadeRecebida := s[i + 8];
        var paridadeCalculada := Sum(bloco) % 2;
        if paridadeRecebida != paridadeCalculada {
          temErro := true;
        }
        bits := bits + bloco;
      }
      i := i + 9;
    }
    assert Drop(s, i) == [] && ParityChecked(Drop(s, i)) == ([], false) && bits + [] == bits;
    assert ParityChecked(s) == (ParityChecked(s).0, ParityChecked(s).1);
    ParityCheckedLength(s);
  }

  /** One turn of the loop of `DetectorParidade.verificar`. */
  lemma ParityCheckStep(s: seq<nat>, i: nat, bits: seq<nat>, temErro: bool)
    requires i < |s|
    requires bits + ParityChecked(Drop(s, i)).0 == ParityChecked(s).0
    requires (temErro || ParityChecked(Drop(s, i)).1) == ParityChecked(s).1
    ensures i + 8 < |s| ==>
      (bits + s[i..i + 8]) + ParityChecked(Drop(s, i + 9)).0 == ParityChecked(s).0 &&
      ((temErro || s[i + 8] != Sum(s[i..i + 8]) % 2) || ParityChecked(Drop(s, i + 9)).1) == ParityChecked(s).1
    ensures i + 8 >= |s| ==>
      bits + ParityChecked(Drop(s, i + 9)).0 == ParityChecked(s).0 &&
      (temErro || ParityChecked(Drop(s, i + 9)).1) == ParityChecked(s).1
  {
    var t := Drop(s, i);
    if i + 8 < |s| {
      ChunkAt(s, i, 9);
      assert t[..8] == s[i..i + 8] && t[8] == s[i + 8];
      AccumulateStep(bits, s[i..i + 8], ParityChecked(t).0, ParityChecked(t[9..]).0, ParityChecked(s).0);
    } else {
      ShortTail(s, i, 9);
    }
  }

  lemma {:induction false} WithParityLayout(bits: seq<nat>)
    ensures |WithParity(bits)| == 9 * (|bits| / 8)
    ensures forall k :: 0 <= k < |bits| / 8 ==>
      WithParity(bits)[9 * k .. 9 * k + 8] == bits[8 * k .. 8 * k + 8] &&
      WithParity(bits)[9 * k + 8] == Sum(bits[8 * k .. 8 * k + 8]) % 2
  {
    WithParityLength(bits);
    forall k | 0 <= k < |bits| / 8
      ensures WithParity(bits)[9 * k .. 9 * k + 8] == bits[8 * k .. 8 * k + 8] &&
        WithParity(bits)[9 * k + 8] == Sum(bits[8 * k .. 8 * k + 8]) % 2
    {
      WithParityBlock(bits, k);
    }
  }

  lemma {:induction false} WithParityLength(bits: seq<nat>)
    ensures |WithParity(bits)| == 9 * (|bits| / 8)
    decreases |bits|
  {
    if |bits| >= 8 {
      WithParityLength(bits[8..]);
      assert |bits[8..]| / 8 == |bits| / 8 - 1;
    }
  }

  /** Block k of the output is block k of the input and its parity. */
  lemma {:induction false} WithParityBlock(bits: seq<nat>, k: nat)
    requires k < |bits| / 8
    ensures |WithParity(bits)| >= 9 * k + 9
    ensures WithParity(bits)[9 * k .. 9 * k + 8] == bits[8 * k .. 8 * k + 8]
    ensures WithParity(bits)[9 * k + 8] == Sum(bits[8 * k .. 8 * k + 8]) % 2
    decreases k
  {
    var rest := WithParity(bits[8..]);
    assert WithParity(bits) == bits[..8] + [Sum(bits[..8]) % 2] + rest;
    if k > 0 {
      WithParityBlock(bits[8..], k - 1);
      ParityLayoutShift(bits, Sum(bits[..8]) % 2, rest, k - 1);
    }
  }

  /** Block j of the rest is block j + 1 of the whole. */
  lemma ParityLayoutShift(bits: seq<nat>, p: nat, rest: seq<nat>, j: nat)
    requires 8 * j + 16 <= |bits| && 9 * j + 9 <= |rest|
    requires rest[9 * j .. 9 * j + 8] == bits[8..][8 * j .. 8 * j + 8]
    requires rest[9 * j + 8] == Sum(bits[8..][8 * j .. 8 * j + 8]) % 2
    ensures var w := bits[..8] + [p] + rest;
      w[9 * j + 9 .. 9 * j + 17] == bits[8 * j + 8 .. 8 * j + 16] &&
      w[9 * j + 17] == Sum(bits[8 * j + 8 .. 8 * j + 16]) % 2
  {
    var w := bits[..8] + [p] + rest;
    assert w[9 * j + 9 .. 9 * j + 17] == rest[9 * j .. 9 * j + 8];
    assert bits[8..][8 * j .. 8 * j + 8] == bits[8 * j + 8 .. 8 * j + 16];
  }

  lemma {:induction false} ParityCheckedLength(s: seq<nat>)
    ensures |ParityChecked(s).0| == 8 * (|s| / 9)
    decreases |s|
  {
    if |s| >= 9 {
      ParityCheckedLength(s[9..]);
    }
  }

  /** `verificar(adicionar(b))` is b cut to whole bytes, with no error. */
  lemma {:induction false} ParityRoundTrip(bits: seq<nat>)
    ensures ParityChecked(WithParity(bits)) == (bits[..8 * (|bits| / 8)], false)
    decreases |bits|
  {
    if |bits| >= 8 {
      var w := WithParity(bits);
      WithParityStep(bits);
      ParityRoundTrip(bits[8..]);
      TruncateStep(bits);
    } else {
      WithParityLayout(bits);
    }
  }

  lemma WithParityStep(bits: seq<nat>)
    requires |bits| >= 8
    ensures |WithParity(bits)| >= 9
    ensures WithParity(bits)[..8] == bits[..8]
    ensures WithParity(bits)[8] == Sum(bits[..8]) % 2
    ensures WithParity(bits)[9..] == WithParity(bits[8..])
  {
    var w := WithParity(bits);
    assert w == bits[..8] + [Sum(bits[..8]) % 2] + WithParity(bits[8..]);
  }

  lemma TruncateStep(bits: seq<nat>)
    requires |bits| >= 8
    ensures bits[..8] + bits[8..][..8 * (|bits[8..]| / 8)] == bits[..8 * (|bits| / 8)]
  {
    assert 8 * (|bits| / 8) == 8 + 8 * (|bits[8..]| / 8);
  }

  lemma SumZeros(k: nat)
    ensures Sum(Zeros(k)) == 0
  {
    if k > 0 {
      assert Zeros(k)[1..] == Zeros(k - 1);
      SumZeros(k - 1);
    }
  }

  /** Changing one value by one changes the sum by one. */
  lemma {:induction false} SumUpdate(s: seq<nat>, j: nat, v: nat)
    requires j < |s|
    ensures Sum(s[j := v]) + s[j] == Sum(s) + v
    decreases |s|
  {
    if j > 0 {
      assert s[j := v][1..] == s[1..][j - 1 := v];
      SumUpdate(s[1..], j - 1, v);
    }
  }

  /** Flipping one bit inside a complete 9-bit block of an error-free list
      of bits is reported. */
  lemma {:induction false} ParityDetectsSingleFlip(s: seq<nat>, k: nat)
    requires IsBits(s) && !ParityChecked(s).1
    requires k < 9 * (|s| / 9)
    ensures ParityChecked(Flip(s, k)).1
    decreases |s|
  {
    var t := Flip(s, k);
    if k < 8 {
      assert t[..8] == s[..8][k := t[k]];
      SumUpdate(s[..8], k, t[k]);
      assert t[8] == s[8];
    } else if k == 8 {
      assert t[..8] == s[..8];
    } else {
      assert t[9..] == Flip(s[9..], k - 9);
      ParityDetectsSingleFlip(s[9..], k - 9);
    }
  }

  /** Two flips in one block cancel out: parity misses them. */
  lemma ParityMissesDoubleFlip()
    ensures WithParity(Zeros(8)) == Zeros(9)
    ensures !ParityChecked(Zeros(9)[0 := 1][1 := 1]).1
  {
    var z := Zeros(8);
    assert z[..8] == z;
    SumZeros(8);
    assert WithParity(z) == z + [0] + WithParity(z[8..]);
    assert Zeros(9) == z + [0];
    var t := Zeros(9)[0 := 1][1 := 1];
    assert t[..8] == z[0 := 1][1 := 1];
    SumUpdate(z, 0, 1);
    SumUpdate(z[0 := 1], 1, 1);
    assert t[8] == 0;
  }

  // ===== DetectorChecksum =====

  /** The summing loop over complete 8-value chunks, each read with the
      parsing idiom; None when a chunk does not parse. */
  function ChunkSum(s: seq<nat>): Option<nat>
  {
    if |s| < 8 then Some(0)
    else match ParseBinary(s[..8])
      case None => None
      case Some(v) =>
        match ChunkSum(s[8..])
        case None => None
        case Some(t) => Some(v + t)
  }

  function ChecksumOf(soma: nat): (c: nat)
    ensures c < 256 && (soma + c) % 256 == 255
  {
    (255 - soma % 256) % 256
  }

  function ChecksumAppended(bits: seq<nat>): Option<seq<nat>>
  {
    if |bits| == 0 then Some(Zeros(8))
    else match ChunkSum(bits)
      case None => None
      case Some(soma) => Some(bits + Format(ChecksumOf(soma), 8))
  }

  function ChecksumChecked(s: seq<nat>): Option<(seq<nat>, bool)>
  {
    if |s| < 8 then Some(([], true))
    else match ParseBinary(s[|s| - 8..])
      case None => None
      case Some(recebido) =>
        match ChunkSum(s[..|s| - 8])
        case None => None
        case Some(soma) => Some((s[..|s| - 8], recebido != ChecksumOf(soma)))
  }

  method SomaBytes(bits: seq<nat>) returns (soma: Option<nat>)
    ensures soma == ChunkSum(bits)
    ensures IsBits(bits) ==> soma.Some?
  {
    var total: nat := 0;
    var i := 0;
    while i < |bits|
      invariant ChunkSum(bits) == AddTo(total, ChunkSum(Drop(bits, i)))
    {
      var byteBits := Slice(bits, i, i + 8);
      SumLoopStep(bits, i, total);
      if |byteBits| == 8 {
        var byteVal := ParseBinary(byteBits);
        if byteVal.None? {
          return None;
        }
        total := total + byteVal.value;
      }
      i := i + 8;
    }
    assert Drop(bits, i) == [] && ChunkSum(Drop(bits, i)) == Some(0);
    soma := Some(total);
  }

  function AddTo(total: nat, o: Option<nat>): Option<nat>
  {
    if o.None? then None else Some(total + o.value)
  }

  /** One turn of the summing loop of `DetectorChecksum`: a chunk that does
      not parse makes the whole sum fail. */
  lemma SumLoopStep(bits: seq<nat>, i: nat, total: nat)
    requires i < |bits| && ChunkSum(bits) == AddTo(total, ChunkSum(Drop(bits, i)))
    ensures var chunk := Slice(bits, i, i + 8);
      |chunk| == 8 ==>
        (IsBits(bits) ==> ParseBinary(chunk).Some?) &&
        (ParseBinary(chunk).None? ==> ChunkSum(bits).None?) &&
        (ParseBinary(chunk).Some? ==>
          ChunkSum(bits) == AddTo(total + ParseBinary(chunk).value, ChunkSum(Drop(bits, i + 8))))
    ensures |Slice(bits, i, i + 8)| < 8 ==> ChunkSum(bits) == AddTo(total, ChunkSum(Drop(bits, i + 8)))
  {
    hide ParseBinary, BitsValue, Pow2;
    var t := Drop(bits, i);
    if i + 8 <= |bits| {
      ChunkAt(bits, i, 8);
      if IsBits(bits) {
        ParseBinaryOfBits(t[..8]);
      }
    } else {
      ShortTail(bits, i, 8);
    }
  }

  lemma {:induction false} ChunkSumOfBits(bits: seq<nat>)
    requires IsBits(bits)
    ensures ChunkSum(bits).Some?
    decreases |bits|
  {
    if |bits| >= 8 {
      ParseBinaryOfBits(bits[..8]);
      ChunkSumOfBits(bits[8..]);
    }
  }

  method ChecksumAdicionar(bits: seq<nat>) returns (r: Option<seq<nat>>)
    ensures r == ChecksumAppended(bits)
    ensures IsBits(bits) ==> r.Some?
    ensures bits == [] ==> r == Some(Zeros(8))
    ensures r.Some? && bits != [] ==>
      |r.value| == |bits| + 8 && r.value[..|bits|] == bits &&
      (ChunkSum(bits).value + BitsValue(r.value[|bits|..])) % 256 == 255
  {
    if |bits| == 0 {
      return Some(Zeros(8));
    }
    var soma := SomaBytes(bits);
    if soma.None? {
      return None;
    }
    var checksum := ChecksumOf(soma.value);
    r := Some(bits + Format(checksum, 8));
    ChecksumLayout(bits, soma.value);
  }

  /** The appended byte is the one's complement of the byte sum modulo 256. */
  lemma ChecksumLayout(bits: seq<nat>, soma: nat)
    ensures var r := bits + Format(ChecksumOf(soma), 8);
      |r| == |bits| + 8 && r[..|bits|] == bits && (soma + BitsValue(r[|bits|..])) % 256 == 255
  {
    hide Format, BitsValue, Pow2, ChecksumOf;
    var checksum := ChecksumOf(soma);
    var checksumBits := Format(checksum, 8);
    assert |checksumBits| == 8 by { Pow2Values(); }
    AppendSplit(bits, checksumBits);
    var v := BitsValue(checksumBits);
    assert v == checksum;
    assert (soma + v) % 256 == 255;
  }

  lemma AppendSplit(bits: seq<nat>, t: seq<nat>)
    ensures (bits + t)[..|bits|] == bits && (bits + t)[|bits|..] == t
  { }

  method ChecksumVerificar(s: seq<nat>) returns (r: Option<(seq<nat>, bool)>)
    ensures r == ChecksumChecked(s)
    ensures |s| < 8 ==> r == Some(([], true))
    ensures IsBits(s) ==> r.Some?
    ensures r.Some? && |s| >= 8 ==> r.value.0 == s[..|s| - 8]
  {
    if |s| < 8 {
      return Some(([], true));
    }
    var bits := s[..|s| - 8];
    var recebido := ParseBinary(s[|s| - 8..]);
    if recebido.None? {
      if IsBits(s) {
        ParseBinaryOfBits(s[|s| - 8..]);
      }
      return None;
    }
    var soma := SomaBytes(bits);
    if soma.None? {
      return None;
    }
    var calculado := ChecksumOf(soma.value);
    r := Some((bits, recebido.value != calculado));
  }

  /** For a non-empty list of bits, `verificar(adicionar(b)) == (b, False)`. */
  lemma ChecksumRoundTrip(bits: seq<nat>)
    requires IsBits(bits) && bits != []
    ensures ChecksumAppended(bits).Some?
    ensures ChecksumChecked(ChecksumAppended(bits).value) == Some((bits, false))
  {
    ChunkSumOfBits(bits);
    Pow2Values();
    var c := ChecksumOf(ChunkSum(bits).value);
    var s := bits + Format(c, 8);
    assert s[..|s| - 8] == bits && s[|s| - 8..] == Format(c, 8);
    ParseBinaryOfBits(Format(c, 8));
  }

  /** The empty payload gets eight zeros, which `verificar` rejects: it
      expects 255 for an empty sum. */
  lemma ChecksumEmptyReportsError()
    ensures ChecksumAppended([]) == Some(Zeros(8))
    ensures ChecksumChecked(Zeros(8)) == Some(([], true))
  {
    var z := Zeros(8);
    assert z[..0] == [] && z[0..] == z;
    ParseBinaryOfBits(z);
    BitsValueLeadingZeros(8, []);
    assert Zeros(8) + [] == z;
  }

  // ===== DetectorCRC32 =====

  /** One step of the loop over bytes: the table is used when the low byte
      index is inside it, otherwise the low byte itself is folded in. */
  function CrcStep(tabela: seq<bv32>, crc: bv32, byte: nat): bv32
  {
    var baixo := (byte % 256) as bv32;
    var indice := (crc ^ baixo) & 0xFF;
    if (indice as int) < |tabela| then (crc >> 8) ^ tabela[indice as int] else (crc >> 8) ^ baixo
  }

  function CrcFold(tabela: seq<bv32>, crc: bv32, bytes: seq<nat>): bv32
    decreases |bytes|
  {
    if bytes == [] then crc else CrcFold(tabela, CrcStep(tabela, crc, bytes[0]), bytes[1..])
  }

  /** The final inversion `crc ^ 0xFFFFFFFF`, as a Python integer. */
  function CrcFinal(crc: bv32): (n: nat)
    ensures n < 0x1_0000_0000
  {
    (crc ^ 0xFFFF_FFFF) as nat
  }

  /** `calcular_crc_bits`: None when a chunk does not parse. */
  function CrcOfBits(tabela: seq<bv32>, bits: seq<nat>): (r: Option<nat>)
    ensures r.Some? ==> r.value < 0x1_0000_0000
    ensures r.Some? <==> ParseBytes(bits).Some?
  {
    match ParseBytes(bits)
    case None => None
    case Some(bytes) => Some(CrcFinal(CrcFold(tabela, 0xFFFF_FFFF, bytes)))
  }

  function CrcAppended(tabela: seq<bv32>, bits: seq<nat>): Option<seq<nat>>
  {
    match CrcOfBits(tabela, bits)
    case None => None
    case Some(crc) => Some(bits + Format(crc, 32))
  }

  function CrcChecked(tabela: seq<bv32>, s: seq<nat>): Option<(seq<nat>, bool)>
  {
    if |s| < 32 then Some(([], true))
    else match ParseBinary(s[|s| - 32..])
      case None => None
      case Some(recebido) =>
        match CrcOfBits(tabela, s[..|s| - 32])
        case None => None
        case Some(calculado) => Some((s[..|s| - 32], recebido != calculado))
  }

  /** The chunking loop of `calcular_crc_bits`: full 8-bit chunks become
      byte values, a short tail is skipped, a chunk that does not parse ends
      the call. */
  method AgruparBytes(bits: seq<nat>) returns (r: Option<seq<nat>>)
    ensures r == ParseBytes(bits)
  {
    var bytesDados: seq<nat> := [];
    var i := 0;
    assert Drop(bits, 0) == bits;
    assert ParseBytes(bits).Some? ==> [] + ParseBytes(bits).value == ParseBytes(bits).value;
    while i < |bits|
      invariant ParseBytes(bits) == Prepend(bytesDados, ParseBytes(Drop(bits, i)))
    {
      var byteBits := Slice(bits, i, i + 8);
      GroupLoopStep(bits, i, bytesDados);
      if |byteBits| == 8 {
        var byteVal := ParseBinary(byteBits);
        if byteVal.None? {
          return None;
        }
        bytesDados := bytesDados + [byteVal.value];
      }
      i := i + 8;
    }
    assert Drop(bits, i) == [] && bytesDados + [] == bytesDados;
    r := Some(bytesDados);
  }

  /** One turn of the chunking loop of `calcular_crc_bits`. */
  lemma GroupLoopStep(bits: seq<nat>, i: nat, acc: seq<nat>)
    requires i < |bits| && ParseBytes(bits) == Prepend(acc, ParseBytes(Drop(bits, i)))
    ensures var chunk := Slice(bits, i, i + 8);
      |chunk| == 8 ==>
        (ParseBinary(chunk).None? ==> ParseBytes(bits).None?) &&
        (ParseBinary(chunk).Some? ==>
          ParseBytes(bits) == Prepend(acc + [ParseBinary(chunk).value], ParseBytes(Drop(bits, i + 8))))
    ensures |Slice(bits, i, i + 8)| < 8 ==> ParseBytes(bits) == Prepend(acc, ParseBytes(Drop(bits, i + 8)))
  {
    var t := Drop(bits, i);
    if i + 8 <= |bits| {
      ChunkAt(bits, i, 8);
      if ParseBinary(t[..8]).Some? {
        ParseBytesStep(t, acc);
      }
    } else {
      ShortTail(bits, i, 8);
    }
  }

  /** The table loop of `calcular_crc_bits`, before the final inversion. */
  method DobrarCrc(tabela: seq<bv32>, bytesDados: seq<nat>) returns (crc: bv32)
    ensures crc == CrcFold(tabela, 0xFFFF_FFFF, bytesDados)
  {
    crc := 0xFFFF_FFFF;
    var j := 0;
    while j < |bytesDados|
      invariant 0 <= j <= |bytesDados|
      invariant CrcFold(tabela, crc, bytesDados[j..]) == CrcFold(tabela, 0xFFFF_FFFF, bytesDados)
    {
      assert bytesDados[j..][1..] == bytesDados[j + 1..];
      crc := CrcStep(tabela, crc, bytesDados[j]);
      j := j + 1;
    }
    assert bytesDados[j..] == [];
  }

  method CalcularCrcBits(tabela: seq<bv32>, bits: seq<nat>) returns (r: Option<nat>)
    ensures r == CrcOfBits(tabela, bits)
    ensures IsBits(bits) ==> r.Some?
    ensures r.Some? ==> r.value < 0x1_0000_0000
  {
    var bytesDados := AgruparBytes(bits);
    if IsBits(bits) {
      ParseBytesOfBits(bits);
    }
    if bytesDados.None? {
      return None;
    }
    var crc := DobrarCrc(tabela, bytesDados.value);
    r := Some(CrcFinal(crc));
  }

  method CrcAdicionar(tabela: seq<bv32>, bits: seq<nat>) returns (r: Option<seq<nat>>)
    ensures r == CrcAppended(tabela, bits)
    ensures IsBits(bits) ==> r.Some?
    ensures r.Some? ==>
      |r.value| == |bits| + 32 && r.value[..|bits|] == bits &&
      BitsValue(r.value[|bits|..]) == CrcOfBits(tabela, bits).value
  {
    var crc := CalcularCrcBits(tabela, bits);
    if crc.None? {
      return None;
    }
    Pow2Values();
    var crcBits := Format(crc.value, 32);
    r := Some(bits + crcBits);
    assert r.value[|bits|..] == crcBits;
  }

  method CrcVerificar(tabela: seq<bv32>, s: seq<nat>) returns (r: Option<(seq<nat>, bool)>)
    ensures r == CrcChecked(tabela, s)
    ensures |s| < 32 ==> r == Some(([], true))
    ensures IsBits(s) ==> r.Some?
    ensures r.Some? && |s| >= 32 ==> r.value.0 == s[..|s| - 32]
  {
    if |s| < 32 {
      return Some(([], true));
    }
    var bits := s[..|s| - 32];
    var crcRecebido := ParseBinary(s[|s| - 32..]);
    if crcRecebido.None? {
      if IsBits(s) {
        ParseBinaryOfBits(s[|s| - 32..]);
      }
      return None;
    }
    var crcCalculado := CalcularCrcBits(tabela, bits);
    if crcCalculado.None? {
      return None;
    }
    r := Some((bits, crcRecebido.value != crcCalculado.value));
  }

  /** `verificar(adicionar(b)) == (b, False)` for every list of bits,
      including the empty one, and whatever the table. */
  lemma CrcRoundTrip(tabela: seq<bv32>, bits: seq<nat>)
    requires IsBits(bits)
    ensures CrcAppended(tabela, bits).Some?
    ensures CrcChecked(tabela, CrcAppended(tabela, bits).value) == Some((bits, false))
  {
    ParseBytesOfBits(bits);
    var c := CrcOfBits(tabela, bits).value;
    var f := Format(c, 32);
    assert |f| == 32 by { Pow2Values(); }
    var s := bits + f;
    assert CrcAppended(tabela, bits) == Some(s);
    assert s[..|s| - 32] == bits && s[|s| - 32..] == f;
    ParseBinaryOfBits(f);
    assert ParseBinary(s[|s| - 32..]) == Some(c);
  }

  /** Flipping any bit of the trailing 32-bit field is reported. */
  lemma CrcDetectsFieldFlip(tabela: seq<bv32>, bits: seq<nat>, k: nat)
    requires IsBits(bits) && k < 32
    ensures CrcAppended(tabela, bits).Some?
    ensures CrcChecked(tabela, Flip(CrcAppended(tabela, bits).value, |bits| + k)).Some?
    ensures CrcChecked(tabela, Flip(CrcAppended(tabela, bits).value, |bits| + k)).value == (bits, true)
  {
    ParseBytesOfBits(bits);
    var c := CrcOfBits(tabela, bits).value;
    var field := Format(c, 32);
    assert |field| == 32 by { Pow2Values(); }
    var s := bits + field;
    assert CrcAppended(tabela, bits) == Some(s);
    FlipInTrailer(bits, field, k);
    var t := Flip(s, |bits| + k);
    assert t[..|t| - 32] == bits && t[|t| - 32..] == t[|bits|..];
    ParseBinaryOfBits(t[|bits|..]);
  }

  /** Flipping any bit of the trailing 8-bit field is reported. */
  lemma ChecksumDetectsFieldFlip(bits: seq<nat>, k: nat)
    requires IsBits(bits) && bits != [] && k < 8
    ensures ChecksumAppended(bits).Some?
    ensures ChecksumChecked(Flip(ChecksumAppended(bits).value, |bits| + k)).Some?
    ensures ChecksumChecked(Flip(ChecksumAppended(bits).value, |bits| + k)).value == (bits, true)
  {
    hide Format, BitsValue, Pow2, ParseBinary;
    ChunkSumOfBits(bits);
    var c := ChecksumOf(ChunkSum(bits).value);
    var field := Format(c, 8);
    assert |field| == 8 by { Pow2Values(); }
    var s := bits + field;
    assert ChecksumAppended(bits) == Some(s);
    FlipInTrailer(bits, field, k);
    var t := Flip(s, |bits| + k);
    assert t[..|t| - 8] == bits && t[|t| - 8..] == t[|bits|..];
    ParseBinaryOfBits(t[|bits|..]);
    assert ChecksumChecked(t) == Some((bits, BitsValue(t[|bits|..]) != c));
  }

  /** Flipping bit `k` of a field appended to `bits` leaves `bits` in place
      and changes the field's value. */
  lemma FlipInTrailer(bits: seq<nat>, field: seq<nat>, k: nat)
    requires IsBits(bits) && IsBits(field) && k < |field|
    ensures var t := Flip(bits + field, |bits| + k);
      |t| == |bits| + |field| && t[..|bits|] == bits && IsBits(t[|bits|..]) && t[|bits|..] != [] &&
      BitsValue(t[|bits|..]) != BitsValue(field)
  {
    var s := bits + field;
    var t := Flip(s, |bits| + k);
    var f := t[|bits|..];
    assert f[k] == t[|bits| + k] && field[k] == s[|bits| + k];
    if BitsValue(f) == BitsValue(field) {
      BitsValueInjective(f, field);
    }
  }

  lemma CrcOfZeroByte()
    ensures CrcOfBits(TABELA, Zeros(8)) == Some(0xFF00_0000)
  {
    var z := Zeros(8);
    ParseBytesOfBits(z);
    assert z[..8] == z && z[8..] == [];
    BitsValueLeadingZeros(8, []);
    assert Zeros(8) + [] == z;
    assert BytesOfBits(z) == [0];
    assert CrcStep(TABELA, 0xFFFF_FFFF, 0) == 0x00FF_FFFF;
  }

  // ----- the base-class interface, dispatched on the variant -----

  function Appended(d: Detector, bits: seq<nat>): Option<seq<nat>>
  {
    match d
    case DetectorParidade => Some(WithParity(bits))
    case DetectorChecksum => ChecksumAppended(bits)
    case DetectorCRC32(_, tabela) => CrcAppended(tabela, bits)
  }

  function Checked(d: Detector, s: seq<nat>): Option<(seq<nat>, bool)>
  {
    match d
    case DetectorParidade => Some(ParityChecked(s))
    case DetectorChecksum => ChecksumChecked(s)
    case DetectorCRC32(_, tabela) => CrcChecked(tabela, s)
  }

  /** Every detector accepts a list of bits: only values other than 0 and 1
      can make the parsing idiom raise. */
  lemma AppendedOfBits(d: Detector, bits: seq<nat>)
    requires IsBits(bits)
    ensures Appended(d, bits).Some?
  {
    match d
    case DetectorParidade =>
    case DetectorChecksum =>
      if bits != [] {
        ChunkSumOfBits(bits);
      }
    case DetectorCRC32(_, tabela) => ParseBytesOfBits(bits);
  }

  method Adicionar(d: Detector, bits: seq<nat>) returns (r: Option<seq<nat>>)
    ensures r == Appended(d, bits)
    ensures IsBits(bits) ==> r.Some?
  {
    match d
    case DetectorParidade =>
      var p := ParidadeAdicionar(bits);
      r := Some(p);
    case DetectorChecksum => r := ChecksumAdicionar(bits);
    case DetectorCRC32(_, tabela) => r := CrcAdicionar(tabela, bits);
  }

  method Verificar(d: Detector, s: seq<nat>) returns (r: Option<(seq<nat>, bool)>)
    ensures r == Checked(d, s)
    ensures IsBits(s) || d.DetectorParidade? ==> r.Some?
  {
    match d
    case DetectorParidade =>
      var bits, temErro := ParidadeVerificar(s);
      r := Some((bits, temErro));
    case DetectorChecksum => r := ChecksumVerificar(s);
    case DetectorCRC32(_, tabela) => r := CrcVerificar(tabela, s);
  }

  /** The parity check keeps values of its input: 8 of every 9. */
  lemma {:induction false} ParityCheckedKeepsValues(s: seq<nat>)
    ensures forall x :: x in ParityChecked(s).0 ==> x in s
    decreases |s|
  {
    if |s| >= 9 {
      ParityCheckedKeepsValues(s[9..]);
      assert forall x :: x in s[9..] ==> x in s;
      assert forall x :: x in s[..8] ==> x in s;
    }
  }

  /** No detector invents a value: what `verificar` passes on was in its
      input (8 of every 9 values for parity, a prefix otherwise). */
  lemma CheckedKeepsValues(d: Detector, s: seq<nat>)
    ensures Checked(d, s).Some? ==> forall x :: x in Checked(d, s).value.0 ==> x in s
  {
    match d
    case DetectorParidade => ParityCheckedKeepsValues(s);
    case DetectorChecksum =>
      if |s| >= 8 { assert forall x :: x in s[..|s| - 8] ==> x in s; }
    case DetectorCRC32(_, _) =>
      if |s| >= 32 { assert forall x :: x in s[..|s| - 32] ==> x in s; }
  }
}
