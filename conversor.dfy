/** Conversions between text, bits and bytes (class `Conversor`, static
    methods only). Each method runs the loop of the original and is proved to
    compute a recursive specification function; the lemmas state what those
    functions promise. */
module Conversor {
  import opened Bits

  /** Code points of a string, `ord(c)` for each character. */
  function Codes(s: string): (r: seq<nat>)
    ensures |r| == |s| && forall k :: 0 <= k < |s| ==> r[k] == s[k] as nat
  {
    seq(|s|, k requires 0 <= k < |s| => s[k] as nat)
  }

  predicate IsPrintableCode(b: nat) { 32 <= b <= 126 }

  /** Every character has a code in 32..126. */
  predicate IsPrintable(s: string)
  {
    forall k :: 0 <= k < |s| ==> IsPrintableCode(s[k] as nat)
  }

  /** `format(ord(c), '08b')` for each character, concatenated. */
  function BitsOfText(s: string): (r: seq<nat>)
    ensures IsBits(r)
  {
    if s == "" then [] else Format(s[0] as nat, 8) + BitsOfText(s[1..])
  }

  /** Keeps, in order, the characters of the values in 32..126 and drops the rest. */
  function Printable(bytes: seq<nat>): string
  {
    if bytes == [] then ""
    else (if IsPrintableCode(bytes[0]) then [bytes[0] as char] else "") + Printable(bytes[1..])
  }

  function TextOfBits(bits: seq<nat>): string
    requires IsBits(bits)
  {
    Printable(BytesOfBits(bits))
  }

  // ----- the four static methods -----

  method TextoParaBits(texto: string) returns (bits: seq<nat>)
    ensures bits == BitsOfText(texto) && IsBits(bits)
    ensures AllBytes(Codes(texto)) ==> |bits| == 8 * |texto|
    ensures AllBytes(Codes(texto)) ==>
      forall k :: 0 <= k < |texto| ==> BitsValue(bits[8 * k .. 8 * k + 8]) == texto[k] as nat
  {
    hide BitsOfText, Format, BitsValue, Pow2, BitsOfBytes;
    bits := [];
    var i := 0;
    while i < |texto|
      invariant 0 <= i <= |texto|
      invariant bits + BitsOfText(texto[i..]) == BitsOfText(texto)
    {
      var byteValue := texto[i] as nat;
      var bitsChar := Format(byteValue, 8);
      TextBitsLoopStep(texto, i, bits);
      bits := bits + bitsChar;
      i := i + 1;
    }
    TextBitsLoopDone(texto, bits);
    BitsOfTextIsBitsOfBytes(texto);
    if AllBytes(Codes(texto)) {
      TextBitsLayout(texto);
    }
  }

  method BitsParaTexto(bits: seq<nat>) returns (texto: string)
    requires IsBits(bits)
    ensures texto == TextOfBits(bits)
    ensures IsPrintable(texto) && |texto| <= |bits| / 8
  {
    texto := "";
    var i: nat := 0;
    while i < |bits|
      invariant texto + TextOfBits(Drop(bits, i)) == TextOfBits(bits)
    {
      var byteBits := Slice(bits, i, i + 8);
      var v := TextLoopStep(bits, i, texto);
      if |byteBits| == 8 {
        var byteValue := ParseBinary(byteBits).value;
        if 32 <= byteValue <= 126 {
          texto := texto + [byteValue as char];
        }
      }
      i := i + 8;
    }
    assert Drop(bits, i) == [];
    TextOfBitsBounds(bits);
  }

  /** One turn of the loop of `texto_para_bits`. */
  lemma TextBitsLoopStep(texto: string, i: nat, bits: seq<nat>)
    requires i < |texto| && bits + BitsOfText(texto[i..]) == BitsOfText(texto)
    ensures (bits + Format(texto[i] as nat, 8)) + BitsOfText(texto[i + 1..]) == BitsOfText(texto)
  {
    assert texto[i..][1..] == texto[i + 1..];
    AccumulateStep(bits, Format(texto[i] as nat, 8), BitsOfText(texto[i..]), BitsOfText(texto[i + 1..]), BitsOfText(texto));
  }

  lemma TextBitsLoopDone(texto: string, bits: seq<nat>)
    requires bits + BitsOfText(texto[|texto|..]) == BitsOfText(texto)
    ensures bits == BitsOfText(texto)
  {
    assert texto[|texto|..] == "" && bits + [] == bits;
  }

  /** One turn of the loop of `bits_para_texto`; v is the value of a full chunk. */
  lemma TextLoopStep(bits: seq<nat>, i: nat, texto: string) returns (v: nat)
    requires IsBits(bits) && i < |bits|
    requires texto + TextOfBits(Drop(bits, i)) == TextOfBits(bits)
    ensures |Slice(bits, i, i + 8)| == 8 ==> ParseBinary(Slice(bits, i, i + 8)) == Some(v)
    ensures |Slice(bits, i, i + 8)| == 8 && 32 <= v <= 126 ==>
      (texto + [v as char]) + TextOfBits(Drop(bits, i + 8)) == TextOfBits(bits)
    ensures |Slice(bits, i, i + 8)| == 8 && !(32 <= v <= 126) ==>
      texto + TextOfBits(Drop(bits, i + 8)) == TextOfBits(bits)
    ensures |Slice(bits, i, i + 8)| < 8 ==> texto + TextOfBits(Drop(bits, i + 8)) == TextOfBits(bits)
  {
    hide BitsValue, Pow2, Format, ParseBinary;
    var t := Drop(bits, i);
    if i + 8 <= |bits| {
      hide TextOfBits, BytesOfBits, Printable;
      ChunkAt(bits, i, 8);
      v := BitsValue(t[..8]);
      ParseBinaryOfBits(t[..8]);
      TextOfBitsStep(t);
      PrintableOne(v);
      AccumulateStep(texto, Printable([v]), TextOfBits(t), TextOfBits(t[8..]), TextOfBits(bits));
    } else {
      v := 0;
      ShortTail(bits, i, 8);
    }
  }

  method BitsParaBytes(bits: seq<nat>) returns (bytesList: seq<nat>)
    requires IsBits(bits)
    ensures bytesList == BytesOfBits(bits)
    ensures |bytesList| == |bits| / 8 && AllBytes(bytesList)
    ensures forall k :: 0 <= k < |bytesList| ==> bytesList[k] == BitsValue(bits[8 * k .. 8 * k + 8])
  {
    bytesList := [];
    var i := 0;
    while i < |bits|
      invariant bytesList + BytesOfBits(Drop(bits, i)) == BytesOfBits(bits)
    {
      var byteBits := Slice(bits, i, i + 8);
      BytesLoopStep(bits, i, bytesList);
      if |byteBits| == 8 {
        var byteValue := ParseBinary(byteBits).value;
        bytesList := bytesList + [byteValue];
      }
      i := i + 8;
    }
    assert Drop(bits, i) == [];
    BytesOfBitsShape(bits);
  }

  /** One turn of the loop of `bits_para_bytes`. */
  lemma BytesLoopStep(bits: seq<nat>, i: nat, bytesList: seq<nat>)
    requires IsBits(bits) && i < |bits|
    requires bytesList + BytesOfBits(Drop(bits, i)) == BytesOfBits(bits)
    ensures |Slice(bits, i, i + 8)| == 8 ==>
      var v := BitsValue(Slice(bits, i, i + 8));
      ParseBinary(Slice(bits, i, i + 8)) == Some(v) &&
      (bytesList + [v]) + BytesOfBits(Drop(bits, i + 8)) == BytesOfBits(bits)
    ensures |Slice(bits, i, i + 8)| < 8 ==> bytesList + BytesOfBits(Drop(bits, i + 8)) == BytesOfBits(bits)
  {
    var t := Drop(bits, i);
    if i + 8 <= |bits| {
      ChunkAt(bits, i, 8);
      ParseBinaryOfBits(t[..8]);
      AccumulateStep(bytesList, [BitsValue(t[..8])], BytesOfBits(t), BytesOfBits(t[8..]), BytesOfBits(bits));
    } else {
      ShortTail(bits, i, 8);
    }
  }

  method BytesParaBits(bytesList: seq<nat>) returns (bits: seq<nat>)
    ensures bits == BitsOfBytes(bytesList) && IsBits(bits)
    ensures AllBytes(bytesList) ==> |bits| == 8 * |bytesList|
    ensures AllBytes(bytesList) ==>
      forall k :: 0 <= k < |bytesList| ==> bits[8 * k .. 8 * k + 8] == Format(bytesList[k], 8)
  {
    hide BitsValue, Pow2, Format, ParseBinary;
    bits := [];
    var i := 0;
    while i < |bytesList|
      invariant 0 <= i <= |bytesList|
      invariant bits + BitsOfBytes(bytesList[i..]) == BitsOfBytes(bytesList)
    {
      assert bytesList[i..][1..] == bytesList[i + 1..];
      bits := bits + Format(bytesList[i], 8);
      i := i + 1;
    }
    if AllBytes(bytesList) {
      BitsOfBytesShape(bytesList);
    }
  }

  // ----- properties -----

  lemma {:induction false} BitsOfTextIsBitsOfBytes(s: string)
    ensures BitsOfText(s) == BitsOfBytes(Codes(s))
  {
    if s != "" {
      assert Codes(s)[1..] == Codes(s[1..]);
      BitsOfTextIsBitsOfBytes(s[1..]);
    }
  }

  /** For characters below 256: eight big-endian bits per character, in order. */
  lemma TextBitsLayout(s: string)
    requires AllBytes(Codes(s))
    ensures |BitsOfText(s)| == 8 * |s|
    ensures forall k :: 0 <= k < |s| ==> BitsOfText(s)[8 * k .. 8 * k + 8] == Format(s[k] as nat, 8)
    ensures forall k :: 0 <= k < |s| ==> BitsValue(BitsOfText(s)[8 * k .. 8 * k + 8]) == s[k] as nat
  {
    BitsOfTextIsBitsOfBytes(s);
    BitsOfBytesShape(Codes(s));
  }

  lemma TextOfBitsStep(t: seq<nat>)
    requires IsBits(t) && |t| >= 8
    ensures TextOfBits(t) == Printable([BitsValue(t[..8])]) + TextOfBits(t[8..])
  {
    assert BytesOfBits(t) == [BitsValue(t[..8])] + BytesOfBits(t[8..]);
    PrintableAppend([BitsValue(t[..8])], BytesOfBits(t[8..]));
  }

  lemma PrintableOne(v: nat)
    ensures Printable([v]) == (if 32 <= v <= 126 then [v as char] else "")
  {
    assert [v][1..] == [];
  }

  lemma {:induction false} PrintableBounds(bytes: seq<nat>)
    ensures |Printable(bytes)| <= |bytes| && IsPrintable(Printable(bytes))
  {
    if bytes != [] {
      PrintableBounds(bytes[1..]);
    }
  }

  /** The filter distributes over concatenation, so it keeps the order. */
  lemma {:induction false} PrintableAppend(a: seq<nat>, b: seq<nat>)
    ensures Printable(a + b) == Printable(a) + Printable(b)
  {
    if a != [] {
      assert (a + b)[1..] == a[1..] + b;
      PrintableAppend(a[1..], b);
    } else {
      assert a + b == b;
    }
  }

  /** Values that are all printable come back as exactly their characters. */
  lemma {:induction false} PrintableOfCodes(s: string)
    requires IsPrintable(s)
    ensures Printable(Codes(s)) == s
  {
    if s != "" {
      assert Codes(s)[1..] == Codes(s[1..]);
      PrintableOfCodes(s[1..]);
    }
  }

  /** Output only printable characters, at most one per complete byte. */
  lemma TextOfBitsBounds(bits: seq<nat>)
    requires IsBits(bits)
    ensures |TextOfBits(bits)| <= |bits| / 8 && IsPrintable(TextOfBits(bits))
  {
    BytesOfBitsShape(bits);
    PrintableBounds(BytesOfBits(bits));
  }

  /** Running `bytes_para_bits` and then `bits_para_bytes` gives the byte
      values back. */
  method BytesRoundTrip(bytes: seq<nat>) returns (r: seq<nat>)
    requires AllBytes(bytes)
    ensures r == bytes
  {
    var bits := BytesParaBits(bytes);
    r := BitsParaBytes(bits);
    BytesOfBitsOfBytes(bytes);
  }

  /** `bits_para_texto(texto_para_bits(s)) == s` for printable ASCII text. */
  lemma TextRoundTrip(s: string)
    requires IsPrintable(s)
    ensures TextOfBits(BitsOfText(s)) == s
  {
    var codes := Codes(s);
    assert AllBytes(codes) by {
      forall k | 0 <= k < |codes| ensures codes[k] < 256 {
        assert IsPrintableCode(s[k] as nat);
      }
    }
    BitsOfTextIsBitsOfBytes(s);
    BytesOfBitsOfBytes(codes);
    PrintableOfCodes(s);
    calc {
      TextOfBits(BitsOfText(s));
      Printable(BytesOfBits(BitsOfBytes(codes)));
      Printable(codes);
      s;
    }
  }
}
