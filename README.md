# Layered link simulator: verified model of the coding pipeline

This project models, in Dafny, the core of a teaching simulator of a
communication link (projeto-tr1). A text message goes down the layers of a
transmitter and back up those of a receiver:

- **application**: text to bits and back (`Conversor`, `utils/conversor.py`);
- **link layer, correction**: a Hamming code applied to 4-bit blocks
  (`CorretorHamming`, `camada_enlace/corretor_erros.py`);
- **link layer, detection**: even parity per byte, an 8-bit checksum and a
  table-driven "CRC-32" (`camada_enlace/detector_erros.py`);
- **link layer, framing**: a 16-bit length header, or flags with bit
  stuffing (`camada_enlace/enquadrador.py`);
- **physical layer**: NRZ-Polar, Manchester and bipolar AMI line codes
  (`camada_fisica/modulador_digital.py`);
- **the two ends**: `Transmissor` and `Receptor` chain the layers and keep
  a history of what each step did (`comunicacao/transmissor.py`,
  `comunicacao/receptor.py`).

Files:

| file | module | form |
|---|---|---|
| `bits.dfy` | `Bits` | shared vocabulary: bit lists, `format(n, '0Wb')`, `int(''.join(map(str, xs)), 2)`, 8-bit grouping |
| `conversor.dfy` | `Conversor` | the four static conversions, each a loop proved against a recursive function |
| `enquadrador.dfy` | `Enquadrador` | the two framers: one variant each of a datatype, with their loops as methods |
| `detector_erros.dfy` | `DetectorErros` | the three detectors, likewise |
| `corretor_erros.dfy` | `CorretorErros` | the Hamming encoder and decoder. They work in place on an `array` of n + 1 cells, as the original does on a padded list |
| `modulador_digital.dfy` | `ModuladorDigital` | the three line codes |
| `transmissor.dfy` | `Transmissor` | `class Transmissor`: the history is a field that `Transmitir` extends |
| `receptor.dfy` | `Receptor` | `class Receptor`: a history plus the status of the last reception |

Modelling choices:

- Python lists of integers are `seq<nat>`; a list of bits is one whose
  elements are all 0 or 1 (`IsBits`).
- `int(''.join(map(str, xs)), 2)` is modelled exactly: the decimal digits of
  every element are concatenated and parsed in base 2. A ValueError becomes
  `None`. This matters because the receiver converts the demodulated bits to
  **bytes** before handing them to the framer and the detector. Those then
  parse lists such as `[1, 10]`, which reads as binary `110`.
- Each state-changing or looping routine is a `method` whose loop invariant
  is `acc + Spec(rest) == Spec(whole)`. Its `ensures` ties the result to the
  specification function, and the lemmas state what the function promises:
  - round trips;
  - layouts;
  - error cases;
  - detection of flipped bits;
  - single-error correction.
- Raised ValueErrors are `Failure`/`None` values:
  - the framers' "frame too large";
  - the parse error;
  - the transmitter's wrapped "try a shorter message".
- The history entries are datatype values carrying the numbers and names the
  original's messages print, not the formatted text.
- The configuration singleton becomes two constants:
  - `Enquadrador.TAMANHO_MAX_QUADRO` = 256 bytes;
  - `ModuladorDigital.AMPLITUDE` = 5.0.

Both framers convert the configured size to bits when they are constructed.

## Model

| member | source | states |
|---|---|---|
| Bits.Format | utils/conversor.py:71 | `format(n, '0Wb')` digits are bits whose binary value is n; there are at least W of them, and exactly W when n < 2^W |
| Bits.FormatOfBitsValue | utils/conversor.py:71 | formatting the value of a non-empty bit list to the list's own width gives the list back |
| Bits.ParseBinaryOfBits | utils/conversor.py:108 | the join-and-parse idiom succeeds on every non-empty bit list, with the list's binary value |
| Bits.ParseBinaryRejectsDigit | utils/conversor.py:108 | a list holding an element from 2 to 9 makes the parse raise (None) |
| Bits.BitsValueInjective | utils/conversor.py:108 | two bit lists of the same length with the same value are equal |
| Bits.ParseBytesOfBits | camada_enlace/detector_erros.py:113-118 | grouping a bit list into 8-bit chunks never raises, and yields the byte values of its complete chunks |
| Bits.BytesOfBitsShape | utils/conversor.py:145-150 | grouping yields len(bits)//8 values, each below 256 and equal to the value of its chunk |
| Bits.BitsOfBytesShape | utils/conversor.py:185-186 | expanding byte values gives 8 bits per byte, chunk k being the 8-digit binary form of byte k |
| Bits.BytesOfBitsOfBytes | utils/conversor.py:145-186 | grouping undoes expansion for values in 0..255 |
| Conversor.TextoParaBits | utils/conversor.py:42-73 | the loop computes the bits of the text. When every code point is below 256 it gives 8 bits per character, and chunk k has the value ord(texto[k]) |
| Conversor.BitsParaTexto | utils/conversor.py:76-111 | the loop keeps, in order, the characters of the complete chunks whose value is printable (32..126); the text is printable and has at most len(bits)//8 characters |
| Conversor.BitsParaBytes | utils/conversor.py:114-150 | the loop yields len(bits)//8 byte values, byte k being the value of bits 8k..8k+7; a trailing partial chunk is dropped |
| Conversor.BytesParaBits | utils/conversor.py:153-187 | the loop yields bits; for byte values, exactly 8 per byte, chunk k being the 8-digit binary form of byte k |
| Conversor.BitsOfTextIsBitsOfBytes | utils/conversor.py:69-71 | the bits of a text are the bits of its code points |
| Conversor.TextBitsLayout | utils/conversor.py:69-72 | for code points below 256, chunk k of the text's bits is the binary form of character k and has its value |
| Conversor.PrintableBounds | utils/conversor.py:109-110 | the printable filter keeps only characters 32..126 and never lengthens its input |
| Conversor.PrintableAppend | utils/conversor.py:105-110 | the filter distributes over concatenation |
| Conversor.PrintableOfCodes | utils/conversor.py:109-110 | the filter leaves the codes of a printable text unchanged |
| Conversor.TextOfBitsBounds | utils/conversor.py:105-111 | decoding bits yields a printable text of at most len(bits)//8 characters |
| Conversor.BytesRoundTrip | utils/conversor.py:114-187 | running bytes_para_bits and then bits_para_bytes gives b back for byte values |
| Conversor.TextRoundTrip | utils/conversor.py:42-111 | bits_para_texto(texto_para_bits(s)) == s for printable ASCII text |
| Enquadrador.ContagemEnquadrar | camada_enlace/enquadrador.py:175-183 | it raises exactly when the payload exceeds the maximum, with that size error. Otherwise, for payloads under 2^16 bits, the frame is a 16-bit header whose value is the payload length, followed by the payload |
| Enquadrador.ContagemDesenquadrar | camada_enlace/enquadrador.py:185-191 | a frame under 16 bits gives []. Otherwise the result is a prefix of frame[16:] whose length is the header value, cut to what is present. It never raises when the header is bits |
| Enquadrador.ContagemRoundTrip | camada_enlace/enquadrador.py:157-191 | unframing a frame of an accepted payload gives the payload back |
| Enquadrador.FlagsEnquadrar | camada_enlace/enquadrador.py:270-287 | it raises exactly when the payload exceeds the maximum. Otherwise the frame starts and ends with 01111110, and between the flags a 0 follows every run of five 1s and no six 1s are adjacent |
| Enquadrador.FlagsDesenquadrar | camada_enlace/enquadrador.py:289-308 | the loop removes the bit after every five 1s between the flags; a frame of at most 16 bits gives [] |
| Enquadrador.StuffZeroAfterFiveOnes | camada_enlace/enquadrador.py:276-285 | after stuffing, every run of five 1s is followed by a 0, whatever count of 1s the loop starts from |
| Enquadrador.ZeroAfterFiveOnesNoSix | camada_enlace/enquadrador.py:243-246 | a list in which a 0 follows every five 1s never holds six adjacent 1s, so it cannot contain the flag |
| Enquadrador.UnstuffStuff | camada_enlace/enquadrador.py:276-307 | the receiver's unstuffing undoes the sender's stuffing from any starting count below five |
| Enquadrador.FlagsRoundTrip | camada_enlace/enquadrador.py:270-308 | desenquadrar(enquadrar(bits)) == bits for every payload |
| Enquadrador.SixOnesExample | camada_enlace/enquadrador.py:249-255 | six 1s are stuffed to 1111101, and the frame is 23 bits long |
| Enquadrador.Enquadrar | camada_enlace/enquadrador.py:157-183 | the chosen framer's result, which fails exactly when the payload exceeds its maximum |
| Enquadrador.Desenquadrar | camada_enlace/enquadrador.py:289-308 | the chosen framer's result; bit-stuffed unframing never raises |
| Enquadrador.UnstuffKeepsValues | camada_enlace/enquadrador.py:293-308 | destuffing returns only values that were in its input |
| Enquadrador.UnframedKeepsValues | camada_enlace/enquadrador.py:185-191 | both unframers return only values taken from the frame |
| Enquadrador.FramedResult | camada_enlace/enquadrador.py:178-179 | both framers refuse exactly the payloads over their maximum, with the same error |
| Enquadrador.FramingRoundTrip | camada_enlace/enquadrador.py:157-191 | for either framer, an accepted payload under 2^16 bits is recovered by unframing |
| DetectorErros.ParidadeAdicionar | camada_enlace/detector_erros.py:25-34 | the output has 9 bits per complete byte: block k is input bits 8k..8k+7, followed by their sum mod 2. A partial byte is dropped |
| DetectorErros.ParidadeVerificar | camada_enlace/detector_erros.py:36-48 | the loop keeps 8 bits per complete 9-bit block and flags an error when any block's parity differs |
| DetectorErros.WithParityLayout | camada_enlace/detector_erros.py:28-33 | layout of the parity-coded list, block by block |
| DetectorErros.ParityCheckedLength | camada_enlace/detector_erros.py:40-47 | verification yields 8 bits per complete 9-bit block |
| DetectorErros.ParityRoundTrip | camada_enlace/detector_erros.py:25-48 | verifying what adicionar produced gives back the complete bytes of the input, with no error |
| DetectorErros.ParityDetectsSingleFlip | camada_enlace/detector_erros.py:40-47 | flipping any one bit inside the complete blocks of an error-free list is reported |
| DetectorErros.ParityMissesDoubleFlip | camada_enlace/detector_erros.py:36-48 | two flips in the same block go unreported (a zero byte with its first two bits set) |
| DetectorErros.ChecksumOf | camada_enlace/detector_erros.py:67-68 | the checksum is below 256, and the sum plus the checksum is 255 mod 256 |
| DetectorErros.SomaBytes | camada_enlace/detector_erros.py:60-65 | the summing loop adds the values of the complete chunks; on bits it never raises |
| DetectorErros.ChecksumAdicionar | camada_enlace/detector_erros.py:54-71 | empty input gives eight 0s. Otherwise the output is the input followed by 8 bits whose value completes the byte sum to 255 mod 256; on bits it never raises |
| DetectorErros.ChecksumLayout | camada_enlace/detector_erros.py:67-71 | the appended field is 8 bits long and completes the sum to 255 mod 256 |
| DetectorErros.ChecksumVerificar | camada_enlace/detector_erros.py:73-94 | input under 8 bits gives ([], error). Otherwise it returns everything but the last 8 bits; on bits it never raises |
| DetectorErros.ChecksumRoundTrip | camada_enlace/detector_erros.py:54-94 | verifying what adicionar produced from non-empty bits gives them back with no error |
| DetectorErros.ChecksumEmptyReportsError | camada_enlace/detector_erros.py:56-57 | adicionar([]) is eight 0s, and verifying it reports an error: the sum 0 wants checksum 255 |
| DetectorErros.ChecksumDetectsFieldFlip | camada_enlace/detector_erros.py:73-94 | flipping any bit of the checksum field is reported and leaves the data intact |
| DetectorErros.CrcFinal | camada_enlace/detector_erros.py:128 | the final inversion gives a value below 2^32 |
| DetectorErros.CrcOfBits | camada_enlace/detector_erros.py:110-128 | calcular_crc_bits succeeds exactly when every complete chunk parses, with a value below 2^32 |
| DetectorErros.AgruparBytes | camada_enlace/detector_erros.py:113-118 | the chunking loop yields the values of the complete chunks, or raises on the first one that does not parse |
| DetectorErros.DobrarCrc | camada_enlace/detector_erros.py:121-127 | the byte loop folds the 16-entry table, or the fallback when the index is outside it, over the bytes, starting from 0xFFFFFFFF |
| DetectorErros.CalcularCrcBits | camada_enlace/detector_erros.py:110-128 | chunking then folding then inverting; never raises on bits; below 2^32 |
| DetectorErros.CrcAdicionar | camada_enlace/detector_erros.py:130-134 | the input followed by 32 bits whose value is the CRC of the input; never raises on bits |
| DetectorErros.CrcVerificar | camada_enlace/detector_erros.py:136-146 | input under 32 bits gives ([], error). Otherwise it returns everything but the last 32 bits; on bits it never raises |
| DetectorErros.CrcRoundTrip | camada_enlace/detector_erros.py:130-146 | verifying what adicionar produced gives the bits back with no error, for any table |
| DetectorErros.CrcDetectsFieldFlip | camada_enlace/detector_erros.py:136-146 | flipping any bit of the 32-bit CRC field is reported and leaves the data intact |
| DetectorErros.CrcOfZeroByte | camada_enlace/detector_erros.py:121-128 | with the original's table, the CRC of one zero byte is 0xFF000000, not the IEEE value 0xD202EF8D |
| DetectorErros.AppendedOfBits | camada_enlace/detector_erros.py:25-134 | no detector's adicionar raises on a list of bits |
| DetectorErros.Adicionar | camada_enlace/detector_erros.py:11-14 | the chosen detector's adicionar; it never raises on bits |
| DetectorErros.Verificar | camada_enlace/detector_erros.py:16-19 | the chosen detector's verificar; it never raises on bits, and parity never raises at all |
| DetectorErros.ParityCheckedKeepsValues | camada_enlace/detector_erros.py:36-48 | the parity check passes on only values of its input |
| DetectorErros.CheckedKeepsValues | camada_enlace/detector_erros.py:16-19 | no detector's verificar passes on a value that was not in its input |
| CorretorErros.Xor | camada_enlace/corretor_erros.py:44 | `^` on two bits is their sum mod 2 |
| CorretorErros.AndPow2 | camada_enlace/corretor_erros.py:43 | `j & 2**i` is non-zero exactly when bit i of j is 1 |
| CorretorErros.PowerOfTwoTest | camada_enlace/corretor_erros.py:33 | for n in [2^a, 2^(a+1)), `n & (n - 1) == 0` exactly when n is 2^a |
| CorretorErros.ParityPosNotData | camada_enlace/corretor_erros.py:33 | a power-of-two position never holds data |
| CorretorErros.DataCountValue | camada_enlace/corretor_erros.py:30-36 | 1..n holds n - (a + 1) data positions when 2^a <= n < 2^(a+1) |
| CorretorErros.ParityCount | camada_enlace/corretor_erros.py:9-17 | the number of parity bits r satisfies 2^r >= m + r + 1, and r - 1 does not |
| CorretorErros.ParityCountLeast | camada_enlace/corretor_erros.py:14-16 | every count below r fails the rule, so r is the least one |
| CorretorErros.ParityCountUnique | camada_enlace/corretor_erros.py:12 | the least count satisfying the rule is unique |
| CorretorErros.CheckCount | camada_enlace/corretor_erros.py:57-59 | the decoder's r is the least with 2^r >= n + 1 |
| CorretorErros.CheckCountLeast | camada_enlace/corretor_erros.py:57-59 | every count below it fails 2^k >= n + 1 |
| CorretorErros.CheckCountUnique | camada_enlace/corretor_erros.py:57-59 | the least such count is unique |
| CorretorErros.CheckCountOfCodeword | camada_enlace/corretor_erros.py:24-26 | on a codeword of length m + r, the decoder's count equals the encoder's r |
| CorretorErros.DataCountOfCodeword | camada_enlace/corretor_erros.py:24-36 | a codeword of length m + r has exactly m data positions |
| CorretorErros.Placed | camada_enlace/corretor_erros.py:28-36 | the placing loop's list has n + 1 cells |
| CorretorErros.WithParities | camada_enlace/corretor_erros.py:38-45 | writing the parity cells keeps the length |
| CorretorErros.Codeword | camada_enlace/corretor_erros.py:24-45 | the filled list has m + r + 1 cells |
| CorretorErros.Encode | camada_enlace/corretor_erros.py:19-47 | codificar yields m + r bits |
| CorretorErros.ParityIsBit | camada_enlace/corretor_erros.py:41-44 | the XOR over a group is a bit |
| CorretorErros.ParityUpdateOutside | camada_enlace/corretor_erros.py:41-44 | writing a cell outside a parity group leaves that group's parity unchanged |
| CorretorErros.ParityUpdateInside | camada_enlace/corretor_erros.py:41-44 | writing a bit inside a group changes the group's parity by the old and the new bit, mod 2 |
| CorretorErros.WithParitiesFrame | camada_enlace/corretor_erros.py:38-45 | the parity loop keeps bits, cell 0, the data cells and the parity cells it has not yet reached |
| CorretorErros.WithParitiesChecks | camada_enlace/corretor_erros.py:38-45 | after i rounds of the parity loop on a list whose parity cells start at zero, the first i groups have even parity |
| CorretorErros.FlipFailsChecks | camada_enlace/corretor_erros.py:61-70 | flipping cell k of a codeword whose checks all pass makes check c fail exactly when bit c of k is 1 |
| CorretorErros.SyndromeZero | camada_enlace/corretor_erros.py:61-70 | when every check passes the syndrome is 0 |
| CorretorErros.SyndromeOfBits | camada_enlace/corretor_erros.py:61-70 | when check c fails exactly as bit c of k, the syndrome adds up k's binary digits |
| CorretorErros.FlippedSyndrome | camada_enlace/corretor_erros.py:61-70 | the syndrome of a codeword with cell k flipped is k |
| CorretorErros.EncodeStructure | camada_enlace/corretor_erros.py:19-47 | the codeword is bits with cell 0 at 0, its data cells hold the input in order, and every parity group has even parity |
| CorretorErros.EncodeLayout | camada_enlace/corretor_erros.py:19-47 | codificar gives m + r bits whose data positions read back the input and whose checks all pass |
| CorretorErros.DecodeEncode | camada_enlace/corretor_erros.py:19-82 | decodificar(codificar(d)) == (d, 0) |
| CorretorErros.DecodeClean | camada_enlace/corretor_erros.py:49-82 | when every check passes, the data bits are read as they are and the syndrome is 0 |
| CorretorErros.DecodeCorrectsSingleFlip | camada_enlace/corretor_erros.py:49-82 | a codeword with any one bit flipped decodes to the original data, with the flipped position as syndrome |
| CorretorErros.DecodeCorrectionRange | camada_enlace/corretor_erros.py:72-80 | it yields bits, one per data position. It corrects only for a syndrome in 1..n; otherwise the data bits are read as received |
| CorretorErros.CalcularBitsParidade | camada_enlace/corretor_erros.py:9-17 | the loop returns the least r with 2^r >= m + r + 1 |
| CorretorErros.ParidadeDoGrupo | camada_enlace/corretor_erros.py:41-44 | the inner loop XORs the cells of positions 1..n in the group of the parity position |
| CorretorErros.PosicionarDados | camada_enlace/corretor_erros.py:28-36 | the placing loop writes the data bits, in order, into the non-power-of-two cells of the array and nothing else |
| CorretorErros.PreencherParidades | camada_enlace/corretor_erros.py:38-45 | the parity loop rewrites the array as the specification of its r rounds |
| CorretorErros.Codificar | camada_enlace/corretor_erros.py:19-47 | the array-based encoder returns the codeword without cell 0 |
| CorretorErros.CalcularSindrome | camada_enlace/corretor_erros.py:61-70 | the syndrome loop adds 2^i for each failing check i |
| CorretorErros.ExtrairDados | camada_enlace/corretor_erros.py:76-80 | the extraction loop reads the non-power-of-two cells in order |
| CorretorErros.Decodificar | camada_enlace/corretor_erros.py:49-82 | the array-based decoder, with its correction step, computes the decoding function |
| CorretorErros.Pad4 | camada_enlace/corretor_erros.py:93-95 | a short block is completed to four bits, keeping its own bits first |
| CorretorErros.CodificarBlocos | camada_enlace/corretor_erros.py:91-97 | the block loop encodes each zero-padded 4-bit block in turn |
| CorretorErros.Adicionar | camada_enlace/corretor_erros.py:84-99 | adicionar encodes the bytes' bits four at a time |
| CorretorErros.HammingBlocksShape | camada_enlace/corretor_erros.py:91-97 | on 4n bits the output is 7n bits, block k being the encoding of bits 4k..4k+3 |
| CorretorErros.AddedLayout | camada_enlace/corretor_erros.py:84-99 | for byte values it produces 14 bits per byte, 7-bit block k encoding bits 4k..4k+3 of the bytes' bits |
| CorretorErros.DecodedShape | camada_enlace/corretor_erros.py:106-112 | each complete 8-bit chunk contributes four data bits, and at most one correction |
| CorretorErros.VerifiedBounds | camada_enlace/corretor_erros.py:101-122 | at most one correction per complete chunk; the output is byte values, 4·(len//8)//8 of them |
| CorretorErros.DecodificarBlocos | camada_enlace/corretor_erros.py:103-112 | the chunk loop concatenates each chunk's data bits and counts the non-zero syndromes |
| CorretorErros.Verificar | camada_enlace/corretor_erros.py:101-122 | verificar regroups the decoded data bits into bytes and returns the correction count |
| ModuladorDigital.AmplitudeEfetiva | camada_fisica/modulador_digital.py:12-14 | `amplitude or AMPLITUDE`: a given non-zero amplitude is kept, a missing or zero one becomes 5.0, never 0 |
| ModuladorDigital.NovoNRZPolar | camada_fisica/modulador_digital.py:12-14 | the NRZ modulator gets a non-zero amplitude |
| ModuladorDigital.NovoManchester | camada_fisica/modulador_digital.py:12-14 | the Manchester modulator gets a non-zero amplitude |
| ModuladorDigital.NovoBipolar | camada_fisica/modulador_digital.py:12-14 | the bipolar modulator gets a non-zero amplitude |
| ModuladorDigital.NrzCodificar | camada_fisica/modulador_digital.py:30-37 | the loop emits one sample per bit |
| ModuladorDigital.NrzDecodificar | camada_fisica/modulador_digital.py:39-43 | the loop reads 1 for a positive sample and 0 otherwise |
| ModuladorDigital.NrzSamples | camada_fisica/modulador_digital.py:30-37 | sample k is +A when bit k is 1 and -A otherwise |
| ModuladorDigital.NrzRoundTrip | camada_fisica/modulador_digital.py:30-43 | decoding a positive-amplitude NRZ signal gives the bits back |
| ModuladorDigital.NrzNegativeInverts | camada_fisica/modulador_digital.py:30-43 | with a negative amplitude every bit comes back inverted |
| ModuladorDigital.ManchesterBits | camada_fisica/modulador_digital.py:58-66 | one bit per complete sample pair; an odd last sample is skipped |
| ModuladorDigital.ManchesterCodificar | camada_fisica/modulador_digital.py:49-56 | the loop emits two samples per bit |
| ModuladorDigital.ManchesterDecodificar | camada_fisica/modulador_digital.py:58-66 | the loop reads 1 for a negative-then-positive pair, 0 for any other pair |
| ModuladorDigital.ManchesterSamples | camada_fisica/modulador_digital.py:49-56 | samples 2k, 2k+1 are (-A, +A) for a 1 and (+A, -A) for a 0 |
| ModuladorDigital.ManchesterRoundTrip | camada_fisica/modulador_digital.py:49-66 | decoding a positive-amplitude Manchester signal gives the bits back |
| ModuladorDigital.ManchesterIgnoresOddSample | camada_fisica/modulador_digital.py:60-61 | appending one sample to an even-length signal changes nothing |
| ModuladorDigital.BipolarCodificar | camada_fisica/modulador_digital.py:72-81 | the loop emits 0 for a 0 and alternates the sign of the marks |
| ModuladorDigital.BipolarDecodificar | camada_fisica/modulador_digital.py:83-87 | the loop reads 0 for a zero sample and 1 otherwise |
| ModuladorDigital.BipolarSamples | camada_fisica/modulador_digital.py:72-81 | sample k is 0 for a 0. For a 1 it is +A after an even number of earlier 1s and -A after an odd number |
| ModuladorDigital.BipolarRoundTrip | camada_fisica/modulador_digital.py:72-87 | decoding a bipolar signal of non-zero amplitude gives the bits back |
| ModuladorDigital.Codificar | camada_fisica/modulador_digital.py:16-19 | the chosen line code: two samples per bit for Manchester, one otherwise |
| ModuladorDigital.Decodificar | camada_fisica/modulador_digital.py:21-24 | the chosen line code's decoder, always yielding bits |
| ModuladorDigital.ModulationRoundTrip | camada_fisica/modulador_digital.py:30-87 | each line code decodes its own signal, given a positive amplitude (non-zero for bipolar) |
| ModuladorDigital.DefaultRoundTrip | camada_fisica/modulador_digital.py:93-127 | with the default amplitude all three round trips hold |
| Transmissor.Transmissor.constructor | comunicacao/transmissor.py:16-35 | keeps the components and starts with an empty history |
| Transmissor.Transmissor.Log | comunicacao/transmissor.py:90-93 | appends one entry to the history |
| Transmissor.Transmissor.Transmitir | comunicacao/transmissor.py:37-88 | returns the pipeline's result and appends exactly the pipeline's entries to the history |
| Transmissor.Transmissor.GetHistorico | comunicacao/transmissor.py:95-97 | a copy of the history |
| Transmissor.Transmissor.LimparHistorico | comunicacao/transmissor.py:99-101 | the history becomes empty |
| Transmissor.DataBitsAreBits | comunicacao/transmissor.py:60-68 | what reaches the detector is always a list of bits |
| Transmissor.TransmittedPipeline | comunicacao/transmissor.py:37-88 | the detector never raises here. Transmission fails exactly when the detector's output exceeds the framer's maximum, with the wrapped size error; otherwise the signal is the modulation of the frame |
| Transmissor.TxLogShape | comunicacao/transmissor.py:57-86 | 5 entries without Hamming, 6 with it, one fewer on failure. The first is the message; the last is the error on failure and the modulated signal on success; no signal entry on failure |
| Transmissor.TxInicioShape | comunicacao/transmissor.py:57-69 | 2 or 3 entries before detection, starting with the message |
| Transmissor.DataBitsLength | comunicacao/transmissor.py:60-68 | for code points below 256, 8 bits per character, or 14 with Hamming (the bytes' Hamming coding) |
| Receptor.MontarMensagem | comunicacao/receptor.py:84-87 | the loop keeps, in order, the bytes in 32..126 as characters |
| Receptor.Receptor.constructor | comunicacao/receptor.py:16-37 | keeps the components, empty history, no error and no corrections |
| Receptor.Receptor.Log | comunicacao/receptor.py:93-96 | appends one entry; the status is untouched |
| Receptor.Receptor.Receber | comunicacao/receptor.py:39-91 | returns the pipeline's result, appends exactly its entries, and leaves the status it sets |
| Receptor.Receptor.Demodular | comunicacao/receptor.py:56-64 | demodulates, groups into bytes and logs the three first entries |
| Receptor.Receptor.Concluir | comunicacao/receptor.py:77-91 | optional Hamming correction then the printable filter, each logged |
| Receptor.Receptor.GetHistorico | comunicacao/receptor.py:98-100 | a copy of the history |
| Receptor.Receptor.LimparHistorico | comunicacao/receptor.py:102-104 | the history becomes empty; the status is kept |
| Receptor.Receptor.GetStatus | comunicacao/receptor.py:106-111 | the error flag and the correction count of the last reception |
| Receptor.ReceivedSteps | comunicacao/receptor.py:39-91 | the result, entries and status in each of the three outcomes: the framer raises, the detector raises, or the reception succeeds |
| Receptor.ReceivedStatus | comunicacao/receptor.py:66-81 | it succeeds exactly when the framer and then the detector accept, with the detector's verdict as error flag. A failure leaves the status unchanged; without Hamming the correction count never changes |
| Receptor.ReceivedMessage | comunicacao/receptor.py:39-91 | the detector passes on byte values only (each stage after the bits-to-bytes step keeps values of its input). The message is printable ASCII, with at most one character per byte passed on, or one per two bytes with Hamming |
| Receptor.ConcludedMessage | comunicacao/receptor.py:77-87 | the same bounds for the last two steps on their own |
| Receptor.FlagsParidadeNeverFail | comunicacao/receptor.py:63-71 | with bit-stuffed framing and parity detection, a reception never raises |
| Receptor.ReceivedLogShape | comunicacao/receptor.py:56-89 | 3 entries when the framer raises, 4 when the detector does, and 6 on success (7 with Hamming). The first names the signal; the last, on success, carries the message |

## Left out

- `camada_fisica/modulador_portadora.py`, `comunicacao/canal.py`, `interface/gui.py` and `main.py` are not part of this model: carrier modulation uses floating-point trigonometry, the channel draws random noise, and the rest is user interface.
- The configuration singleton is not modelled; its two values in use are constants. The CRC polynomial it supplies is stored by the CRC detector and never used.
- `print` in `_log`: the console echo is not modelled, only the history entry. Entries are datatype values, not the formatted strings.
- `EnquadradorFlagsBytes`, which `interface/gui.py` imports, is not defined in `camada_enlace/enquadrador.py`, so there is nothing to model.
- DetectorErros.CrcOfBits: the table holds 16 entries and a fallback branch, modelled as written. It is not the 256-entry CRC-32 of IEEE 802.3, and no CRC-32 standard property is claimed.
- No end-to-end round trip from the transmitter to the receiver is stated. The receiver converts the demodulated bits to bytes before unframing, so the framer and the detector see byte values, not the bits the transmitter framed.
- No Hamming round trip `verificar(adicionar(x))` is stated: adicionar produces 7-bit codewords while verificar decodes 8-bit chunks.
- CorretorErros.Xor: `^` is modelled on bit values only, the only values the encoder and decoder XOR when given bits.
- CorretorErros.Codificar, CorretorErros.Decodificar, CorretorErros.CodificarBlocos and CorretorErros.Verificar require a list of bits. On other integers the original XORs arbitrary values, and every caller in the core passes bits.
- Conversor.BitsParaTexto and Conversor.BitsParaBytes require a list of bits, as their documentation demands. The general parse of other integer lists is modelled in the framer and the detectors, which do receive byte values.
- ModuladorDigital: numpy arrays are sequences of reals. Sample values are only negated and compared with zero, so no rounding is involved.
- Enquadrador.ContagemEnquadrar: the header layout is stated for payloads under 2^16 bits. Longer payloads, which the 2048-bit default maximum excludes, get a longer header from `format`, which the function computes but no lemma describes.
- An exception escaping a detector's verificar or a framer is a `Failure(ValorInvalido)` result: the method returns instead of raising, and the history and status are what the original leaves behind.
