/** The sending side (class `Transmissor`): text to bits, optional Hamming
    coding of the bytes, error detection, framing and modulation, in that
    order, with one history entry per step. The console echo of each entry
    is not modelled; the entries themselves are datatype values carrying
    what the original's messages report. */
module Transmissor {
  import opened Bits
  import Conversor
  import CorretorErros
  import DetectorErros
  import Enquadrador
  import ModuladorDigital

  /** One history entry of the transmitter. */
  datatype RegistroTx =
    | MensagemOriginal(mensagem: string)
    | BitsDeDados(bits: nat, caracteres: nat)
    | HammingAplicado(bits: nat)
    | DeteccaoAplicada(detector: DetectorErros.Detector, bits: nat)
    | Enquadramento(enquadrador: Enquadrador.Enquadrador, bits: nat)
    | ErroEnvio(causa: Erro)
    | SinalModulado(modulador: ModuladorDigital.Modulador, amostras: nat)

  /** The bits that reach the detector: the text's bits, or their bytes
      Hamming-coded when the transmitter uses Hamming. */
  function DataBits(usarHamming: bool, mensagem: string): (r: seq<nat>)
  {
    var bits := Conversor.BitsOfText(mensagem);
    if usarHamming then CorretorErros.Added(BytesOfBits(bits)) else bits
  }

  /** What `transmitir` returns: the signal, or the wrapped error when the
      framer refuses the payload. A detector that raised would propagate
      its ValueError unwrapped. */
  function Transmitted(
    modulador: ModuladorDigital.Modulador, enquadrador: Enquadrador.Enquadrador,
    detector: DetectorErros.Detector, usarHamming: bool, mensagem: string): Result<seq<real>>
  {
    match DetectorErros.Appended(detector, DataBits(usarHamming, mensagem))
    case None => Failure(ValorInvalido)
    case Some(comDeteccao) =>
      match Enquadrador.Framed(enquadrador, comDeteccao)
      case Failure(e) => Failure(MensagemMuitoGrande(e))
      case Success(quadro) => Success(ModuladorDigital.Codificado(modulador, quadro))
  }

  /** The entries logged before the detector runs. */
  function TxInicio(usarHamming: bool, mensagem: string): seq<RegistroTx>
  {
    var texto := [MensagemOriginal(mensagem)] + [BitsDeDados(|Conversor.BitsOfText(mensagem)|, |mensagem|)];
    if usarHamming then texto + [HammingAplicado(|DataBits(usarHamming, mensagem)|)] else texto
  }

  /** The entries `transmitir` appends to the history, in order. */
  function TxLog(
    modulador: ModuladorDigital.Modulador, enquadrador: Enquadrador.Enquadrador,
    detector: DetectorErros.Detector, usarHamming: bool, mensagem: string): seq<RegistroTx>
  {
    var dados := DataBits(usarHamming, mensagem);
    var inicio := TxInicio(usarHamming, mensagem);
    match DetectorErros.Appended(detector, dados)
    case None => inicio
    case Some(comDeteccao) =>
      var deteccao := inicio + [DeteccaoAplicada(detector, |comDeteccao|)];
      match Enquadrador.Framed(enquadrador, comDeteccao)
      case Failure(e) => deteccao + [ErroEnvio(MensagemMuitoGrande(e))]
      case Success(quadro) =>
        deteccao + [Enquadramento(enquadrador, |quadro|)]
          + [SinalModulado(modulador, |ModuladorDigital.Codificado(modulador, quadro)|)]
  }

  class Transmissor {
    const modulador: ModuladorDigital.Modulador
    const enquadrador: Enquadrador.Enquadrador
    const detectorErros: DetectorErros.Detector
    const usarHamming: bool
    var historico: seq<RegistroTx>

    constructor (modulador: ModuladorDigital.Modulador, enquadrador: Enquadrador.Enquadrador,
                 detectorErros: DetectorErros.Detector, usarHamming: bool)
      ensures this.modulador == modulador && this.enquadrador == enquadrador
      ensures this.detectorErros == detectorErros && this.usarHamming == usarHamming
      ensures historico == []
    {
      this.modulador := modulador;
      this.enquadrador := enquadrador;
      this.detectorErros := detectorErros;
      this.usarHamming := usarHamming;
      historico := [];
    }

    method Log(registro: RegistroTx)
      modifies this
      ensures historico == old(historico) + [registro]
    {
      historico := historico + [registro];
    }

    method Transmitir(mensagem: string) returns (r: Result<seq<real>>)
      modifies this
      ensures r == Transmitted(modulador, enquadrador, detectorErros, usarHamming, mensagem)
      ensures historico == old(historico) + TxLog(modulador, enquadrador, detectorErros, usarHamming, mensagem)
    {
      hide Conversor.BitsOfText, CorretorErros.Added, BytesOfBits, DetectorErros.Appended,
        Enquadrador.Framed, ModuladorDigital.Codificado;
      ghost var antes := historico;
      var registro := MensagemOriginal(mensagem);
      Log(registro);
      ghost var feitos: seq<RegistroTx> := [registro];
      var bitsDados := Conversor.TextoParaBits(mensagem);
      registro := BitsDeDados(|bitsDados|, |mensagem|);
      Log(registro);
      LogStep(antes, feitos, registro);
      feitos := feitos + [registro];
      if usarHamming {
        var bytesTemp := Conversor.BitsParaBytes(bitsDados);
        bitsDados := CorretorErros.Adicionar(bytesTemp);
        registro := HammingAplicado(|bitsDados|);
        Log(registro);
        LogStep(antes, feitos, registro);
        feitos := feitos + [registro];
      }
      assert bitsDados == DataBits(usarHamming, mensagem);
      assert feitos == TxInicio(usarHamming, mensagem);
      var comDeteccao := DetectorErros.Adicionar(detectorErros, bitsDados);
      if comDeteccao.None? {
        return Failure(ValorInvalido);
      }
      registro := DeteccaoAplicada(detectorErros, |comDeteccao.value|);
      Log(registro);
      LogStep(antes, feitos, registro);
      feitos := feitos + [registro];
      var quadro := Enquadrador.Enquadrar(enquadrador, comDeteccao.value);
      if quadro.Failure? {
        registro := ErroEnvio(MensagemMuitoGrande(quadro.error));
        Log(registro);
        LogStep(antes, feitos, registro);
        return Failure(MensagemMuitoGrande(quadro.error));
      }
      registro := Enquadramento(enquadrador, |quadro.value|);
      Log(registro);
      LogStep(antes, feitos, registro);
      feitos := feitos + [registro];
      var sinal := ModuladorDigital.Codificar(modulador, quadro.value);
      registro := SinalModulado(modulador, |sinal|);
      Log(registro);
      LogStep(antes, feitos, registro);
      r := Success(sinal);
    }

    /** `get_historico`: a sequence is a value, so the caller's copy never
        changes with later entries. */
    method GetHistorico() returns (h: seq<RegistroTx>)
      ensures h == historico
    {
      h := historico;
    }

    method LimparHistorico()
      modifies this
      ensures historico == []
    {
      historico := [];
    }
  }

  /** Appending one entry to a history that already holds `feitos`. */
  lemma LogStep(antes: seq<RegistroTx>, feitos: seq<RegistroTx>, registro: RegistroTx)
    ensures (antes + feitos) + [registro] == antes + (feitos + [registro])
  {
  }

  // ----- properties -----

  /** The data bits are bits, so no detector raises on them. */
  lemma DataBitsAreBits(usarHamming: bool, mensagem: string)
    ensures IsBits(DataBits(usarHamming, mensagem))
  {
    var bits := Conversor.BitsOfText(mensagem);
    if usarHamming {
      BytesOfBitsShape(bits);
      CorretorErros.AddedLayout(BytesOfBits(bits));
    }
  }

  /** The signal is the modulation of the framed, detector-extended data
      bits; the only failure is the framer's, wrapped. */
  lemma TransmittedPipeline(
    modulador: ModuladorDigital.Modulador, enquadrador: Enquadrador.Enquadrador,
    detector: DetectorErros.Detector, usarHamming: bool, mensagem: string)
    ensures DetectorErros.Appended(detector, DataBits(usarHamming, mensagem)).Some?
    ensures var comDeteccao := DetectorErros.Appended(detector, DataBits(usarHamming, mensagem)).value;
      var r := Transmitted(modulador, enquadrador, detector, usarHamming, mensagem);
      (r.Failure? <==> |comDeteccao| > enquadrador.tamanhoMaxQuadro) &&
      (r.Failure? ==> r.error == MensagemMuitoGrande(QuadroMuitoGrande(|comDeteccao|, enquadrador.tamanhoMaxQuadro))) &&
      (r.Success? ==> r.value == ModuladorDigital.Codificado(modulador, Enquadrador.Framed(enquadrador, comDeteccao).value))
  {
    DataBitsAreBits(usarHamming, mensagem);
    DetectorErros.AppendedOfBits(detector, DataBits(usarHamming, mensagem));
    var comDeteccao := DetectorErros.Appended(detector, DataBits(usarHamming, mensagem)).value;
    Enquadrador.FramedResult(enquadrador, comDeteccao);
  }

  /** A successful call logs six entries with Hamming and five without; a
      refused frame logs one entry fewer, ending with the wrapped error, and
      the modulator is not reached. */
  lemma TxLogShape(
    modulador: ModuladorDigital.Modulador, enquadrador: Enquadrador.Enquadrador,
    detector: DetectorErros.Detector, usarHamming: bool, mensagem: string)
    ensures var r := Transmitted(modulador, enquadrador, detector, usarHamming, mensagem);
      var log := TxLog(modulador, enquadrador, detector, usarHamming, mensagem);
      |log| == (if usarHamming then 6 else 5) - (if r.Failure? then 1 else 0) &&
      log[0] == MensagemOriginal(mensagem) &&
      (r.Failure? ==> log[|log| - 1] == ErroEnvio(r.error)) &&
      (r.Success? ==> log[|log| - 1] == SinalModulado(modulador, |r.value|)) &&
      (forall k :: 0 <= k < |log| ==> !log[k].SinalModulado? || r.Success?)
  {
    hide Conversor.BitsOfText, CorretorErros.Added, BytesOfBits, DataBits, DetectorErros.Appended,
      Enquadrador.Framed, ModuladorDigital.Codificado, TxInicio;
    DataBitsAreBits(usarHamming, mensagem);
    var dados := DataBits(usarHamming, mensagem);
    DetectorErros.AppendedOfBits(detector, dados);
    var comDeteccao := DetectorErros.Appended(detector, dados).value;
    var inicio := TxInicio(usarHamming, mensagem);
    TxInicioShape(usarHamming, mensagem);
    var deteccao := inicio + [DeteccaoAplicada(detector, |comDeteccao|)];
    var log := TxLog(modulador, enquadrador, detector, usarHamming, mensagem);
    match Enquadrador.Framed(enquadrador, comDeteccao)
    case Failure(e) =>
      assert log == deteccao + [ErroEnvio(MensagemMuitoGrande(e))];
    case Success(quadro) =>
      var sinal := ModuladorDigital.Codificado(modulador, quadro);
      assert log == deteccao + [Enquadramento(enquadrador, |quadro|)] + [SinalModulado(modulador, |sinal|)];
  }

  /** Before the detector: two entries, three with Hamming, starting with the
      original message. */
  lemma TxInicioShape(usarHamming: bool, mensagem: string)
    ensures var inicio := TxInicio(usarHamming, mensagem);
      |inicio| == (if usarHamming then 3 else 2) && inicio[0] == MensagemOriginal(mensagem) &&
      forall k :: 0 <= k < |inicio| ==> !inicio[k].SinalModulado? && !inicio[k].ErroEnvio?
  {
    hide Conversor.BitsOfText, DataBits;
  }

  /** For characters below 256, Hamming turns each 8-bit character into two
      7-bit codewords: 14 bits per character reach the detector, against 8
      without Hamming. */
  lemma DataBitsLength(usarHamming: bool, mensagem: string)
    requires AllBytes(Conversor.Codes(mensagem))
    ensures |DataBits(usarHamming, mensagem)| == (if usarHamming then 14 else 8) * |mensagem|
    ensures usarHamming ==> DataBits(usarHamming, mensagem) == CorretorErros.Added(Conversor.Codes(mensagem))
  {
    var codes := Conversor.Codes(mensagem);
    Conversor.BitsOfTextIsBitsOfBytes(mensagem);
    Conversor.TextBitsLayout(mensagem);
    BytesOfBitsOfBytes(codes);
    CorretorErros.AddedLayout(codes);
  }
}
