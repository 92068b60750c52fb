/** The receiving side (class `Receptor`): demodulation, bits to bytes,
    unframing, error detection, optional Hamming correction and the
    printable-character filter, in that order, with one history entry per
    step and the status of the last reception. The console echo of each
    entry is not modelled. */
module Receptor {
  import opened Bits
  import Conversor
  import CorretorErros
  import DetectorErros
  import Enquadrador
  import ModuladorDigital

  /** One history entry of the receiver. */
  datatype RegistroRx =
    | RecebendoSinal(amostras: nat)
    | BitsDemodulados(bits: nat)
    | BytesRecuperados(bytes: nat)
    | QuadroDesenquadrado
    | ErroDetectado
    | SemErros
    | HammingCorrigidos(erros: nat)
    | MensagemReconstruida(mensagem: string)

  /** What `get_status` reports. */
  datatype Status = Status(erroDetectado: bool, errosCorrigidos: nat)

  /** The end of a reception: the message, the entries logged after the
      detector's, and the correction count afterwards. */
  datatype Conclusao = Conclusao(mensagem: string, registros: seq<RegistroRx>, errosCorrigidos: nat)

  /** One call of `receber`: its result, the entries it logs, and the status
      it leaves. A ValueError raised by the framer or the detector ends the
      call with `Failure(ValorInvalido)`, leaving the status as it was. */
  datatype Recepcao = Recepcao(
    resultado: Result<string>, registros: seq<RegistroRx>, erroDetectado: bool, errosCorrigidos: nat)

  /** The bytes `receber` hands to the framer. */
  function ReceivedBytes(modulador: ModuladorDigital.Modulador, sinal: seq<real>): seq<nat>
  {
    BytesOfBits(ModuladorDigital.Decodificado(modulador, sinal))
  }

  /** The entries logged before the framer runs. */
  function RxInicio(modulador: ModuladorDigital.Modulador, sinal: seq<real>): seq<RegistroRx>
  {
    var bits := ModuladorDigital.Decodificado(modulador, sinal);
    [RecebendoSinal(|sinal|)] + [BitsDemodulados(|bits|)] + [BytesRecuperados(|BytesOfBits(bits)|)]
  }

  /** Hamming correction (when enabled) and the printable filter, applied to
      the bytes the detector passed on. */
  function Concluded(usarHamming: bool, dados: seq<nat>, errosAntes: nat): Conclusao
  {
    if usarHamming then
      var corrigido := CorretorErros.Verified(BitsOfBytes(dados));
      var mensagem := Conversor.Printable(corrigido.0);
      Conclusao(mensagem, [HammingCorrigidos(corrigido.1)] + [MensagemReconstruida(mensagem)], corrigido.1)
    else
      var mensagem := Conversor.Printable(dados);
      Conclusao(mensagem, [MensagemReconstruida(mensagem)], errosAntes)
  }

  /** `receber` on `sinal`, from a status of `erroAntes` and `errosAntes`. */
  function Received(
    modulador: ModuladorDigital.Modulador, enquadrador: Enquadrador.Enquadrador,
    detector: DetectorErros.Detector, usarHamming: bool, sinal: seq<real>,
    erroAntes: bool, errosAntes: nat): Recepcao
  {
    var inicio := RxInicio(modulador, sinal);
    match Enquadrador.Unframed(enquadrador, ReceivedBytes(modulador, sinal))
    case None => Recepcao(Failure(ValorInvalido), inicio, erroAntes, errosAntes)
    case Some(dados) =>
      var desenquadrado := inicio + [QuadroDesenquadrado];
      match DetectorErros.Checked(detector, dados)
      case None => Recepcao(Failure(ValorInvalido), desenquadrado, erroAntes, errosAntes)
      case Some(verificado) =>
        var fim := Concluded(usarHamming, verificado.0, errosAntes);
        Recepcao(Success(fim.mensagem),
          desenquadrado + [if verificado.1 then ErroDetectado else SemErros] + fim.registros,
          verificado.1, fim.errosCorrigidos)
  }

  /** The message loop of `receber`: the characters of the bytes in 32..126,
      in order. */
  method MontarMensagem(dados: seq<nat>) returns (mensagem: string)
    ensures mensagem == Conversor.Printable(dados)
  {
    mensagem := "";
    var i := 0;
    while i < |dados|
      invariant 0 <= i <= |dados|
      invariant mensagem + Conversor.Printable(dados[i..]) == Conversor.Printable(dados)
    {
      hide Conversor.Printable;
      var c := PrintableStep(dados, i);
      AccumulateStep(mensagem, c, Conversor.Printable(dados[i..]), Conversor.Printable(dados[i + 1..]),
        Conversor.Printable(dados));
      if 32 <= dados[i] <= 126 {
        mensagem := mensagem + [dados[i] as char];
      }
      i := i + 1;
    }
    assert dados[i..] == [];
  }

  /** The filter keeps byte `i` when it is printable, as the loop does. */
  lemma PrintableStep(dados: seq<nat>, i: nat) returns (c: string)
    requires i < |dados|
    ensures c == (if 32 <= dados[i] <= 126 then [dados[i] as char] else "")
    ensures Conversor.Printable(dados[i..]) == c + Conversor.Printable(dados[i + 1..])
  {
    assert dados[i..][1..] == dados[i + 1..];
    c := if Conversor.IsPrintableCode(dados[i]) then [dados[i] as char] else "";
  }

  class Receptor {
    const modulador: ModuladorDigital.Modulador
    const enquadrador: Enquadrador.Enquadrador
    const detectorErros: DetectorErros.Detector
    const usarHamming: bool
    var historico: seq<RegistroRx>
    var erroDetectado: bool
    var errosCorrigidos: nat

    constructor (modulador: ModuladorDigital.Modulador, enquadrador: Enquadrador.Enquadrador,
                 detectorErros: DetectorErros.Detector, usarHamming: bool)
      ensures this.modulador == modulador && this.enquadrador == enquadrador
      ensures this.detectorErros == detectorErros && this.usarHamming == usarHamming
      ensures historico == [] && !erroDetectado && errosCorrigidos == 0
    {
      this.modulador := modulador;
      this.enquadrador := enquadrador;
      this.detectorErros := detectorErros;
      this.usarHamming := usarHamming;
      historico := [];
      erroDetectado := false;
      errosCorrigidos := 0;
    }

    method Log(registro: RegistroRx)
      modifies this
      ensures historico == old(historico) + [registro]
      ensures erroDetectado == old(erroDetectado) && errosCorrigidos == old(errosCorrigidos)
    {
      historico := historico + [registro];
    }

    method Receber(sinal: seq<real>) returns (r: Result<string>)
      modifies this
      ensures var rx := Received(modulador, enquadrador, detectorErros, usarHamming, sinal,
                                 old(erroDetectado), old(errosCorrigidos));
        r == rx.resultado && historico == old(historico) + rx.registros &&
        erroDetectado == rx.erroDetectado && errosCorrigidos == rx.errosCorrigidos
    {
      hide Enquadrador.Unframed, DetectorErros.Checked, Concluded, ModuladorDigital.Decodificado,
        Conversor.Printable, CorretorErros.Verified, BitsOfBytes, Received, RxInicio, ReceivedBytes;
      ReceivedSteps(modulador, enquadrador, detectorErros, usarHamming, sinal, erroDetectado, errosCorrigidos);
      ghost var antes := historico;
      var bytesRecuperados := Demodular(sinal);
      ghost var feitos := RxInicio(modulador, sinal);
      var registro;
      var dados := Enquadrador.Desenquadrar(enquadrador, bytesRecuperados);
      if dados.None? {
        return Failure(ValorInvalido);
      }
      registro := QuadroDesenquadrado;
      Log(registro);
      LogStep(antes, feitos, [registro]);
      feitos := feitos + [registro];
      var verificacao := DetectorErros.Verificar(detectorErros, dados.value);
      if verificacao.None? {
        return Failure(ValorInvalido);
      }
      erroDetectado := verificacao.value.1;
      if erroDetectado {
        registro := ErroDetectado;
      } else {
        registro := SemErros;
      }
      Log(registro);
      LogStep(antes, feitos, [registro]);
      feitos := feitos + [registro];
      ghost var errosAntes := errosCorrigidos;
      var mensagem := Concluir(verificacao.value.0);
      ghost var fim := Concluded(usarHamming, verificacao.value.0, errosAntes);
      LogStep(antes, feitos, fim.registros);
      r := Success(mensagem);
    }

    /** Steps 1 to 3 of `receber`: demodulation and bits to bytes, each
        logged. */
    method Demodular(sinal: seq<real>) returns (bytesRecuperados: seq<nat>)
      modifies this
      ensures bytesRecuperados == ReceivedBytes(modulador, sinal)
      ensures historico == old(historico) + RxInicio(modulador, sinal)
      ensures erroDetectado == old(erroDetectado) && errosCorrigidos == old(errosCorrigidos)
    {
      hide ModuladorDigital.Decodificado, BitsOfBytes;
      ghost var antes := historico;
      var registro := RecebendoSinal(|sinal|);
      Log(registro);
      ghost var feitos: seq<RegistroRx> := [registro];
      var bitsRecuperados := ModuladorDigital.Decodificar(modulador, sinal);
      registro := BitsDemodulados(|bitsRecuperados|);
      Log(registro);
      LogStep(antes, feitos, [registro]);
      feitos := feitos + [registro];
      var bytesRecuperados' := Conversor.BitsParaBytes(bitsRecuperados);
      bytesRecuperados := bytesRecuperados';
      registro := BytesRecuperados(|bytesRecuperados|);
      Log(registro);
      LogStep(antes, feitos, [registro]);
    }

    /** Steps 5 and 6 of `receber`: Hamming correction when enabled, then
        the printable filter, each logged. */
    method Concluir(dados: seq<nat>) returns (mensagem: string)
      modifies this
      ensures var fim := Concluded(usarHamming, dados, old(errosCorrigidos));
        mensagem == fim.mensagem && historico == old(historico) + fim.registros &&
        errosCorrigidos == fim.errosCorrigidos && erroDetectado == old(erroDetectado)
    {
      ghost var antes := historico;
      var bytesFinais := dados;
      ghost var feitos: seq<RegistroRx> := [];
      if usarHamming {
        var bitsHamming := Conversor.BytesParaBits(dados);
        var corrigidos, erros := CorretorErros.Verificar(bitsHamming);
        bytesFinais := corrigidos;
        errosCorrigidos := erros;
        Log(HammingCorrigidos(errosCorrigidos));
        feitos := [HammingCorrigidos(errosCorrigidos)];
      }
      mensagem := MontarMensagem(bytesFinais);
      Log(MensagemReconstruida(mensagem));
      LogStep(antes, feitos, [MensagemReconstruida(mensagem)]);
    }

    /** `get_historico`: a sequence is a value, so the caller's copy never
        changes with later entries. */
    method GetHistorico() returns (h: seq<RegistroRx>)
      ensures h == historico
    {
      h := historico;
    }

    method LimparHistorico()
      modifies this
      ensures historico == [] && erroDetectado == old(erroDetectado) && errosCorrigidos == old(errosCorrigidos)
    {
      historico := [];
    }

    method GetStatus() returns (s: Status)
      ensures s == Status(erroDetectado, errosCorrigidos)
    {
      s := Status(erroDetectado, errosCorrigidos);
    }
  }

  /** `Received` in its three cases, one per exit of `receber`. */
  lemma ReceivedSteps(
    modulador: ModuladorDigital.Modulador, enquadrador: Enquadrador.Enquadrador,
    detector: DetectorErros.Detector, usarHamming: bool, sinal: seq<real>,
    erroAntes: bool, errosAntes: nat)
    ensures var bits := ModuladorDigital.Decodificado(modulador, sinal);
      ReceivedBytes(modulador, sinal) == BytesOfBits(bits) &&
      RxInicio(modulador, sinal) == [RecebendoSinal(|sinal|)] + [BitsDemodulados(|bits|)] + [BytesRecuperados(|BytesOfBits(bits)|)]
    ensures var rx := Received(modulador, enquadrador, detector, usarHamming, sinal, erroAntes, errosAntes);
      var quadro := Enquadrador.Unframed(enquadrador, ReceivedBytes(modulador, sinal));
      var inicio := RxInicio(modulador, sinal);
      (quadro.None? ==> rx == Recepcao(Failure(ValorInvalido), inicio, erroAntes, errosAntes)) &&
      (quadro.Some? && DetectorErros.Checked(detector, quadro.value).None? ==>
        rx == Recepcao(Failure(ValorInvalido), inicio + [QuadroDesenquadrado], erroAntes, errosAntes)) &&
      (quadro.Some? && DetectorErros.Checked(detector, quadro.value).Some? ==>
        var verificado := DetectorErros.Checked(detector, quadro.value).value;
        var fim := Concluded(usarHamming, verificado.0, errosAntes);
        rx == Recepcao(Success(fim.mensagem),
          inicio + [QuadroDesenquadrado] + [if verificado.1 then ErroDetectado else SemErros] + fim.registros,
          verificado.1, fim.errosCorrigidos))
  {
  }

  /** Appending entries to a history that already holds `feitos`. */
  lemma LogStep(antes: seq<RegistroRx>, feitos: seq<RegistroRx>, novos: seq<RegistroRx>)
    ensures (antes + feitos) + novos == antes + (feitos + novos)
  {
  }

  // ----- properties -----

  /** A reception succeeds exactly when the framer and then the detector
      accept their input; on success the error flag is the detector's
      verdict; a failed reception leaves the status untouched; without
      Hamming the correction count is never changed. */
  lemma ReceivedStatus(
    modulador: ModuladorDigital.Modulador, enquadrador: Enquadrador.Enquadrador,
    detector: DetectorErros.Detector, usarHamming: bool, sinal: seq<real>,
    erroAntes: bool, errosAntes: nat)
    ensures var rx := Received(modulador, enquadrador, detector, usarHamming, sinal, erroAntes, errosAntes);
      var quadro := Enquadrador.Unframed(enquadrador, ReceivedBytes(modulador, sinal));
      (rx.resultado.Success? <==> quadro.Some? && DetectorErros.Checked(detector, quadro.value).Some?) &&
      (rx.resultado.Success? ==> rx.erroDetectado == DetectorErros.Checked(detector, quadro.value).value.1) &&
      (rx.resultado.Failure? ==>
        rx.resultado.error == ValorInvalido && rx.erroDetectado == erroAntes && rx.errosCorrigidos == errosAntes) &&
      (!usarHamming ==> rx.errosCorrigidos == errosAntes)
  {
  }

  /** The message holds only printable ASCII. The detector passes on byte
      values only, since every stage after demodulation keeps values of its
      input. Without Hamming the message has at most one character per such
      byte; with Hamming, at most one per two of them. */
  lemma ReceivedMessage(
    modulador: ModuladorDigital.Modulador, enquadrador: Enquadrador.Enquadrador,
    detector: DetectorErros.Detector, usarHamming: bool, sinal: seq<real>,
    erroAntes: bool, errosAntes: nat)
    requires Received(modulador, enquadrador, detector, usarHamming, sinal, erroAntes, errosAntes).resultado.Success?
    ensures var quadro := Enquadrador.Unframed(enquadrador, ReceivedBytes(modulador, sinal));
      quadro.Some? && DetectorErros.Checked(detector, quadro.value).Some?
    ensures var quadro := Enquadrador.Unframed(enquadrador, ReceivedBytes(modulador, sinal)).value;
      var dados := DetectorErros.Checked(detector, quadro).value.0;
      var mensagem := Received(modulador, enquadrador, detector, usarHamming, sinal, erroAntes, errosAntes).resultado.value;
      AllBytes(dados) && Conversor.IsPrintable(mensagem) &&
      (!usarHamming ==> |mensagem| <= |dados|) &&
      (usarHamming ==> |mensagem| <= |dados| / 2)
  {
    var bytes := ReceivedBytes(modulador, sinal);
    var quadro := Enquadrador.Unframed(enquadrador, bytes).value;
    var dados := DetectorErros.Checked(detector, quadro).value.0;
    BytesOfBitsShape(ModuladorDigital.Decodificado(modulador, sinal));
    Enquadrador.UnframedKeepsValues(enquadrador, bytes);
    DetectorErros.CheckedKeepsValues(detector, quadro);
    assert AllBytes(dados) by {
      forall k | 0 <= k < |dados|
        ensures dados[k] < 256
      {
        assert dados[k] in quadro;
        assert dados[k] in bytes;
      }
    }
    ConcludedMessage(usarHamming, dados, errosAntes);
  }

  lemma ConcludedMessage(usarHamming: bool, dados: seq<nat>, errosAntes: nat)
    ensures var mensagem := Concluded(usarHamming, dados, errosAntes).mensagem;
      Conversor.IsPrintable(mensagem) &&
      (!usarHamming ==> |mensagem| <= |dados|) &&
      (usarHamming && AllBytes(dados) ==> |mensagem| <= |dados| / 2)
  {
    if usarHamming {
      var bits := BitsOfBytes(dados);
      var corrigido := CorretorErros.Verified(bits);
      CorretorErros.DecodedShape(bits, |bits| / 8);
      BytesOfBitsShape(CorretorErros.DecodedData(bits));
      Conversor.PrintableBounds(corrigido.0);
      if AllBytes(dados) {
        BitsOfBytesShape(dados);
      }
    } else {
      Conversor.PrintableBounds(dados);
    }
  }

  /** With bit-stuffing framing and the parity detector nothing can raise:
      every signal yields a message. */
  lemma FlagsParidadeNeverFail(
    modulador: ModuladorDigital.Modulador, tamanhoMax: nat, usarHamming: bool, sinal: seq<real>,
    erroAntes: bool, errosAntes: nat)
    ensures Received(modulador, Enquadrador.EnquadradorFlagsBits(tamanhoMax), DetectorErros.DetectorParidade,
                     usarHamming, sinal, erroAntes, errosAntes).resultado.Success?
  {
  }

  /** Three entries when the framer raises, four when the detector does,
      six on success (seven with Hamming), the first announcing the signal
      and the last, on success, carrying the message. */
  lemma ReceivedLogShape(
    modulador: ModuladorDigital.Modulador, enquadrador: Enquadrador.Enquadrador,
    detector: DetectorErros.Detector, usarHamming: bool, sinal: seq<real>,
    erroAntes: bool, errosAntes: nat)
    ensures var rx := Received(modulador, enquadrador, detector, usarHamming, sinal, erroAntes, errosAntes);
      var quadro := Enquadrador.Unframed(enquadrador, ReceivedBytes(modulador, sinal));
      var log := rx.registros;
      |log| == (if quadro.None? then 3
                else if rx.resultado.Failure? then 4
                else if usarHamming then 7 else 6) &&
      log[0] == RecebendoSinal(|sinal|) &&
      (rx.resultado.Success? ==> log[|log| - 1] == MensagemReconstruida(rx.resultado.value))
  {
    hide Enquadrador.Unframed, DetectorErros.Checked, ReceivedBytes, Conversor.Printable,
      CorretorErros.Verified, BitsOfBytes;
    var inicio := RxInicio(modulador, sinal);
    assert |inicio| == 3 && inicio[0] == RecebendoSinal(|sinal|);
    match Enquadrador.Unframed(enquadrador, ReceivedBytes(modulador, sinal))
    case None =>
    case Some(dados) =>
      match DetectorErros.Checked(detector, dados)
      case None =>
      case Some(verificado) =>
        var fim := Concluded(usarHamming, verificado.0, errosAntes);
        assert |fim.registros| == (if usarHamming then 2 else 1);
        assert fim.registros[|fim.registros| - 1] == MensagemReconstruida(fim.mensagem);
  }
}
