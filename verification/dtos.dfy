/** The data the vehicle validator consumes and produces: the submitted
    vehicle (`VeiculoDTO`) and the list of validation messages
    (`ErrosDeValidacao`). */
module Dtos {
  import opened Wrappers

  /** C#'s `int`: a 32-bit signed integer. The validator only compares it,
      so no wrap-around arises. */
  newtype int32 = x: int | -0x8000_0000 <= x < 0x8000_0000

  /** A vehicle submission. `Nome` and `Marca` are C# strings and may be
      null, hence `Option<string>`; `Ano` is the model year. */
  datatype VeiculoDTO = VeiculoDTO(nome: Option<string>, marca: Option<string>, ano: int32)

  /** The three messages the validator can add, one per rule. */
  datatype Mensagem = NomeEmBranco | MarcaEmBranco | AnoMuitoAntigo

  /** The exact text of each message; none of them is empty. */
  function Texto(m: Mensagem): (t: string)
    ensures |t| > 0
  {
    match m
    case NomeEmBranco => "O nome não pode estar em branco."
    case MarcaEmBranco => "A marca não pode estar em branco."
    case AnoMuitoAntigo => "Veículo muito antigo. Somente são aceitos veículos com ano igual ou superior a 1950."
  }

  /** Different messages have different texts, so a text names its message. */
  lemma TextoInjetivo(m1: Mensagem, m2: Mensagem)
    ensures Texto(m1) == Texto(m2) <==> m1 == m2
  {
    match (m1, m2)
    case (NomeEmBranco, MarcaEmBranco) => TextosNomeMarca();
    case (MarcaEmBranco, NomeEmBranco) => TextosNomeMarca();
    case (NomeEmBranco, AnoMuitoAntigo) => TextosNomeAno();
    case (AnoMuitoAntigo, NomeEmBranco) => TextosNomeAno();
    case (MarcaEmBranco, AnoMuitoAntigo) => TextosMarcaAno();
    case (AnoMuitoAntigo, MarcaEmBranco) => TextosMarcaAno();
    case _ =>
  }

  lemma TextosNomeMarca()
    ensures Texto(NomeEmBranco) != Texto(MarcaEmBranco)
  {
    assert |Texto(NomeEmBranco)| == 32;
    assert |Texto(MarcaEmBranco)| == 33;
  }

  lemma TextosNomeAno()
    ensures Texto(NomeEmBranco) != Texto(AnoMuitoAntigo)
  {
    assert |Texto(NomeEmBranco)| == 32;
    assert |Texto(AnoMuitoAntigo)| == 84;
  }

  lemma TextosMarcaAno()
    ensures Texto(MarcaEmBranco) != Texto(AnoMuitoAntigo)
  {
    assert |Texto(MarcaEmBranco)| == 33;
    assert |Texto(AnoMuitoAntigo)| == 84;
  }

  /** The texts of `ms`, in the same order. */
  function TextosDe(ms: seq<Mensagem>): (ts: seq<string>)
    ensures |ts| == |ms|
  {
    if ms == [] then [] else [Texto(ms[0])] + TextosDe(ms[1..])
  }

  /** Entry `i` of the string list is the text of message `i`. */
  lemma {:induction false} TextosDeIndice(ms: seq<Mensagem>, i: nat)
    requires i < |ms|
    ensures TextosDe(ms)[i] == Texto(ms[i])
  {
    if i > 0 {
      TextosDeIndice(ms[1..], i - 1);
    }
  }

  /** The validation outcome: the messages in the order they were added.
      No message at all means the submission is valid. */
  datatype ErrosDeValidacao = ErrosDeValidacao(mensagens: seq<Mensagem>)
  {
    /** The list of strings the C# object holds. */
    function Textos(): seq<string>
    {
      TextosDe(mensagens)
    }
  }

  /** C#'s `string.IsNullOrEmpty`: true of null and of the zero-length string
      only. A string made of blanks is neither, so it is not "null or empty". */
  function IsNullOrEmpty(s: Option<string>): (b: bool)
    ensures b <==> s == None || s == Some("")
    // corollary of the above, stated for callers: any non-empty string passes
    ensures forall v :: s == Some(v) && |v| > 0 ==> !b
  {
    match s
    case None => true
    case Some(v) => |v| == 0
  }
}
