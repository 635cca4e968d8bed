/** A reference description of the validator as a table of rules. Each rule
    is named by the message it adds and tests one field of the submission.
    The messages a submission earns are those of the rules it breaks, taken
    in table order. */
module RegrasDeVeiculo {
  import opened Wrappers
  import opened Dtos
  import opened VeiculoValidador

  /** The rule table, in the order the validator reports. */
  const Regras: seq<Mensagem> := [NomeEmBranco, MarcaEmBranco, AnoMuitoAntigo]

  /** Whether `dto` breaks the rule behind message `m`; each rule looks at
      one field only. */
  predicate Violada(dto: VeiculoDTO, m: Mensagem)
  {
    match m
    case NomeEmBranco => IsNullOrEmpty(dto.nome)
    case MarcaEmBranco => IsNullOrEmpty(dto.marca)
    case AnoMuitoAntigo => dto.ano < AnoMinimo
  }

  /** The message of rule `m` alone, if `dto` breaks it. */
  function Se(dto: VeiculoDTO, m: Mensagem): seq<Mensagem>
  {
    if Violada(dto, m) then [m] else []
  }

  /** Messages listed in strictly increasing output order. */
  predicate Crescente(s: seq<Mensagem>)
  {
    forall i, j :: 0 <= i < j < |s| ==> Posicao(s[i]) < Posicao(s[j])
  }

  /** The rules among `regras` that `dto` breaks; a list in output order
      gives a result in output order. */
  function Violadas(dto: VeiculoDTO, regras: seq<Mensagem>): (v: seq<Mensagem>)
    ensures forall m :: m in v <==> m in regras && Violada(dto, m)
    ensures |v| <= |regras|
    ensures Crescente(regras) ==> Crescente(v)
    decreases |regras|
  {
    if regras == [] then []
    else
      var resto := Violadas(dto, regras[1..]);
      assert Crescente(regras) ==> forall m :: m in regras[1..] ==> Posicao(regras[0]) < Posicao(m);
      if Violada(dto, regras[0]) then [regras[0]] + resto else resto
  }

  /** The set of rules a submission breaks. */
  function RegrasVioladas(dto: VeiculoDTO): set<Mensagem>
  {
    set m | m in Regras && Violada(dto, m)
  }
}
