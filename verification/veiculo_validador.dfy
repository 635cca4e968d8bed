/** `VeiculoValidador.ValidaDTO`: checks a vehicle submission against three
    independent rules and reports every rule it breaks, in a fixed order.
    It does not stop at the first failure. */
module VeiculoValidador {
  import opened Wrappers
  import opened Dtos

  /** The oldest model year that is accepted. */
  const AnoMinimo: int32 := 1950

  /** Where a message stands in the fixed output order: name, brand, year. */
  function Posicao(m: Mensagem): nat
  {
    match m
    case NomeEmBranco => 0
    case MarcaEmBranco => 1
    case AnoMuitoAntigo => 2
  }

  /** The validator. Each rule appends its message when it is broken:
      a null or empty name, a null or empty brand, a year before 1950. */
  function ValidaDTO(dto: VeiculoDTO): (r: ErrosDeValidacao)
    // each message is reported exactly when its rule is broken
    ensures NomeEmBranco in r.mensagens <==> IsNullOrEmpty(dto.nome)
    ensures MarcaEmBranco in r.mensagens <==> IsNullOrEmpty(dto.marca)
    ensures AnoMuitoAntigo in r.mensagens <==> dto.ano < AnoMinimo
    // valid exactly when all three rules hold
    ensures r.mensagens == [] <==>
              !IsNullOrEmpty(dto.nome) && !IsNullOrEmpty(dto.marca) && dto.ano >= AnoMinimo
  {
    var mensagens := [];
    var mensagens := if IsNullOrEmpty(dto.nome) then mensagens + [NomeEmBranco] else mensagens;
    var mensagens := if IsNullOrEmpty(dto.marca) then mensagens + [MarcaEmBranco] else mensagens;
    var mensagens := if dto.ano < AnoMinimo then mensagens + [AnoMuitoAntigo] else mensagens;
    ErrosDeValidacao(mensagens)
  }
}
