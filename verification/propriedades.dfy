/** What `ValidaDTO` promises beyond one message at a time: it agrees with
    the rule table, keeps the fixed order, reports each broken rule exactly
    once, its texts are the fixed strings, and its rules do not interfere
    with one another. */
module ValidadorPropriedades {
  import opened Wrappers
  import opened Dtos
  import opened VeiculoValidador
  import opened RegrasDeVeiculo

  /** `ms` with every occurrence of `m` removed, order kept. */
  function SemMensagem(ms: seq<Mensagem>, m: Mensagem): (r: seq<Mensagem>)
    ensures forall x :: x in r <==> x in ms && x != m
    ensures |r| <= |ms|
  {
    if ms == [] then []
    else if ms[0] == m then SemMensagem(ms[1..], m)
    else [ms[0]] + SemMensagem(ms[1..], m)
  }

  /** The distinct entries of a strictly ordered list are as many as its entries. */
  lemma {:induction false} CrescenteSemRepeticao(s: seq<Mensagem>)
    requires Crescente(s)
    ensures |set m | m in s| == |s|
  {
    if s != [] {
      CrescenteSemRepeticao(s[1..]);
      assert s[0] !in s[1..];
      assert (set m | m in s) == {s[0]} + (set m | m in s[1..]);
    }
  }

  /** Checking a rule list is checking its first rule, then the rest. */
  lemma {:induction false} ViolaPrimeiro(dto: VeiculoDTO, h: Mensagem, resto: seq<Mensagem>)
    ensures Violadas(dto, [h] + resto) == Se(dto, h) + Violadas(dto, resto)
  {
    assert ([h] + resto)[0] == h;
    assert ([h] + resto)[1..] == resto;
  }

  /** The validator's list is the three rules' contributions, one after another. */
  lemma ValidaDTOEmPartes(dto: VeiculoDTO)
    ensures ValidaDTO(dto).mensagens == Se(dto, NomeEmBranco) + Se(dto, MarcaEmBranco) + Se(dto, AnoMuitoAntigo)
  {
  }

  /** The rule table, checked from its last entry back to its first. */
  lemma RegraDoAno(dto: VeiculoDTO)
    ensures Violadas(dto, [AnoMuitoAntigo]) == Se(dto, AnoMuitoAntigo)
  {
    ViolaPrimeiro(dto, AnoMuitoAntigo, []);
    assert [AnoMuitoAntigo] == [AnoMuitoAntigo] + [];
  }

  lemma RegrasDaMarcaEDoAno(dto: VeiculoDTO)
    ensures Violadas(dto, [MarcaEmBranco, AnoMuitoAntigo]) == Se(dto, MarcaEmBranco) + Se(dto, AnoMuitoAntigo)
  {
    RegraDoAno(dto);
    ViolaPrimeiro(dto, MarcaEmBranco, [AnoMuitoAntigo]);
    assert [MarcaEmBranco, AnoMuitoAntigo] == [MarcaEmBranco] + [AnoMuitoAntigo];
  }

  lemma RegrasEmPartes(dto: VeiculoDTO)
    ensures Violadas(dto, Regras) == Se(dto, NomeEmBranco) + (Se(dto, MarcaEmBranco) + Se(dto, AnoMuitoAntigo))
  {
    RegrasDaMarcaEDoAno(dto);
    ViolaPrimeiro(dto, NomeEmBranco, [MarcaEmBranco, AnoMuitoAntigo]);
    assert Regras == [NomeEmBranco] + [MarcaEmBranco, AnoMuitoAntigo];
  }

  /** The validator reports exactly the broken rules of the table, in table order. */
  lemma ValidaDTOSegueRegras(dto: VeiculoDTO)
    ensures ValidaDTO(dto).mensagens == Violadas(dto, Regras)
  {
    ValidaDTOEmPartes(dto);
    RegrasEmPartes(dto);
  }

  /** Messages come in the fixed order name, brand, year. */
  lemma OrdemFixa(dto: VeiculoDTO)
    ensures forall i, j :: 0 <= i < j < |ValidaDTO(dto).mensagens| ==>
              Posicao(ValidaDTO(dto).mensagens[i]) < Posicao(ValidaDTO(dto).mensagens[j])
  {
    ValidaDTOSegueRegras(dto);
    assert Crescente(Regras);
  }

  /** Not fail-fast: there are as many messages as broken rules, so at most
      three, and no message appears twice. */
  lemma UmaMensagemPorRegraViolada(dto: VeiculoDTO)
    ensures |ValidaDTO(dto).mensagens| == |RegrasVioladas(dto)|
    ensures |ValidaDTO(dto).mensagens| <= 3
    ensures forall i, j :: 0 <= i < j < |ValidaDTO(dto).mensagens| ==>
              ValidaDTO(dto).mensagens[i] != ValidaDTO(dto).mensagens[j]
  {
    ValidaDTOSegueRegras(dto);
    var v := Violadas(dto, Regras);
    assert Crescente(Regras);
    CrescenteSemRepeticao(v);
    assert (set m | m in v) == RegrasVioladas(dto);
  }

  /** A text is in the list of strings exactly when its message is in the
      list of messages. */
  lemma {:induction false} TextoPresente(ms: seq<Mensagem>, m: Mensagem)
    ensures Texto(m) in TextosDe(ms) <==> m in ms
  {
    if ms != [] {
      TextoPresente(ms[1..], m);
      TextoInjetivo(m, ms[0]);
      assert ms == [ms[0]] + ms[1..];
    }
  }

  /** The strings the C# object ends up holding: each fixed text is present
      exactly when its rule is broken. */
  lemma TextosDasMensagens(dto: VeiculoDTO)
    ensures Texto(NomeEmBranco) in ValidaDTO(dto).Textos() <==> IsNullOrEmpty(dto.nome)
    ensures Texto(MarcaEmBranco) in ValidaDTO(dto).Textos() <==> IsNullOrEmpty(dto.marca)
    ensures Texto(AnoMuitoAntigo) in ValidaDTO(dto).Textos() <==> dto.ano < AnoMinimo
  {
    var ms := ValidaDTO(dto).mensagens;
    TextoPresente(ms, NomeEmBranco);
    TextoPresente(ms, MarcaEmBranco);
    TextoPresente(ms, AnoMuitoAntigo);
  }

  /** Any non-empty name or brand passes its rule, blanks included. */
  lemma TextoNaoVazioEhAceito(dto: VeiculoDTO, nome: string, marca: string)
    requires |nome| > 0 && |marca| > 0
    ensures NomeEmBranco !in ValidaDTO(dto.(nome := Some(nome))).mensagens
    ensures MarcaEmBranco !in ValidaDTO(dto.(marca := Some(marca))).mensagens
  {
  }

  /** Null and the empty string are each refused, for name and brand alike. */
  lemma NuloOuVazioEhRecusado(dto: VeiculoDTO)
    ensures NomeEmBranco in ValidaDTO(dto.(nome := Some(""))).mensagens
    ensures NomeEmBranco in ValidaDTO(dto.(nome := None)).mensagens
    ensures MarcaEmBranco in ValidaDTO(dto.(marca := Some(""))).mensagens
    ensures MarcaEmBranco in ValidaDTO(dto.(marca := None)).mensagens
  {
  }

  /** 1950 itself is accepted; 1949 is refused. */
  lemma AnoLimite(dto: VeiculoDTO)
    ensures AnoMuitoAntigo !in ValidaDTO(dto.(ano := 1950)).mensagens
    ensures AnoMuitoAntigo in ValidaDTO(dto.(ano := 1949)).mensagens
  {
  }

  /** Removing `m` from a concatenation removes it from each part. */
  lemma {:induction false} SemMensagemConcatena(a: seq<Mensagem>, b: seq<Mensagem>, m: Mensagem)
    ensures SemMensagem(a + b, m) == SemMensagem(a, m) + SemMensagem(b, m)
  {
    if a != [] {
      assert (a + b)[0] == a[0];
      assert (a + b)[1..] == a[1..] + b;
      SemMensagemConcatena(a[1..], b, m);
    } else {
      assert a + b == b;
    }
  }

  /** A single rule contributes the same messages apart from `m` to two
      submissions that agree on every rule but `m`. */
  lemma MesmaContribuicao(d1: VeiculoDTO, d2: VeiculoDTO, h: Mensagem, m: Mensagem)
    requires forall x :: x != m ==> (Violada(d1, x) <==> Violada(d2, x))
    ensures SemMensagem(Se(d1, h), m) == SemMensagem(Se(d2, h), m)
  {
    if h == m {
      assert SemMensagem([h], m) == [];
    }
  }

  /** Two submissions that break the same rules apart from `m` earn the same
      messages apart from `m`, whatever rule list is checked. */
  lemma {:induction false} RegrasIndependentes(d1: VeiculoDTO, d2: VeiculoDTO, regras: seq<Mensagem>, m: Mensagem)
    requires forall x :: x != m ==> (Violada(d1, x) <==> Violada(d2, x))
    ensures SemMensagem(Violadas(d1, regras), m) == SemMensagem(Violadas(d2, regras), m)
  {
    if regras != [] {
      var h := regras[0];
      var resto := regras[1..];
      assert regras == [h] + resto;
      RegrasIndependentes(d1, d2, resto, m);
      ViolaPrimeiro(d1, h, resto);
      ViolaPrimeiro(d2, h, resto);
      SemMensagemConcatena(Se(d1, h), Violadas(d1, resto), m);
      SemMensagemConcatena(Se(d2, h), Violadas(d2, resto), m);
      MesmaContribuicao(d1, d2, h, m);
    }
  }

  /** Changing the year changes nothing but the year message. */
  lemma AnoSoAfetaSuaMensagem(dto: VeiculoDTO, ano: int32)
    ensures SemMensagem(ValidaDTO(dto.(ano := ano)).mensagens, AnoMuitoAntigo)
         == SemMensagem(ValidaDTO(dto).mensagens, AnoMuitoAntigo)
  {
    ValidaDTOSegueRegras(dto);
    ValidaDTOSegueRegras(dto.(ano := ano));
    RegrasIndependentes(dto, dto.(ano := ano), Regras, AnoMuitoAntigo);
  }

  /** Changing the name changes nothing but the name message. */
  lemma NomeSoAfetaSuaMensagem(dto: VeiculoDTO, nome: Option<string>)
    ensures SemMensagem(ValidaDTO(dto.(nome := nome)).mensagens, NomeEmBranco)
         == SemMensagem(ValidaDTO(dto).mensagens, NomeEmBranco)
  {
    ValidaDTOSegueRegras(dto);
    ValidaDTOSegueRegras(dto.(nome := nome));
    RegrasIndependentes(dto, dto.(nome := nome), Regras, NomeEmBranco);
  }

  /** Changing the brand changes nothing but the brand message. */
  lemma MarcaSoAfetaSuaMensagem(dto: VeiculoDTO, marca: Option<string>)
    ensures SemMensagem(ValidaDTO(dto.(marca := marca)).mensagens, MarcaEmBranco)
         == SemMensagem(ValidaDTO(dto).mensagens, MarcaEmBranco)
  {
    ValidaDTOSegueRegras(dto);
    ValidaDTOSegueRegras(dto.(marca := marca));
    RegrasIndependentes(dto, dto.(marca := marca), Regras, MarcaEmBranco);
  }

  /** Empty name, empty brand and year 1940 earn all three messages, in order. */
  lemma TodosOsErrosDeUmaVez()
    ensures ValidaDTO(VeiculoDTO(Some(""), Some(""), 1940)).mensagens
         == [NomeEmBranco, MarcaEmBranco, AnoMuitoAntigo]
    ensures |ValidaDTO(VeiculoDTO(Some(""), Some(""), 1940)).Textos()| == 3
  {
  }

  /** A blank-only name and brand with year 1950 are accepted. */
  lemma EspacosSaoAceitos()
    ensures ValidaDTO(VeiculoDTO(Some(" "), Some("   "), 1950)).mensagens == []
  {
  }
}
