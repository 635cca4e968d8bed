# Vehicle submission validator

A Dafny model of `VeiculoValidador.ValidaDTO`, the business-rule check that
the vehicle API runs on every vehicle submission (`VeiculoDTO`: name `Nome`,
brand `Marca`, year `Ano`) before it is stored. The validator returns an
`ErrosDeValidacao` whose list of messages is empty when the submission is
acceptable. It applies three independent rules in a fixed order and reports
every broken rule, not just the first:

1. a null or empty name adds "O nome não pode estar em branco.";
2. a null or empty brand adds "A marca não pode estar em branco.";
3. a year below 1950 adds "Veículo muito antigo. Somente são aceitos veículos com ano igual ou superior a 1950."

"Empty" is C#'s `string.IsNullOrEmpty`: only null and the zero-length string
are refused, so a name or brand made only of blanks passes.

Files:

- `wrappers.dfy` — `Option`, standing in for a C# reference that may be null.
- `dtos.dfy` — the submission, the 32-bit year, the three messages as a
  datatype with their exact texts (`Texto`), the result object, `IsNullOrEmpty`.
- `veiculo_validador.dfy` — `ValidaDTO` itself, written as the three
  appends of the source.
- `regras.dfy` — an independent reference: the validator as a rule table
  filtered by "is this rule broken", in table order.
- `propriedades.dfy` — lemmas tying `ValidaDTO` to the rule table and
  stating count, order, text, boundary and independence properties.

The messages are modelled as a three-valued datatype `Mensagem` whose
`Texto` gives the exact string the source adds; `ErrosDeValidacao.Textos()`
is the list of strings the C# object holds.

## Model

| member | source | states |
|---|---|---|
| Dtos.IsNullOrEmpty | api/Dominio/Validacoes/VeiculoValidador.cs:15-18 | a field is "null or empty" exactly when it is null or the zero-length string; any string of length at least one, blanks included, is not |
| Dtos.Texto | api/Dominio/Validacoes/VeiculoValidador.cs:16-22 | each message has a non-empty text; its body holds the three literals the source adds, and their distinctness is `TextoInjetivo` |
| Dtos.TextosDe | api/Dominio/Validacoes/VeiculoValidador.cs:10-22 | the string list (`Mensagens`, read through `ErrosDeValidacao.Textos`) has exactly one entry per message |
| Dtos.TextosDeIndice | api/Dominio/Validacoes/VeiculoValidador.cs:10-22 | entry i of the string list is the text of message i |
| Dtos.TextoInjetivo | api/Dominio/Validacoes/VeiculoValidador.cs:16-22 | the three message texts are pairwise different, so a text identifies the rule that added it |
| VeiculoValidador.ValidaDTO | api/Dominio/Validacoes/VeiculoValidador.cs:8-25 | the name message is present iff the name is null or empty, the brand message iff the brand is null or empty, the year message iff the year is below 1950; the result is empty iff all three rules hold |
| RegrasDeVeiculo.Violadas | api/Dominio/Validacoes/VeiculoValidador.cs:15-22 | filtering a rule list keeps exactly the rules the submission breaks and never lengthens it; a strictly increasing rule list gives a strictly increasing result |
| ValidadorPropriedades.ValidaDTOSegueRegras | api/Dominio/Validacoes/VeiculoValidador.cs:10-24 | the validator's messages are exactly the broken rules of the table name, brand, year, in that order |
| ValidadorPropriedades.OrdemFixa | api/Dominio/Validacoes/VeiculoValidador.cs:15-22 | messages always come in the relative order name, brand, year |
| ValidadorPropriedades.UmaMensagemPorRegraViolada | api/Dominio/Validacoes/VeiculoValidador.cs:10-24 | not fail-fast: the number of messages equals the number of broken rules, hence at most three, and no message appears twice |
| ValidadorPropriedades.TextoPresente | api/Dominio/Validacoes/VeiculoValidador.cs:16-22 | a message's text is in the list of strings exactly when the message is in the list of messages |
| ValidadorPropriedades.TextosDasMensagens | api/Dominio/Validacoes/VeiculoValidador.cs:15-22 | in the list of strings, each fixed text is present exactly when its rule is broken |
| ValidadorPropriedades.TextoNaoVazioEhAceito | api/Dominio/Validacoes/VeiculoValidador.cs:15-19 | any non-empty name or brand, whitespace-only included, adds no message |
| ValidadorPropriedades.NuloOuVazioEhRecusado | api/Dominio/Validacoes/VeiculoValidador.cs:15-19 | a null name and an empty name each add the name message; a null brand and an empty brand each add the brand message |
| ValidadorPropriedades.AnoLimite | api/Dominio/Validacoes/VeiculoValidador.cs:21-22 | year 1950 adds no year message, year 1949 does |
| ValidadorPropriedades.RegrasIndependentes | api/Dominio/Validacoes/VeiculoValidador.cs:15-22 | two submissions that agree on every rule but one earn the same messages once that rule's message is set aside |
| ValidadorPropriedades.AnoSoAfetaSuaMensagem | api/Dominio/Validacoes/VeiculoValidador.cs:21-22 | changing only the year leaves the name and brand messages, and their order, unchanged |
| ValidadorPropriedades.NomeSoAfetaSuaMensagem | api/Dominio/Validacoes/VeiculoValidador.cs:15-16 | changing only the name leaves the brand and year messages, and their order, unchanged |
| ValidadorPropriedades.MarcaSoAfetaSuaMensagem | api/Dominio/Validacoes/VeiculoValidador.cs:18-19 | changing only the brand leaves the name and year messages, and their order, unchanged |
| ValidadorPropriedades.TodosOsErrosDeUmaVez | Test/Dominio/Entidades/VeiculoTests.cs:26-41 | empty name, empty brand and year 1940 give exactly the three messages, name then brand then year |
| ValidadorPropriedades.EspacosSaoAceitos | api/Dominio/Validacoes/VeiculoValidador.cs:15-19 | a whitespace-only name and brand with year 1950 give no message |

## Left out

- VeiculoValidador.ValidaDTO: a null VeiculoDTO throws NullReferenceException in the source (VeiculoValidador.cs:15); the model's submission is never null.
- The HTTP endpoints that call the validator and answer 400 with the message list are transport code and are left out.
- `VeiculoServico` and `AdministradorServico` (create, read, update, delete, login, paginated and filtered listing) are thin wrappers over the database context and are left out.
- Access tokens and role checks depend on an external token library, and login's password comparison lives in the administrator service; both are left out.
- Database setup, truncation and saving are persistence I/O and are left out.
- The year is C#'s 32-bit `int`; the validator only compares it with 1950, so no overflow behaviour is modelled.
- The message texts are compared only for equality; their wording carries no further meaning in the model.
