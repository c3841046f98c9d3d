# ForumHub user and topic registries in Dafny

ForumHub is a Spring Boot forum backend. This project models its table-like core:

- the user registry (`UsuarioController` over the `Usuario` entity): register, detail, partial update, delete;
- the topic registry, in two controller variants (`domain.controller.TopicoController` and `controller.TopicoController`), over the `Topico` entity: create, detail, the missing-id branch of update, delete;
- the two user request records (`DadosCadastroUsuario`, `DadosAtualizacaoUsuario`) and their Bean Validation constraints, as predicates.

## How it is modelled

A Spring Data repository is a class that holds one table value. The `UsuarioTable` and `TopicoTable` datatypes each hold a map from id to row and the next id the identity column will hand out. `findById` and `findByEmail` return a fresh entity object copied from a row, the way a detached JPA entity behaves. `save` writes the entity's columns back, giving a new entity the next id. `deleteById` removes a key.

Each controller request is first stated as a pure step on the table: `Cadastro`, `Detalhe`, `Atualizacao`, `Exclusao`, `Criacao`, `DetalheTopico`, `ExclusaoTopico`. Each step returns the table afterwards plus a `Response`: `Ok`, `Created`, `NoContent`, `BadRequest`, `NotFound` or `Conflict`. The properties the code promises are the `ensures` clauses of these functions:

- failures leave the table unchanged;
- only the named fields change;
- exactly one row is added or removed;
- the table stays valid and its uniqueness invariant is preserved.

The controller classes then call the entity constructors, the setters and the repository in the source's order. Each of their methods is proved to take exactly that step. `Executar` runs any sequence of requests one at a time. The lemmas `ExecutarMantemEmailsUnicos` and `ExecutarMantemParesUnicos` prove that no sequence ever stores two users with one email, or two topics with one (titulo, mensagem) pair.

A Java `null` and `Optional` are both `Option`. Strings are `seq<char>`.

- `String.isBlank` is modelled with Java's `Character.isWhitespace` set.
- `@NotBlank` is a different test. Bean Validation accepts a value whose `trim()` is non-empty, and `trim` strips every character up to U+0020. `NotBlankAnotacao` models it.
- `@Size` counts UTF-16 code units, which `Utf16Length` computes.
- Spring rejects a request that fails `@Valid` before the controller body runs. This is modelled as the controller's first `BadRequest` branch.

Three things the code depends on are parameters:

- the password encoder: `encode`, a function-valued field of `UsuarioController`;
- the `@Email` format check: `isEmail`;
- the clock `LocalDateTime.now()`: one argument per reading.

The first `cadastrar` of `domain.controller.TopicoController` reads the clock twice: once in the field initialiser of `new Topico()`, and again in `setDataCriacao(LocalDateTime.now())`. It therefore takes two readings, and the second is the one saved.

Two behaviours of the code are worth stating outright:

- Registration looks the email up and then inserts. Nothing turns a unique-column violation into a Conflict (see "## Left out", concurrency).
- The update treats a blank senha as not provided, as it does a blank nome (UsuarioController.java:107, 112).

## Model

| member | source | states |
|---|---|---|
| `UsuarioControle.Cadastro` | src/main/java/br/com/ramos/forumhub/domain/controller/UsuarioController.java:33-57 | Registration result by case. An invalid request is BadRequest. A valid request whose email is already stored is Conflict. Both leave the table unchanged. Otherwise the response is Created, with the id, nome and email of exactly one new row under a fresh id. That row holds nome, email and `encode(senha)`; all old rows are untouched. Validity and email uniqueness are preserved |
| `UsuarioControle.UsuarioController.Cadastrar` | src/main/java/br/com/ramos/forumhub/domain/controller/UsuarioController.java:33-57 | Its lookup by email, entity construction with the encoded senha, and `save` give exactly the table and response of `Cadastro`. The controller invariant (valid table, unique emails) is kept |
| `UsuarioControle.Detalhe` | src/main/java/br/com/ramos/forumhub/domain/controller/UsuarioController.java:74-86 | NotFound exactly when the id is absent; otherwise Ok with that user's id, nome and email (the body type has no password) |
| `UsuarioControle.UsuarioController.Detalhar` | src/main/java/br/com/ramos/forumhub/domain/controller/UsuarioController.java:74-86 | Returns `Detalhe` of the current table and changes nothing |
| `UsuarioControle.Atualizacao` | src/main/java/br/com/ramos/forumhub/domain/controller/UsuarioController.java:91-119 | BadRequest exactly when validation fails, and NotFound exactly for an absent id; both leave the table unchanged. On Ok, nome becomes the new value only if it is non-null and non-blank. Likewise senha becomes `encode(senha)` only if senha is non-null and non-blank. The email, the id, the key set, nextId and every other user are unchanged. The body shows the updated user. Validity and email uniqueness are preserved |
| `UsuarioControle.UsuarioController.Atualizar` | src/main/java/br/com/ramos/forumhub/domain/controller/UsuarioController.java:91-119 | Its `findById`, conditional `setNome`/`setSenha` calls and `save` give exactly the table and response of `Atualizacao`; invariant kept |
| `UsuarioControle.Exclusao` | src/main/java/br/com/ramos/forumhub/domain/controller/UsuarioController.java:124-139 | NotFound exactly for an absent id, table unchanged; otherwise NoContent and exactly that id removed, every other user in place; invariant preserved |
| `UsuarioControle.UsuarioController.Excluir` | src/main/java/br/com/ramos/forumhub/domain/controller/UsuarioController.java:124-139 | Its lookup and `deleteById` give exactly the table and response of `Exclusao`; invariant kept |
| `UsuarioControle.UsuarioController.constructor` | src/main/java/br/com/ramos/forumhub/domain/controller/UsuarioController.java:24-28 | The controller is wired to the given repository and encoder, and starts with its invariant |
| `UsuarioControle.Aplicar` | src/main/java/br/com/ramos/forumhub/domain/controller/UsuarioController.java:33-139 | Any single request, of any kind, keeps the table valid and its emails unique |
| `UsuarioControle.ExecutarMantemEmailsUnicos` | src/main/java/br/com/ramos/forumhub/domain/controller/UsuarioController.java:36-51 | Under sequential execution of any request sequence, no two stored users ever share an email |
| `UsuarioControle.SegundoCadastroConflita` | src/main/java/br/com/ramos/forumhub/domain/controller/UsuarioController.java:38-51 | Take two valid registrations with the same, previously unused email. The first is Created, the second is Conflict. Afterwards exactly one stored id carries that email |
| `UsuarioControle.SenhaEmBrancoIgnorada` | src/main/java/br/com/ramos/forumhub/domain/controller/UsuarioController.java:112 | Take a whitespace-only senha of six or more characters. It passes `DadosAtualizacaoUsuario`'s `@Size(min = 6)` (DadosAtualizacaoUsuario.java:9-10). The update still answers Ok, but the stored password stays as it was |
| `UsuarioValidacao.Utf16Length` | src/main/java/br/com/ramos/forumhub/domain/usuario/DadosCadastroUsuario.java:10 | The length `@Size` measures lies between the number of code points and twice that, and equals the number of code points when every character lies in the Basic Multilingual Plane |
| `UsuarioValidacao.CadastroRecusado` | src/main/java/br/com/ramos/forumhub/domain/usuario/DadosCadastroUsuario.java:8-10 | A registration is refused when any of these holds: nome is null or only characters up to U+0020; email is null or only such characters, or fails the format check; senha is null or only such characters, or shorter than 6 |
| `UsuarioValidacao.CadastroAceito` | src/main/java/br/com/ramos/forumhub/domain/usuario/DadosCadastroUsuario.java:7-11 | A registration is accepted when all of these hold: nome has a character above U+0020; email has one and is well-formed; senha has one and is at least 6 long |
| `UsuarioValidacao.NotBlankAnotacaoDifereDeIsBlank` | src/main/java/br/com/ramos/forumhub/domain/usuario/DadosCadastroUsuario.java:8 | `@NotBlank` and the controller's `isBlank` test disagree. A nome of one U+3000 passes `@NotBlank` though `isBlank` calls it blank. U+0001 fails `@NotBlank` though `isBlank` calls it not blank |
| `UsuarioValidacao.AtualizacaoNomeLivre` | src/main/java/br/com/ramos/forumhub/domain/usuario/DadosAtualizacaoUsuario.java:7-10 | nome has no constraint, so a null, empty or blank nome never changes the verdict. A null senha is accepted |
| `UsuarioValidacao.AtualizacaoSenhaCurtaRecusada` | src/main/java/br/com/ramos/forumhub/domain/usuario/DadosAtualizacaoUsuario.java:9-10 | A non-null senha of 0 to 5 characters, all in the Basic Multilingual Plane, is refused; this includes `""` |
| `UsuarioValidacao.SenhaBrancaPassaSize` | src/main/java/br/com/ramos/forumhub/domain/usuario/DadosAtualizacaoUsuario.java:9-10 | A whitespace-only senha of at least six characters satisfies `@Size(min = 6)` |
| `DomainUsuario.Usuario.constructor` | src/main/java/br/com/ramos/forumhub/domain/usuario/Usuario.java:27-31 | Stores nome, email and senha exactly as given; no id yet |
| `DomainUsuario.Usuario.SetNome` | src/main/java/br/com/ramos/forumhub/domain/usuario/Usuario.java:39-41 | May modify only the `nome` field, and `getNome` then returns the new value |
| `DomainUsuario.Usuario.SetSenha` | src/main/java/br/com/ramos/forumhub/domain/usuario/Usuario.java:43-45 | May modify only the `senha` field, and `getPassword` then returns the new value |
| `DomainUsuario.DetalhesDeAutenticacao` | src/main/java/br/com/ramos/forumhub/domain/usuario/Usuario.java:49-83 | `getUsername` is the email and `getPassword` the senha. `getAuthorities` is empty. All four account-status flags are true |
| `DomainUsuario.UsuarioRepository.constructor` | src/main/java/br/com/ramos/forumhub/domain/usuario/Usuario.java:14-16 | The table starts empty, and the first generated id is 1 |
| `DomainUsuario.UsuarioRepository.FindById` | src/main/java/br/com/ramos/forumhub/domain/controller/UsuarioController.java:76 | Present exactly when the id is stored; then a fresh entity with that id and the stored columns |
| `DomainUsuario.UsuarioRepository.FindByEmail` | src/main/java/br/com/ramos/forumhub/domain/controller/UsuarioController.java:38 | Non-null exactly when some stored user has that email; then a fresh entity with that email |
| `DomainUsuario.UsuarioRepository.Save` | src/main/java/br/com/ramos/forumhub/domain/controller/UsuarioController.java:51 | A new entity gets the next id, which is then advanced, and is inserted. An entity that already has an id overwrites its row. `save` changes only the entity's `id` field and the table, and keeps the table valid |
| `DomainUsuario.UsuarioRepository.DeleteById` | src/main/java/br/com/ramos/forumhub/domain/controller/UsuarioController.java:135 | Exactly that key is removed, nextId is unchanged, and the table stays valid |
| `DomainTopico.Topico.constructor` | src/main/java/domain/topico/Topico.java:19-23 | A new topic has status Aberto and dataCriacao equal to the clock reading at construction. All other fields are null, the id included |
| `DomainTopico.Topico.SetTitulo` | src/main/java/domain/topico/Topico.java:33 | May modify only `titulo`; `getTitulo` then returns the value set |
| `DomainTopico.Topico.SetMensagem` | src/main/java/domain/topico/Topico.java:36 | May modify only `mensagem`; `getMensagem` then returns the value set |
| `DomainTopico.Topico.SetDataCriacao` | src/main/java/domain/topico/Topico.java:39 | May modify only `dataCriacao`; `getDataCriacao` then returns the value set |
| `DomainTopico.Topico.SetStatus` | src/main/java/domain/topico/Topico.java:42 | May modify only `status`; `getStatus` then returns the value set |
| `DomainTopico.Topico.SetAutor` | src/main/java/domain/topico/Topico.java:45 | May modify only `autor`; `getAutor` then returns the value set |
| `DomainTopico.Topico.SetCurso` | src/main/java/domain/topico/Topico.java:48 | May modify only `curso`; `getCurso` then returns the value set |
| `DomainTopico.TopicoRepository.constructor` | src/main/java/domain/topico/Topico.java:10-12 | The table starts empty, and the first generated id is 1 |
| `DomainTopico.TopicoRepository.ExistsByTituloAndMensagem` | src/main/java/br/com/ramos/forumhub/domain/topico/TopicoRepository.java:7 | True exactly when some stored topic has an equal titulo and an equal mensagem |
| `DomainTopico.TopicoRepository.FindById` | src/main/java/br/com/ramos/forumhub/domain/controller/TopicoController.java:69 | Present exactly when the id is stored; then a fresh entity with that id and the stored columns |
| `DomainTopico.TopicoRepository.Save` | src/main/java/controller/TopicoController.java:33 | A new entity gets the next id, is inserted, and is itself returned. An entity that already has an id overwrites its row, and nothing is promised about the object returned then. Only the entity's `id` field and the table change |
| `DomainTopico.TopicoRepository.DeleteById` | src/main/java/br/com/ramos/forumhub/domain/controller/TopicoController.java:128 | Exactly that key is removed, nextId is unchanged, and the table stays valid |
| `TopicoControle.Criacao` | src/main/java/br/com/ramos/forumhub/domain/controller/TopicoController.java:37-52 | BadRequest exactly when the (titulo, mensagem) pair is stored, with nothing saved. Otherwise exactly one new row is added under a fresh id, with all old rows untouched. It carries the request's titulo, mensagem, autor and curso and the given status and date, and is returned as the body. Validity and pair uniqueness are preserved |
| `TopicoControle.TopicoController.Cadastrar` | src/main/java/br/com/ramos/forumhub/domain/controller/TopicoController.java:35-53 | It builds the topic with setters and saves it. The result is exactly `Criacao` with status NaoRespondido and the date of the second clock reading; invariant kept |
| `TopicoControle.TopicoController.CadastrarComUri` | src/main/java/br/com/ramos/forumhub/domain/controller/TopicoController.java:78-101 | A duplicate is BadRequest. Otherwise the response is Created and the table is that of `Criacao` with the entity defaults: status Aberto and the construction-time date. The invariant is kept |
| `TopicoControle.StatusInicialDosDoisCadastros` | src/main/java/br/com/ramos/forumhub/domain/controller/TopicoController.java:42-47 | The two create paths accept the same requests. Their saved rows differ only in status and date: NaoRespondido on the explicit path, the default Aberto on the other (lines 87-91) |
| `TopicoControle.DetalheTopico` | src/main/java/br/com/ramos/forumhub/domain/controller/TopicoController.java:68-77 | NotFound exactly for an absent id, otherwise Ok with that stored topic |
| `TopicoControle.TopicoController.Detalhar` | src/main/java/br/com/ramos/forumhub/domain/controller/TopicoController.java:68-77 | Returns `DetalheTopico` of the current table and changes nothing |
| `TopicoControle.TopicoController.Atualizar` | src/main/java/br/com/ramos/forumhub/domain/controller/TopicoController.java:104-119 | NotFound exactly for an absent id, and the table is never changed. For a present id the body is the stored topic after `atualizarInformacoes` |
| `TopicoControle.ExclusaoTopico` | src/main/java/br/com/ramos/forumhub/domain/controller/TopicoController.java:122-130 | NotFound exactly for an absent id, table unchanged; otherwise NoContent and exactly that id removed, the others in place; invariant preserved |
| `TopicoControle.TopicoController.Excluir` | src/main/java/br/com/ramos/forumhub/domain/controller/TopicoController.java:122-130 | Its lookup and `deleteById` give exactly the table and response of `ExclusaoTopico`; invariant kept |
| `TopicoControle.TopicoController.constructor` | src/main/java/br/com/ramos/forumhub/domain/controller/TopicoController.java:29-31 | The controller is wired to the given repository and starts with its invariant |
| `TopicoControle.Aplicar` | src/main/java/br/com/ramos/forumhub/domain/controller/TopicoController.java:35-130 | Any single create (from either controller) or delete keeps the table valid and its pairs unique |
| `TopicoControle.ExecutarMantemParesUnicos` | src/main/java/br/com/ramos/forumhub/domain/controller/TopicoController.java:37-50 | Under sequential execution, no create/delete sequence ever stores two topics with the same (titulo, mensagem) |
| `TopicoControleVariante.TopicoController.Cadastrar` | src/main/java/controller/TopicoController.java:21-35 | The result is exactly `Criacao` with the entity's default status Aberto and its construction-time date. The body is the entity `save` returned. The invariant is kept |
| `TopicoControleVariante.TopicoController.constructor` | src/main/java/controller/TopicoController.java:16-18 | The controller is wired to the given repository and starts with its invariant |

## Left out

- Token issuing and checking (`TokenService`) is not modelled. It wraps a JWT library (RFC 7519, HS256 of RFC 7518 section 3.2), and its expiry comes from the host clock. Issuing and checking both use the issuer "forumhub".
- BCrypt hashing and `GeradorDeSenha` are not modelled. The encoder is the parameter `encode`, and password verification at login is not part of this model.
- `UsuarioControle.Cadastro`: the row holds `encode(senha)`, but nothing shows that this differs from the raw senha. `encode` is uninterpreted.
- `encode` is one deterministic function. BCrypt salts each call, so hashing the same senha twice gives different strings; the model does not capture this.
- `listar` in both controllers is not modelled, because it is Spring Data paging and sorting.
- HTTP shaping is reduced to the `Response` status and body. Message texts, headers, the `UriComponentsBuilder` location and JSON serialisation are left out.
- The `DadosDetalhamentoUsuario` and `DadosDetalhamentoTopico` classes are not part of this model. They are assumed to be the user's id, nome and email, and the topic's id and columns.
- Concurrency is not modelled. Two simultaneous registrations with one email can both pass the check, and the database's unique column would then refuse one. A sequential model cannot capture this race, so only the sequential invariant is proved.
- `TopicoControle.TopicoController.Atualizar`: the effect of `atualizarInformacoes` (not part of this model) is a parameter. The table is modelled as unchanged because the controller never calls `save`. Whether a JPA flush would write the change anyway is not modelled.
- `DadosAtualizacaoTopico` and `DadosCadastroTopico` are not part of this model. The topic request is always treated as valid, because its constraints are unknown.
- The actual address format that `@Email` accepts is not modelled; it is the parameter `isEmail`.
- Java strings may contain unpaired surrogates, but Dafny strings cannot. `Utf16Length` counts each code point above U+FFFF as two units.
- `StatusTopico` is not part of this model beyond its two values, `ABERTO` and `NAO_RESPONDIDO`. `LocalDateTime` is an opaque integer reading.
- The no-argument JPA constructor of `Usuario` and null entity fields are left out. Every user the controller saves has non-null nome, email and senha.
- Repository `Save` only accepts an entity whose id is absent or already stored, which is all the controllers ever pass. Saving an entity with an unknown id is not modelled.
- `DomainTopico.TopicoRepository.Save`: for an entity that already has an id, the object `merge` returns is not specified. No controller saves such a topic.
- Spring's dependency injection is not modelled, and neither is the clash between the two controllers both mapped to `/topicos`.
