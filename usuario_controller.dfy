/** `UsuarioController`: register, detail, partially update and delete users. Each request is a
    pure step on the `usuarios` table (`Cadastro`, `Detalhe`, `Atualizacao`, `Exclusao`), and the
    controller's methods, which drive the repository and the entity, are proved to take that step. */
module UsuarioControle {
  import opened Http
  import opened UsuarioValidacao
  import opened DomainUsuario

  /** `DadosDetalhamentoUsuario`, the body sent back: it carries no password. */
  datatype DetalhamentoUsuario = DetalhamentoUsuario(id: int, nome: string, email: string)

  function Detalhamento(id: int, row: UsuarioRow): DetalhamentoUsuario
  {
    DetalhamentoUsuario(id, row.nome, row.email)
  }

  /** `POST /usuarios`. A request failing validation is refused, an email already stored is a
      conflict, and otherwise one new row under a fresh id holds the given nome and email and the
      ENCODED senha; every failure leaves the table as it was. */
  function Cadastro(t: UsuarioTable, d: DadosCadastroUsuario, encode: string -> string, isEmail: string -> bool)
    : (s: Step<UsuarioTable, DetalhamentoUsuario>)
    ensures s.response.BadRequest? <==> !CadastroValido(d, isEmail)
    ensures s.response.Conflict? <==> CadastroValido(d, isEmail) && t.EmailTaken(d.email.value)
    ensures s.response.BadRequest? || s.response.Conflict? || s.response.Created?
    ensures !s.response.Created? ==> s.state == t
    ensures s.response.Created? ==>
      && var id := s.response.body.id;
      && id == t.nextId && s.state.nextId == t.nextId + 1
      && s.state.rows.Keys == t.rows.Keys + {id}
      && s.state.rows[id] == UsuarioRow(d.nome.value, d.email.value, encode(d.senha.value))
      && s.response.body == DetalhamentoUsuario(id, d.nome.value, d.email.value)
    ensures t.Valid() && s.response.Created? ==>
      s.response.body.id !in t.rows && forall k :: k in t.rows ==> s.state.rows[k] == t.rows[k]
    ensures t.Valid() ==> s.state.Valid()
    ensures t.Valid() && t.EmailsUnique() ==> s.state.EmailsUnique()
  {
    if !CadastroValido(d, isEmail) then Step(t, BadRequest)
    else if t.EmailTaken(d.email.value) then Step(t, Conflict)
    else
      var row := UsuarioRow(d.nome.value, d.email.value, encode(d.senha.value));
      Step(UsuarioTable(t.rows[t.nextId := row], t.nextId + 1), Created(Detalhamento(t.nextId, row)))
  }

  /** `GET /usuarios/{id}`: the stored user's id, nome and email, or NotFound. */
  function Detalhe(t: UsuarioTable, id: int): (r: Response<DetalhamentoUsuario>)
    ensures r.NotFound? <==> id !in t.rows
    ensures r.NotFound? || r.Ok?
    ensures r.Ok? ==> r.body == DetalhamentoUsuario(id, t.rows[id].nome, t.rows[id].email)
  {
    if id in t.rows then Ok(Detalhamento(id, t.rows[id])) else NotFound
  }

  /** `PUT /usuarios/{id}`. After validation and an existing id, nome is replaced only by a
      non-null, non-blank value, and senha only by the encoding of a non-null, non-blank value;
      the id, the email and every other user stay as they were. */
  function Atualizacao(t: UsuarioTable, id: int, d: DadosAtualizacaoUsuario, encode: string -> string)
    : (s: Step<UsuarioTable, DetalhamentoUsuario>)
    ensures s.response.BadRequest? <==> !AtualizacaoValida(d)
    ensures s.response.NotFound? <==> AtualizacaoValida(d) && id !in t.rows
    ensures s.response.BadRequest? || s.response.NotFound? || s.response.Ok?
    ensures !s.response.Ok? ==> s.state == t
    ensures s.response.Ok? ==>
      && id in t.rows
      && s.state.nextId == t.nextId
      && s.state.rows.Keys == t.rows.Keys
      && (forall k :: k in t.rows && k != id ==> s.state.rows[k] == t.rows[k])
      && s.state.rows[id].email == t.rows[id].email
      && s.state.rows[id].nome == (if NotBlank(d.nome) then d.nome.value else t.rows[id].nome)
      && s.state.rows[id].senha == (if NotBlank(d.senha) then encode(d.senha.value) else t.rows[id].senha)
      && s.response.body == DetalhamentoUsuario(id, s.state.rows[id].nome, t.rows[id].email)
    ensures t.Valid() ==> s.state.Valid()
    ensures t.EmailsUnique() ==> s.state.EmailsUnique()
  {
    if !AtualizacaoValida(d) then Step(t, BadRequest)
    else if id !in t.rows then Step(t, NotFound)
    else
      var old_ := t.rows[id];
      var nome := if NotBlank(d.nome) then d.nome.value else old_.nome;
      var senha := if NotBlank(d.senha) then encode(d.senha.value) else old_.senha;
      var row := UsuarioRow(nome, old_.email, senha);
      Step(t.(rows := t.rows[id := row]), Ok(Detalhamento(id, row)))
  }

  /** `DELETE /usuarios/{id}`: NotFound with nothing changed, or exactly that user removed. */
  function Exclusao(t: UsuarioTable, id: int): (s: Step<UsuarioTable, ()>)
    ensures s.response.NotFound? <==> id !in t.rows
    ensures s.response.NotFound? || s.response.NoContent?
    ensures s.response.NotFound? ==> s.state == t
    ensures s.state.nextId == t.nextId
    ensures s.response.NoContent? ==>
      s.state.rows.Keys == t.rows.Keys - {id} && forall k :: k in s.state.rows ==> s.state.rows[k] == t.rows[k]
    ensures t.Valid() ==> s.state.Valid()
    ensures t.EmailsUnique() ==> s.state.EmailsUnique()
  {
    if id !in t.rows then Step(t, NotFound)
    else Step(t.(rows := t.rows - {id}), NoContent)
  }

  /** One request to the controller, for reasoning about any sequence of them. */
  datatype Requisicao =
    | Cadastrar(dados: DadosCadastroUsuario)
    | Detalhar(id: int)
    | Atualizar(id: int, atualizacao: DadosAtualizacaoUsuario)
    | Excluir(id: int)

  /** The table after one request. Each kind of request keeps the table valid and its emails unique. */
  function Aplicar(t: UsuarioTable, r: Requisicao, encode: string -> string, isEmail: string -> bool)
    : (t': UsuarioTable)
    ensures t.Valid() ==> t'.Valid()
    ensures t.Valid() && t.EmailsUnique() ==> t'.EmailsUnique()
  {
    match r
    case Cadastrar(d) => Cadastro(t, d, encode, isEmail).state
    case Detalhar(_) => t
    case Atualizar(id, d) => Atualizacao(t, id, d, encode).state
    case Excluir(id) => Exclusao(t, id).state
  }

  /** The table after the requests have run one at a time, in order. */
  function Executar(t: UsuarioTable, rs: seq<Requisicao>, encode: string -> string, isEmail: string -> bool)
    : UsuarioTable
    decreases |rs|
  {
    if rs == [] then t else Executar(Aplicar(t, rs[0], encode, isEmail), rs[1..], encode, isEmail)
  }

  /** Run one at a time, no sequence of requests ever leaves two users with the same email. */
  lemma {:induction false} ExecutarMantemEmailsUnicos(t: UsuarioTable, rs: seq<Requisicao>, encode: string -> string, isEmail: string -> bool)
    requires t.Valid() && t.EmailsUnique()
    ensures Executar(t, rs, encode, isEmail).Valid()
    ensures Executar(t, rs, encode, isEmail).EmailsUnique()
    decreases |rs|
  {
    if rs != [] {
      ExecutarMantemEmailsUnicos(Aplicar(t, rs[0], encode, isEmail), rs[1..], encode, isEmail);
    }
  }

  /** The set of ids whose row carries `email`. */
  function ComEmail(t: UsuarioTable, email: string): set<int>
  {
    set k | k in t.rows && t.rows[k].email == email
  }

  /** Two valid registrations with one email: the first is created, the second is a conflict,
      and afterwards exactly one stored user has that email. */
  lemma SegundoCadastroConflita(t: UsuarioTable, d1: DadosCadastroUsuario, d2: DadosCadastroUsuario,
                                encode: string -> string, isEmail: string -> bool)
    requires CadastroValido(d1, isEmail) && CadastroValido(d2, isEmail) && d2.email == d1.email
    requires t.Valid() && !t.EmailTaken(d1.email.value)
    ensures Cadastro(t, d1, encode, isEmail).response.Created?
    ensures Cadastro(Cadastro(t, d1, encode, isEmail).state, d2, encode, isEmail).response == Conflict
    ensures ComEmail(Cadastro(Cadastro(t, d1, encode, isEmail).state, d2, encode, isEmail).state, d1.email.value) == {t.nextId}
  {
    var s1 := Cadastro(t, d1, encode, isEmail);
    var e := d1.email.value;
    assert s1.state.rows[t.nextId].email == e;
    assert s1.state.EmailTaken(e);
    assert forall k :: k in t.rows ==> t.rows[k].email != e;
  }

  /** A whitespace-only senha of six characters or more passes the update's validation, yet the
      update leaves the stored password as it was. */
  lemma SenhaEmBrancoIgnorada(t: UsuarioTable, id: int, nome: Option<string>, senha: string, encode: string -> string)
    requires IsBlank(senha) && |senha| >= SenhaMinima && id in t.rows
    ensures AtualizacaoValida(DadosAtualizacaoUsuario(nome, Some(senha)))
    ensures Atualizacao(t, id, DadosAtualizacaoUsuario(nome, Some(senha)), encode).response.Ok?
    ensures Atualizacao(t, id, DadosAtualizacaoUsuario(nome, Some(senha)), encode).state.rows[id].senha == t.rows[id].senha
  {
    SenhaBrancaPassaSize(senha);
  }

  /** The controller, wired to its repository, the `PasswordEncoder` (`encode`) and the format
      check behind `@Email` (`isEmail`). */
  class UsuarioController {
    const repository: UsuarioRepository
    const encode: string -> string
    const isEmail: string -> bool

    ghost predicate Valid()
      reads repository
    {
      repository.table.Valid() && repository.table.EmailsUnique()
    }

    constructor (repository: UsuarioRepository, encode: string -> string, isEmail: string -> bool)
      requires repository.table.Valid() && repository.table.EmailsUnique()
      ensures this.repository == repository && this.encode == encode && this.isEmail == isEmail
      ensures Valid()
    {
      this.repository := repository;
      this.encode := encode;
      this.isEmail := isEmail;
    }

    /** `cadastrar`: look the email up, and only if it is free save a new entity built with the
        encoded senha. */
    method Cadastrar(dados: DadosCadastroUsuario) returns (r: Response<DetalhamentoUsuario>)
      requires Valid()
      modifies repository
      ensures Valid()
      ensures Step(repository.table, r) == Cadastro(old(repository.table), dados, encode, isEmail)
    {
      if !CadastroValido(dados, isEmail) {
        return BadRequest;
      }
      var existente := repository.FindByEmail(dados.email.value);
      if existente != null {
        return Conflict;
      }
      var usuario := new Usuario(dados.nome.value, dados.email.value, encode(dados.senha.value));
      repository.Save(usuario);
      r := Created(Detalhamento(usuario.id.value, usuario.Row()));
    }

    /** `detalhar`: changes nothing. */
    method Detalhar(id: int) returns (r: Response<DetalhamentoUsuario>)
      ensures r == Detalhe(repository.table, id)
    {
      var optional := repository.FindById(id);
      if optional.None? {
        return NotFound;
      }
      var usuario := optional.value;
      r := Ok(Detalhamento(usuario.id.value, usuario.Row()));
    }

    /** `atualizar`: fetch the entity, apply the setters the non-blank fields call for, save it. */
    method Atualizar(id: int, dados: DadosAtualizacaoUsuario) returns (r: Response<DetalhamentoUsuario>)
      requires Valid()
      modifies repository
      ensures Valid()
      ensures Step(repository.table, r) == Atualizacao(old(repository.table), id, dados, encode)
    {
      if !AtualizacaoValida(dados) {
        return BadRequest;
      }
      var optional := repository.FindById(id);
      if optional.None? {
        return NotFound;
      }
      var usuario := optional.value;
      if NotBlank(dados.nome) {
        usuario.SetNome(dados.nome.value);
      }
      if NotBlank(dados.senha) {
        usuario.SetSenha(encode(dados.senha.value));
      }
      repository.Save(usuario);
      r := Ok(Detalhamento(usuario.id.value, usuario.Row()));
    }

    /** `excluir`: look the id up, and only if it is there delete it. */
    method Excluir(id: int) returns (r: Response<()>)
      requires Valid()
      modifies repository
      ensures Valid()
      ensures Step(repository.table, r) == Exclusao(old(repository.table), id)
    {
      var optional := repository.FindById(id);
      if optional.None? {
        return NotFound;
      }
      repository.DeleteById(id);
      r := NoContent;
    }
  }
}
