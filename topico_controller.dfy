/** The `TopicoController` of package `domain.controller`: two ways to create a topic, detail,
    the missing-id branch of update, and delete. Each request is a pure step on the `topicos`
    table, and the controller's methods, which build the entity by setters and drive the
    repository, are proved to take that step. */
module TopicoControle {
  import opened Http
  import opened DomainTopico

  /** A saved topic as a response body: its id and its columns. */
  datatype TopicoCorpo = TopicoCorpo(id: int, topico: TopicoRow)

  /** Creating a topic from `d` whose `dataCriacao` and `status` end up as given: a pair
      (titulo, mensagem) already stored is refused with nothing saved, otherwise exactly one row
      carrying the request's titulo, mensagem, autor and curso is added under a fresh id. */
  function Criacao(t: TopicoTable, d: DadosCadastroTopico, dataCriacao: LocalDateTime, status: StatusTopico)
    : (s: Step<TopicoTable, TopicoCorpo>)
    ensures s.response.BadRequest? <==> t.PairTaken(d.titulo, d.mensagem)
    ensures s.response.BadRequest? || s.response.Ok?
    ensures s.response.BadRequest? ==> s.state == t
    ensures s.response.Ok? ==>
      && var id := s.response.body.id;
      && id == t.nextId && s.state.nextId == t.nextId + 1
      && s.state.rows.Keys == t.rows.Keys + {id}
      && s.state.rows[id] == s.response.body.topico
      && s.response.body.topico == TopicoRow(d.titulo, d.mensagem, dataCriacao, status, d.autor, d.curso)
    ensures t.Valid() && s.response.Ok? ==>
      s.response.body.id !in t.rows && forall k :: k in t.rows ==> s.state.rows[k] == t.rows[k]
    ensures t.Valid() ==> s.state.Valid()
    ensures t.Valid() && t.PairsUnique() ==> s.state.PairsUnique()
  {
    if t.PairTaken(d.titulo, d.mensagem) then Step(t, BadRequest)
    else
      var row := TopicoRow(d.titulo, d.mensagem, dataCriacao, status, d.autor, d.curso);
      Step(TopicoTable(t.rows[t.nextId := row], t.nextId + 1), Ok(TopicoCorpo(t.nextId, row)))
  }

  /** `GET /topicos/{id}`: the stored topic, or NotFound. */
  function DetalheTopico(t: TopicoTable, id: int): (r: Response<TopicoCorpo>)
    ensures r.NotFound? <==> id !in t.rows
    ensures r.NotFound? || r.Ok?
    ensures r.Ok? ==> r.body == TopicoCorpo(id, t.rows[id])
  {
    if id in t.rows then Ok(TopicoCorpo(id, t.rows[id])) else NotFound
  }

  /** `DELETE /topicos/{id}`: NotFound with nothing changed, or exactly that topic removed. */
  function ExclusaoTopico(t: TopicoTable, id: int): (s: Step<TopicoTable, ()>)
    ensures s.response.NotFound? <==> id !in t.rows
    ensures s.response.NotFound? || s.response.NoContent?
    ensures s.response.NotFound? ==> s.state == t
    ensures s.state.nextId == t.nextId
    ensures s.response.NoContent? ==>
      s.state.rows.Keys == t.rows.Keys - {id} && forall k :: k in s.state.rows ==> s.state.rows[k] == t.rows[k]
    ensures t.Valid() ==> s.state.Valid()
    ensures t.PairsUnique() ==> s.state.PairsUnique()
  {
    if id !in t.rows then Step(t, NotFound)
    else Step(t.(rows := t.rows - {id}), NoContent)
  }

  /** The two ways of creating a topic answer the same and save the same row, except that the
      first saves status NaoRespondido and the second leaves the entity's default Aberto. */
  lemma StatusInicialDosDoisCadastros(t: TopicoTable, d: DadosCadastroTopico, agora: LocalDateTime, criadoEm: LocalDateTime)
    ensures Criacao(t, d, agora, NaoRespondido).response.Ok? == Criacao(t, d, criadoEm, Aberto).response.Ok?
    ensures Criacao(t, d, agora, NaoRespondido).response.Ok? ==>
      && Criacao(t, d, agora, NaoRespondido).response.body.topico.status == NaoRespondido
      && Criacao(t, d, criadoEm, Aberto).response.body.topico.status == Aberto
      && Criacao(t, d, agora, NaoRespondido).response.body.topico.(dataCriacao := criadoEm, status := Aberto)
         == Criacao(t, d, criadoEm, Aberto).response.body.topico
  {
  }

  /** A request that changes the `topicos` table, from either controller. */
  datatype Requisicao =
    | Criar(dados: DadosCadastroTopico, dataCriacao: LocalDateTime, status: StatusTopico)
    | Excluir(id: int)

  /** The table after one request. Each kind keeps the table valid and its pairs unique. */
  function Aplicar(t: TopicoTable, r: Requisicao): (t': TopicoTable)
    ensures t.Valid() ==> t'.Valid()
    ensures t.Valid() && t.PairsUnique() ==> t'.PairsUnique()
  {
    match r
    case Criar(d, c, st) => Criacao(t, d, c, st).state
    case Excluir(id) => ExclusaoTopico(t, id).state
  }

  /** The table after the requests have run one at a time, in order. */
  function Executar(t: TopicoTable, rs: seq<Requisicao>): TopicoTable
    decreases |rs|
  {
    if rs == [] then t else Executar(Aplicar(t, rs[0]), rs[1..])
  }

  /** Run one at a time, no sequence of creations and deletions ever stores two topics with the
      same titulo and mensagem. */
  lemma {:induction false} ExecutarMantemParesUnicos(t: TopicoTable, rs: seq<Requisicao>)
    requires t.Valid() && t.PairsUnique()
    ensures Executar(t, rs).Valid() && Executar(t, rs).PairsUnique()
    decreases |rs|
  {
    if rs != [] {
      ExecutarMantemParesUnicos(Aplicar(t, rs[0]), rs[1..]);
    }
  }

  class TopicoController {
    const repository: TopicoRepository

    ghost predicate Valid()
      reads repository
    {
      repository.table.Valid() && repository.table.PairsUnique()
    }

    constructor (repository: TopicoRepository)
      requires repository.table.Valid() && repository.table.PairsUnique()
      ensures this.repository == repository && Valid()
    {
      this.repository := repository;
    }

    /** The first `cadastrar`: the clock is read twice, by the field initialiser of `new Topico()`
        (`criadoEm`) and by `setDataCriacao(LocalDateTime.now())` (`agora`); the second wins.
        Status is set to NaoRespondido. */
    method Cadastrar(dados: DadosCadastroTopico, criadoEm: LocalDateTime, agora: LocalDateTime)
      returns (r: Response<TopicoCorpo>)
      requires Valid()
      modifies repository
      ensures Valid()
      ensures Step(repository.table, r) == Criacao(old(repository.table), dados, agora, NaoRespondido)
    {
      var existe := repository.ExistsByTituloAndMensagem(dados.titulo, dados.mensagem);
      if existe {
        return BadRequest;
      }
      var topico := new Topico(criadoEm);
      topico.SetTitulo(dados.titulo);
      topico.SetMensagem(dados.mensagem);
      topico.SetAutor(dados.autor);
      topico.SetCurso(dados.curso);
      topico.SetStatus(NaoRespondido);
      topico.SetDataCriacao(agora);
      var _ := repository.Save(topico);
      r := Ok(TopicoCorpo(topico.id.value, topico.Row()));
    }

    /** The second `cadastrar`: a duplicate is the BAD_REQUEST of a `ResponseStatusException`;
        neither status nor date is set, so the entity's defaults are saved; the answer is 201. */
    method CadastrarComUri(dados: DadosCadastroTopico, criadoEm: LocalDateTime) returns (r: Response<TopicoCorpo>)
      requires Valid()
      modifies repository
      ensures Valid()
      ensures var s := Criacao(old(repository.table), dados, criadoEm, Aberto);
        repository.table == s.state && r == (if s.response.Ok? then Created(s.response.body) else BadRequest)
    {
      var existe := repository.ExistsByTituloAndMensagem(dados.titulo, dados.mensagem);
      if existe {
        return BadRequest;
      }
      var topico := new Topico(criadoEm);
      topico.SetTitulo(dados.titulo);
      topico.SetMensagem(dados.mensagem);
      topico.SetAutor(dados.autor);
      topico.SetCurso(dados.curso);
      var _ := repository.Save(topico);
      r := Created(TopicoCorpo(topico.id.value, topico.Row()));
    }

    /** `detalhar`: changes nothing. */
    method Detalhar(id: int) returns (r: Response<TopicoCorpo>)
      ensures r == DetalheTopico(repository.table, id)
    {
      var optional := repository.FindById(id);
      if optional.None? {
        return NotFound;
      }
      var topico := optional.value;
      r := Ok(TopicoCorpo(topico.id.value, topico.Row()));
    }

    /** `atualizar`: an absent id is NotFound. For a present one, `atualizarInformacoes` stands for
        the entity's `atualizarInformacoes(dados)`; the controller never calls `save`, and the
        table is left as it was. */
    method Atualizar(id: int, atualizarInformacoes: TopicoRow -> TopicoRow) returns (r: Response<TopicoCorpo>)
      ensures r.NotFound? <==> id !in repository.table.rows
      ensures r.NotFound? || r.Ok?
      ensures r.Ok? ==> r.body == TopicoCorpo(id, atualizarInformacoes(repository.table.rows[id]))
    {
      var optional := repository.FindById(id);
      if optional.None? {
        return NotFound;
      }
      var topico := optional.value;
      r := Ok(TopicoCorpo(topico.id.value, atualizarInformacoes(topico.Row())));
    }

    /** `excluir`: look the id up, and only if it is there delete it. */
    method Excluir(id: int) returns (r: Response<()>)
      requires Valid()
      modifies repository
      ensures Valid()
      ensures Step(repository.table, r) == ExclusaoTopico(old(repository.table), id)
    {
      var optional := repository.FindById(id);
      if optional.None? {
        return NotFound;
      }
      repository.DeleteById(id);
      r := NoContent;
    }
  }
}
