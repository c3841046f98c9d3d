/** The `TopicoController` of package `controller`: a single create that refuses a duplicate
    (titulo, mensagem) pair and otherwise saves the entity without setting its status. */
module TopicoControleVariante {
  import opened Http
  import opened DomainTopico
  import opened TopicoControle

  class TopicoController {
    const repository: TopicoRepository

    ghost predicate Valid()
      reads repository
    {
      repository.table.Valid() && repository.table.PairsUnique()
    }

    constructor (repository: TopicoRepository)
      requires repository.table.Valid() && repository.table.PairsUnique()
      ensures this.repository == repository && Valid()
    {
      this.repository := repository;
    }

    /** `cadastrar`: the saved topic keeps the defaults of `new Topico()` (status Aberto,
        dataCriacao the clock reading `criadoEm`), and the body is the entity `save` returned. */
    method Cadastrar(dados: DadosCadastroTopico, criadoEm: LocalDateTime) returns (r: Response<TopicoCorpo>)
      requires Valid()
      modifies repository
      ensures Valid()
      ensures Step(repository.table, r) == Criacao(old(repository.table), dados, criadoEm, Aberto)
    {
      var existe := repository.ExistsByTituloAndMensagem(dados.titulo, dados.mensagem);
      if existe {
        return BadRequest;
      }
      var topico := new Topico(criadoEm);
      topico.SetTitulo(dados.titulo);
      topico.SetMensagem(dados.mensagem);
      topico.SetAutor(dados.autor);
      topico.SetCurso(dados.curso);
      var salvo := repository.Save(topico);
      r := Ok(TopicoCorpo(salvo.id.value, salvo.Row()));
    }
  }
}
