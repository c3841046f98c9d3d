/** The `Topico` entity and, in place of the Spring Data `TopicoRepository`, an in-memory table of
    `topicos` rows keyed by a generated id. */
module DomainTopico {
  import opened Http

  /** `StatusTopico`; only the two values the controllers and the entity use are modelled. */
  datatype StatusTopico = Aberto | NaoRespondido

  /** A reading of the clock behind `LocalDateTime.now()`; only equality of readings matters. */
  type LocalDateTime = int

  /** The persisted columns of one topic other than its key. */
  datatype TopicoRow = TopicoRow(
    titulo: Option<string>,
    mensagem: Option<string>,
    dataCriacao: LocalDateTime,
    status: StatusTopico,
    autor: Option<string>,
    curso: Option<string>)

  /** The `topicos` table: rows by id and the next id the identity column hands out. */
  datatype TopicoTable = TopicoTable(rows: map<int, TopicoRow>, nextId: int)
  {
    /** Ids start at 1 and every stored id was handed out before. */
    predicate Valid()
    {
      1 <= nextId && forall k :: k in rows ==> 1 <= k < nextId
    }

    /** `existsByTituloAndMensagem(titulo, mensagem)`: some stored topic has both, where a null
        argument matches a null column. */
    predicate PairTaken(titulo: Option<string>, mensagem: Option<string>)
    {
      exists k :: k in rows && rows[k].titulo == titulo && rows[k].mensagem == mensagem
    }

    /** No two stored topics share both titulo and mensagem. */
    predicate PairsUnique()
    {
      forall j, k :: j in rows && k in rows && rows[j].titulo == rows[k].titulo && rows[j].mensagem == rows[k].mensagem ==> j == k
    }
  }

  /** The request record `DadosCadastroTopico`, with the components the controllers read. */
  datatype DadosCadastroTopico = DadosCadastroTopico(
    titulo: Option<string>, mensagem: Option<string>, autor: Option<string>, curso: Option<string>)

  /** The entity. `dataCriacao` and `status` have field initialisers, the other fields start null;
      `id` is set only by the repository, there is no setter for it. */
  class Topico {
    var id: Option<int>
    var titulo: Option<string>
    var mensagem: Option<string>
    var dataCriacao: LocalDateTime
    var status: StatusTopico
    var autor: Option<string>
    var curso: Option<string>

    /** `new Topico()`, where `now` is what `LocalDateTime.now()` returns at that moment. */
    constructor (now: LocalDateTime)
      ensures id == None && titulo == None && mensagem == None && autor == None && curso == None
      ensures dataCriacao == now && status == Aberto
    {
      id := None;
      titulo := None;
      mensagem := None;
      dataCriacao := now;
      status := Aberto;
      autor := None;
      curso := None;
    }

    function GetId(): Option<int> reads this { id }
    function GetTitulo(): Option<string> reads this { titulo }
    function GetMensagem(): Option<string> reads this { mensagem }
    function GetDataCriacao(): LocalDateTime reads this { dataCriacao }
    function GetStatus(): StatusTopico reads this { status }
    function GetAutor(): Option<string> reads this { autor }
    function GetCurso(): Option<string> reads this { curso }

    // Each setter changes its own field only, and its getter then returns the value set.

    method SetTitulo(titulo: Option<string>) modifies this`titulo ensures GetTitulo() == titulo
    {
      this.titulo := titulo;
    }

    method SetMensagem(mensagem: Option<string>) modifies this`mensagem ensures GetMensagem() == mensagem
    {
      this.mensagem := mensagem;
    }

    method SetDataCriacao(dataCriacao: LocalDateTime) modifies this`dataCriacao ensures GetDataCriacao() == dataCriacao
    {
      this.dataCriacao := dataCriacao;
    }

    method SetStatus(status: StatusTopico) modifies this`status ensures GetStatus() == status
    {
      this.status := status;
    }

    method SetAutor(autor: Option<string>) modifies this`autor ensures GetAutor() == autor
    {
      this.autor := autor;
    }

    method SetCurso(curso: Option<string>) modifies this`curso ensures GetCurso() == curso
    {
      this.curso := curso;
    }

    /** The columns this entity writes when saved. */
    function Row(): TopicoRow reads this
    {
      TopicoRow(titulo, mensagem, dataCriacao, status, autor, curso)
    }
  }

  /** The repository, reduced to the table it reads and writes. */
  class TopicoRepository {
    var table: TopicoTable

    constructor ()
      ensures table == TopicoTable(map[], 1) && table.Valid()
    {
      table := TopicoTable(map[], 1);
    }

    method ExistsByTituloAndMensagem(titulo: Option<string>, mensagem: Option<string>) returns (b: bool)
      ensures b == table.PairTaken(titulo, mensagem)
    {
      b := table.PairTaken(titulo, mensagem);
    }

    /** `findById`: a detached copy of the stored topic, or empty. */
    method FindById(id: int) returns (t: Option<Topico>)
      ensures t.Some? <==> id in table.rows
      ensures t.Some? ==> fresh(t.value) && t.value.id == Some(id) && t.value.Row() == table.rows[id]
    {
      if id in table.rows {
        var row := table.rows[id];
        var topico := new Topico(row.dataCriacao);
        topico.id := Some(id);
        topico.titulo, topico.mensagem, topico.status := row.titulo, row.mensagem, row.status;
        topico.autor, topico.curso := row.autor, row.curso;
        t := Some(topico);
      } else {
        t := None;
      }
    }

    /** `save`: a new entity gets the next id, is inserted and is itself returned; a stored one is
        overwritten, and what `merge` then returns is not modelled. */
    method Save(t: Topico) returns (salvo: Topico)
      requires table.Valid()
      requires t.id.Some? ==> t.id.value in table.rows
      modifies this, t`id
      ensures table.Valid()
      ensures old(t.id).None? ==> salvo == t
      ensures old(t.id).None? ==> t.id == Some(old(table.nextId)) && table.nextId == old(table.nextId) + 1
      ensures old(t.id).Some? ==> t.id == old(t.id) && table.nextId == old(table.nextId)
      ensures t.id.Some? && table.rows == old(table.rows)[t.id.value := t.Row()]
    {
      if t.id.None? {
        t.id := Some(table.nextId);
        table := TopicoTable(table.rows[table.nextId := t.Row()], table.nextId + 1);
      } else {
        table := table.(rows := table.rows[t.id.value := t.Row()]);
      }
      salvo := t;
    }

    /** `deleteById`: the row with that id is gone; an absent id changes nothing. */
    method DeleteById(id: int)
      requires table.Valid()
      modifies this
      ensures table.Valid()
      ensures table == old(table).(rows := old(table.rows) - {id})
    {
      table := table.(rows := table.rows - {id});
    }
  }
}
