/** The `Usuario` entity and, in place of the Spring Data `UsuarioRepository`, an in-memory
    table of `usuarios` rows keyed by a generated id. */
module DomainUsuario {
  import opened Http

  /** The persisted columns of one user other than its key. */
  datatype UsuarioRow = UsuarioRow(nome: string, email: string, senha: string)

  /** The `usuarios` table: rows by id and the next id the identity column hands out. */
  datatype UsuarioTable = UsuarioTable(rows: map<int, UsuarioRow>, nextId: int)
  {
    /** Ids start at 1 and every stored id was handed out before. */
    predicate Valid()
    {
      1 <= nextId && forall k :: k in rows ==> 1 <= k < nextId
    }

    /** `findByEmail(email) != null`. */
    predicate EmailTaken(email: string)
    {
      exists k :: k in rows && rows[k].email == email
    }

    /** No two stored users share an email (`@Column(unique = true)`). */
    predicate EmailsUnique()
    {
      forall j, k :: j in rows && k in rows && rows[j].email == rows[k].email ==> j == k
    }
  }

  /** The entity, which is also Spring Security's `UserDetails` for that user. `id` is `None`
      until the repository saves it. There is no setter for `id` or `email`. */
  class Usuario {
    var id: Option<int>
    var nome: string
    var email: string
    var senha: string

    constructor (nome: string, email: string, senha: string)
      ensures this.nome == nome && this.email == email && this.senha == senha
      ensures id == None
    {
      this.id := None;
      this.nome := nome;
      this.email := email;
      this.senha := senha;
    }

    function GetId(): Option<int> reads this { id }
    function GetEmail(): string reads this { email }
    function GetNome(): string reads this { nome }

    /** Changes nome and nothing else. */
    method SetNome(nome: string)
      modifies this`nome
      ensures GetNome() == nome
    {
      this.nome := nome;
    }

    /** Changes senha and nothing else. */
    method SetSenha(senha: string)
      modifies this`senha
      ensures GetPassword() == senha
    {
      this.senha := senha;
    }

    /** `UserDetails.getAuthorities`: no user holds any role. */
    function GetAuthorities(): seq<string> { [] }

    /** `UserDetails.getPassword`: the stored (encoded) senha. */
    function GetPassword(): string reads this { senha }

    /** `UserDetails.getUsername`: users log in with their email. */
    function GetUsername(): string reads this { email }

    predicate IsAccountNonExpired() { true }
    predicate IsAccountNonLocked() { true }
    predicate IsCredentialsNonExpired() { true }
    predicate IsEnabled() { true }

    /** The columns this entity writes when saved. */
    function Row(): UsuarioRow reads this { UsuarioRow(nome, email, senha) }
  }

  /** What Spring Security learns of any user: it logs in with its email, its credential is the
      stored senha, it has no authorities, and its account is never expired, locked or disabled. */
  lemma DetalhesDeAutenticacao(u: Usuario)
    ensures u.GetUsername() == u.GetEmail() && u.GetPassword() == u.senha
    ensures u.GetAuthorities() == []
    ensures u.IsAccountNonExpired() && u.IsAccountNonLocked() && u.IsCredentialsNonExpired() && u.IsEnabled()
  {
  }

  /** The repository, reduced to the table it reads and writes. */
  class UsuarioRepository {
    var table: UsuarioTable

    constructor ()
      ensures table == UsuarioTable(map[], 1) && table.Valid()
    {
      table := UsuarioTable(map[], 1);
    }

    /** `findById`: a detached copy of the stored user, or empty. */
    method FindById(id: int) returns (u: Option<Usuario>)
      ensures u.Some? <==> id in table.rows
      ensures u.Some? ==> fresh(u.value) && u.value.id == Some(id) && u.value.Row() == table.rows[id]
    {
      if id in table.rows {
        var row := table.rows[id];
        var usuario := new Usuario(row.nome, row.email, row.senha);
        usuario.id := Some(id);
        u := Some(usuario);
      } else {
        u := None;
      }
    }

    /** `findByEmail`: a copy of the stored user with that email, or null. */
    method FindByEmail(email: string) returns (u: Usuario?)
      ensures u != null <==> table.EmailTaken(email)
      ensures u != null ==> fresh(u) && u.email == email && u.id.Some? && u.id.value in table.rows
    {
      if k :| k in table.rows && table.rows[k].email == email {
        var row := table.rows[k];
        u := new Usuario(row.nome, row.email, row.senha);
        u.id := Some(k);
      } else {
        u := null;
      }
    }

    /** `save`: a new entity gets the next id and is inserted; a stored one is overwritten. */
    method Save(u: Usuario)
      requires table.Valid()
      requires u.id.Some? ==> u.id.value in table.rows
      modifies this, u`id
      ensures table.Valid()
      ensures old(u.id).None? ==> u.id == Some(old(table.nextId)) && table.nextId == old(table.nextId) + 1
      ensures old(u.id).Some? ==> u.id == old(u.id) && table.nextId == old(table.nextId)
      ensures u.id.Some? && table.rows == old(table.rows)[u.id.value := u.Row()]
    {
      if u.id.None? {
        u.id := Some(table.nextId);
        table := UsuarioTable(table.rows[table.nextId := u.Row()], table.nextId + 1);
      } else {
        table := table.(rows := table.rows[u.id.value := u.Row()]);
      }
    }

    /** `deleteById`: the row with that id is gone; an absent id changes nothing. */
    method DeleteById(id: int)
      requires table.Valid()
      modifies this
      ensures table.Valid()
      ensures table == old(table).(rows := old(table.rows) - {id})
    {
      table := table.(rows := table.rows - {id});
    }
  }
}
