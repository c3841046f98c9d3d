/** The request records `DadosCadastroUsuario` and `DadosAtualizacaoUsuario` and the Bean
    Validation constraints on their components, as predicates. A `null` component is `None`. */
module UsuarioValidacao {
  import opened Http

  /** The `min` of `@Size(min = 6)` on both records' `senha`. */
  const SenhaMinima: nat := 6

  /** `Character.isWhitespace`: the Unicode space, line and paragraph separators other than the
      non-breaking ones (U+00A0, U+2007, U+202F), the controls U+0009 to U+000D and U+001C to U+001F. */
  predicate IsWhitespace(c: char)
  {
    var n := c as int;
    (0x09 <= n <= 0x0D) || (0x1C <= n <= 0x20) || n == 0x1680 ||
    (0x2000 <= n <= 0x2006) || (0x2008 <= n <= 0x200A) ||
    n == 0x2028 || n == 0x2029 || n == 0x205F || n == 0x3000
  }

  /** `String.isBlank`: empty, or only whitespace code points. */
  predicate IsBlank(s: string)
  {
    forall i :: 0 <= i < |s| ==> IsWhitespace(s[i])
  }

  /** `String.length()`: the number of UTF-16 code units, so a code point above U+FFFF counts twice. */
  function Utf16Length(s: string): (n: nat)
    ensures |s| <= n <= 2 * |s|
    ensures (forall i :: 0 <= i < |s| ==> s[i] as int < 0x1_0000) ==> n == |s|
  {
    if s == [] then 0
    else (if s[0] as int < 0x1_0000 then 1 else 2) + Utf16Length(s[1..])
  }

  /** The controller's `x != null && !x.isBlank()`. */
  predicate NotBlank(v: Option<string>)
  {
    v.Some? && !IsBlank(v.value)
  }

  /** `String.trim().length() == 0`: every character is at most U+0020, which `trim` strips. */
  predicate IsTrimBlank(s: string)
  {
    forall i :: 0 <= i < |s| ==> s[i] as int <= 0x20
  }

  /** `@NotBlank`, whose validator accepts a non-null value when `toString().trim().length() > 0`.
      This is not `NotBlank`: the two whitespace tests differ. */
  predicate NotBlankAnotacao(v: Option<string>)
  {
    v.Some? && !IsTrimBlank(v.value)
  }

  /** Where `@NotBlank` and `isBlank` disagree: an ideographic space U+3000 passes `@NotBlank`
      although `isBlank` calls it blank, and U+0001 fails `@NotBlank` although it is not blank. */
  lemma NotBlankAnotacaoDifereDeIsBlank()
    ensures NotBlankAnotacao(Some("\U{3000}")) && !NotBlank(Some("\U{3000}"))
    ensures !NotBlankAnotacao(Some("\U{0001}")) && NotBlank(Some("\U{0001}"))
  {
    assert "\U{3000}"[0] as int == 0x3000;
    assert "\U{0001}"[0] as int == 0x01;
  }

  /** `@Size(min = m)`: `null` is valid, otherwise at least `m` UTF-16 units. */
  predicate SizeAtLeast(v: Option<string>, m: nat)
  {
    v.None? || Utf16Length(v.value) >= m
  }

  /** `@Email`: `null` is valid, otherwise the address format `isEmail` decides. */
  predicate EmailFormat(v: Option<string>, isEmail: string -> bool)
  {
    v.None? || isEmail(v.value)
  }

  datatype DadosCadastroUsuario = DadosCadastroUsuario(nome: Option<string>, email: Option<string>, senha: Option<string>)

  datatype DadosAtualizacaoUsuario = DadosAtualizacaoUsuario(nome: Option<string>, senha: Option<string>)

  /** All constraints of `DadosCadastroUsuario`: `@NotBlank nome`, `@NotBlank @Email email`,
      `@NotBlank @Size(min = 6) senha`. */
  predicate CadastroValido(d: DadosCadastroUsuario, isEmail: string -> bool)
  {
    && NotBlankAnotacao(d.nome)
    && NotBlankAnotacao(d.email) && EmailFormat(d.email, isEmail)
    && NotBlankAnotacao(d.senha) && SizeAtLeast(d.senha, SenhaMinima)
  }

  /** All constraints of `DadosAtualizacaoUsuario`: only `@Size(min = 6) senha`. */
  predicate AtualizacaoValida(d: DadosAtualizacaoUsuario)
  {
    SizeAtLeast(d.senha, SenhaMinima)
  }

  /** Which registration requests are refused: a missing nome, email or senha, or one made only of
      characters up to U+0020, an email the format check refuses, or a senha shorter than six UTF-16 units. */
  lemma CadastroRecusado(d: DadosCadastroUsuario, isEmail: string -> bool)
    ensures d.nome.None? || IsTrimBlank(d.nome.value) ==> !CadastroValido(d, isEmail)
    ensures d.email.None? || IsTrimBlank(d.email.value) || !isEmail(d.email.value) ==> !CadastroValido(d, isEmail)
    ensures d.senha.None? || IsTrimBlank(d.senha.value) || Utf16Length(d.senha.value) < SenhaMinima ==> !CadastroValido(d, isEmail)
  {
  }

  /** Which registration requests are accepted: exactly those that none of the refusals hit. */
  lemma CadastroAceito(d: DadosCadastroUsuario, isEmail: string -> bool)
    requires d.nome.Some? && !IsTrimBlank(d.nome.value)
    requires d.email.Some? && !IsTrimBlank(d.email.value) && isEmail(d.email.value)
    requires d.senha.Some? && !IsTrimBlank(d.senha.value) && Utf16Length(d.senha.value) >= SenhaMinima
    ensures CadastroValido(d, isEmail)
  {
  }

  /** The update record puts no constraint on nome: whatever it holds, null, empty or blank,
      validity depends on senha alone; a null senha is accepted. */
  lemma AtualizacaoNomeLivre(nome: Option<string>, senha: Option<string>)
    ensures AtualizacaoValida(DadosAtualizacaoUsuario(nome, senha)) == AtualizacaoValida(DadosAtualizacaoUsuario(None, senha))
    ensures AtualizacaoValida(DadosAtualizacaoUsuario(nome, None))
  {
  }

  /** A non-null update senha shorter than six code points of the Basic Multilingual Plane,
      the empty string among them, is refused. */
  lemma AtualizacaoSenhaCurtaRecusada(nome: Option<string>, s: string)
    requires |s| < SenhaMinima
    requires forall i :: 0 <= i < |s| ==> s[i] as int < 0x1_0000
    ensures !AtualizacaoValida(DadosAtualizacaoUsuario(nome, Some(s)))
  {
  }

  /** A senha made only of whitespace is as long in UTF-16 units as in code points, so six or more
      whitespace characters pass `@Size(min = 6)` although the senha is blank. */
  lemma {:induction false} SenhaBrancaPassaSize(s: string)
    requires IsBlank(s) && |s| >= SenhaMinima
    ensures SizeAtLeast(Some(s), SenhaMinima)
  {
    forall i | 0 <= i < |s| ensures s[i] as int < 0x1_0000 {
      assert IsWhitespace(s[i]);
    }
  }
}
