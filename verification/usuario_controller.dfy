/** `UsuarioController`: the login endpoint's credential handling and the
    partial update of a user. */
module UsuarioController {
  import opened Common
  import opened Strings
  import opened UsuarioService

  /** The login body's password: "contraseña" when present, otherwise
      "password". */
  function PasswordDe(body: map<string, string>): (p: Option<string>)
    ensures p.Some? <==> "contrase\U{F1}a" in body || "password" in body
    ensures "contrase\U{F1}a" in body ==> p == Some(body["contrase\U{F1}a"])
    ensures "contrase\U{F1}a" !in body && "password" in body ==> p == Some(body["password"])
  {
    if "contrase\U{F1}a" in body then Some(body["contrase\U{F1}a"])
    else if "password" in body then Some(body["password"])
    else None
  }

  function EmailDe(body: map<string, string>): Option<string>
  {
    if "email" in body then Some(body["email"]) else None
  }

  /** What the login endpoint answers. */
  datatype LoginRespuesta =
    | LoginOk(token: string, rol: string, email: string)
    | LoginFallido(status: int)

  /** `login`: validate the credentials; on success answer with a token for
      the email and the first role the user's role set yields. Every
      exception is answered with 500: the encoder's refusal of a missing
      password, and the role lookup of a user without roles. */
  function Login(st: UserStore, body: map<string, string>,
                 matches: (string, string) -> bool,
                 primerRol: set<string> -> string,
                 generarToken: (string, string) -> string): (r: LoginRespuesta)
    requires forall roles: set<string> :: roles != {} ==> primerRol(roles) in roles
    ensures Validar(st, EmailDe(body), PasswordDe(body), matches) == Ok(None) ==> r == LoginFallido(UNAUTHORIZED)
    ensures Validar(st, EmailDe(body), PasswordDe(body), matches).Err? ==> r == LoginFallido(INTERNAL_SERVER_ERROR)
    ensures "email" in body && FindByEmail(st.usuarios, body["email"]).Some?
            && "contrase\U{F1}a" !in body && "password" !in body
            ==> r == LoginFallido(INTERNAL_SERVER_ERROR)
    ensures r.LoginOk? <==>
      var u := Validar(st, EmailDe(body), PasswordDe(body), matches);
      u.Ok? && u.value.Some? && u.value.value.roles.Some? && u.value.value.roles.value != {}
    ensures r.LoginOk? ==>
      var u := Validar(st, EmailDe(body), PasswordDe(body), matches).value.value;
      && r.email == body["email"] && r.email == u.email
      && r.rol in u.roles.value
      && r.token == generarToken(r.email, r.rol)
    ensures r.LoginFallido? ==> r.status == UNAUTHORIZED || r.status == INTERNAL_SERVER_ERROR
  {
    match Validar(st, EmailDe(body), PasswordDe(body), matches)
    case Err(_) => LoginFallido(INTERNAL_SERVER_ERROR)
    case Ok(None) => LoginFallido(UNAUTHORIZED)
    case Ok(Some(u)) =>
      if u.roles.None? || u.roles.value == {} then LoginFallido(INTERNAL_SERVER_ERROR)
      else
        var email := body["email"];
        var rol := primerRol(u.roles.value);
        LoginOk(generarToken(email, rol), rol, email)
  }

  /** The two spellings of the password field are interchangeable: a body
      that sends the password as "password" is answered exactly like one
      that sends it as "contraseña", and "contraseña" wins when both are
      present. */
  lemma LoginFieldFallback(st: UserStore, email: string, pass: string, otro: string,
                           matches: (string, string) -> bool,
                           primerRol: set<string> -> string,
                           generarToken: (string, string) -> string)
    requires forall roles: set<string> :: roles != {} ==> primerRol(roles) in roles
    ensures Login(st, map["email" := email, "password" := pass], matches, primerRol, generarToken)
         == Login(st, map["email" := email, "contrase\U{F1}a" := pass], matches, primerRol, generarToken)
    ensures Login(st, map["email" := email, "contrase\U{F1}a" := pass, "password" := otro], matches, primerRol, generarToken)
         == Login(st, map["email" := email, "contrase\U{F1}a" := pass], matches, primerRol, generarToken)
  {
    assert "password" != "contrase\U{F1}a";
    assert "email" != "contrase\U{F1}a" && "email" != "password";
  }

  /** A body with a registered email and no password field at all is
      answered with 500, whatever the encoder accepts. */
  lemma LoginWithoutPassword(st: UserStore, email: string,
                             matches: (string, string) -> bool,
                             primerRol: set<string> -> string,
                             generarToken: (string, string) -> string)
    requires forall roles: set<string> :: roles != {} ==> primerRol(roles) in roles
    requires exists u :: u in st.usuarios && u.email == email
    ensures Login(st, map["email" := email], matches, primerRol, generarToken) == LoginFallido(INTERNAL_SERVER_ERROR)
  {
    assert "email" != "contrase\U{F1}a" && "email" != "password";
  }

  /** The body of an update: every field may be absent. */
  datatype UsuarioUpdate = UsuarioUpdate(nombre: Option<string>, apellido: Option<string>, contrasena: Option<string>)

  /** The field merge of `updateUsuario`: a present name or surname replaces
      the old one; a present, non-blank password is encoded and replaces
      the old hash; everything else is kept. */
  function Merge(u: Usuario, upd: UsuarioUpdate, encode: string -> string): (m: Usuario)
    ensures m.id == u.id && m.email == u.email && m.roles == u.roles
    ensures m.nombre == if upd.nombre.Some? then upd.nombre else u.nombre
    ensures m.apellido == if upd.apellido.Some? then upd.apellido else u.apellido
    ensures upd.contrasena.Some? && !IsBlank(upd.contrasena.value) ==> m.contrasena == encode(upd.contrasena.value)
    ensures upd.contrasena.None? || IsBlank(upd.contrasena.value) ==> m.contrasena == u.contrasena
  {
    var u1 := if upd.nombre.Some? then u.(nombre := upd.nombre) else u;
    var u2 := if upd.apellido.Some? then u1.(apellido := upd.apellido) else u1;
    if upd.contrasena.Some? && !IsBlank(upd.contrasena.value) then u2.(contrasena := encode(upd.contrasena.value))
    else u2
  }

  /** An update with no field present, or with only a blank password,
      leaves the user exactly as it was. */
  lemma EmptyUpdateIsIdentity(u: Usuario, blank: Option<string>, encode: string -> string)
    requires blank.None? || IsBlank(blank.value)
    ensures Merge(u, UsuarioUpdate(None, None, blank), encode) == u
  {
  }

  /** Merging is idempotent when the password is not touched: applying the
      same name/surname update twice is the same as applying it once. */
  lemma MergeIdempotent(u: Usuario, nombre: Option<string>, apellido: Option<string>, encode: string -> string)
    ensures var upd := UsuarioUpdate(nombre, apellido, None);
      Merge(Merge(u, upd, encode), upd, encode) == Merge(u, upd, encode)
  {
  }

  /** `updateUsuario`: 404 and no change for an unknown email; otherwise the
      merged row replaces the old one and no other row changes. */
  function UpdateUsuario(st: UserStore, email: string, upd: UsuarioUpdate, encode: string -> string)
    : (r: (int, UserStore))
    requires Valid(st)
    ensures FindByEmail(st.usuarios, email).None? ==> r == (NOT_FOUND, st)
    ensures FindByEmail(st.usuarios, email).Some? ==>
      var previo := FindByEmail(st.usuarios, email).value;
      var merged := Merge(previo, upd, encode);
      && r.0 == OK
      && Valid(r.1)
      && |r.1.usuarios| == |st.usuarios|
      && forall i :: 0 <= i < |st.usuarios| ==>
           r.1.usuarios[i] == (if st.usuarios[i].id == previo.id then merged else st.usuarios[i])
  {
    match FindByEmail(st.usuarios, email)
    case None => (NOT_FOUND, st)
    case Some(existing) => (OK, Save(st, Merge(existing, upd, encode)))
  }
}
