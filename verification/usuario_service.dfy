/** `UsuarioService`: registration with the default role, and credential
    validation. The password encoder is opaque: `encode` and `matches` are
    parameters. */
module UsuarioService {
  import opened Common

  /** A user row. Name, surname and roles may be null; the stored password
      is the encoder's output. */
  datatype Usuario = Usuario(
    id: int,
    nombre: Option<string>,
    apellido: Option<string>,
    email: string,
    contrasena: string,
    roles: Option<set<string>>)

  /** The user table in insertion order and its next identity value. */
  datatype UserStore = UserStore(usuarios: seq<Usuario>, nextId: int)

  /** A registration body: the client's own `Usuario`, so it may carry an
      id, and it has a raw password and possibly no roles. */
  datatype Registro = Registro(
    id: Option<int>,
    nombre: Option<string>,
    apellido: Option<string>,
    email: string,
    contrasena: string,
    roles: Option<set<string>>)

  /** The role a user gets when registering without one. */
  const ROL_POR_DEFECTO: string := "USER"

  predicate Valid(st: UserStore)
  {
    && 1 <= st.nextId
    && (forall u :: u in st.usuarios ==> 1 <= u.id < st.nextId)
    && (forall u, v :: u in st.usuarios && v in st.usuarios && u.id == v.id ==> u == v)
  }

  /** `findByEmail`: the first user with that email, if any. */
  function FindByEmail(us: seq<Usuario>, email: string): (r: Option<Usuario>)
    ensures r.Some? ==> r.value in us && r.value.email == email
    ensures r.None? <==> forall u :: u in us ==> u.email != email
  {
    if |us| == 0 then None
    else if us[0].email == email then Some(us[0])
    else
      assert forall u :: u in us ==> u == us[0] || u in us[1..];
      FindByEmail(us[1..], email)
  }

  /** `findById`: the user with that identity, if any. */
  function FindUserById(us: seq<Usuario>, id: int): (r: Option<Usuario>)
    ensures r.Some? ==> r.value in us && r.value.id == id
    ensures r.None? <==> forall u :: u in us ==> u.id != id
  {
    if |us| == 0 then None
    else if us[0].id == id then Some(us[0])
    else
      assert forall u :: u in us ==> u == us[0] || u in us[1..];
      FindUserById(us[1..], id)
  }

  /** `registrar`: the password is replaced by its encoding, null or empty
      roles become exactly {"USER"}, and any other role set is kept. `save`
      then merges over the row when the body names an existing id, and
      otherwise appends the row with the next identity. */
  function Registrar(st: UserStore, reg: Registro, encode: string -> string): (r: (UserStore, Usuario))
    requires Valid(st)
    ensures var (st', u) := r;
      && Valid(st')
      && u in st'.usuarios
      && u.contrasena == encode(reg.contrasena)
      && u.nombre == reg.nombre && u.apellido == reg.apellido && u.email == reg.email
      && (reg.roles.None? || reg.roles == Some({}) ==> u.roles == Some({ROL_POR_DEFECTO}))
      && (reg.roles.Some? && reg.roles.value != {} ==> u.roles == reg.roles)
      && u.roles.Some? && u.roles.value != {}
    ensures var (st', u) := r;
      Sobrescribe(st, reg) ==>
        && u.id == reg.id.value
        && st'.nextId == st.nextId
        && |st'.usuarios| == |st.usuarios|
        && forall i :: 0 <= i < |st.usuarios| ==>
             st'.usuarios[i] == (if st.usuarios[i].id == u.id then u else st.usuarios[i])
    ensures var (st', u) := r;
      !Sobrescribe(st, reg) ==>
        && u.id == st.nextId
        && st'.nextId == st.nextId + 1
        && st'.usuarios == st.usuarios + [u]
  {
    var roles := if reg.roles.None? || reg.roles.value == {} then Some({ROL_POR_DEFECTO}) else reg.roles;
    if Sobrescribe(st, reg) then
      var u := Usuario(reg.id.value, reg.nombre, reg.apellido, reg.email, encode(reg.contrasena), roles);
      (SaveExisting(st, u), u)
    else
      var u := Usuario(st.nextId, reg.nombre, reg.apellido, reg.email, encode(reg.contrasena), roles);
      (Append(st, u), u)
  }

  /** `save` of an entity whose id is stored: the row is overwritten. */
  function SaveExisting(st: UserStore, u: Usuario): (st': UserStore)
    requires Valid(st)
    requires FindUserById(st.usuarios, u.id).Some?
    ensures Valid(st') && u in st'.usuarios
    ensures |st'.usuarios| == |st.usuarios| && st'.nextId == st.nextId
    ensures forall i :: 0 <= i < |st.usuarios| ==>
      st'.usuarios[i] == (if st.usuarios[i].id == u.id then u else st.usuarios[i])
  {
    var w := FindUserById(st.usuarios, u.id).value;
    var i :| 0 <= i < |st.usuarios| && st.usuarios[i] == w;
    var st' := Save(st, u);
    assert st'.usuarios[i] == u;
    st'
  }

  /** `save` of an entity without a stored id: an IDENTITY insert. */
  function Append(st: UserStore, u: Usuario): (st': UserStore)
    requires Valid(st) && u.id == st.nextId
    ensures Valid(st') && u in st'.usuarios
    ensures st'.usuarios == st.usuarios + [u] && st'.nextId == st.nextId + 1
  {
    UserStore(st.usuarios + [u], st.nextId + 1)
  }

  /** Whether `save` merges the registration over an existing row: the body
      names the id of a stored user. */
  predicate Sobrescribe(st: UserStore, reg: Registro)
  {
    reg.id.Some? && FindUserById(st.usuarios, reg.id.value).Some?
  }

  /** A body naming a stored user's id takes that user's place: the table
      keeps its size, no other row changes, and the old row is gone. */
  lemma RegistrarOverwrites(st: UserStore, reg: Registro, encode: string -> string)
    requires Valid(st)
    requires Sobrescribe(st, reg)
    ensures var (st', u) := Registrar(st, reg, encode);
      && FindUserById(st'.usuarios, reg.id.value) == Some(u)
      && (forall v :: v in st.usuarios && v.id != reg.id.value ==> v in st'.usuarios)
      && (FindUserById(st.usuarios, reg.id.value).value != u ==>
            FindUserById(st.usuarios, reg.id.value).value !in st'.usuarios)
  {
  }

  /** How `validar` can fail rather than answer: the encoder's `matches`
      refuses a null raw password with an exception. */
  datatype ValidarError = ContrasenaNula

  /** `validar`: the user with that email, kept only if `matches(pass,
      stored)` holds. A null email finds nobody. A null password reaches the
      encoder only when the email is known, and the encoder then throws. */
  function Validar(st: UserStore, email: Option<string>, pass: Option<string>,
                   matches: (string, string) -> bool): (r: Result<Option<Usuario>, ValidarError>)
    ensures r.Err? <==>
      email.Some? && FindByEmail(st.usuarios, email.value).Some? && pass.None?
    ensures r.Err? ==> r.error == ContrasenaNula
    ensures r.Ok? && r.value.Some? <==>
      && email.Some? && pass.Some?
      && FindByEmail(st.usuarios, email.value).Some?
      && matches(pass.value, FindByEmail(st.usuarios, email.value).value.contrasena)
    ensures r.Ok? && r.value.Some? ==> r.value.value in st.usuarios && r.value.value.email == email.value
  {
    if email.None? then Ok(None)
    else
      match FindByEmail(st.usuarios, email.value)
      case None => Ok(None)
      case Some(u) =>
        if pass.None? then Err(ContrasenaNula)
        else if matches(pass.value, u.contrasena) then Ok(Some(u))
        else Ok(None)
  }

  /** With an encoder whose `matches` accepts every encoding of the same
      password, a newly registered (previously unused) email validates with
      the password it registered with, and yields the registered row,
      whether `save` appended the row or overwrote one. */
  lemma RegistrarThenValidar(st: UserStore, reg: Registro, encode: string -> string,
                             matches: (string, string) -> bool)
    requires Valid(st)
    requires forall p :: matches(p, encode(p))
    requires forall u :: u in st.usuarios ==> u.email != reg.email
    ensures var (st', u) := Registrar(st, reg, encode);
      Validar(st', Some(reg.email), Some(reg.contrasena), matches) == Ok(Some(u))
  {
    var (st', u) := Registrar(st, reg, encode);
    forall v | v in st'.usuarios && v.email == reg.email ensures v == u {
      var i :| 0 <= i < |st'.usuarios| && st'.usuarios[i] == v;
      if i < |st.usuarios| {
        assert st.usuarios[i] in st.usuarios;
      }
    }
  }

  /** Replace the row whose id is `u.id` by `u`: the user `save` of an
      existing entity. */
  function Save(st: UserStore, u: Usuario): (st': UserStore)
    requires Valid(st)
    requires exists v :: v in st.usuarios && v.id == u.id
    ensures Valid(st')
    ensures |st'.usuarios| == |st.usuarios| && st'.nextId == st.nextId
    ensures forall i :: 0 <= i < |st.usuarios| ==>
      st'.usuarios[i] == (if st.usuarios[i].id == u.id then u else st.usuarios[i])
  {
    var us := ReplaceById(st.usuarios, u);
    var st' := UserStore(us, st.nextId);
    assert forall x :: x in us ==> x == u || (x in st.usuarios && x.id != u.id) by {
      forall x | x in us ensures x == u || (x in st.usuarios && x.id != u.id) {
        var i :| 0 <= i < |us| && us[i] == x;
        assert st.usuarios[i] in st.usuarios;
      }
    }
    st'
  }

  function ReplaceById(us: seq<Usuario>, u: Usuario): (out: seq<Usuario>)
    ensures |out| == |us|
    ensures forall i :: 0 <= i < |us| ==> out[i] == (if us[i].id == u.id then u else us[i])
  {
    if |us| == 0 then [] else [if us[0].id == u.id then u else us[0]] + ReplaceById(us[1..], u)
  }
}
