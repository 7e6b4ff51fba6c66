/** `AdminController`: the two mutating admin endpoints, replacing a user's
    permissions and assigning a role, behind the ADMIN / ADMIN1 check. */
module AdminController {
  import opened Common
  import opened UsuarioService
  import opened PermissionService

  /** The caller of an admin endpoint. A missing principal or an unknown
      e-mail throws (500), as does a caller whose roles are null; a caller
      holding neither ADMIN nor ADMIN1 gets 403. */
  function Actor(users: seq<Usuario>, principal: Option<string>): (r: Result<Usuario, int>)
    ensures r.Ok? <==>
      && principal.Some?
      && FindByEmail(users, principal.value).Some?
      && var u := FindByEmail(users, principal.value).value;
         u.roles.Some? && ("ADMIN" in u.roles.value || "ADMIN1" in u.roles.value)
    ensures r.Ok? ==> r.value == FindByEmail(users, principal.value).value
    ensures r.Err? ==> (r.error == FORBIDDEN <==>
      principal.Some? && FindByEmail(users, principal.value).Some? &&
      FindByEmail(users, principal.value).value.roles.Some?)
    ensures r.Err? ==> r.error == FORBIDDEN || r.error == INTERNAL_SERVER_ERROR
  {
    if principal.None? then Err(INTERNAL_SERVER_ERROR)
    else match FindByEmail(users, principal.value)
      case None => Err(INTERNAL_SERVER_ERROR)
      case Some(u) =>
        if u.roles.None? then Err(INTERNAL_SERVER_ERROR)
        else if "ADMIN" in u.roles.value || "ADMIN1" in u.roles.value then Ok(u)
        else Err(FORBIDDEN)
  }

  // ---------------------------------------------------------------------
  // PATCH /api/admin/users/{id}/permissions

  /** Status, permission state and audit row of a permissions request. */
  datatype PermResponse = PermResponse(status: int, ps: PermState, audit: Option<AuditLog>)

  /** The request's names that the system knows (`removeIf(!existsByName)`). */
  function KnownOnly(ps: PermState, names: seq<string>): (r: seq<string>)
    ensures forall n :: n in r <==> n in names && n in ps.conocidos
  {
    Filter(names, (n: string) => ExistsByName(ps, n))
  }

  /** `setPermissions` as written: a body without "permissions" falls back
      to the immutable `List.of()`, whose `removeIf` throws, so the request
      fails with 500. */
  function SetPermissionsAsWritten(users: seq<Usuario>, ps: PermState, principal: Option<string>,
                                   target: int, body: map<string, seq<string>>): (r: PermResponse)
    requires PermissionService.Valid(ps)
    ensures Actor(users, principal).Err? ==> r == PermResponse(Actor(users, principal).error, ps, None)
    ensures (Actor(users, principal).Ok? && "permissions" !in body) ==> r == PermResponse(INTERNAL_SERVER_ERROR, ps, None)
    ensures "permissions" in body ==> r == SetPermissionsEndpoint(users, ps, principal, target, body)
  {
    match Actor(users, principal)
    case Err(status) => PermResponse(status, ps, None)
    case Ok(actor) =>
      if "permissions" !in body then PermResponse(INTERNAL_SERVER_ERROR, ps, None)
      else
        var (ps', audit) := SetPermissions(ps, target, Some(KnownOnly(ps, body["permissions"])), actor.id);
        PermResponse(OK, ps', Some(audit))
  }

  /** `setPermissions` with the evidently intended default: a missing list
      is the empty list. Unknown names are dropped, and the target ends up
      with exactly the known requested permissions; nobody else changes. */
  function SetPermissionsEndpoint(users: seq<Usuario>, ps: PermState, principal: Option<string>,
                                  target: int, body: map<string, seq<string>>): (r: PermResponse)
    requires PermissionService.Valid(ps)
    ensures r.status == OK <==> Actor(users, principal).Ok?
    ensures r.status != OK ==> r.ps == ps && r.audit.None?
    ensures PermissionService.Valid(r.ps)
    ensures r.status == OK ==>
      var pedidos := if "permissions" in body then body["permissions"] else [];
      && (forall n :: HasPermission(r.ps, target, n) <==> n in pedidos && n in ps.conocidos)
      && (forall g: Grant :: g.usuarioId != target ==> (g in r.ps.grants <==> g in ps.grants))
      && r.audit.Some?
      && r.audit.value.actorId == Actor(users, principal).value.id
      && r.audit.value.targetId == target
  {
    match Actor(users, principal)
    case Err(status) => PermResponse(status, ps, None)
    case Ok(actor) =>
      var pedidos := if "permissions" in body then body["permissions"] else [];
      var (ps', audit) := SetPermissions(ps, target, Some(KnownOnly(ps, pedidos)), actor.id);
      PermResponse(OK, ps', Some(audit))
  }

  /** The discrepancy: for an authorised caller and a body without
      "permissions", the code answers 500 while the intended behaviour
      revokes every permission of the target and answers 200. */
  lemma MissingPermissionsDiscrepancy(users: seq<Usuario>, ps: PermState, principal: Option<string>, target: int)
    requires PermissionService.Valid(ps)
    requires Actor(users, principal).Ok?
    ensures SetPermissionsAsWritten(users, ps, principal, target, map[]).status == INTERNAL_SERVER_ERROR
    ensures var r := SetPermissionsEndpoint(users, ps, principal, target, map[]);
      r.status == OK && forall n :: !HasPermission(r.ps, target, n)
  {
  }

  /** An unknown permission name in the request is never granted, whoever
      the target is. */
  lemma UnknownNamesNeverGranted(users: seq<Usuario>, ps: PermState, principal: Option<string>,
                                 target: int, body: map<string, seq<string>>, n: string)
    requires PermissionService.Valid(ps)
    requires n !in ps.conocidos
    ensures forall u :: !HasPermission(SetPermissionsEndpoint(users, ps, principal, target, body).ps, u, n)
  {
    var r := SetPermissionsEndpoint(users, ps, principal, target, body);
    forall u ensures !HasPermission(r.ps, u, n) {
      assert Grant(u, n) in r.ps.grants ==> n in r.ps.conocidos;
    }
  }

  // ---------------------------------------------------------------------
  // PATCH /api/admin/users/{id}/role

  /** Status, user table and audit row of a role request. */
  datatype RoleResponse = RoleResponse(status: int, st: UserStore, audit: Option<RoleAudit>)

  /** The roles the endpoint may hand out. */
  predicate Asignable(rol: string)
  {
    rol == "ADMIN2" || rol == "USER"
  }

  /** `assignRole` as written: a body without "role" reaches
      `List.of(...).contains(null)`, which throws, so the request fails with
      500 instead of being rejected as an invalid role. */
  function AssignRoleAsWritten(st: UserStore, principal: Option<string>, target: int, body: map<string, string>)
    : (r: RoleResponse)
    requires UsuarioService.Valid(st)
    ensures Actor(st.usuarios, principal).Err? ==> r == RoleResponse(Actor(st.usuarios, principal).error, st, None)
    ensures (Actor(st.usuarios, principal).Ok? && "role" !in body) ==> r == RoleResponse(INTERNAL_SERVER_ERROR, st, None)
    ensures "role" in body ==> r == AssignRoleEndpoint(st, principal, target, body)
  {
    match Actor(st.usuarios, principal)
    case Err(status) => RoleResponse(status, st, None)
    case Ok(actor) =>
      if "role" !in body then RoleResponse(INTERNAL_SERVER_ERROR, st, None)
      else AssignValid(st, actor, target, body["role"])
  }

  /** `assignRole` with a missing role rejected like any other invalid one. */
  function AssignRoleEndpoint(st: UserStore, principal: Option<string>, target: int, body: map<string, string>)
    : (r: RoleResponse)
    requires UsuarioService.Valid(st)
    ensures Actor(st.usuarios, principal).Err? ==> r == RoleResponse(Actor(st.usuarios, principal).error, st, None)
    ensures Actor(st.usuarios, principal).Ok? ==>
      (r.status == BAD_REQUEST <==> "role" !in body || !Asignable(body["role"]))
    ensures r.status == OK <==>
      && Actor(st.usuarios, principal).Ok?
      && "role" in body && Asignable(body["role"])
      && FindUserById(st.usuarios, target).Some?
    ensures r.status != OK ==> r.st == st && r.audit.None?
    ensures r.status == OK ==>
      && UsuarioService.Valid(r.st)
      && RoleAdded(st, r.st, target, body["role"])
      && r.audit.Some? && r.audit.value.actorId == Actor(st.usuarios, principal).value.id
  {
    match Actor(st.usuarios, principal)
    case Err(status) => RoleResponse(status, st, None)
    case Ok(actor) =>
      if "role" !in body then RoleResponse(BAD_REQUEST, st, None)
      else AssignValid(st, actor, target, body["role"])
  }

  /** The part after the role is present: the whitelist, then the service
      (whose unknown-user exception becomes 500). */
  function AssignValid(st: UserStore, actor: Usuario, target: int, rol: string): (r: RoleResponse)
    requires UsuarioService.Valid(st)
    ensures r.status == BAD_REQUEST <==> !Asignable(rol)
    ensures r.status == OK <==> Asignable(rol) && FindUserById(st.usuarios, target).Some?
    ensures r.status != OK ==> r.st == st && r.audit.None?
    ensures r.status == OK ==>
      && UsuarioService.Valid(r.st)
      && RoleAdded(st, r.st, target, rol)
      && r.audit.Some? && r.audit.value.actorId == actor.id
  {
    if !Asignable(rol) then RoleResponse(BAD_REQUEST, st, None)
    else match AssignRole(st, target, rol, actor.id)
      case Err(_) => RoleResponse(INTERNAL_SERVER_ERROR, st, None)
      case Ok((st', audit)) => RoleResponse(OK, st', Some(audit))
  }

  /** The discrepancy: for an authorised caller and a body without "role",
      the code answers 500 where the intended answer is 400. */
  lemma MissingRoleDiscrepancy(st: UserStore, principal: Option<string>, target: int)
    requires UsuarioService.Valid(st)
    requires Actor(st.usuarios, principal).Ok?
    ensures AssignRoleAsWritten(st, principal, target, map[]).status == INTERNAL_SERVER_ERROR
    ensures AssignRoleEndpoint(st, principal, target, map[]).status == BAD_REQUEST
  {
  }

  /** Holding a role, as a nullable set. */
  predicate HasRole(u: Usuario, rol: string)
  {
    u.roles.Some? && rol in u.roles.value
  }

  /** The endpoint cannot create administrators: after any request, a user
      holds ADMIN or ADMIN1 only if they held it before, and no user loses
      a role. */
  lemma AssignRoleNeverGrantsAdmin(st: UserStore, principal: Option<string>, target: int, body: map<string, string>)
    requires UsuarioService.Valid(st)
    ensures RolesOnlyGrow(st, AssignRoleEndpoint(st, principal, target, body).st)
  {
    var r := AssignRoleEndpoint(st, principal, target, body);
    if r.status == OK {
      RoleAddedGrows(st, r.st, target, body["role"]);
    }
  }

  /** Row by row, the same users, no role lost, no administrator role gained. */
  predicate RolesOnlyGrow(st: UserStore, st': UserStore)
  {
    && |st'.usuarios| == |st.usuarios|
    && forall i :: 0 <= i < |st.usuarios| ==>
         && st'.usuarios[i].id == st.usuarios[i].id
         && (HasRole(st'.usuarios[i], "ADMIN") <==> HasRole(st.usuarios[i], "ADMIN"))
         && (HasRole(st'.usuarios[i], "ADMIN1") <==> HasRole(st.usuarios[i], "ADMIN1"))
         && (st.usuarios[i].roles.Some? ==>
               st'.usuarios[i].roles.Some? && st.usuarios[i].roles.value <= st'.usuarios[i].roles.value)
  }

  lemma RoleAddedGrows(st: UserStore, st': UserStore, target: int, rol: string)
    requires UsuarioService.Valid(st)
    requires RoleAdded(st, st', target, rol)
    requires Asignable(rol)
    ensures RolesOnlyGrow(st, st')
  {
    var u := FindUserById(st.usuarios, target).value;
    forall i | 0 <= i < |st.usuarios|
      ensures st'.usuarios[i].id == st.usuarios[i].id
      ensures HasRole(st'.usuarios[i], "ADMIN") <==> HasRole(st.usuarios[i], "ADMIN")
      ensures HasRole(st'.usuarios[i], "ADMIN1") <==> HasRole(st.usuarios[i], "ADMIN1")
      ensures st.usuarios[i].roles.Some? ==>
                st'.usuarios[i].roles.Some? && st.usuarios[i].roles.value <= st'.usuarios[i].roles.value
    {
      if st.usuarios[i].id == target {
        assert st.usuarios[i] in st.usuarios;
      }
    }
  }
}
