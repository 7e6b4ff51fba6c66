/** `PermissionService`: per-user permission grants, replacing a user's
    permission set, adding a role, and the audit values of both. */
module PermissionService {
  import opened Common
  import opened Strings
  import opened UsuarioService

  /** A `UsuarioPermission` row, with its permission resolved to its name. */
  datatype Grant = Grant(usuarioId: int, permiso: string)

  /** The grant rows, and the names of the permissions the system knows. */
  datatype PermState = PermState(grants: seq<Grant>, conocidos: set<string>)

  /** Grants reference existing permissions, so their names are known. */
  predicate Valid(ps: PermState)
  {
    forall g :: g in ps.grants ==> g.permiso in ps.conocidos
  }

  /** An `AuditLog` row. */
  datatype AuditLog = AuditLog(actorId: int, targetId: int, accion: string, oldValue: string, newValue: string)

  /** `hasPermission`: the user holds a grant of that name. */
  predicate HasPermission(ps: PermState, usuarioId: int, permiso: string)
  {
    Grant(usuarioId, permiso) in ps.grants
  }

  /** `existsByName`: the system knows a permission of that name. */
  predicate ExistsByName(ps: PermState, permiso: string)
  {
    permiso in ps.conocidos
  }

  /** `getPermissionNamesForUsuario`: the names of the user's grants, in
      row order. */
  function NamesOf(grants: seq<Grant>, usuarioId: int): (r: seq<string>)
    ensures forall n :: n in r <==> Grant(usuarioId, n) in grants
  {
    if |grants| == 0 then []
    else
      var rest := NamesOf(grants[1..], usuarioId);
      assert forall g :: g in grants <==> g == grants[0] || g in grants[1..];
      if grants[0].usuarioId == usuarioId then [grants[0].permiso] + rest else rest
  }

  /** The elements of `a` not in `b`, in order (`removeAll`). */
  function Minus(a: seq<string>, b: seq<string>): (r: seq<string>)
    ensures forall n :: n in r <==> n in a && n !in b
  {
    Filter(a, (n: string) => n !in b)
  }

  /** The permissions to add and to remove never overlap, and together they
      are the symmetric difference of existing and requested. */
  lemma AddRemoveDisjoint(existing: seq<string>, requested: seq<string>)
    ensures forall n :: !(n in Minus(requested, existing) && n in Minus(existing, requested))
    ensures forall n :: (n in Minus(requested, existing) || n in Minus(existing, requested))
                        <==> (n in existing) != (n in requested)
  {
  }

  /** One new grant per name. */
  function GrantsFor(usuarioId: int, names: seq<string>): (r: seq<Grant>)
    ensures forall g: Grant :: g in r <==> g.usuarioId == usuarioId && g.permiso in names
  {
    if |names| == 0 then []
    else
      assert forall n :: n in names <==> n == names[0] || n in names[1..];
      [Grant(usuarioId, names[0])] + GrantsFor(usuarioId, names[1..])
  }

  /** The audit value of a list of names: sorted and comma-joined. */
  function AuditValue(names: seq<string>): string
  {
    Join(Sort(names), ",")
  }

  /** `setPermissions`: a null request is the empty list; every requested
      name the user lacks is granted when the system knows it (unknown names
      are skipped and the rest still added); every granted name no longer
      requested is revoked when known; the audit row records the old and
      the requested names, each sorted and comma-joined. Nothing else
      changes. */
  function SetPermissions(ps: PermState, target: int, requested: Option<seq<string>>, actor: int)
    : (r: (PermState, AuditLog))
    requires Valid(ps)
    ensures Valid(r.0) && r.0.conocidos == ps.conocidos
    ensures forall n :: HasPermission(r.0, target, n) <==>
      n in ps.conocidos && requested.Some? && n in requested.value
    ensures forall g: Grant :: g.usuarioId != target ==> (g in r.0.grants <==> g in ps.grants)
    ensures r.1 == AuditLog(actor, target, "SET_PERMISSIONS",
                            AuditValue(NamesOf(ps.grants, target)),
                            AuditValue(Distinct(if requested.Some? then requested.value else [])))
  {
    var existing := NamesOf(ps.grants, target);
    var req := if requested.Some? then requested.value else [];
    var toAdd := Minus(Distinct(req), existing);
    var toRemove := Minus(existing, req);
    var added := ps.grants + GrantsFor(target, Filter(toAdd, (n: string) => n in ps.conocidos));
    var kept := Filter(added, (g: Grant) => !(g.usuarioId == target && g.permiso in toRemove && g.permiso in ps.conocidos));
    var audit := AuditLog(actor, target, "SET_PERMISSIONS", AuditValue(existing), AuditValue(Distinct(req)));
    (PermState(kept, ps.conocidos), audit)
  }

  /** When every requested name is known, the user ends up with exactly the
      requested permissions. A null request revokes everything. */
  lemma SetPermissionsExact(ps: PermState, target: int, requested: seq<string>, actor: int)
    requires Valid(ps)
    requires forall n :: n in requested ==> n in ps.conocidos
    ensures var ps' := SetPermissions(ps, target, Some(requested), actor).0;
      forall n :: HasPermission(ps', target, n) <==> n in requested
    ensures var ps' := SetPermissions(ps, target, None, actor).0;
      forall n :: !HasPermission(ps', target, n)
  {
  }

  /** Replacing with the same request twice is the same as once. */
  lemma SetPermissionsIdempotent(ps: PermState, target: int, requested: Option<seq<string>>, actor: int)
    requires Valid(ps)
    ensures var ps1 := SetPermissions(ps, target, requested, actor).0;
      var ps2 := SetPermissions(ps1, target, requested, actor).0;
      forall g: Grant :: g in ps2.grants <==> g in ps1.grants
  {
    var ps1 := SetPermissions(ps, target, requested, actor).0;
    var ps2 := SetPermissions(ps1, target, requested, actor).0;
    forall g ensures g in ps2.grants <==> g in ps1.grants {
      if g.usuarioId == target {
        assert HasPermission(ps2, target, g.permiso) <==> HasPermission(ps1, target, g.permiso);
      }
    }
  }

  /** The audit value lists exactly the names, in sorted order: splitting it
      at the commas gives them back when no name contains a comma. */
  lemma AuditValueRoundTrip(names: seq<string>)
    requires |names| >= 1
    requires forall i :: 0 <= i < |names| ==> ',' !in names[i]
    ensures Split(AuditValue(names), ',') == Sort(names)
  {
    var sorted := Sort(names);
    forall i | 0 <= i < |sorted| ensures ',' !in sorted[i] {
      assert sorted[i] in multiset(sorted);
      assert sorted[i] in multiset(names);
      var j :| 0 <= j < |names| && names[j] == sorted[i];
    }
    SplitJoin(sorted, ',');
  }

  /** The audit value depends only on which names there are (with their
      multiplicity), not on the order the repository returns them in. */
  lemma AuditValueOrderIndependent(a: seq<string>, b: seq<string>)
    requires multiset(a) == multiset(b)
    ensures AuditValue(a) == AuditValue(b)
  {
    SortedUnique(Sort(a), Sort(b));
  }

  /** The new value records the requested names as a set: duplicates and
      order in the request do not change it. */
  lemma AuditNewValueIsSetOnly(r1: seq<string>, r2: seq<string>)
    requires forall n :: n in r1 <==> n in r2
    ensures AuditValue(Distinct(r1)) == AuditValue(Distinct(r2))
  {
    var d1 := Distinct(r1);
    var d2 := Distinct(r2);
    NoDupMultiset(d1);
    NoDupMultiset(d2);
    assert multiset(d1) == multiset(d2) by {
      forall n ensures multiset(d1)[n] == multiset(d2)[n] {
        assert n in d1 <==> n in d2;
      }
    }
    AuditValueOrderIndependent(d1, d2);
  }

  /** In a sequence without duplicates every element occurs once. */
  lemma {:induction false} NoDupMultiset(s: seq<string>)
    requires forall i, j :: 0 <= i < j < |s| ==> s[i] != s[j]
    ensures forall n :: multiset(s)[n] == if n in s then 1 else 0
  {
    if |s| > 0 {
      var t := s[1..];
      assert forall i, j :: 0 <= i < j < |t| ==> t[i] != t[j] by {
        forall i, j | 0 <= i < j < |t| ensures t[i] != t[j] {
          assert t[i] == s[i + 1] && t[j] == s[j + 1];
        }
      }
      NoDupMultiset(t);
      assert s == [s[0]] + t;
      assert s[0] !in t by {
        forall k | 0 <= k < |t| ensures t[k] != s[0] {
          assert t[k] == s[k + 1];
        }
      }
      forall n ensures multiset(s)[n] == if n in s then 1 else 0 {
        assert multiset(s) == multiset{s[0]} + multiset(t);
        assert n in s <==> n == s[0] || n in t;
      }
    }
  }

  // ---------------------------------------------------------------------
  // Roles

  /** The audit of a role assignment: the user's role sets before and after. */
  datatype RoleAudit = RoleAudit(actorId: int, targetId: int, accion: string,
                                 oldRoles: set<string>, newRoles: set<string>)

  datatype Error = UsuarioNoEncontrado

  /** The target's row gains the role (null roles read as empty) and
      every other row is unchanged. */
  predicate RoleAdded(st: UserStore, st': UserStore, target: int, rol: string)
  {
    && FindUserById(st.usuarios, target).Some?
    && |st'.usuarios| == |st.usuarios|
    && var u := FindUserById(st.usuarios, target).value;
       var previos := if u.roles.Some? then u.roles.value else {};
       forall i :: 0 <= i < |st.usuarios| ==>
         st'.usuarios[i] == if st.usuarios[i].id == target then u.(roles := Some(previos + {rol})) else st.usuarios[i]
  }

  /** `assignRole`: fails on an unknown user; otherwise the user's roles
      become the old roles (null read as empty) plus the new one, and the
      audit records both sets. No other user changes. */
  function AssignRole(st: UserStore, target: int, rol: string, actor: int): (r: Result<(UserStore, RoleAudit), Error>)
    requires UsuarioService.Valid(st)
    ensures FindUserById(st.usuarios, target).None? <==> r == Err(UsuarioNoEncontrado)
    ensures r.Ok? ==>
      var u := FindUserById(st.usuarios, target).value;
      var previos := if u.roles.Some? then u.roles.value else {};
      && UsuarioService.Valid(r.value.0)
      && r.value.0.nextId == st.nextId
      && RoleAdded(st, r.value.0, target, rol)
      && r.value.1 == RoleAudit(actor, target, "ASSIGN_ROLE", previos, previos + {rol})
  {
    match FindUserById(st.usuarios, target)
    case None => Err(UsuarioNoEncontrado)
    case Some(u) =>
      var previos := if u.roles.Some? then u.roles.value else {};
      var actualizado := u.(roles := Some(previos + {rol}));
      Ok((Save(st, actualizado), RoleAudit(actor, target, "ASSIGN_ROLE", previos, previos + {rol})))
  }

  /** Assigning a role the user already holds changes nothing. */
  lemma AssignRoleIdempotent(st: UserStore, target: int, rol: string, actor: int)
    requires UsuarioService.Valid(st)
    requires FindUserById(st.usuarios, target).Some?
    requires var u := FindUserById(st.usuarios, target).value; u.roles.Some? && rol in u.roles.value
    ensures AssignRole(st, target, rol, actor).value.0 == st
  {
    var st' := AssignRole(st, target, rol, actor).value.0;
    RoleAlreadyHeld(st, st', target, rol);
  }

  lemma RoleAlreadyHeld(st: UserStore, st': UserStore, target: int, rol: string)
    requires UsuarioService.Valid(st)
    requires RoleAdded(st, st', target, rol)
    requires var u := FindUserById(st.usuarios, target).value; u.roles.Some? && rol in u.roles.value
    ensures st'.usuarios == st.usuarios
  {
    var u := FindUserById(st.usuarios, target).value;
    assert u.(roles := Some(u.roles.value + {rol})) == u by {
      assert u.roles.value + {rol} == u.roles.value;
    }
    IdentifiesRow(st, target);
    RowsUnchanged(st.usuarios, st'.usuarios, target, u);
  }

  /** In a valid table every row with the identity is the one found. */
  lemma IdentifiesRow(st: UserStore, id: int)
    requires UsuarioService.Valid(st)
    requires FindUserById(st.usuarios, id).Some?
    ensures forall i :: 0 <= i < |st.usuarios| && st.usuarios[i].id == id ==>
      st.usuarios[i] == FindUserById(st.usuarios, id).value
  {
    forall i | 0 <= i < |st.usuarios| && st.usuarios[i].id == id
      ensures st.usuarios[i] == FindUserById(st.usuarios, id).value
    {
      assert st.usuarios[i] in st.usuarios;
    }
  }

  /** Rewriting the target's rows with a row they already equal changes
      nothing. */
  lemma RowsUnchanged(us: seq<Usuario>, us': seq<Usuario>, target: int, u: Usuario)
    requires |us'| == |us|
    requires forall i :: 0 <= i < |us| ==> us'[i] == if us[i].id == target then u else us[i]
    requires forall i :: 0 <= i < |us| && us[i].id == target ==> us[i] == u
    ensures us' == us
  {
  }
}
