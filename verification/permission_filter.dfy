/** `PermissionFilter`: the per-request decision for USER accounts. The URI
    is normalised (empty segments dropped, id-like segments replaced by
    `{id}`), mapped with the HTTP method to a permission name, and the
    request is refused with 403 when the user lacks that permission. */
module PermissionFilter {
  import opened Common
  import opened Strings
  import opened UsuarioService
  import opened PermissionService

  /** One character of the `ID_SEGMENT` class `[0-9a-fA-F\-]`. */
  predicate IsIdChar(c: char)
  {
    ('0' <= c <= '9') || ('a' <= c <= 'f') || ('A' <= c <= 'F') || c == '-'
  }

  /** `ID_SEGMENT.matcher(p).matches()`: one or more such characters. */
  predicate IsIdSegment(p: string)
  {
    |p| >= 1 && forall i :: 0 <= i < |p| ==> IsIdChar(p[i])
  }

  /** The segment as it appears in a normalised path. */
  function NormSegment(p: string): (r: string)
    ensures r == "{id}" <==> IsIdSegment(p) || p == "{id}"
    ensures !IsIdSegment(r)
  {
    assert !IsIdSegment("{id}") by { assert !IsIdChar("{id}"[0]); }
    if IsIdSegment(p) then "{id}" else p
  }

  /** What one piece of the split URI appends to the builder. */
  function Piece(p: string): string
  {
    if p == "" then "" else "/" + NormSegment(p)
  }

  /** The builder loop of `normalizePath`. */
  function Build(parts: seq<string>): string
  {
    if |parts| == 0 then "" else Piece(parts[0]) + Build(parts[1..])
  }

  /** `normalizePath`. `String.split` additionally drops trailing empty
      pieces, which the loop would skip anyway. */
  function NormalizePath(uri: string): (r: string)
    ensures r == Join([""] + NormSegs(Split(uri, '/')), "/")
  {
    BuildIsJoin(Split(uri, '/'));
    Build(Split(uri, '/'))
  }

  /** The segments of a normalised path: the non-empty pieces, each with
      id-like segments replaced by `{id}`. */
  function NormSegs(parts: seq<string>): (r: seq<string>)
    ensures forall i :: 0 <= i < |r| ==> r[i] != ""
    ensures (forall i :: 0 <= i < |parts| ==> '/' !in parts[i]) ==>
              forall i :: 0 <= i < |r| ==> '/' !in r[i]
  {
    if |parts| == 0 then []
    else if parts[0] == "" then NormSegs(parts[1..])
    else
      assert forall i :: 0 <= i < |parts[1..]| ==> parts[1..][i] == parts[i + 1];
      [NormSegment(parts[0])] + NormSegs(parts[1..])
  }

  /** The normalised path is "/" followed by the normalised segments joined
      by "/", or empty when there are none. */
  lemma {:induction false} BuildIsJoin(parts: seq<string>)
    ensures Build(parts) == Join([""] + NormSegs(parts), "/")
  {
    if |parts| > 0 {
      BuildIsJoin(parts[1..]);
      if parts[0] != "" {
        JoinCons(NormSegment(parts[0]), NormSegs(parts[1..]));
        assert [""] + NormSegs(parts) == [""] + ([NormSegment(parts[0])] + NormSegs(parts[1..]));
      }
    }
  }

  lemma JoinCons(s: string, t: seq<string>)
    ensures Join([""] + ([s] + t), "/") == "/" + Join([s] + t, "/")
    ensures Join([s] + t, "/") == s + Join([""] + t, "/")
  {
    assert ([""] + ([s] + t))[1..] == [s] + t;
    if |t| > 0 {
      assert ([s] + t)[1..] == t;
      assert ([""] + t)[1..] == t;
    }
  }

  /** Normalised segments are already normal: normalising again changes
      nothing. */
  lemma {:induction false} NormSegsIdempotent(parts: seq<string>)
    ensures NormSegs(NormSegs(parts)) == NormSegs(parts)
  {
    if |parts| > 0 {
      NormSegsIdempotent(parts[1..]);
      if parts[0] != "" {
        var n := NormSegs(parts);
        assert n[1..] == NormSegs(parts[1..]);
      }
    }
  }

  /** `normalizePath` is idempotent: a normalised path normalises to itself. */
  lemma NormalizePathIdempotent(uri: string)
    ensures NormalizePath(NormalizePath(uri)) == NormalizePath(uri)
  {
    var segs := NormSegs(Split(uri, '/'));
    BuildIsJoin(Split(uri, '/'));
    var parts := [""] + segs;
    assert forall i :: 0 <= i < |parts| ==> '/' !in parts[i] by {
      forall i | 0 <= i < |parts| ensures '/' !in parts[i] {
        if i > 0 { assert parts[i] == segs[i - 1]; }
      }
    }
    SplitJoin(parts, '/');
    BuildIsJoin(parts);
    assert parts[1..] == segs;
    NormSegsIdempotent(Split(uri, '/'));
  }

  /** A path written as "/"-separated segments normalises segment by
      segment: empty segments vanish and id-like ones become `{id}`. */
  lemma NormalizeSegments(segs: seq<string>)
    requires forall i :: 0 <= i < |segs| ==> '/' !in segs[i]
    ensures NormalizePath(Join([""] + segs, "/")) == Join([""] + NormSegs(segs), "/")
  {
    var parts := [""] + segs;
    assert forall i :: 0 <= i < |parts| ==> '/' !in parts[i] by {
      forall i | 0 <= i < |parts| ensures '/' !in parts[i] {
        if i > 0 { assert parts[i] == segs[i - 1]; }
      }
    }
    SplitJoin(parts, '/');
    BuildIsJoin(parts);
    assert parts[1..] == segs;
  }

  /** A trailing slash does not change the normalised path. */
  lemma NormalizeTrailingSlash(uri: string)
    ensures NormalizePath(uri + "/") == NormalizePath(uri)
  {
    SplitAppendSep(uri, '/');
    BuildAppendEmpty(Split(uri, '/'));
  }

  lemma {:induction false} SplitAppendSep(s: string, sep: char)
    ensures Split(s + [sep], sep) == Split(s, sep) + [""]
  {
    if |s| == 0 {
      assert s + [sep] == [sep];
      assert [sep][1..] == [];
    } else {
      assert (s + [sep])[1..] == s[1..] + [sep];
      SplitAppendSep(s[1..], sep);
    }
  }

  lemma {:induction false} BuildAppendEmpty(parts: seq<string>)
    ensures Build(parts + [""]) == Build(parts)
  {
    if |parts| == 0 {
      assert parts + [""] == [""];
    } else {
      assert (parts + [""])[1..] == parts[1..] + [""];
      BuildAppendEmpty(parts[1..]);
    }
  }

  // ---------------------------------------------------------------------
  // Mapping

  /** `path.matches("<base>(/\\{id\\})?")`. */
  predicate IsResource(path: string, base: string)
  {
    path == base || path == base + "/{id}"
  }

  /** The characters `.` does not match by default. */
  predicate IsLineTerminator(c: char)
  {
    c == '\n' || c == '\r' || c == '\U{85}' || c == '\U{2028}' || c == '\U{2029}'
  }

  /** `path.matches("/api/feature.*")`. */
  predicate IsFeaturePath(path: string)
  {
    && |path| >= |"/api/feature"|
    && path[..|"/api/feature"|] == "/api/feature"
    && forall i :: |"/api/feature"| <= i < |path| ==> !IsLineTerminator(path[i])
  }

  predicate IsProductos(path: string) { IsResource(path, "/api/productos") }
  predicate IsCategorias(path: string) { IsResource(path, "/api/categorias") }
  predicate IsFeatures(path: string) { IsResource(path, "/api/caracteristicas") || IsFeaturePath(path) }

  /** The action suffix of the three mutating methods. */
  function Accion(metodo: string): (r: Option<string>)
    ensures r.Some? <==> metodo == "POST" || metodo == "PUT" || metodo == "DELETE"
  {
    if metodo == "POST" then Some("_CREATE")
    else if metodo == "PUT" then Some("_UPDATE")
    else if metodo == "DELETE" then Some("_DELETE")
    else None
  }

  /** `mapRequestToPermission`: the three resource blocks are tried in
      order, each returning only for POST, PUT and DELETE; reads and
      unmapped paths have no permission. */
  function MapRequestToPermission(metodo: string, path: string): (r: Option<string>)
    ensures r.Some? <==> Accion(metodo).Some? && (IsProductos(path) || IsCategorias(path) || IsFeatures(path))
    ensures r.Some? ==>
      r.value == (if IsProductos(path) then "PRODUCTS" else if IsCategorias(path) then "CATEGORIES" else "FEATURES")
                 + Accion(metodo).value
  {
    if IsProductos(path) && Accion(metodo).Some? then Some("PRODUCTS" + Accion(metodo).value)
    else if IsCategorias(path) && Accion(metodo).Some? then Some("CATEGORIES" + Accion(metodo).value)
    else if IsFeatures(path) && Accion(metodo).Some? then Some("FEATURES" + Accion(metodo).value)
    else None
  }

  /** The three resource groups never overlap, so a path maps to at most one
      group whatever the order of the blocks. */
  lemma ResourceGroupsDisjoint(path: string)
    ensures !(IsProductos(path) && IsCategorias(path))
    ensures !(IsProductos(path) && IsFeatures(path))
    ensures !(IsCategorias(path) && IsFeatures(path))
  {
    if IsProductos(path) {
      assert path[5] == 'p';
    }
    if IsCategorias(path) {
      assert path[5] == 'c' && path[7] == 't';
    }
    if IsResource(path, "/api/caracteristicas") {
      assert path[5] == 'c' && path[7] == 'r';
    }
    if IsFeaturePath(path) {
      assert path[..12][5] == 'f';
    }
  }

  /** Example requests: creating a product needs PRODUCTS_CREATE, updating
      any `/api/feature...` path needs FEATURES_UPDATE, reading needs nothing. */
  lemma MappingExamples()
    ensures MapRequestToPermission("POST", "/api/productos/{id}") == Some("PRODUCTS_CREATE")
    ensures MapRequestToPermission("PUT", "/api/features/{id}") == Some("FEATURES_UPDATE")
    ensures MapRequestToPermission("GET", "/api/productos") == None
  {
    assert IsProductos("/api/productos/{id}") by {
      assert "/api/productos/{id}" == "/api/productos" + "/{id}";
    }
    assert "PRODUCTS" + "_CREATE" == "PRODUCTS_CREATE";
    var f := "/api/features/{id}";
    assert IsFeaturePath(f) by {
      assert f[..12] == "/api/feature";
      assert forall i :: 12 <= i < |f| ==> !IsLineTerminator(f[i]);
    }
    assert !IsProductos(f) && !IsCategorias(f) by {
      assert f[5] == 'f';
      assert ("/api/productos" + "/{id}")[5] == 'p';
      assert ("/api/categorias" + "/{id}")[5] == 'c';
    }
    assert "FEATURES" + "_UPDATE" == "FEATURES_UPDATE";
  }

  // ---------------------------------------------------------------------
  // Decision

  /** Continue down the chain, or answer 403 naming the missing permission. */
  datatype Decision = Continuar | Denegado(permiso: string)

  /** `doFilterInternal`: unauthenticated requests, unknown principals,
      ADMIN users and users without the USER role go through; for the rest
      an unmapped request goes through and a mapped one needs the permission. */
  function Decidir(users: seq<Usuario>, ps: PermState, principal: Option<string>, metodo: string, uri: string)
    : (d: Decision)
    ensures d.Denegado? <==>
      && principal.Some?
      && FindByEmail(users, principal.value).Some?
      && var u := FindByEmail(users, principal.value).value;
         && u.roles.Some? && "ADMIN" !in u.roles.value && "USER" in u.roles.value
         && MapRequestToPermission(metodo, NormalizePath(uri)).Some?
         && !HasPermission(ps, u.id, MapRequestToPermission(metodo, NormalizePath(uri)).value)
    ensures d.Denegado? ==> Some(d.permiso) == MapRequestToPermission(metodo, NormalizePath(uri))
  {
    if principal.None? then Continuar
    else match FindByEmail(users, principal.value)
      case None => Continuar
      case Some(u) =>
        if u.roles.Some? && "ADMIN" in u.roles.value then Continuar
        else if u.roles.None? || "USER" !in u.roles.value then Continuar
        else match MapRequestToPermission(metodo, NormalizePath(uri))
          case None => Continuar
          case Some(permiso) =>
            if HasPermission(ps, u.id, permiso) then Continuar else Denegado(permiso)
  }

  /** Granting a USER the permission the filter named lets the same request
      through; revoking it refuses the request again. */
  lemma GrantLetsThrough(users: seq<Usuario>, ps: PermState, principal: Option<string>, metodo: string, uri: string)
    requires Decidir(users, ps, principal, metodo, uri).Denegado?
    ensures var d := Decidir(users, ps, principal, metodo, uri);
      var u := FindByEmail(users, principal.value).value;
      var ps' := ps.(grants := ps.grants + [Grant(u.id, d.permiso)]);
      Decidir(users, ps', principal, metodo, uri) == Continuar
  {
    var d := Decidir(users, ps, principal, metodo, uri);
    var u := FindByEmail(users, principal.value).value;
    assert Grant(u.id, d.permiso) in ps.grants + [Grant(u.id, d.permiso)];
  }

  /** Reads are never refused, and neither is anything an ADMIN does. */
  lemma NeverDenied(users: seq<Usuario>, ps: PermState, principal: string, uri: string, metodo: string)
    ensures Decidir(users, ps, Some(principal), "GET", uri) == Continuar
    ensures (FindByEmail(users, principal).Some? && FindByEmail(users, principal).value.roles.Some?
             && "ADMIN" in FindByEmail(users, principal).value.roles.value)
            ==> Decidir(users, ps, Some(principal), metodo, uri) == Continuar
  {
  }
}
