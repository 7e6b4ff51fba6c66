/** `FavoritoService`: a user's favourite products, at most one entry per
    (user, product) pair. */
module FavoritoService {
  import opened Common

  /** A favourite row. */
  datatype Favorito = Favorito(id: int, usuarioId: int, productoId: int)

  /** The favourites table in insertion order and its next identity value. */
  datatype FavStore = FavStore(favoritos: seq<Favorito>, nextId: int)

  /** The exceptions `agregarFavorito` throws, by message. */
  datatype Error =
    | UsuarioNoEncontrado   // "Usuario no encontrado"
    | ProductoNoEncontrado  // "Producto no encontrado"
    | YaEnFavoritos         // "El producto ya está en favoritos"

  /** Identity values below the next one, and each (user, product) pair at
      most once. */
  predicate Valid(f: FavStore)
  {
    && 1 <= f.nextId
    && (forall x :: x in f.favoritos ==> 1 <= x.id < f.nextId)
    && (forall i, j ::
          (0 <= i < |f.favoritos| && 0 <= j < |f.favoritos|
           && f.favoritos[i].usuarioId == f.favoritos[j].usuarioId
           && f.favoritos[i].productoId == f.favoritos[j].productoId) ==> i == j)
  }

  function EsPar(usuarioId: int, productoId: int): Favorito -> bool
  {
    (x: Favorito) => x.usuarioId == usuarioId && x.productoId == productoId
  }

  function DeUsuario(usuarioId: int): Favorito -> bool
  {
    (x: Favorito) => x.usuarioId == usuarioId
  }

  /** `findByUsuarioIdAndProductoId`, as the position of the entry. */
  function IndexOf(fs: seq<Favorito>, usuarioId: int, productoId: int): (r: Option<nat>)
    ensures r.Some? ==> r.value < |fs| && fs[r.value].usuarioId == usuarioId && fs[r.value].productoId == productoId
    ensures r.None? <==> forall x :: x in fs ==> !(x.usuarioId == usuarioId && x.productoId == productoId)
  {
    if |fs| == 0 then None
    else if fs[|fs| - 1].usuarioId == usuarioId && fs[|fs| - 1].productoId == productoId then Some(|fs| - 1)
    else
      assert forall x :: x in fs ==> x in fs[..|fs| - 1] || x == fs[|fs| - 1];
      IndexOf(fs[..|fs| - 1], usuarioId, productoId)
  }

  /** `esFavorito`. */
  function EsFavorito(f: FavStore, usuarioId: int, productoId: int): (b: bool)
    ensures b <==> exists x :: x in f.favoritos && x.usuarioId == usuarioId && x.productoId == productoId
  {
    var k := IndexOf(f.favoritos, usuarioId, productoId);
    if k.Some? then
      assert f.favoritos[k.value] in f.favoritos;
      true
    else false
  }

  /** `contarFavoritosPorUsuario`. */
  function ContarFavoritosPorUsuario(f: FavStore, usuarioId: int): (n: nat)
    ensures n <= |f.favoritos|
    ensures n == 0 <==> forall x :: x in f.favoritos ==> x.usuarioId != usuarioId
    ensures n == |Filter(f.favoritos, DeUsuario(usuarioId))|
  {
    CountIsFilterLength(f.favoritos, DeUsuario(usuarioId));
    Count(f.favoritos, DeUsuario(usuarioId))
  }

  /** `agregarFavorito`: the user must exist, then the product, then the
      pair must be new; the entry is appended with the next identity. */
  function AgregarFavorito(f: FavStore, usuarios: set<int>, productos: set<int>, usuarioId: int, productoId: int)
    : (r: Result<(FavStore, Favorito), Error>)
    requires Valid(f)
    ensures usuarioId !in usuarios ==> r == Err(UsuarioNoEncontrado)
    ensures usuarioId in usuarios && productoId !in productos ==> r == Err(ProductoNoEncontrado)
    ensures usuarioId in usuarios && productoId in productos && EsFavorito(f, usuarioId, productoId)
            ==> r == Err(YaEnFavoritos)
    ensures r.Ok? <==> usuarioId in usuarios && productoId in productos && !EsFavorito(f, usuarioId, productoId)
    ensures r.Ok? ==>
      var (f', nuevo) := r.value;
      && Valid(f')
      && nuevo == Favorito(f.nextId, usuarioId, productoId)
      && f'.favoritos == f.favoritos + [nuevo]
  {
    if usuarioId !in usuarios then Err(UsuarioNoEncontrado)
    else if productoId !in productos then Err(ProductoNoEncontrado)
    else if IndexOf(f.favoritos, usuarioId, productoId).Some? then
      var k := IndexOf(f.favoritos, usuarioId, productoId).value;
      assert f.favoritos[k] in f.favoritos;
      Err(YaEnFavoritos)
    else
      var nuevo := Favorito(f.nextId, usuarioId, productoId);
      var f' := FavStore(f.favoritos + [nuevo], f.nextId + 1);
      assert forall i :: 0 <= i < |f.favoritos| ==> f.favoritos[i] in f.favoritos;
      Ok((f', nuevo))
  }

  /** After a successful add the pair is a favourite and the user's count
      has grown by exactly one. */
  lemma AgregarFavoritoCounts(f: FavStore, usuarios: set<int>, productos: set<int>, usuarioId: int, productoId: int)
    requires Valid(f)
    requires AgregarFavorito(f, usuarios, productos, usuarioId, productoId).Ok?
    ensures var f' := AgregarFavorito(f, usuarios, productos, usuarioId, productoId).value.0;
      && EsFavorito(f', usuarioId, productoId)
      && ContarFavoritosPorUsuario(f', usuarioId) == ContarFavoritosPorUsuario(f, usuarioId) + 1
  {
    var (f', nuevo) := AgregarFavorito(f, usuarios, productos, usuarioId, productoId).value;
    assert nuevo in f'.favoritos;
    CountConcat(f.favoritos, [nuevo], DeUsuario(usuarioId));
  }

  /** `eliminarFavorito`: deletes the pair's entry and answers true when it
      exists; otherwise answers false and changes nothing. */
  function EliminarFavorito(f: FavStore, usuarioId: int, productoId: int): (r: (bool, FavStore))
    requires Valid(f)
    ensures r.0 <==> EsFavorito(f, usuarioId, productoId)
    ensures !r.0 ==> r.1 == f
    ensures Valid(r.1)
    ensures !EsFavorito(r.1, usuarioId, productoId)
    ensures forall x :: x in f.favoritos && !(x.usuarioId == usuarioId && x.productoId == productoId)
              ==> x in r.1.favoritos
    ensures forall x :: x in r.1.favoritos ==> x in f.favoritos
  {
    match IndexOf(f.favoritos, usuarioId, productoId)
    case None => (false, f)
    case Some(k) =>
      var fs := f.favoritos;
      var rest := fs[..k] + fs[k + 1..];
      assert fs[k] in fs;
      RemoveAtFacts(fs, k);
      (true, FavStore(rest, f.nextId))
  }

  /** Removing position `k` keeps every other entry, in order. */
  lemma RemoveAtFacts(fs: seq<Favorito>, k: nat)
    requires k < |fs|
    ensures var rest := fs[..k] + fs[k + 1..];
      && |rest| == |fs| - 1
      && (forall i :: 0 <= i < |rest| ==> rest[i] == fs[if i < k then i else i + 1])
      && (forall x :: x in rest ==> x in fs)
      && (forall x :: x in fs && x != fs[k] ==> x in rest)
  {
    var rest := fs[..k] + fs[k + 1..];
    forall x | x in fs && x != fs[k] ensures x in rest {
      var i :| 0 <= i < |fs| && fs[i] == x;
      if i < k { assert rest[i] == x; } else { assert rest[i - 1] == x; }
    }
  }

  /** Removing an existing favourite lowers its user's count by exactly one. */
  lemma EliminarFavoritoCounts(f: FavStore, usuarioId: int, productoId: int)
    requires Valid(f)
    requires EsFavorito(f, usuarioId, productoId)
    ensures ContarFavoritosPorUsuario(EliminarFavorito(f, usuarioId, productoId).1, usuarioId)
         == ContarFavoritosPorUsuario(f, usuarioId) - 1
  {
    var fs := f.favoritos;
    var k := IndexOf(fs, usuarioId, productoId).value;
    var p := DeUsuario(usuarioId);
    assert fs == fs[..k] + [fs[k]] + fs[k + 1..];
    CountConcat(fs[..k] + [fs[k]], fs[k + 1..], p);
    CountConcat(fs[..k], [fs[k]], p);
    CountConcat(fs[..k], fs[k + 1..], p);
  }
}
