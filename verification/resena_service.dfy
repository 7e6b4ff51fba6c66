/** `ResenaService`: who may review a reservation, and the one-review-per-
    reservation rule. */
module ResenaService {
  import opened Common
  import opened Reservas
  import opened ReservaRepository

  /** A review row; product and user are those of the reviewed reservation. */
  datatype Resena = Resena(
    id: int,
    productoId: int,
    usuarioId: int,
    reservaId: int,
    puntuacion: int,
    comentario: string,
    fechaCreacion: int)

  /** The review table in insertion order and its next identity value. */
  datatype ResenaStore = ResenaStore(resenas: seq<Resena>, nextId: int)

  /** `ResenaRequest`. */
  datatype ResenaRequest = ResenaRequest(reservaId: int, puntuacion: int, comentario: string)

  /** The exceptions `crearResena` throws, by message. */
  datatype Error =
    | ReservaNoEncontrada   // "Reserva no encontrada"
    | SinPermiso            // "No tienes permisos para valorar esta reserva"
    | EstadoNoValorable     // "Solo puedes valorar reservas completadas o confirmadas"
    | YaValorada            // "Ya has valorado esta reserva"

  /** Identity values below the next one, and at most one review per
      reservation. */
  predicate Valid(r: ResenaStore)
  {
    && 1 <= r.nextId
    && (forall x :: x in r.resenas ==> 1 <= x.id < r.nextId)
    && (forall x, y :: x in r.resenas && y in r.resenas && x.reservaId == y.reservaId ==> x == y)
  }

  /** Every review names an existing reservation and carries that
      reservation's user and product. */
  predicate Consistent(s: Store, r: ResenaStore)
  {
    forall x :: x in r.resenas ==>
      exists y :: y in s.reservas && y.id == x.reservaId && y.usuarioId == x.usuarioId && y.productoId == x.productoId
  }

  /** `existsByReservaId`: the query counts the matching rows. */
  function ExistsByReservaId(r: ResenaStore, reservaId: int): (b: bool)
    ensures b <==> exists x :: x in r.resenas && x.reservaId == reservaId
  {
    Count(r.resenas, (x: Resena) => x.reservaId == reservaId) > 0
  }

  /** `existsByUsuarioIdAndProductoId`: the query counts the matching rows. */
  function ExistsByUsuarioIdAndProductoId(r: ResenaStore, usuarioId: int, productoId: int): (b: bool)
    ensures b <==> exists x :: x in r.resenas && x.usuarioId == usuarioId && x.productoId == productoId
  {
    Count(r.resenas, (x: Resena) => x.usuarioId == usuarioId && x.productoId == productoId) > 0
  }

  /** A reservation may be reviewed once it is COMPLETADA or CONFIRMADA. */
  predicate Valorable(e: EstadoReserva)
  {
    e == Completada || e == Confirmada
  }

  /** `crearResena`: the reservation must exist, belong to the caller, be
      COMPLETADA or CONFIRMADA, and have no review yet, checked in that
      order; the new review takes user and product from the reservation,
      score and comment from the request, and the current time. */
  function CrearResena(s: Store, r: ResenaStore, usuarioId: int, req: ResenaRequest, ahora: int)
    : (res: Result<(ResenaStore, Resena), Error>)
    requires Valid(r)
    ensures FindById(s, req.reservaId).None? ==> res == Err(ReservaNoEncontrada)
    ensures FindById(s, req.reservaId).Some? ==>
      var x := FindById(s, req.reservaId).value;
      && (x.usuarioId != usuarioId ==> res == Err(SinPermiso))
      && (x.usuarioId == usuarioId && !Valorable(x.estado) ==> res == Err(EstadoNoValorable))
      && ((x.usuarioId == usuarioId && Valorable(x.estado) && ExistsByReservaId(r, req.reservaId))
            ==> res == Err(YaValorada))
    ensures res.Ok? <==>
      && FindById(s, req.reservaId).Some?
      && FindById(s, req.reservaId).value.usuarioId == usuarioId
      && Valorable(FindById(s, req.reservaId).value.estado)
      && !ExistsByReservaId(r, req.reservaId)
    ensures res.Ok? ==>
      var (r', nueva) := res.value;
      var x := FindById(s, req.reservaId).value;
      && Valid(r')
      && r'.resenas == r.resenas + [nueva]
      && nueva == Resena(r.nextId, x.productoId, x.usuarioId, x.id, req.puntuacion, req.comentario, ahora)
  {
    match FindById(s, req.reservaId)
    case None => Err(ReservaNoEncontrada)
    case Some(reserva) =>
      if reserva.usuarioId != usuarioId then Err(SinPermiso)
      else if !Valorable(reserva.estado) then Err(EstadoNoValorable)
      else if ExistsByReservaId(r, req.reservaId) then Err(YaValorada)
      else
        var nueva := Resena(r.nextId, reserva.productoId, reserva.usuarioId, reserva.id,
                            req.puntuacion, req.comentario, ahora);
        Ok((ResenaStore(r.resenas + [nueva], r.nextId + 1), nueva))
  }

  /** A successful review keeps the reviews consistent with the
      reservations, and a second review of the same reservation fails. */
  lemma CrearResenaKeepsConsistent(s: Store, r: ResenaStore, usuarioId: int, req: ResenaRequest, ahora: int)
    requires Valid(r) && Consistent(s, r)
    requires CrearResena(s, r, usuarioId, req, ahora).Ok?
    ensures var r' := CrearResena(s, r, usuarioId, req, ahora).value.0;
      && Consistent(s, r')
      && forall u, q, a :: CrearResena(s, r', u, q, a).Err? || q.reservaId != req.reservaId
  {
    var (r', nueva) := CrearResena(s, r, usuarioId, req, ahora).value;
    var x := FindById(s, req.reservaId).value;
    forall y | y in r'.resenas
      ensures exists z :: z in s.reservas && z.id == y.reservaId && z.usuarioId == y.usuarioId && z.productoId == y.productoId
    {
      if y == nueva {
        assert x in s.reservas;
      } else {
        assert y in r.resenas;
      }
    }
    assert nueva in r'.resenas;
  }

  /** `puedeValorarProducto`: the user has some reservation of the product,
      in any state, and has not reviewed the product yet. */
  function PuedeValorarProducto(s: Store, r: ResenaStore, usuarioId: int, productoId: int): (b: bool)
    ensures b <==>
      && (exists x :: x in s.reservas && x.usuarioId == usuarioId && x.productoId == productoId)
      && !ExistsByUsuarioIdAndProductoId(r, usuarioId, productoId)
  {
    var reservas := FindByUsuarioIdAndProductoId(s, usuarioId, productoId);
    if |reservas| == 0 then false
    else
      assert reservas[0] in reservas;
      !ExistsByUsuarioIdAndProductoId(r, usuarioId, productoId)
  }

  /** After a review of one of their reservations the user can no longer
      review that product. */
  lemma ReviewClosesProduct(s: Store, r: ResenaStore, usuarioId: int, req: ResenaRequest, ahora: int)
    requires Valid(r)
    requires CrearResena(s, r, usuarioId, req, ahora).Ok?
    ensures var (r', nueva) := CrearResena(s, r, usuarioId, req, ahora).value;
      !PuedeValorarProducto(s, r', usuarioId, nueva.productoId)
  {
    var (r', nueva) := CrearResena(s, r, usuarioId, req, ahora).value;
    assert nueva in r'.resenas;
  }

  /** The eligibility check does not look at the state: a user whose only
      reservation of a product is PENDIENTE is told they may review it,
      yet `crearResena` refuses that reservation. */
  lemma EligibilityIgnoresEstado()
    ensures var x := Reserva(1, 7, 3, 10, 12, 3, 300, Pendiente, 0);
      var s := Store([x], 2);
      var r := ResenaStore([], 1);
      && PuedeValorarProducto(s, r, 7, 3)
      && CrearResena(s, r, 7, ResenaRequest(1, 5, "ok"), 0) == Err(EstadoNoValorable)
  {
    var x := Reserva(1, 7, 3, 10, 12, 3, 300, Pendiente, 0);
    var s := Store([x], 2);
    assert x in s.reservas;
    assert FindById(s, 1) == Some(x);
  }
}
