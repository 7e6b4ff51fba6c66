/** `ReservaController`: the guard sequences of the reservation endpoints,
    as pure decisions. An endpoint either rejects the request with a reason
    (which fixes the HTTP status and leaves the table as it was) or succeeds
    with the table the service call produced. */
module ReservaController {
  import opened Common
  import opened Reservas
  import opened ReservaRepository
  import RS = ReservaService

  /** Why an endpoint answered with an error. */
  datatype Rechazo =
    | NoAutenticado          // 401, no authenticated principal
    | UsuarioDesconocido     // 401, principal names no user
    | ProductoDesconocido    // 404, product lookup gave null
    | ProductoNoReservable   // 400, product not open for reservations
    | FechasFaltantes        // 400, a date is missing from the request
    | FechaPasada            // 400, start date before today
    | InicioTrasFin          // 400, start date after end date
    | RangoOcupado           // 409, the conflict query found a row
    | ReservaDesconocida     // 404, no reservation with that id
    | AjenaAlUsuario         // 403, reservation owned by another user
    | EstadoNoCancelable     // 400, state is neither PENDIENTE nor CONFIRMADA
    | CancelacionTardia      // 400, start date is less than one day ahead
    | EstadoNoConfirmable    // 400, state is not PENDIENTE
    | ErrorInterno           // 500, an exception reached the catch block

  /** The HTTP status each rejection is answered with. */
  function StatusOf(e: Rechazo): (code: int)
    ensures code == UNAUTHORIZED <==> e == NoAutenticado || e == UsuarioDesconocido
    ensures code == NOT_FOUND <==> e == ProductoDesconocido || e == ReservaDesconocida
    ensures code == FORBIDDEN <==> e == AjenaAlUsuario
    ensures code == CONFLICT <==> e == RangoOcupado
    ensures code == INTERNAL_SERVER_ERROR <==> e == ErrorInterno
  {
    match e
    case NoAutenticado | UsuarioDesconocido => UNAUTHORIZED
    case ProductoDesconocido | ReservaDesconocida => NOT_FOUND
    case AjenaAlUsuario => FORBIDDEN
    case RangoOcupado => CONFLICT
    case ErrorInterno => INTERNAL_SERVER_ERROR
    case _ => BAD_REQUEST
  }

  /** Who is calling: whether an authenticated principal is present, and the
      id of the user its name resolves to (none when the lookup gives null). */
  datatype Caller = Caller(autenticado: bool, usuario: Option<int>)

  predicate Identificado(c: Caller)
  {
    c.autenticado && c.usuario.Some?
  }

  /** The first two guards of every endpoint: authentication, then the user. */
  function Identificar(c: Caller): (r: Result<int, Rechazo>)
    ensures r.Ok? <==> Identificado(c)
    ensures r.Ok? ==> r.value == c.usuario.value
    ensures !c.autenticado ==> r == Err(NoAutenticado)
    ensures c.autenticado && c.usuario.None? ==> r == Err(UsuarioDesconocido)
  {
    if !c.autenticado then Err(NoAutenticado)
    else if c.usuario.None? then Err(UsuarioDesconocido)
    else Ok(c.usuario.value)
  }

  // ---------------------------------------------------------------------
  // Reservation lookup

  /** `reservaService.findById` followed by the controller's null test, as
      written: the service throws on an unknown id instead of returning
      null, the null branch is never taken, and the exception is answered
      by the catch block. */
  function BuscarReservaAsWritten(s: Store, id: int): (r: Result<Reserva, Rechazo>)
    ensures r.Ok? <==> FindById(s, id).Some?
    ensures r.Ok? ==> r == Ok(FindById(s, id).value)
    ensures r.Err? ==> r.error == ErrorInterno
  {
    match FindById(s, id)
    case None => Err(ErrorInterno)
    case Some(reserva) => Ok(reserva)
  }

  /** The lookup as the endpoints evidently intend it: an unknown id is
      answered with 404. */
  function BuscarReserva(s: Store, id: int): (r: Result<Reserva, Rechazo>)
    ensures r.Ok? <==> FindById(s, id).Some?
    ensures r.Ok? ==> r.value in s.reservas && r.value.id == id
    ensures r.Err? ==> r.error == ReservaDesconocida
  {
    match FindById(s, id)
    case None => Err(ReservaDesconocida)
    case Some(reserva) => Ok(reserva)
  }

  /** The two lookups agree on every known id and differ on every unknown
      one: as written an unknown id gives 500 where 404 is intended. */
  lemma BuscarReservaDiscrepancy(s: Store, id: int)
    ensures FindById(s, id).Some? ==> BuscarReservaAsWritten(s, id) == BuscarReserva(s, id)
    ensures FindById(s, id).None? ==>
      && StatusOf(BuscarReservaAsWritten(s, id).error) == INTERNAL_SERVER_ERROR
      && StatusOf(BuscarReserva(s, id).error) == NOT_FOUND
  {
  }

  /** Guards shared by view, cancel, confirm and delete, as written:
      identify the caller, look the reservation up (an unknown id makes
      the service throw, which the catch block answers with 500), and
      insist that the caller owns it. */
  function ReservaPropia(s: Store, c: Caller, id: int): (r: Result<Reserva, Rechazo>)
    ensures !Identificado(c) ==> r == Identificar(c).PropagateErr()
    ensures Identificado(c) && FindById(s, id).None? ==> r == Err(ErrorInterno)
    ensures Identificado(c) && FindById(s, id).Some? && FindById(s, id).value.usuarioId != c.usuario.value
            ==> r == Err(AjenaAlUsuario)
    ensures r.Ok? <==> Identificado(c) && FindById(s, id).Some? && FindById(s, id).value.usuarioId == c.usuario.value
    ensures r.Ok? ==> r.value == FindById(s, id).value
  {
    match Identificar(c)
    case Err(e) => Err(e)
    case Ok(usuarioId) =>
      match BuscarReservaAsWritten(s, id)
      case Err(e) => Err(e)
      case Ok(reserva) =>
        if reserva.usuarioId != usuarioId then Err(AjenaAlUsuario) else Ok(reserva)
  }

  /** The same guards with the intended lookup: an unknown id is 404. */
  function ReservaPropiaCorregida(s: Store, c: Caller, id: int): (r: Result<Reserva, Rechazo>)
    ensures !Identificado(c) ==> r == Identificar(c).PropagateErr()
    ensures Identificado(c) && FindById(s, id).None? ==> r == Err(ReservaDesconocida)
    ensures r.Ok? <==> Identificado(c) && FindById(s, id).Some? && FindById(s, id).value.usuarioId == c.usuario.value
  {
    match Identificar(c)
    case Err(e) => Err(e)
    case Ok(usuarioId) =>
      match BuscarReserva(s, id)
      case Err(e) => Err(e)
      case Ok(reserva) =>
        if reserva.usuarioId != usuarioId then Err(AjenaAlUsuario) else Ok(reserva)
  }

  /** The shared guards as written and as intended differ exactly on an
      identified caller asking for an unknown id: 500 against 404. */
  lemma ReservaPropiaDiscrepancy(s: Store, c: Caller, id: int)
    ensures ReservaPropia(s, c, id) != ReservaPropiaCorregida(s, c, id) <==>
      Identificado(c) && FindById(s, id).None?
    ensures Identificado(c) && FindById(s, id).None? ==>
      && StatusOf(ReservaPropia(s, c, id).error) == INTERNAL_SERVER_ERROR
      && StatusOf(ReservaPropiaCorregida(s, c, id).error) == NOT_FOUND
  {
  }

  // ---------------------------------------------------------------------
  // Create

  /** The body of a create request: both dates may be missing. */
  datatype CrearRequest = CrearRequest(productoId: int, fechaInicio: Option<Day>, fechaFin: Option<Day>)

  /** The request passes every guard of `crearReserva`. */
  predicate PasaGuardas(s: Store, catalogo: RS.Catalogo, c: Caller, req: CrearRequest, hoy: Day)
  {
    && Identificado(c)
    && req.productoId in catalogo
    && catalogo[req.productoId].disponible
    && req.fechaInicio.Some? && req.fechaFin.Some?
    && hoy <= req.fechaInicio.value
    && req.fechaInicio.value <= req.fechaFin.value
    && RS.VerificarDisponibilidad(s, req.productoId, req.fechaInicio.value, req.fechaFin.value)
  }

  /** `crearReserva`: the guards in order (authentication, user, product,
      product open for reservations, dates present, start not in the past,
      start not after end, no conflict), then the service call and 201.
      The first failing guard decides the answer; a past start is reported
      even when the start is also after the end. */
  function CrearReservaEndpoint(s: Store, catalogo: RS.Catalogo, c: Caller, req: CrearRequest,
                                hoy: Day, ahora: int): (r: Result<(Store, Reserva), Rechazo>)
    requires Valid(s)
    ensures !Identificado(c) ==> r == Identificar(c).PropagateErr()
    ensures Identificado(c) && req.productoId !in catalogo ==> r == Err(ProductoDesconocido)
    ensures Identificado(c) && req.productoId in catalogo && !catalogo[req.productoId].disponible
            ==> r == Err(ProductoNoReservable)
    ensures (Identificado(c) && req.productoId in catalogo && catalogo[req.productoId].disponible
             && (req.fechaInicio.None? || req.fechaFin.None?)) ==> r == Err(FechasFaltantes)
    ensures (Identificado(c) && req.productoId in catalogo && catalogo[req.productoId].disponible
             && req.fechaInicio.Some? && req.fechaFin.Some? && req.fechaInicio.value < hoy)
            ==> r == Err(FechaPasada)
    ensures (Identificado(c) && req.productoId in catalogo && catalogo[req.productoId].disponible
             && req.fechaInicio.Some? && req.fechaFin.Some? && hoy <= req.fechaInicio.value
             && req.fechaInicio.value > req.fechaFin.value) ==> r == Err(InicioTrasFin)
    ensures r.Err? ==> r.error != ErrorInterno
    ensures r.Ok? <==> PasaGuardas(s, catalogo, c, req, hoy)
    ensures r.Ok? ==> r.value == RS.CrearReserva(s, catalogo,
              RS.ReservaRequest(req.productoId, req.fechaInicio.value, req.fechaFin.value),
              c.usuario.value, hoy, ahora).value
  {
    match Identificar(c)
    case Err(e) => Err(e)
    case Ok(usuarioId) =>
      if req.productoId !in catalogo then Err(ProductoDesconocido)
      else if !catalogo[req.productoId].disponible then Err(ProductoNoReservable)
      else if req.fechaInicio.None? || req.fechaFin.None? then Err(FechasFaltantes)
      else
        var inicio := req.fechaInicio.value;
        var fin := req.fechaFin.value;
        if inicio < hoy then Err(FechaPasada)
        else if inicio > fin then Err(InicioTrasFin)
        else if !RS.VerificarDisponibilidad(s, req.productoId, inicio, fin) then Err(RangoOcupado)
        else
          match RS.CrearReserva(s, catalogo, RS.ReservaRequest(req.productoId, inicio, fin), usuarioId, hoy, ahora)
          case Err(_) => Err(ErrorInterno)
          case Ok(creada) => Ok(creada)
  }

  /** A 409 is answered exactly when every earlier guard passes and some
      reservation of the product, in any state, overlaps the range. */
  lemma CrearReservaConflict(s: Store, catalogo: RS.Catalogo, c: Caller, req: CrearRequest, hoy: Day, ahora: int)
    requires Valid(s)
    ensures CrearReservaEndpoint(s, catalogo, c, req, hoy, ahora) == Err(RangoOcupado) <==>
      && Identificado(c)
      && req.productoId in catalogo && catalogo[req.productoId].disponible
      && req.fechaInicio.Some? && req.fechaFin.Some?
      && hoy <= req.fechaInicio.value <= req.fechaFin.value
      && exists x :: x in s.reservas && x.productoId == req.productoId
                     && Overlaps(x.fechaInicio, x.fechaFin, req.fechaInicio.value, req.fechaFin.value)
  {
  }

  /** A created reservation is PENDIENTE, belongs to the caller, and the
      table keeps the no-double-booking invariant. */
  lemma CrearReservaEndpointInvariant(s: Store, catalogo: RS.Catalogo, c: Caller, req: CrearRequest, hoy: Day, ahora: int)
    requires Valid(s) && RS.NoDoubleBooking(s)
    requires CrearReservaEndpoint(s, catalogo, c, req, hoy, ahora).Ok?
    ensures var (s', nueva) := CrearReservaEndpoint(s, catalogo, c, req, hoy, ahora).value;
      && Valid(s') && RS.NoDoubleBooking(s')
      && nueva.estado == Pendiente
      && nueva.usuarioId == c.usuario.value
      && s'.reservas == s.reservas + [nueva]
  {
    RS.CrearReservaKeepsNoDoubleBooking(s, catalogo,
      RS.ReservaRequest(req.productoId, req.fechaInicio.value, req.fechaFin.value), c.usuario.value, hoy, ahora);
  }

  // ---------------------------------------------------------------------
  // Availability, view, statistics

  /** `obtenerDisponibilidad`: 404 for an unknown product, otherwise 200
      with the occupied dates and the available dates up to `finRango`
      (the caller's `hoy.plusMonths(meses)`). */
  method ObtenerDisponibilidad(s: Store, catalogo: RS.Catalogo, productoId: int, meses: int, hoy: Day, finRango: Day)
    returns (status: int, ocupadas: seq<Day>, disponibles: seq<Day>)
    ensures status == NOT_FOUND <==> productoId !in catalogo
    ensures status != NOT_FOUND ==> status == OK
    ensures status == OK ==>
      && ocupadas == RS.FechasOcupadas(FindByProductoId(s, productoId))
      && disponibles == RS.Disponibles(hoy, finRango, ocupadas)
      && forall d :: InRange(d, hoy, finRango) ==> (d in disponibles <==> d !in ocupadas)
  {
    if productoId !in catalogo {
      return NOT_FOUND, [], [];
    }
    ocupadas := RS.ObtenerFechasOcupadas(s, productoId, meses);
    disponibles := RS.ObtenerFechasDisponibles(s, productoId, meses, hoy, finRango);
    status := OK;
  }

  /** `obtenerReserva`: the reservation, to its owner only. */
  function ObtenerReservaEndpoint(s: Store, c: Caller, id: int): (r: Result<Reserva, Rechazo>)
    ensures r.Ok? <==> Identificado(c) && FindById(s, id).Some? && FindById(s, id).value.usuarioId == c.usuario.value
    ensures r.Ok? ==> r.value in s.reservas && r.value.id == id && r.value.usuarioId == c.usuario.value
    ensures Identificado(c) && FindById(s, id).Some? && FindById(s, id).value.usuarioId != c.usuario.value
            ==> r == Err(AjenaAlUsuario)
    ensures Identificado(c) && FindById(s, id).None? ==> r == Err(ErrorInterno)
  {
    ReservaPropia(s, c, id)
  }

  /** The statistics endpoint's four numbers. */
  datatype Estadisticas = Estadisticas(total: nat, pendientes: nat, confirmadas: nat, canceladas: nat)

  function ObtenerEstadisticas(s: Store): (e: Estadisticas)
    ensures e.total == |s.reservas|
    ensures e.pendientes + e.confirmadas + e.canceladas == e.total - CountByEstado(s, Completada)
    ensures e.pendientes + e.confirmadas + e.canceladas <= e.total
    ensures e.pendientes == CountByEstado(s, Pendiente)
    ensures e.confirmadas == CountByEstado(s, Confirmada)
    ensures e.canceladas == CountByEstado(s, Cancelada)
  {
    CountsByEstadoSumToTotal(s);
    Estadisticas(|s.reservas|, CountByEstado(s, Pendiente), CountByEstado(s, Confirmada), CountByEstado(s, Cancelada))
  }

  // ---------------------------------------------------------------------
  // Cancel, confirm, delete

  /** `cancelarReserva` (controller): after the shared guards, only a
      PENDIENTE or CONFIRMADA reservation whose start is at least one day
      ahead is cancelled; the service call then cannot fail. */
  function CancelarEndpoint(s: Store, c: Caller, id: int, hoy: Day): (r: Result<(Store, Reserva), Rechazo>)
    requires Valid(s)
    ensures ReservaPropia(s, c, id).Err? ==> r == ReservaPropia(s, c, id).PropagateErr()
    ensures ReservaPropia(s, c, id).Ok? ==>
      var x := ReservaPropia(s, c, id).value;
      && (x.estado != Pendiente && x.estado != Confirmada ==> r == Err(EstadoNoCancelable))
      && ((x.estado == Pendiente || x.estado == Confirmada) && x.fechaInicio < hoy + 1 ==> r == Err(CancelacionTardia))
      && (r.Ok? <==> (x.estado == Pendiente || x.estado == Confirmada) && x.fechaInicio >= hoy + 1)
    ensures r == Err(ErrorInterno) <==> Identificado(c) && FindById(s, id).None?
    ensures r.Ok? ==> r.value == RS.CancelarReserva(s, id).value
  {
    match ReservaPropia(s, c, id)
    case Err(e) => Err(e)
    case Ok(reserva) =>
      if reserva.estado != Pendiente && reserva.estado != Confirmada then Err(EstadoNoCancelable)
      else if reserva.fechaInicio < hoy + 1 then Err(CancelacionTardia)
      else
        match RS.CancelarReserva(s, id)
        case Err(_) => Err(ErrorInterno)
        case Ok(cancelada) => Ok(cancelada)
  }

  /** `confirmarReservaUsuario`: after the shared guards, only a PENDIENTE
      reservation is confirmed. */
  function ConfirmarEndpoint(s: Store, c: Caller, id: int): (r: Result<(Store, Reserva), Rechazo>)
    requires Valid(s)
    ensures ReservaPropia(s, c, id).Err? ==> r == ReservaPropia(s, c, id).PropagateErr()
    ensures ReservaPropia(s, c, id).Ok? ==>
      var x := ReservaPropia(s, c, id).value;
      && (x.estado != Pendiente ==> r == Err(EstadoNoConfirmable))
      && (r.Ok? <==> x.estado == Pendiente)
    ensures r == Err(ErrorInterno) <==> Identificado(c) && FindById(s, id).None?
    ensures r.Ok? ==> r.value == RS.ConfirmarReserva(s, id).value
  {
    match ReservaPropia(s, c, id)
    case Err(e) => Err(e)
    case Ok(reserva) =>
      if reserva.estado != Pendiente then Err(EstadoNoConfirmable)
      else
        match RS.ConfirmarReserva(s, id)
        case Err(_) => Err(ErrorInterno)
        case Ok(confirmada) => Ok(confirmada)
  }

  /** `eliminarReservaUsuario`: after the shared guards the row is deleted,
      whatever its state. */
  function EliminarEndpoint(s: Store, c: Caller, id: int): (r: Result<Store, Rechazo>)
    requires Valid(s)
    ensures ReservaPropia(s, c, id).Err? ==> r == ReservaPropia(s, c, id).PropagateErr()
    ensures r.Ok? <==> ReservaPropia(s, c, id).Ok?
    ensures r.Ok? ==>
      && Valid(r.value)
      && FindById(r.value, id).None?
      && |r.value.reservas| < |s.reservas|
      && forall x :: x in s.reservas && x.id != id ==> x in r.value.reservas
  {
    match ReservaPropia(s, c, id)
    case Err(e) => Err(e)
    case Ok(reserva) =>
      var out := DeleteById(s, id);
      DeleteShrinks(s, id);
      Ok(out)
  }

  lemma DeleteShrinks(s: Store, id: int)
    requires Valid(s) && FindById(s, id).Some?
    ensures |DeleteById(s, id).reservas| < |s.reservas|
  {
    var x := FindById(s, id).value;
    FilterDropsMember(s.reservas, IdIsNot(id), x);
  }

  /** Filtering out a present element shortens the sequence. */
  lemma {:induction false} FilterDropsMember<T(!new)>(xs: seq<T>, p: T -> bool, x: T)
    requires x in xs && !p(x)
    ensures |Filter(xs, p)| < |xs|
  {
    if xs[0] != x {
      FilterDropsMember(xs[1..], p, x);
    }
  }

  // ---------------------------------------------------------------------
  // Lifecycle through the controller

  /** The state changes the controller permits: confirm from PENDIENTE,
      cancel from PENDIENTE or CONFIRMADA. */
  predicate PasoPermitido(desde: EstadoReserva, hasta: EstadoReserva)
  {
    || (desde == Pendiente && hasta == Confirmada)
    || (desde == Pendiente && hasta == Cancelada)
    || (desde == Confirmada && hasta == Cancelada)
  }

  /** Every successful cancel or confirm moves the reservation along a
      permitted step, and changes nothing else of the row or of the table. */
  lemma ControllerStepsArePermitted(s: Store, c: Caller, id: int, hoy: Day)
    requires Valid(s)
    ensures CancelarEndpoint(s, c, id, hoy).Ok? ==>
      var (s', saved) := CancelarEndpoint(s, c, id, hoy).value;
      var prev := FindById(s, id).value;
      && PasoPermitido(prev.estado, saved.estado)
      && saved == prev.(estado := Cancelada)
      && FindById(s', id) == Some(saved)
    ensures ConfirmarEndpoint(s, c, id).Ok? ==>
      var (s', saved) := ConfirmarEndpoint(s, c, id).value;
      var prev := FindById(s, id).value;
      && PasoPermitido(prev.estado, saved.estado)
      && saved == prev.(estado := Confirmada)
      && FindById(s', id) == Some(saved)
  {
  }

  /** CANCELADA and COMPLETADA are final through the controller: neither
      endpoint succeeds on them. The service alone would still change them. */
  lemma TerminalStatesAreFinal(s: Store, c: Caller, id: int, hoy: Day)
    requires Valid(s)
    requires FindById(s, id).Some?
    requires FindById(s, id).value.estado == Cancelada || FindById(s, id).value.estado == Completada
    ensures CancelarEndpoint(s, c, id, hoy).Err?
    ensures ConfirmarEndpoint(s, c, id).Err?
    ensures RS.ConfirmarReserva(s, id).Ok? && RS.CancelarReserva(s, id).Ok?
  {
  }

  /** An identified caller naming an unknown reservation gets 500 from every
      one of the four endpoints: the service's exception reaches the catch
      block before the null test can answer 404. */
  lemma UnknownIdIsInternalError(s: Store, c: Caller, id: int, hoy: Day)
    requires Valid(s)
    requires Identificado(c) && FindById(s, id).None?
    ensures StatusOf(ObtenerReservaEndpoint(s, c, id).error) == INTERNAL_SERVER_ERROR
    ensures StatusOf(CancelarEndpoint(s, c, id, hoy).error) == INTERNAL_SERVER_ERROR
    ensures StatusOf(ConfirmarEndpoint(s, c, id).error) == INTERNAL_SERVER_ERROR
    ensures StatusOf(EliminarEndpoint(s, c, id).error) == INTERNAL_SERVER_ERROR
  {
  }

  /** A caller who does not own the reservation gets 403 from every one of
      the four endpoints, and no table is produced. */
  lemma NonOwnerForbidden(s: Store, c: Caller, id: int, hoy: Day)
    requires Valid(s)
    requires Identificado(c) && FindById(s, id).Some?
    requires FindById(s, id).value.usuarioId != c.usuario.value
    ensures StatusOf(ObtenerReservaEndpoint(s, c, id).error) == FORBIDDEN
    ensures StatusOf(CancelarEndpoint(s, c, id, hoy).error) == FORBIDDEN
    ensures StatusOf(ConfirmarEndpoint(s, c, id).error) == FORBIDDEN
    ensures StatusOf(EliminarEndpoint(s, c, id).error) == FORBIDDEN
  {
  }
}
