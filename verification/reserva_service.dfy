/** `ReservaService`: booking validation and pricing, occupied and available
    dates, the conflict check, and the confirm/cancel status updates. */
module ReservaService {
  import opened Common
  import opened Strings
  import opened Reservas
  import opened ReservaRepository

  /** What the engine reads of a product: the daily price (in cents) and
      whether it accepts new reservations. */
  datatype Producto = Producto(precio: int, disponible: bool)

  /** The products known to the catalogue, by id. */
  type Catalogo = map<int, Producto>

  /** `ReservaRequest` once the controller has checked both dates are present. */
  datatype ReservaRequest = ReservaRequest(productoId: int, fechaInicio: Day, fechaFin: Day)

  /** The `IllegalArgumentException`s the service throws, by message. */
  datatype Error =
    | ProductoNoEncontrado       // "Producto no encontrado"
    | InicioPosteriorAFin        // "La fecha de inicio debe ser anterior a la fecha de fin."
    | InicioPasado               // "La fecha de inicio debe ser futura."
    | NoDisponibleEnFechas       // "El producto no está disponible en las fechas seleccionadas."
    | DiasNoPositivos            // "La fecha de fin debe ser posterior o igual a la de inicio"
    | ReservaNoEncontrada        // "Reserva no encontrada"

  // ---------------------------------------------------------------------
  // Conflicts

  /** `hayConflictosEnFechas`: the conflict query returns at least one row. */
  function HayConflictosEnFechas(s: Store, productoId: int, inicio: Day, fin: Day): (b: bool)
    ensures b <==> exists x :: x in s.reservas && x.productoId == productoId
                              && Overlaps(x.fechaInicio, x.fechaFin, inicio, fin)
  {
    var conflictivas := FindReservasConflictivas(s, productoId, inicio, fin);
    assert |conflictivas| > 0 ==> conflictivas[0] in conflictivas;
    |conflictivas| > 0
  }

  /** `verificarDisponibilidad`: true iff the conflict query is empty. */
  function VerificarDisponibilidad(s: Store, productoId: int, inicio: Day, fin: Day): (b: bool)
    ensures b <==> FindReservasConflictivas(s, productoId, inicio, fin) == []
    ensures b <==> forall x :: x in s.reservas && x.productoId == productoId
                              ==> !Overlaps(x.fechaInicio, x.fechaFin, inicio, fin)
  {
    !HayConflictosEnFechas(s, productoId, inicio, fin)
  }

  /** Central invariant of the engine: no two rows of the same product have
      overlapping date ranges. Because the conflict query ignores the state,
      this holds of cancelled rows too. */
  predicate NoDoubleBooking(s: Store)
  {
    forall x, y :: x in s.reservas && y in s.reservas && x != y && x.productoId == y.productoId
      ==> !Overlaps(x.fechaInicio, x.fechaFin, y.fechaInicio, y.fechaFin)
  }

  // ---------------------------------------------------------------------
  // Creation

  /** `ChronoUnit.DAYS.between(inicio, fin) + 1`, the inclusive day count. */
  function DiasInclusivos(inicio: Day, fin: Day): int
  {
    fin - inicio + 1
  }

  /** `crearReserva`: product lookup, then start after end, then start in
      the past, then the conflict check; on success the new row is appended
      with the inclusive day count and `dias * precio` as its total. On any
      failure nothing is returned to save, so the table is unchanged. */
  function CrearReserva(s: Store, catalogo: Catalogo, req: ReservaRequest, usuarioId: int,
                        hoy: Day, ahora: int): (r: Result<(Store, Reserva), Error>)
    requires Valid(s)
    ensures req.productoId !in catalogo ==> r == Err(ProductoNoEncontrado)
    ensures req.productoId in catalogo && req.fechaInicio > req.fechaFin ==> r == Err(InicioPosteriorAFin)
    ensures req.productoId in catalogo && req.fechaInicio <= req.fechaFin && req.fechaInicio < hoy
            ==> r == Err(InicioPasado)
    ensures (req.productoId in catalogo && req.fechaInicio <= req.fechaFin && hoy <= req.fechaInicio
             && !VerificarDisponibilidad(s, req.productoId, req.fechaInicio, req.fechaFin))
            ==> r == Err(NoDisponibleEnFechas)
    ensures r.Err? ==> r.error != DiasNoPositivos && r.error != ReservaNoEncontrada
    ensures r.Ok? <==>
      && req.productoId in catalogo
      && req.fechaInicio <= req.fechaFin
      && hoy <= req.fechaInicio
      && VerificarDisponibilidad(s, req.productoId, req.fechaInicio, req.fechaFin)
    ensures r.Ok? ==>
      var (s', nueva) := r.value;
      && Valid(s')
      && s'.reservas == s.reservas + [nueva]
      && nueva.id == s.nextId
      && nueva.usuarioId == usuarioId
      && nueva.productoId == req.productoId
      && nueva.fechaInicio == req.fechaInicio && nueva.fechaFin == req.fechaFin
      && nueva.diasReserva == ToInt(req.fechaFin - req.fechaInicio + 1)
      && nueva.precioTotal == (req.fechaFin - req.fechaInicio + 1) * catalogo[req.productoId].precio
      && nueva.estado == Pendiente
      && nueva.fechaCreacion == ahora
  {
    if req.productoId !in catalogo then Err(ProductoNoEncontrado)
    else
      var producto := catalogo[req.productoId];
      if req.fechaInicio > req.fechaFin then Err(InicioPosteriorAFin)
      else if req.fechaInicio < hoy then Err(InicioPasado)
      else if HayConflictosEnFechas(s, req.productoId, req.fechaInicio, req.fechaFin) then Err(NoDisponibleEnFechas)
      else
        var dias := DiasInclusivos(req.fechaInicio, req.fechaFin);
        if dias <= 0 then Err(DiasNoPositivos)
        else
          var nueva := NuevaReserva(usuarioId, req.productoId, req.fechaInicio, req.fechaFin,
                                    ToInt(dias), dias * producto.precio, ahora);
          Ok(Insert(s, nueva))
  }

  /** A created reservation covers at least one day, and while the range is
      shorter than 2^31 days the stored `diasReserva` is exactly the
      inclusive count (beyond that Java's `(int)` cast wraps). */
  lemma CrearReservaDias(s: Store, catalogo: Catalogo, req: ReservaRequest, usuarioId: int, hoy: Day, ahora: int)
    requires Valid(s)
    requires CrearReserva(s, catalogo, req, usuarioId, hoy, ahora).Ok?
    requires req.fechaFin - req.fechaInicio < INT_MAX
    ensures var nueva := CrearReserva(s, catalogo, req, usuarioId, hoy, ahora).value.1;
      && nueva.diasReserva == req.fechaFin - req.fechaInicio + 1
      && nueva.diasReserva >= 1
      && nueva.fechaInicio <= nueva.fechaFin
  {
  }

  /** The priced example of the service tests: five days at 100.00 a day
      cost 500.00 (in cents). */
  lemma PrecioCincoDias(s: Store, hoy: Day)
    requires Valid(s)
    requires s.reservas == []
    ensures var r := CrearReserva(s, map[1 := Producto(10000, true)], ReservaRequest(1, hoy + 1, hoy + 5), 7, hoy, 0);
      r.Ok? && r.value.1.diasReserva == 5 && r.value.1.precioTotal == 50000
  {
  }

  /** Creating a reservation keeps the no-double-booking invariant. */
  lemma CrearReservaKeepsNoDoubleBooking(s: Store, catalogo: Catalogo, req: ReservaRequest,
                                         usuarioId: int, hoy: Day, ahora: int)
    requires Valid(s) && NoDoubleBooking(s)
    requires CrearReserva(s, catalogo, req, usuarioId, hoy, ahora).Ok?
    ensures NoDoubleBooking(CrearReserva(s, catalogo, req, usuarioId, hoy, ahora).value.0)
  {
    var (s', nueva) := CrearReserva(s, catalogo, req, usuarioId, hoy, ahora).value;
    forall x, y | x in s'.reservas && y in s'.reservas && x != y && x.productoId == y.productoId
      ensures !Overlaps(x.fechaInicio, x.fechaFin, y.fechaInicio, y.fechaFin)
    {
      if x == nueva {
        assert y in s.reservas;
      } else if y == nueva {
        assert x in s.reservas;
        OverlapsSymmetric(x.fechaInicio, x.fechaFin, y.fechaInicio, y.fechaFin);
      }
    }
  }

  // ---------------------------------------------------------------------
  // Occupied and available dates

  /** Every day of the inclusive range [inicio, fin], ascending. */
  function Dias(inicio: Day, fin: Day): (r: seq<Day>)
    ensures |r| == if fin < inicio then 0 else fin - inicio + 1
    ensures forall i :: 0 <= i < |r| ==> r[i] == inicio + i
    ensures forall d :: d in r <==> InRange(d, inicio, fin)
    decreases fin - inicio
  {
    if fin < inicio then [] else Dias(inicio, fin - 1) + [fin]
  }

  /** The occupied-dates list of a sequence of reservations: each one's days
      in order, one reservation after another. */
  function FechasOcupadas(rs: seq<Reserva>): (r: seq<Day>)
    ensures forall d :: d in r <==> exists x :: x in rs && InRange(d, x.fechaInicio, x.fechaFin)
  {
    if |rs| == 0 then []
    else
      var last := rs[|rs| - 1];
      assert forall x :: x in rs <==> x in rs[..|rs| - 1] || x == last;
      FechasOcupadas(rs[..|rs| - 1]) + Dias(last.fechaInicio, last.fechaFin)
  }

  /** `obtenerFechasOcupadas`: for every reservation of the product, in any
      state, every day from its start to its end inclusive. The horizon
      argument `meses` is not used. */
  method ObtenerFechasOcupadas(s: Store, productoId: int, meses: int) returns (fechas: seq<Day>)
    ensures fechas == FechasOcupadas(FindByProductoId(s, productoId))
    ensures forall d :: d in fechas <==>
      exists x :: x in s.reservas && x.productoId == productoId && InRange(d, x.fechaInicio, x.fechaFin)
  {
    var reservas := FindByProductoId(s, productoId);
    fechas := [];
    for k := 0 to |reservas|
      invariant fechas == FechasOcupadas(reservas[..k])
    {
      var reserva := reservas[k];
      fechas := AppendDias(fechas, reserva.fechaInicio, reserva.fechaFin);
      assert reservas[..k + 1][..k] == reservas[..k];
      assert reservas[..k + 1][k] == reserva;
    }
    assert reservas[..|reservas|] == reservas;
  }

  /** The inner loop of `obtenerFechasOcupadas`: append every day from
      `inicio` to `fin` inclusive. */
  method AppendDias(prefix: seq<Day>, inicio: Day, fin: Day) returns (fechas: seq<Day>)
    ensures fechas == prefix + Dias(inicio, fin)
  {
    fechas := prefix;
    var fecha := inicio;
    while fecha <= fin
      invariant inicio <= fecha
      invariant fecha <= if inicio <= fin then fin + 1 else inicio
      invariant fechas == prefix + Dias(inicio, fecha - 1)
      decreases fin - fecha
    {
      assert Dias(inicio, fecha) == Dias(inicio, fecha - 1) + [fecha];
      fechas := fechas + [fecha];
      fecha := fecha + 1;
    }
    assert Dias(inicio, fecha - 1) == Dias(inicio, fin);
  }

  /** Reference definition of the available dates: the days of
      [desde, hasta] that are not in `ocupadas`, ascending. */
  function Disponibles(desde: Day, hasta: Day, ocupadas: seq<Day>): (r: seq<Day>)
    ensures forall d :: d in r <==> InRange(d, desde, hasta) && d !in ocupadas
    decreases hasta - desde
  {
    if hasta < desde then []
    else Disponibles(desde, hasta - 1, ocupadas) + (if hasta in ocupadas then [] else [hasta])
  }

  /** Strictly ascending, hence also free of duplicates. */
  predicate Ascending(r: seq<Day>)
  {
    forall i, j :: 0 <= i < j < |r| ==> r[i] < r[j]
  }

  /** The available dates come out strictly ascending. */
  lemma {:induction false} DisponiblesAscending(desde: Day, hasta: Day, ocupadas: seq<Day>)
    ensures Ascending(Disponibles(desde, hasta, ocupadas))
    decreases hasta - desde
  {
    if desde <= hasta {
      DisponiblesAscending(desde, hasta - 1, ocupadas);
      var prev := Disponibles(desde, hasta - 1, ocupadas);
      var r := Disponibles(desde, hasta, ocupadas);
      if hasta !in ocupadas {
        assert r == prev + [hasta];
        forall i, j | 0 <= i < j < |r| ensures r[i] < r[j] {
          assert r[i] == prev[i] && prev[i] in prev;
          if j < |prev| {
            assert r[j] == prev[j];
          }
        }
      } else {
        assert r == prev;
      }
    }
  }

  /** `obtenerFechasDisponibles`: the days from today to `finRango` (the
      caller's `hoy.plusMonths(mesesAdelante)`) inclusive that are not in
      the occupied-dates list, in ascending order. */
  method ObtenerFechasDisponibles(s: Store, productoId: int, mesesAdelante: int, hoy: Day, finRango: Day)
    returns (fechas: seq<Day>)
    ensures fechas == Disponibles(hoy, finRango, FechasOcupadas(FindByProductoId(s, productoId)))
    ensures Ascending(fechas)
    ensures forall d :: d in fechas <==>
      && InRange(d, hoy, finRango)
      && !exists x :: x in s.reservas && x.productoId == productoId && InRange(d, x.fechaInicio, x.fechaFin)
  {
    var ocupadas := ObtenerFechasOcupadas(s, productoId, mesesAdelante);
    fechas := DiasLibres(ocupadas, hoy, finRango);
    DisponiblesAscending(hoy, finRango, ocupadas);
  }

  /** The loop of `obtenerFechasDisponibles`: walk the horizon a day at a
      time, keeping the days not in `ocupadas`. */
  method DiasLibres(ocupadas: seq<Day>, hoy: Day, finRango: Day) returns (fechas: seq<Day>)
    ensures fechas == Disponibles(hoy, finRango, ocupadas)
  {
    fechas := [];
    var fecha := hoy;
    while fecha <= finRango
      invariant hoy <= fecha
      invariant fecha <= if hoy <= finRango then finRango + 1 else hoy
      invariant fechas == Disponibles(hoy, fecha - 1, ocupadas)
      decreases finRango - fecha
    {
      if fecha !in ocupadas {
        fechas := fechas + [fecha];
      }
      fecha := fecha + 1;
    }
    assert Disponibles(hoy, fecha - 1, ocupadas) == Disponibles(hoy, finRango, ocupadas);
  }

  /** Available and occupied dates split the horizon: every day of
      [hoy, finRango] is in exactly one of the two lists. */
  lemma HorizonPartition(ocupadas: seq<Day>, hoy: Day, finRango: Day, d: Day)
    requires InRange(d, hoy, finRango)
    ensures (d in Disponibles(hoy, finRango, ocupadas)) != (d in ocupadas)
  {
  }

  /** The number of days of [desde, hasta] that are occupied. */
  function OcupadosEn(desde: Day, hasta: Day, ocupadas: seq<Day>): (n: nat)
    ensures n <= if hasta < desde then 0 else hasta - desde + 1
    decreases hasta - desde
  {
    if hasta < desde then 0
    else OcupadosEn(desde, hasta - 1, ocupadas) + (if hasta in ocupadas then 1 else 0)
  }

  /** The available list has one entry per horizon day that is not occupied. */
  lemma {:induction false} DisponiblesCount(desde: Day, hasta: Day, ocupadas: seq<Day>)
    requires desde <= hasta + 1
    ensures |Disponibles(desde, hasta, ocupadas)| == (hasta - desde + 1) - OcupadosEn(desde, hasta, ocupadas)
    decreases hasta - desde
  {
    if desde <= hasta {
      DisponiblesCount(desde, hasta - 1, ocupadas);
    }
  }

  /** A single reservation [a, b] inside the horizon occupies exactly its
      b - a + 1 days of it. */
  lemma {:induction false} OcupadosEnOneRange(desde: Day, hasta: Day, a: Day, b: Day)
    requires desde <= a <= b
    requires a - 1 <= hasta
    ensures OcupadosEn(desde, hasta, Dias(a, b)) == (if hasta < b then hasta else b) - a + 1
    decreases hasta - desde
  {
    if hasta < a {
      NoneOccupiedBelow(desde, hasta, a, b);
    } else {
      OcupadosEnOneRange(desde, hasta - 1, a, b);
    }
  }

  lemma {:induction false} NoneOccupiedBelow(desde: Day, hasta: Day, a: Day, b: Day)
    requires hasta < a
    ensures OcupadosEn(desde, hasta, Dias(a, b)) == 0
    decreases hasta - desde
  {
    if desde <= hasta {
      NoneOccupiedBelow(desde, hasta - 1, a, b);
    }
  }

  /** With one reservation of `n` days inside the horizon, exactly `n` days
      are occupied and the rest of the horizon is available. */
  lemma OneReservationAvailability(hoy: Day, finRango: Day, r: Reserva)
    requires hoy <= r.fechaInicio <= r.fechaFin <= finRango
    ensures var ocupadas := FechasOcupadas([r]);
      && |ocupadas| == r.fechaFin - r.fechaInicio + 1
      && |Disponibles(hoy, finRango, ocupadas)| == (finRango - hoy + 1) - (r.fechaFin - r.fechaInicio + 1)
  {
    var ocupadas := FechasOcupadas([r]);
    assert [r][..0] == [];
    assert ocupadas == FechasOcupadas([r][..0]) + Dias(r.fechaInicio, r.fechaFin);
    assert ocupadas == Dias(r.fechaInicio, r.fechaFin);
    DisponiblesCount(hoy, finRango, ocupadas);
    OcupadosEnOneRange(hoy, finRango, r.fechaInicio, r.fechaFin);
  }

  // ---------------------------------------------------------------------
  // Status updates

  /** Shared body of `confirmarReserva` and `cancelarReserva`: look the row
      up, set the new state unconditionally, save it. */
  function SetEstado(s: Store, id: int, estado: EstadoReserva): (r: Result<(Store, Reserva), Error>)
    requires Valid(s)
    ensures FindById(s, id).None? <==> r == Err(ReservaNoEncontrada)
    ensures r.Ok? ==>
      var (s', saved) := r.value;
      && saved == FindById(s, id).value.(estado := estado)
      && Valid(s')
      && FindById(s', id) == Some(saved)
      && |s'.reservas| == |s.reservas|
      && forall i :: 0 <= i < |s.reservas| ==>
           s'.reservas[i] == (if s.reservas[i].id == id then saved else s.reservas[i])
  {
    match FindById(s, id)
    case None => Err(ReservaNoEncontrada)
    case Some(reserva) =>
      var saved := reserva.(estado := estado);
      Ok((Update(s, saved), saved))
  }

  /** `confirmarReserva`: fails on an unknown id; otherwise sets CONFIRMADA
      whatever the current state, changing no other field or row. */
  function ConfirmarReserva(s: Store, id: int): (r: Result<(Store, Reserva), Error>)
    requires Valid(s)
    ensures FindById(s, id).None? <==> r == Err(ReservaNoEncontrada)
    ensures r.Ok? ==>
      var (s', saved) := r.value;
      && saved == FindById(s, id).value.(estado := Confirmada)
      && Valid(s')
      && FindById(s', id) == Some(saved)
      && |s'.reservas| == |s.reservas|
      && forall i :: 0 <= i < |s.reservas| ==>
           s'.reservas[i] == (if s.reservas[i].id == id then saved else s.reservas[i])
  {
    SetEstado(s, id, Confirmada)
  }

  /** `cancelarReserva`: fails on an unknown id; otherwise sets CANCELADA
      whatever the current state, changing no other field or row. */
  function CancelarReserva(s: Store, id: int): (r: Result<(Store, Reserva), Error>)
    requires Valid(s)
    ensures FindById(s, id).None? <==> r == Err(ReservaNoEncontrada)
    ensures r.Ok? ==>
      var (s', saved) := r.value;
      && saved == FindById(s, id).value.(estado := Cancelada)
      && Valid(s')
      && FindById(s', id) == Some(saved)
      && |s'.reservas| == |s.reservas|
      && forall i :: 0 <= i < |s.reservas| ==>
           s'.reservas[i] == (if s.reservas[i].id == id then saved else s.reservas[i])
  {
    SetEstado(s, id, Cancelada)
  }

  /** A status update moves no dates, so it keeps the no-double-booking
      invariant. */
  lemma SetEstadoKeepsNoDoubleBooking(s: Store, id: int, estado: EstadoReserva)
    requires Valid(s) && NoDoubleBooking(s)
    requires exists x :: x in s.reservas && x.id == id
    ensures SetEstado(s, id, estado).Ok?
    ensures NoDoubleBooking(SetEstado(s, id, estado).value.0)
  {
    var (s', saved) := SetEstado(s, id, estado).value;
    var prev := FindById(s, id).value;
    assert forall x :: x in s'.reservas ==> x == saved || (x in s.reservas && x.id != id) by {
      forall x | x in s'.reservas ensures x == saved || (x in s.reservas && x.id != id) {
        var i :| 0 <= i < |s'.reservas| && s'.reservas[i] == x;
        assert s.reservas[i] in s.reservas;
      }
    }
    forall x, y | x in s'.reservas && y in s'.reservas && x != y && x.productoId == y.productoId
      ensures !Overlaps(x.fechaInicio, x.fechaFin, y.fechaInicio, y.fechaFin)
    {
      var x0 := if x == saved then prev else x;
      var y0 := if y == saved then prev else y;
      assert x0 in s.reservas && y0 in s.reservas;
      assert x0 != y0;
    }
  }

  // ---------------------------------------------------------------------
  // Listing with filters

  /** The state filter of `obtenerTodasLasReservas`: absent or blank means no
      filter, otherwise `valueOf(trim().toUpperCase())`, and a string that
      names no state is ignored, i.e. also means no filter. */
  function EstadoFiltro(estado: Option<string>): (r: Option<EstadoReserva>)
    ensures r.Some? <==> estado.Some? && ValueOf(ToUpper(Trim(estado.value))).Some?
    ensures r.Some? ==> EstadoName(r.value) == ToUpper(Trim(estado.value))
  {
    if estado.None? then None
    else if IsBlank(estado.value) then
      BlankNamesNoState(estado.value);
      None
    else ValueOf(ToUpper(Trim(estado.value)))
  }

  /** The blank test is subsumed by the name lookup: no blank string trims
      and upper-cases to a state's name. */
  lemma BlankNamesNoState(s: string)
    requires IsBlank(s)
    ensures ValueOf(ToUpper(Trim(s))).None?
  {
    var t := Trim(s);
    var up := ToUpper(t);
    if |t| > 0 {
      var k := |s| - |TrimStart(s)|;
      assert t[0] == TrimStart(s)[0] == s[k];
      assert up[0] == t[0];
      assert !('A' <= up[0] <= 'Z') by {
        assert IsWhitespace(s[k]);
      }
      NamesStartWithLetter(up);
    }
  }

  /** Every state's name starts with a capital letter. */
  lemma NamesStartWithLetter(x: string)
    requires |x| > 0
    ensures ValueOf(x).Some? ==> 'A' <= x[0] <= 'Z'
  {
    if ValueOf(x).Some? {
      var n := EstadoName(ValueOf(x).value);
      assert n[0] == 'P' || n[0] == 'C';
    }
  }

  /** `obtenerTodasLasReservas` without the paging. */
  function ObtenerTodasLasReservas(s: Store, estado: Option<string>, productoId: Option<int>): (r: seq<Reserva>)
    ensures forall x :: x in r <==>
      && x in s.reservas
      && (productoId.Some? ==> x.productoId == productoId.value)
      && ((estado.Some? && ValueOf(ToUpper(Trim(estado.value))).Some?)
            ==> EstadoName(x.estado) == ToUpper(Trim(estado.value)))
  {
    var filtro := EstadoFiltro(estado);
    var res := FindAllWithFilters(s, filtro, productoId);
    assert forall x :: x in s.reservas && filtro.Some? ==>
      (EstadoName(x.estado) == EstadoName(filtro.value) <==> x.estado == filtro.value) by {
      forall x | x in s.reservas && filtro.Some?
        ensures EstadoName(x.estado) == EstadoName(filtro.value) <==> x.estado == filtro.value
      {
        if EstadoName(x.estado) == EstadoName(filtro.value) {
          ValueOfName(x.estado);
          ValueOfName(filtro.value);
        }
      }
    }
    res
  }

  /** A state string that names no state, such as a typo, filters nothing:
      the listing is the same as without it. */
  lemma UnknownEstadoIsIgnored(s: Store, estado: string, productoId: Option<int>)
    requires ValueOf(ToUpper(Trim(estado))).None?
    ensures ObtenerTodasLasReservas(s, Some(estado), productoId) == ObtenerTodasLasReservas(s, None, productoId)
  {
  }
}
