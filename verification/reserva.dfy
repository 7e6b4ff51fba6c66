/** The `Reserva` entity and its `EstadoReserva` status enum. */
module Reservas {
  import opened Common

  /** The four states of a reservation; exactly the enum's constants. */
  datatype EstadoReserva = Pendiente | Confirmada | Cancelada | Completada

  /** A reservation row. Every column the entity marks non-nullable is a
      plain (non-optional) field here. `fechaCreacion` is an instant, kept
      as an opaque clock reading; `precioTotal` is in cents. */
  datatype Reserva = Reserva(
    id: int,
    usuarioId: int,
    productoId: int,
    fechaInicio: Day,
    fechaFin: Day,
    diasReserva: int,
    precioTotal: int,
    estado: EstadoReserva,
    fechaCreacion: int)

  const INT_MIN: int := -0x8000_0000
  const INT_MAX: int := 0x7FFF_FFFF

  /** Java's narrowing cast `(int)` of a `long`: keep the low 32 bits as a
      two's-complement value. */
  function ToInt(x: int): (r: int)
    ensures INT_MIN <= r <= INT_MAX
    ensures (x - r) % 0x1_0000_0000 == 0
    ensures INT_MIN <= x <= INT_MAX ==> r == x
  {
    (x - INT_MIN) % 0x1_0000_0000 + INT_MIN
  }

  /** A freshly constructed reservation: the constructor sets the state to
      PENDIENTE and stamps the creation time; the caller supplies the rest.
      The id is assigned when the row is first saved. */
  function NuevaReserva(usuarioId: int, productoId: int, fechaInicio: Day, fechaFin: Day,
                        diasReserva: int, precioTotal: int, ahora: int): (r: Reserva)
    ensures r.estado == Pendiente
    ensures r.fechaCreacion == ahora
    ensures r.usuarioId == usuarioId && r.productoId == productoId
    ensures r.fechaInicio == fechaInicio && r.fechaFin == fechaFin
    ensures r.diasReserva == diasReserva && r.precioTotal == precioTotal
  {
    Reserva(0, usuarioId, productoId, fechaInicio, fechaFin, diasReserva, precioTotal, Pendiente, ahora)
  }

  /** The enum constant's name, as `Enum.name()` gives it. */
  function EstadoName(e: EstadoReserva): string
  {
    match e
    case Pendiente => "PENDIENTE"
    case Confirmada => "CONFIRMADA"
    case Cancelada => "CANCELADA"
    case Completada => "COMPLETADA"
  }

  /** `EstadoReserva.valueOf(s)`: the constant with exactly that name, or
      none (where Java throws `IllegalArgumentException`). */
  function ValueOf(s: string): (r: Option<EstadoReserva>)
    ensures r.Some? ==> EstadoName(r.value) == s
  {
    if s == "PENDIENTE" then Some(Pendiente)
    else if s == "CONFIRMADA" then Some(Confirmada)
    else if s == "CANCELADA" then Some(Cancelada)
    else if s == "COMPLETADA" then Some(Completada)
    else None
  }

  /** Every state is recovered from its name, so `ValueOf` fails exactly on
      strings that are no constant's name. */
  lemma ValueOfName(e: EstadoReserva)
    ensures ValueOf(EstadoName(e)) == Some(e)
  {
  }

  lemma ValueOfFailsOnlyOnNonNames(s: string)
    ensures ValueOf(s).None? <==> forall e: EstadoReserva :: EstadoName(e) != s
  {
    if ValueOf(s).None? {
      forall e: EstadoReserva ensures EstadoName(e) != s {
        if EstadoName(e) == s {
          ValueOfName(e);
        }
      }
    }
  }
}
