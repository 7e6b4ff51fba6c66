/** The reservation table and the queries the engine runs against it. The
    table is a sequence of rows in insertion order plus the next identity
    value the database would hand out. */
module ReservaRepository {
  import opened Common
  import opened Reservas

  datatype Store = Store(reservas: seq<Reserva>, nextId: int)

  /** Identity values are positive and below the next one, and an identity
      determines its row. */
  predicate Valid(s: Store)
  {
    && 1 <= s.nextId
    && (forall x :: x in s.reservas ==> 1 <= x.id < s.nextId)
    && (forall x, y :: x in s.reservas && y in s.reservas && x.id == y.id ==> x == y)
  }

  /** The conflict query's condition: `NOT (fin1 < inicio2 OR inicio1 > fin2)`,
      both ends inclusive. */
  predicate Overlaps(inicio1: Day, fin1: Day, inicio2: Day, fin2: Day)
  {
    !(fin1 < inicio2 || inicio1 > fin2)
  }

  /** Reference meaning of an overlap: the two inclusive ranges share a day. */
  ghost predicate ShareADay(inicio1: Day, fin1: Day, inicio2: Day, fin2: Day)
  {
    exists d: Day :: InRange(d, inicio1, fin1) && InRange(d, inicio2, fin2)
  }

  /** Day `d` lies in the inclusive range [inicio, fin]. */
  predicate InRange(d: Day, inicio: Day, fin: Day)
  {
    inicio <= d <= fin
  }

  /** For well-ordered ranges the query's condition is exactly "they share
      a day", in both directions. */
  lemma OverlapsIffShareADay(inicio1: Day, fin1: Day, inicio2: Day, fin2: Day)
    requires inicio1 <= fin1 && inicio2 <= fin2
    ensures Overlaps(inicio1, fin1, inicio2, fin2) <==> ShareADay(inicio1, fin1, inicio2, fin2)
  {
    if Overlaps(inicio1, fin1, inicio2, fin2) {
      var d := if inicio1 < inicio2 then inicio2 else inicio1;
      assert InRange(d, inicio1, fin1) && InRange(d, inicio2, fin2);
    }
  }

  lemma OverlapsSymmetric(inicio1: Day, fin1: Day, inicio2: Day, fin2: Day)
    ensures Overlaps(inicio1, fin1, inicio2, fin2) <==> Overlaps(inicio2, fin2, inicio1, fin1)
  {
  }

  /** A valid range conflicts with itself, and a range ending on day `d`
      conflicts with one starting on `d` (no same-day turnover). */
  lemma OverlapsSelfAndBoundary(inicio: Day, d: Day, fin: Day)
    requires inicio <= d <= fin
    ensures Overlaps(inicio, fin, inicio, fin)
    ensures Overlaps(inicio, d, d, fin)
    ensures !Overlaps(inicio, d - 1, d, fin)
  {
  }

  /** `findByProductoId`: every reservation of the product, whatever its state. */
  function FindByProductoId(s: Store, productoId: int): (r: seq<Reserva>)
    ensures forall x :: x in r <==> x in s.reservas && x.productoId == productoId
  {
    Filter(s.reservas, (x: Reserva) => x.productoId == productoId)
  }

  /** `findReservasConflictivas`: reservations of the same product whose range
      overlaps [inicio, fin]. There is no filter on the state, so cancelled
      reservations still conflict. */
  function FindReservasConflictivas(s: Store, productoId: int, inicio: Day, fin: Day): (r: seq<Reserva>)
    ensures forall x :: x in r <==>
      x in s.reservas && x.productoId == productoId && Overlaps(x.fechaInicio, x.fechaFin, inicio, fin)
  {
    Filter(s.reservas, (x: Reserva) => x.productoId == productoId && Overlaps(x.fechaInicio, x.fechaFin, inicio, fin))
  }

  /** `findAllWithFilters` without the paging: a missing state or product
      means "no filter on that column". */
  function FindAllWithFilters(s: Store, estado: Option<EstadoReserva>, productoId: Option<int>): (r: seq<Reserva>)
    ensures |r| <= |s.reservas|
    ensures forall x :: x in r <==>
      && x in s.reservas
      && (estado.Some? ==> x.estado == estado.value)
      && (productoId.Some? ==> x.productoId == productoId.value)
  {
    Filter(s.reservas, MatchesFilters(estado, productoId))
  }

  /** The row test of `findAllWithFilters`: `(:estado IS NULL OR r.estado = :estado)
      AND (:productoId IS NULL OR r.producto.id = :productoId)`. */
  function MatchesFilters(estado: Option<EstadoReserva>, productoId: Option<int>): Reserva -> bool
  {
    (x: Reserva) => (estado.None? || x.estado == estado.value) && (productoId.None? || x.productoId == productoId.value)
  }

  /** With neither filter the query returns the whole table, in order. */
  lemma {:induction false} NoFiltersReturnsAll(s: Store)
    ensures FindAllWithFilters(s, None, None) == s.reservas
  {
    FilterTrueOn(s.reservas, MatchesFilters(None, None));
  }

  /** `findByUsuarioIdAndProductoId`. */
  function FindByUsuarioIdAndProductoId(s: Store, usuarioId: int, productoId: int): (r: seq<Reserva>)
    ensures forall x :: x in r <==> x in s.reservas && x.usuarioId == usuarioId && x.productoId == productoId
  {
    Filter(s.reservas, (x: Reserva) => x.usuarioId == usuarioId && x.productoId == productoId)
  }

  /** `findById`: the row with that identity, if any. */
  function FindById(s: Store, id: int): (r: Option<Reserva>)
    ensures r.Some? ==> r.value in s.reservas && r.value.id == id
    ensures r.None? <==> forall x :: x in s.reservas ==> x.id != id
  {
    FindIn(s.reservas, id)
  }

  function FindIn(rs: seq<Reserva>, id: int): (r: Option<Reserva>)
    ensures r.Some? ==> r.value in rs && r.value.id == id
    ensures r.None? <==> forall x :: x in rs ==> x.id != id
  {
    if |rs| == 0 then None
    else if rs[0].id == id then Some(rs[0])
    else
      assert forall x :: x in rs ==> x == rs[0] || x in rs[1..];
      FindIn(rs[1..], id)
  }

  /** `countByEstado`. */
  /** The rows in one state. */
  function EnEstado(estado: EstadoReserva): Reserva -> bool
  {
    (x: Reserva) => x.estado == estado
  }

  function CountByEstado(s: Store, estado: EstadoReserva): (n: nat)
    ensures n <= |s.reservas|
    ensures n == 0 <==> forall x :: x in s.reservas ==> x.estado != estado
    ensures n == |Filter(s.reservas, EnEstado(estado))|
  {
    CountIsFilterLength(s.reservas, EnEstado(estado));
    Count(s.reservas, EnEstado(estado))
  }

  /** The four per-state counts of the statistics endpoint add up to `count()`. */
  lemma CountsByEstadoSumToTotal(s: Store)
    ensures CountByEstado(s, Pendiente) + CountByEstado(s, Confirmada)
          + CountByEstado(s, Cancelada) + CountByEstado(s, Completada) == |s.reservas|
  {
    CountsSumToLength(s.reservas);
  }

  lemma {:induction false} CountsSumToLength(rs: seq<Reserva>)
    ensures Count(rs, (x: Reserva) => x.estado == Pendiente) + Count(rs, (x: Reserva) => x.estado == Confirmada)
          + Count(rs, (x: Reserva) => x.estado == Cancelada) + Count(rs, (x: Reserva) => x.estado == Completada) == |rs|
  {
    if |rs| > 0 {
      CountsSumToLength(rs[1..]);
    }
  }

  /** `save` of a new entity: the database assigns the next identity value
      and appends the row. */
  function Insert(s: Store, r: Reserva): (out: (Store, Reserva))
    requires Valid(s)
    ensures Valid(out.0)
    ensures out.1 == r.(id := s.nextId)
    ensures out.0.reservas == s.reservas + [out.1]
    ensures out.0.nextId == s.nextId + 1
  {
    var saved := r.(id := s.nextId);
    (Store(s.reservas + [saved], s.nextId + 1), saved)
  }

  /** Replace every row whose id is `r.id` by `r`. */
  function Replace(rs: seq<Reserva>, r: Reserva): (out: seq<Reserva>)
    ensures |out| == |rs|
    ensures forall i :: 0 <= i < |rs| ==> out[i] == (if rs[i].id == r.id then r else rs[i])
  {
    if |rs| == 0 then []
    else [if rs[0].id == r.id then r else rs[0]] + Replace(rs[1..], r)
  }

  /** `save` of an entity that is already stored: the row with that id is
      overwritten in place and no other row changes. */
  function Update(s: Store, r: Reserva): (out: Store)
    requires Valid(s)
    requires FindById(s, r.id).Some?
    ensures Valid(out)
    ensures out.nextId == s.nextId
    ensures |out.reservas| == |s.reservas|
    ensures forall i :: 0 <= i < |s.reservas| ==>
      out.reservas[i] == (if s.reservas[i].id == r.id then r else s.reservas[i])
    ensures FindById(out, r.id) == Some(r)
  {
    var out := Store(Replace(s.reservas, r), s.nextId);
    UpdateFacts(s, r, out.reservas);
    out
  }

  lemma UpdateFacts(s: Store, r: Reserva, rs: seq<Reserva>)
    requires Valid(s)
    requires FindById(s, r.id).Some?
    requires rs == Replace(s.reservas, r)
    ensures Valid(Store(rs, s.nextId))
    ensures FindById(Store(rs, s.nextId), r.id) == Some(r)
  {
    var prev := FindById(s, r.id).value;
    var k :| 0 <= k < |s.reservas| && s.reservas[k] == prev;
    ReplaceShape(s.reservas, r, rs);
    assert rs[k] == r;
    ReplacedValid(s, r, rs);
  }

  /** After replacing, a row is either the new one or an untouched row with
      another id. */
  lemma ReplaceShape(before: seq<Reserva>, r: Reserva, after: seq<Reserva>)
    requires |after| == |before|
    requires forall i :: 0 <= i < |before| ==> after[i] == (if before[i].id == r.id then r else before[i])
    ensures forall x :: x in after ==> x == r || (x in before && x.id != r.id)
  {
    forall x | x in after ensures x == r || (x in before && x.id != r.id) {
      var i :| 0 <= i < |after| && after[i] == x;
      assert before[i] in before;
    }
  }

  lemma ReplacedValid(s: Store, r: Reserva, rs: seq<Reserva>)
    requires Valid(s)
    requires exists y :: y in s.reservas && y.id == r.id
    requires r in rs
    requires forall x :: x in rs ==> x == r || (x in s.reservas && x.id != r.id)
    ensures Valid(Store(rs, s.nextId))
    ensures FindIn(rs, r.id) == Some(r)
  {
    var y :| y in s.reservas && y.id == r.id;
    assert 1 <= r.id < s.nextId;
  }

  /** `deleteById`: removes the row with that id; an unknown id changes nothing. */
  function DeleteById(s: Store, id: int): (out: Store)
    requires Valid(s)
    ensures Valid(out)
    ensures forall x :: x in out.reservas <==> x in s.reservas && x.id != id
    ensures FindById(s, id).None? ==> out == s
  {
    var out := Store(Filter(s.reservas, IdIsNot(id)), s.nextId);
    if FindById(s, id).None? then
      FilterTrueOn(s.reservas, IdIsNot(id));
      out
    else
      out
  }

  function IdIsNot(id: int): Reserva -> bool
  {
    (x: Reserva) => x.id != id
  }

  lemma {:induction false} FilterTrueOn<T(!new)>(xs: seq<T>, p: T -> bool)
    requires forall x :: x in xs ==> p(x)
    ensures Filter(xs, p) == xs
  {
    if |xs| > 0 {
      assert forall x :: x in xs[1..] ==> x in xs;
      FilterTrueOn(xs[1..], p);
    }
  }
}
