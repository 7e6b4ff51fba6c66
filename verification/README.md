# AutoRent reservation engine — Dafny model

A functional model of the reservation engine of the AutoRent Spring backend
and of the small decision procedures around it, with proofs of what they
promise.

The model covers:

- **Reservations.** The entity and its status enum, and the repository
  queries: the inclusive overlap query, per-product lookup and the optional
  filters. It also covers the service: booking validation and pricing,
  occupied and available dates, confirm and cancel, and the admin listing.
  The controller's guard chains are pure decisions that end in an HTTP
  status.
- **Reviews.** Who may review a reservation, and the rule of one review
  per reservation.
- **Favourites.** Unique (user, product) pairs.
- **Users.** Registration with the default role, credential validation,
  login with its password-field fallback, and the partial profile update.
- **Permissions.** The request filter's path normalisation,
  method-and-path-to-permission mapping and allow/deny decision. The
  service's permission-set replacement, role union and audit values. The
  admin endpoints' actor and role whitelists.

How the system is represented:

- Dates are integer day numbers.
- Prices are integer cents.
- Tables are sequences of rows in insertion order, plus the next identity
  value.
- HTTP outcomes are status codes, and an uncaught or caught exception is
  the 500 its handler produces.
- The clock, the password encoder and matcher, token generation and the
  product and user lookups of other services are parameters:
  - `hoy` / `ahora` are the clock;
  - `finRango` is `hoy.plusMonths(m)`;
  - `encode`, `matches`, `generarToken` and `primerRol` are the
    encoder, matcher, token generator and role iterator;
  - a catalogue map and user sets stand for the lookups.

Modules, one per source file, plus two support modules:

- `Common`: `Option`, `Result`, status codes, `Filter`, `Count`.
- `Strings`: trim, upper-case, split, join, `compareTo` sort.
- `Reservas`
- `ReservaRepository`
- `ReservaService`
- `ReservaController`
- `ResenaService`
- `FavoritoService`
- `UsuarioService`
- `UsuarioController`
- `PermissionService`
- `PermissionFilter`
- `AdminController`

## Model

| member | source | states |
|---|---|---|
| Reservas.NuevaReserva | src/main/java/com/autoRent/autoRent/model/Reserva.java:97-100 | a new reservation starts PENDIENTE with the construction time as `fechaCreacion`, all mandatory fields set from the arguments |
| Reservas.ToInt | src/main/java/com/autoRent/autoRent/service/ReservaService.java:71 | the `(int)` cast yields a 32-bit value congruent to its argument modulo 2^32, equal to it when it fits |
| Reservas.ValueOfName | src/main/java/com/autoRent/autoRent/model/Reserva.java:102-107 | every state is recovered from its enum name |
| Reservas.ValueOfFailsOnlyOnNonNames | src/main/java/com/autoRent/autoRent/model/Reserva.java:102-107 | `valueOf` fails exactly on strings that name none of the four states |
| Reservas.ValueOf | src/main/java/com/autoRent/autoRent/model/Reserva.java:102-107 | `EstadoReserva.valueOf`: a state found for a string is the one whose name is exactly that string |
| ReservaRepository.OverlapsIffShareADay | src/main/java/com/autoRent/autoRent/repository/ReservaRepository.java:19 | for ordered ranges the query's `NOT (fin1 < inicio2 OR inicio1 > fin2)` holds iff the two inclusive ranges share a day |
| ReservaRepository.OverlapsSymmetric | src/main/java/com/autoRent/autoRent/repository/ReservaRepository.java:19 | the overlap condition is symmetric |
| ReservaRepository.OverlapsSelfAndBoundary | src/main/java/com/autoRent/autoRent/repository/ReservaRepository.java:19 | a valid range overlaps itself; a range ending on day D conflicts with one starting on D, one ending on D-1 does not |
| ReservaRepository.FindByProductoId | src/main/java/com/autoRent/autoRent/repository/ReservaRepository.java:16 | exactly the product's reservations, whatever their state |
| ReservaRepository.FindReservasConflictivas | src/main/java/com/autoRent/autoRent/repository/ReservaRepository.java:19-22 | exactly the rows of the same product overlapping the range, cancelled ones included |
| ReservaRepository.FindAllWithFilters | src/main/java/com/autoRent/autoRent/repository/ReservaRepository.java:25-30 | a row is listed iff it matches every filter that is present; an absent filter restricts nothing |
| ReservaRepository.NoFiltersReturnsAll | src/main/java/com/autoRent/autoRent/repository/ReservaRepository.java:25-27 | with both filters absent the whole table is returned in order |
| ReservaRepository.FindByUsuarioIdAndProductoId | src/main/java/com/autoRent/autoRent/repository/ReservaRepository.java:35 | exactly the rows of that user and product |
| ReservaRepository.FindById | src/main/java/com/autoRent/autoRent/service/ReservaService.java:172-174 | the row with that identity if one exists, none iff no row has it |
| ReservaRepository.CountByEstado | src/main/java/com/autoRent/autoRent/repository/ReservaRepository.java:38 | exactly the number of rows whose state is the one asked for (the length of that filter), at most the table size, zero iff no row is in that state |
| ReservaRepository.CountsByEstadoSumToTotal | src/main/java/com/autoRent/autoRent/repository/ReservaRepository.java:38 | the four per-state counts add up to the table size |
| ReservaRepository.Insert | src/main/java/com/autoRent/autoRent/service/ReservaService.java:73 | saving a new row appends it with the next identity and keeps identities unique |
| ReservaRepository.Update | src/main/java/com/autoRent/autoRent/service/ReservaService.java:154 | saving an existing row overwrites that row in place and no other; lookup then finds the new row |
| ReservaRepository.DeleteById | src/main/java/com/autoRent/autoRent/service/ReservaService.java:134-136 | exactly the rows with that id disappear; an unknown id changes nothing |
| ReservaService.HayConflictosEnFechas | src/main/java/com/autoRent/autoRent/service/ReservaService.java:111-114 | true iff some reservation of the product overlaps the range |
| ReservaService.VerificarDisponibilidad | src/main/java/com/autoRent/autoRent/service/ReservaService.java:176-179 | true iff the conflict query returns nothing, i.e. iff no reservation of the product overlaps |
| ReservaService.CrearReserva | src/main/java/com/autoRent/autoRent/service/ReservaService.java:30-74 | errors in the source's order (unknown product, start after end, past start, conflict with an existing reservation), each pinned to its exception; success iff all pass; the saved row is appended, PENDIENTE, with `(int)` of the inclusive day count and that count times the daily price |
| ReservaService.CrearReservaDias | src/main/java/com/autoRent/autoRent/service/ReservaService.java:52-55 | after the ordering check the stored day count is the inclusive count and at least 1 |
| ReservaService.PrecioCincoDias | src/test/java/com/autoRent/autoRent/service/ReservaServiceTest.java:156-175 | five days at 100.00 a day cost 500.00 |
| ReservaService.CrearReservaKeepsNoDoubleBooking | src/main/java/com/autoRent/autoRent/service/ReservaService.java:47-49 | a successful booking never creates two overlapping reservations of one product |
| ReservaService.Dias | src/main/java/com/autoRent/autoRent/service/ReservaService.java:83-87 | the inner loop lists exactly the days of [inicio, fin], ascending |
| ReservaService.FechasOcupadas | src/main/java/com/autoRent/autoRent/service/ReservaService.java:82-88 | a day is occupied iff some reservation's inclusive range contains it |
| ReservaService.ObtenerFechasOcupadas | src/main/java/com/autoRent/autoRent/service/ReservaService.java:76-91 | the loop returns every day of every reservation of the product, in any state, and ignores `meses` |
| ReservaService.Disponibles | src/main/java/com/autoRent/autoRent/service/ReservaService.java:102-106 | a day is available iff it lies in the horizon and is not occupied |
| ReservaService.DisponiblesAscending | src/main/java/com/autoRent/autoRent/service/ReservaService.java:102-106 | the available days come out strictly ascending |
| ReservaService.ObtenerFechasDisponibles | src/main/java/com/autoRent/autoRent/service/ReservaService.java:93-109 | the loop returns the horizon days that are not occupied, strictly ascending |
| ReservaService.HorizonPartition | src/main/java/com/autoRent/autoRent/service/ReservaService.java:98-108 | every horizon day is either available or occupied, never both |
| ReservaService.DisponiblesCount | src/main/java/com/autoRent/autoRent/service/ReservaService.java:102-106 | the number of available days is the horizon length minus its occupied days |
| ReservaService.OneReservationAvailability | src/main/java/com/autoRent/autoRent/service/ReservaService.java:76-108 | one reservation of n days inside the horizon leaves exactly horizon − n available days |
| ReservaService.SetEstado | src/main/java/com/autoRent/autoRent/service/ReservaService.java:147-166 | an unknown id fails; otherwise only the state of that one row changes |
| ReservaService.ConfirmarReserva | src/main/java/com/autoRent/autoRent/service/ReservaService.java:147-156 | sets CONFIRMADA unconditionally, whatever the previous state; nothing else changes |
| ReservaService.CancelarReserva | src/main/java/com/autoRent/autoRent/service/ReservaService.java:158-166 | sets CANCELADA unconditionally; nothing else changes |
| ReservaService.SetEstadoKeepsNoDoubleBooking | src/main/java/com/autoRent/autoRent/service/ReservaService.java:147-166 | a state change of an existing reservation succeeds and keeps the no-double-booking invariant |
| ReservaService.EstadoFiltro | src/main/java/com/autoRent/autoRent/service/ReservaService.java:119-128 | the state filter is present iff the trimmed, upper-cased string names a state |
| Strings.Trim | src/main/java/com/autoRent/autoRent/service/ReservaService.java:123 | `trim` leaves no character up to U+0020 at either end, never lengthens, and empties a string made only of such characters; the result is a prefix of a suffix of the input: the suffix left after dropping leading characters up to U+0020 |
| Strings.TrimDropsTrailing | src/main/java/com/autoRent/autoRent/service/ReservaService.java:123 | everything `trim` drops from the end of that suffix is a character up to U+0020 |
| Strings.ToUpper | src/main/java/com/autoRent/autoRent/service/ReservaService.java:123 | the model's case mapping: ASCII 'a'-'z' become 'A'-'Z', every other character is kept, and the length never changes (narrower than Java's `toUpperCase`, see Left out) |
| ReservaService.ObtenerTodasLasReservas | src/main/java/com/autoRent/autoRent/service/ReservaService.java:116-132 | a row is listed iff it matches the product filter and, when the string names a state, that state |
| ReservaService.UnknownEstadoIsIgnored | src/main/java/com/autoRent/autoRent/service/ReservaService.java:122-127 | a string naming no state gives the same listing as no filter |
| ReservaController.StatusOf | src/main/java/com/autoRent/autoRent/controller/ReservaController.java:42-136 | each rejection maps to its status: 401 for identity, 404 for unknown product or reservation, 403 for ownership, 409 for conflicts, 500 for exceptions |
| ReservaController.Identificar | src/main/java/com/autoRent/autoRent/controller/ReservaController.java:47-60 | unauthenticated gives 401, an unknown principal gives 401, otherwise the user's id |
| ReservaController.BuscarReservaAsWritten | src/main/java/com/autoRent/autoRent/controller/ReservaController.java:241-244 | as written, an unknown id makes the service throw and the catch block answer 500 |
| ReservaController.BuscarReserva | src/main/java/com/autoRent/autoRent/controller/ReservaController.java:241-244 | the intended lookup: unknown id answered 404 |
| ReservaController.BuscarReservaDiscrepancy | src/main/java/com/autoRent/autoRent/service/ReservaService.java:172-174 | the two lookups agree on known ids and give 500 versus 404 on every unknown id |
| ReservaController.ReservaPropia | src/main/java/com/autoRent/autoRent/controller/ReservaController.java:229-249 | identity (401), then the lookup, where an unknown id makes the service throw and the catch answer 500, then ownership (403), in that order |
| ReservaController.ReservaPropiaCorregida | src/main/java/com/autoRent/autoRent/controller/ReservaController.java:241-244 | the same guards with the intended lookup: an identified caller naming an unknown id gets 404 |
| ReservaController.ReservaPropiaDiscrepancy | src/main/java/com/autoRent/autoRent/controller/ReservaController.java:241-244 | the guards as written and as intended differ exactly when an identified caller names an unknown id, and then answer 500 against 404 |
| ReservaController.CrearReservaEndpoint | src/main/java/com/autoRent/autoRent/controller/ReservaController.java:42-136 | guards in order (401, 401, 404, 400 not available, 400 dates missing, 400 past, 400 order, 409); a past start wins over a reversed range; success iff every guard passes, and then it is the service's booking |
| ReservaController.CrearReservaConflict | src/main/java/com/autoRent/autoRent/controller/ReservaController.java:93-103 | 409 iff the earlier guards pass and some reservation of the product, in any state, overlaps |
| ReservaController.CrearReservaEndpointInvariant | src/main/java/com/autoRent/autoRent/controller/ReservaController.java:110 | a created reservation is PENDIENTE, belongs to the caller, and the table stays free of double bookings |
| ReservaController.ObtenerDisponibilidad | src/main/java/com/autoRent/autoRent/controller/ReservaController.java:139-166 | 404 iff the product is unknown; otherwise the occupied and available dates, which split the horizon |
| ReservaController.ObtenerReservaEndpoint | src/main/java/com/autoRent/autoRent/controller/ReservaController.java:194-224 | the reservation is returned iff the caller is identified and owns it; a non-owner gets 403; an unknown id gets 500 |
| ReservaController.ObtenerEstadisticas | src/main/java/com/autoRent/autoRent/controller/ReservaController.java:337-361 | total is the table size; pendientes, confirmadas and canceladas are each the count of rows in that state, and together they make the total minus the COMPLETADA rows |
| ReservaController.CancelarEndpoint | src/main/java/com/autoRent/autoRent/controller/ReservaController.java:227-272 | after the shared guards only PENDIENTE or CONFIRMADA with a start at least a day ahead is cancelled (`fechaInicio < hoy + 1` is refused); 500 occurs iff an identified caller names an unknown id |
| ReservaController.ConfirmarEndpoint | src/main/java/com/autoRent/autoRent/controller/ReservaController.java:275-319 | after the shared guards only a PENDIENTE reservation is confirmed; 500 occurs iff an identified caller names an unknown id |
| ReservaController.EliminarEndpoint | src/main/java/com/autoRent/autoRent/controller/ReservaController.java:363-397 | after the shared guards (an unknown id gives 500) the owner's row is deleted, in any state |
| ReservaController.DeleteShrinks | src/main/java/com/autoRent/autoRent/controller/ReservaController.java:390 | deleting an existing reservation shrinks the table |
| ReservaController.ControllerStepsArePermitted | src/main/java/com/autoRent/autoRent/controller/ReservaController.java:252-311 | every successful cancel or confirm is a permitted lifecycle step and changes only the state |
| ReservaController.TerminalStatesAreFinal | src/main/java/com/autoRent/autoRent/controller/ReservaController.java:252-308 | CANCELADA and COMPLETADA can be neither cancelled nor confirmed through the controller, although the service alone would change them |
| ReservaController.NonOwnerForbidden | src/main/java/com/autoRent/autoRent/controller/ReservaController.java:383-386 | a non-owner gets 403 from view, cancel, confirm and delete |
| ReservaController.UnknownIdIsInternalError | src/main/java/com/autoRent/autoRent/controller/ReservaController.java:377-396 | an identified caller naming an unknown reservation gets 500 from view, cancel, confirm and delete, because `findById` throws before the null test |
| ResenaService.CrearResena | src/main/java/com/autoRent/autoRent/service/ResenaService.java:33-67 | errors in order (unknown reservation, other owner, state not COMPLETADA/CONFIRMADA, already reviewed); success iff all pass; the review takes user and product from the reservation |
| ResenaService.ExistsByReservaId | src/main/java/com/autoRent/autoRent/repository/ResenaRepository.java:41 | the query answers true iff some review names that reservation |
| ResenaService.ExistsByUsuarioIdAndProductoId | src/main/java/com/autoRent/autoRent/repository/ResenaRepository.java:22 | the query answers true iff some review is by that user about that product |
| ResenaService.CrearResenaKeepsConsistent | src/main/java/com/autoRent/autoRent/service/ResenaService.java:49-51 | reviews stay consistent with their reservations, and a second review of the same reservation fails |
| ResenaService.PuedeValorarProducto | src/main/java/com/autoRent/autoRent/service/ResenaService.java:107-117 | true iff the user has some reservation of the product and has not reviewed it |
| ResenaService.ReviewClosesProduct | src/main/java/com/autoRent/autoRent/service/ResenaService.java:107-117 | after a review the user can no longer review that product |
| ResenaService.EligibilityIgnoresEstado | src/main/java/com/autoRent/autoRent/service/ResenaService.java:107-117 | eligibility ignores the state: a PENDIENTE-only user is told they may review, yet creation refuses |
| FavoritoService.EsFavorito | src/main/java/com/autoRent/autoRent/service/FavoritoService.java:73-75 | true iff the pair is stored |
| FavoritoService.ContarFavoritosPorUsuario | src/main/java/com/autoRent/autoRent/service/FavoritoService.java:78-80 | exactly the number of stored favourites of that user (the length of that filter), zero iff the user has none |
| FavoritoService.AgregarFavorito | src/main/java/com/autoRent/autoRent/service/FavoritoService.java:34-57 | unknown user, then unknown product, then duplicate pair fail; otherwise the pair is appended and pairs stay unique |
| FavoritoService.AgregarFavoritoCounts | src/main/java/com/autoRent/autoRent/service/FavoritoService.java:49-50 | after an add the pair is a favourite and the user's count grows by one |
| FavoritoService.EliminarFavorito | src/main/java/com/autoRent/autoRent/service/FavoritoService.java:61-70 | returns true iff the pair existed; the pair is then gone and every other favourite kept; otherwise nothing changes |
| FavoritoService.EliminarFavoritoCounts | src/main/java/com/autoRent/autoRent/service/FavoritoService.java:61-70 | removing an existing pair lowers the user's count by one |
| UsuarioService.FindUserById | src/main/java/com/autoRent/autoRent/service/PermissionService.java:42-43 | the user with that id if any, none iff no row has it |
| UsuarioService.FindByEmail | src/main/java/com/autoRent/autoRent/service/UsuarioService.java:45 | a user with that email if one exists, none iff no user has it |
| UsuarioService.Registrar | src/main/java/com/autoRent/autoRent/service/UsuarioService.java:30-41 | the password is stored encoded; null or empty roles become {"USER"}, others are kept; a body naming a stored user's id makes `save` overwrite that row in place, and any other body is appended with the next identity |
| UsuarioService.RegistrarOverwrites | src/main/java/com/autoRent/autoRent/service/UsuarioService.java:30-41 | a body carrying a stored id takes that user's place: looking the id up yields the new row, every other user is kept, and the old row is gone |
| UsuarioService.Validar | src/main/java/com/autoRent/autoRent/service/UsuarioService.java:44-47 | a user is returned iff the email exists, a password is given and the matcher accepts it; a known email with no password makes the encoder throw; a null or unknown email finds nobody |
| UsuarioService.RegistrarThenValidar | src/main/java/com/autoRent/autoRent/service/UsuarioService.java:30-47 | a user registered under an unused email validates with their raw password, whether the body was appended or overwrote a row |
| UsuarioService.Save | src/main/java/com/autoRent/autoRent/controller/UsuarioController.java:136 | saving overwrites exactly the row with the user's id |
| UsuarioController.PasswordDe | src/main/java/com/autoRent/autoRent/controller/UsuarioController.java:87 | "contraseña" is read when present, otherwise "password", otherwise nothing |
| UsuarioController.Login | src/main/java/com/autoRent/autoRent/controller/UsuarioController.java:82-108 | no matching user gives 401; the encoder's exception (known email, no password) and a user without roles give 500; a token is issued iff validation succeeds and the user holds some role, generated for the request's email and one of the user's roles |
| UsuarioController.LoginFieldFallback | src/main/java/com/autoRent/autoRent/controller/UsuarioController.java:87 | a body with only "password" logs in like one with "contraseña", and "contraseña" wins when both are present |
| UsuarioController.LoginWithoutPassword | src/main/java/com/autoRent/autoRent/controller/UsuarioController.java:87-104 | a body with a registered email and neither password field is answered with 500, whatever the encoder accepts |
| UsuarioController.Merge | src/main/java/com/autoRent/autoRent/controller/UsuarioController.java:126-134 | name and surname change only when present; the password is re-encoded only when present and not blank |
| Strings.IsBlank | src/main/java/com/autoRent/autoRent/controller/UsuarioController.java:132 | `isBlank` is true iff every character is whitespace in the sense of `Character.isWhitespace` |
| UsuarioController.EmptyUpdateIsIdentity | src/main/java/com/autoRent/autoRent/controller/UsuarioController.java:126-134 | an update with nothing present changes nothing |
| UsuarioController.MergeIdempotent | src/main/java/com/autoRent/autoRent/controller/UsuarioController.java:126-131 | applying the same name/surname update twice equals applying it once |
| UsuarioController.UpdateUsuario | src/main/java/com/autoRent/autoRent/controller/UsuarioController.java:120-141 | an unknown email gives 404 and no change; otherwise 200 and only that user's row is replaced by the merge |
| PermissionService.NamesOf | src/main/java/com/autoRent/autoRent/service/PermissionService.java:35-37 | a name is listed iff the user holds that grant |
| PermissionService.Minus | src/main/java/com/autoRent/autoRent/service/PermissionService.java:68-73 | the set difference: in the first list and not the second |
| PermissionService.SetPermissions | src/main/java/com/autoRent/autoRent/service/PermissionService.java:62-103 | the target ends up holding exactly the requested names the system knows (null request = empty); other users unchanged; the audit holds the sorted old and requested names |
| PermissionService.SetPermissionsExact | src/main/java/com/autoRent/autoRent/service/PermissionService.java:61-96 | with only known names the target's set equals the request; a null request revokes everything |
| PermissionService.SetPermissionsIdempotent | src/main/java/com/autoRent/autoRent/service/PermissionService.java:62-96 | repeating the same replacement leaves the grants as they are |
| PermissionService.AuditValueRoundTrip | src/main/java/com/autoRent/autoRent/service/PermissionService.java:99-100 | splitting an audit value at the commas gives back the sorted names when no name contains a comma |
| PermissionService.AuditValueOrderIndependent | src/main/java/com/autoRent/autoRent/service/PermissionService.java:99 | the audit value depends only on the names, not on the order they are read in |
| PermissionService.AuditNewValueIsSetOnly | src/main/java/com/autoRent/autoRent/service/PermissionService.java:65 | duplicates and order in the request do not change the new audit value |
| PermissionService.AssignRole | src/main/java/com/autoRent/autoRent/service/PermissionService.java:41-57 | unknown user fails; otherwise the roles become old roles (null as empty) plus the new one, no other row changes, and the audit records both sets |
| PermissionService.AssignRoleIdempotent | src/main/java/com/autoRent/autoRent/service/PermissionService.java:48-52 | assigning a role already held leaves the table unchanged |
| PermissionFilter.NormSegment | src/main/java/com/autoRent/autoRent/Security/PermissionFilter.java:86-90 | a segment becomes `{id}` iff it matches the id pattern (or already is `{id}`), and the result never matches the pattern |
| PermissionFilter.NormalizePath | src/main/java/com/autoRent/autoRent/Security/PermissionFilter.java:81-93 | the normalised path is "/" before each non-empty piece of the URI, id-like pieces replaced by `{id}` |
| PermissionFilter.BuildIsJoin | src/main/java/com/autoRent/autoRent/Security/PermissionFilter.java:81-93 | the builder loop yields "/" before each non-empty normalised segment, i.e. the segments joined by "/" after an empty head |
| PermissionFilter.NormalizePathIdempotent | src/main/java/com/autoRent/autoRent/Security/PermissionFilter.java:81-93 | normalising a normalised path changes nothing |
| PermissionFilter.NormalizeSegments | src/main/java/com/autoRent/autoRent/Security/PermissionFilter.java:84-91 | a path normalises segment by segment: empty ones dropped, id-like ones replaced, others kept |
| PermissionFilter.NormalizeTrailingSlash | src/main/java/com/autoRent/autoRent/Security/PermissionFilter.java:82-85 | a trailing slash does not change the normalised path |
| PermissionFilter.MapRequestToPermission | src/main/java/com/autoRent/autoRent/Security/PermissionFilter.java:96-116 | a permission exists iff the method is POST, PUT or DELETE and the path is a product, category or feature path; its name is the group plus _CREATE, _UPDATE or _DELETE |
| PermissionFilter.ResourceGroupsDisjoint | src/main/java/com/autoRent/autoRent/Security/PermissionFilter.java:98-114 | no path belongs to two resource groups |
| PermissionFilter.MappingExamples | src/main/java/com/autoRent/autoRent/Security/PermissionFilter.java:98-114 | POST on a product id needs PRODUCTS_CREATE, PUT on a /api/feature path needs FEATURES_UPDATE, GET needs nothing |
| PermissionFilter.Decidir | src/main/java/com/autoRent/autoRent/Security/PermissionFilter.java:31-78 | 403 iff an identified USER without ADMIN makes a mapped request without holding its permission, and the message names that permission |
| PermissionFilter.GrantLetsThrough | src/main/java/com/autoRent/autoRent/Security/PermissionFilter.java:70-77 | granting the named permission lets the refused request through |
| PermissionFilter.NeverDenied | src/main/java/com/autoRent/autoRent/Security/PermissionFilter.java:50-53 | reads are never refused, and neither is anything an ADMIN does |
| AdminController.Actor | src/main/java/com/autoRent/autoRent/controller/AdminController.java:48-53 | a caller without ADMIN or ADMIN1 gets 403; a missing principal, unknown email or null roles throw (500) |
| AdminController.KnownOnly | src/main/java/com/autoRent/autoRent/controller/AdminController.java:59 | exactly the requested names the system knows survive |
| AdminController.SetPermissionsAsWritten | src/main/java/com/autoRent/autoRent/controller/AdminController.java:44-66 | as written, a body without "permissions" gives 500 and no change |
| AdminController.SetPermissionsEndpoint | src/main/java/com/autoRent/autoRent/controller/AdminController.java:44-66 | with a missing list read as empty: 200 iff the actor is authorised, and the target then holds exactly the known requested permissions; nobody else changes |
| AdminController.MissingPermissionsDiscrepancy | src/main/java/com/autoRent/autoRent/controller/AdminController.java:56-59 | without "permissions" the code answers 500 where the intended behaviour revokes everything with 200 |
| AdminController.UnknownNamesNeverGranted | src/main/java/com/autoRent/autoRent/controller/AdminController.java:59 | an unknown permission name is never granted to anyone |
| AdminController.AssignRoleAsWritten | src/main/java/com/autoRent/autoRent/controller/AdminController.java:75-97 | as written, a body without "role" gives 500 and no change |
| AdminController.AssignRoleEndpoint | src/main/java/com/autoRent/autoRent/controller/AdminController.java:75-97 | 400 iff the role is missing or not ADMIN2/USER; 200 iff authorised, valid and the target exists, and then only the target gains the role |
| AdminController.AssignValid | src/main/java/com/autoRent/autoRent/controller/AdminController.java:88-96 | the whitelist gives 400 and no change; an unknown target gives 500 |
| AdminController.MissingRoleDiscrepancy | src/main/java/com/autoRent/autoRent/controller/AdminController.java:88-91 | without "role" the code answers 500 where 400 is intended |
| AdminController.AssignRoleNeverGrantsAdmin | src/main/java/com/autoRent/autoRent/controller/AdminController.java:89-93 | no request makes anyone ADMIN or ADMIN1, and no role is ever lost |

## Left out

- Pagination (`Pageable`) and ordering are not modelled:
  `findAllWithFilters` returns every matching row, and
  `obtenerReservasUsuario` / `findByUsuarioIdOrderByFechaCreacionDesc`
  is not part of this model because it only sorts by creation time.
- Email sending (`enviarEmailConfirmacionReserva`, `EmailService`) is
  output only. A failure there is swallowed and does not affect the outcome.
- JWT generation, Spring Security plumbing, CORS and the access-denied
  handler are left out.
  - The token generator and the role iterator of `login` are parameters.
  - The request's authentication is a flag plus the resolved user.
- Rating averages (`obtenerResumenValoraciones`) are left out, because
  they are floating point.
- Price is modelled as integer cents, where the source uses a `double`.
  Rounding is not modelled.
- Calendar arithmetic is not modelled:
  - `LocalDate.now()` and `LocalDateTime.now()` are the parameters
    `hoy` and `ahora`;
  - `hoy.plusMonths(m)` is the parameter `finRango`;
  - `plusDays(1)` is `+ 1`.
- `ProductoService.findById`/`obtenerProductoPorId` is not part of this
  model. The catalogue is a map from product id.
- ReservaController.Identificar follows the controller tests, in which a
  principal with no account gives 401. There the mocked
  `UsuarioService.findByEmail` returns null
  (src/test/java/com/autoRent/autoRent/controller/ReservaControllerTests.java:105).
  The service's own `findByEmail` is not part of this model: its body is
  absent from UsuarioService.java. The service test expects it to throw
  for an unknown email
  (src/test/java/com/autoRent/autoRent/service/UsuarioServiceTest.java:211-220).
  With that behaviour, each endpoint's catch block would answer 500, and
  the 401 branches would be dead.
- The `Favorito` entity and `FavoritoRepository` are not part of this
  model beyond the pair they store. User and product existence are sets.
- ReservaController.CrearReservaEndpoint takes the product's
  availability from the catalogue, while the source's `isDisponible()`
  always returns true (src/main/java/com/autoRent/autoRent/model/Producto.java:115-117). The 400 for a
  product not open for reservations is reachable in the source only
  through a subclass that overrides it, as the controller tests do.
- Concurrency is not modelled: the check-then-insert race in
  `crearReserva` and transactions.
- ReservaService.EstadoFiltro upper-cases the client's `estado` string
  with ASCII-only case mapping, while Java's `toUpperCase()` uses full
  Unicode mapping and the default locale. So "confırmada" (dotless i)
  selects CONFIRMADA in the source but no state in the model, and the model
  then lists every row. Under a Turkish default locale the source maps
  "confirmada" to "CONFİRMADA", which names no state, while the model
  selects CONFIRMADA.
- Strings.LessEq compares characters as code points. Java compares UTF-16
  code units, which orders strings differently only outside the Basic
  Multilingual Plane.
- PermissionService.AssignRole records the role audit as sets, while the
  source joins a `HashSet` whose iteration order is unspecified.
- UsuarioService.Registrar does not model a null raw password; the
  encoder is applied to whatever string is given.
- UsuarioService.FindByEmail returns the first row when two users share
  an email. The email column carries no unique constraint, so the table
  may hold duplicates. In the source, Spring Data's `Optional` derived
  query throws `IncorrectResultSizeDataAccessException` when two rows
  match.
- UsuarioService.Registrar treats a body whose id names no stored user
  like a body without an id: the row is appended with the next identity.
  Hibernate's `merge` of such an entity depends on its version. Older
  versions insert it under a fresh identity, and 6.6 and later throw.
- Strings.ToUpper maps only the ASCII letters and keeps the length. Java's
  `toUpperCase()` maps all of Unicode under the default locale and may
  lengthen the string: "ß" becomes "SS" and the ligature "ﬁ" (U+FB01)
  becomes "FI". So "conﬁrmada" selects CONFIRMADA in the source but no
  state in the model.
- Bean validation of the review score (1..5) is not modelled. It runs
  before the service is called.
- AdminController.SetPermissionsEndpoint does not model a JSON `null` as
  the value of "permissions". That would throw in `removeIf`, as the
  missing key does in the code as written.
- Filters on `findAllWithFilters` are modelled on enum values. The JPQL
  `IS NULL` test is an `Option`.

## Findings

| source | as written | input that shows it | evidently intended | confidence | as-written member | corrected member |
|---|---|---|---|---|---|---|
| src/main/java/com/autoRent/autoRent/controller/ReservaController.java:241-244 | `reservaService.findById` throws on an unknown id, so the `reserva == null` → 404 branch is dead and the catch block answers 500 (the same holds at lines 208-211, 293-296 and 377-380) | an empty table and id 42 | 404 "not found" for an unknown reservation | medium, not executed | ReservaController.ReservaPropia | ReservaController.ReservaPropiaCorregida |
| src/main/java/com/autoRent/autoRent/controller/AdminController.java:56-59 | a body without "permissions" falls back to the immutable `List.of()`, whose `removeIf` throws, so the request fails with 500 | an ADMIN actor and the body `{}` | the empty default revokes all of the target's permissions with 200 | medium, not executed | AdminController.SetPermissionsAsWritten | AdminController.SetPermissionsEndpoint |
| src/main/java/com/autoRent/autoRent/controller/AdminController.java:88-91 | a body without "role" passes null to `List.of("ADMIN2","USER").contains`, which throws, so the request fails with 500 | an ADMIN actor and the body `{}` | 400 "Rol inválido" like any other invalid role | medium, not executed | AdminController.AssignRoleAsWritten | AdminController.AssignRoleEndpoint |
