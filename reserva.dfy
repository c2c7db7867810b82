/**
 * The `Reserva` entity (table `reserva`): a rental booking with an
 * auto-generated id, the customer's name and mobile number, pick-up and
 * return timestamps (epoch milliseconds) and the total price in cents;
 * its setters and its static validators.
 */
module ReservaEntity {
  import opened JavaLang

  datatype Reserva = Reserva(
    idReserva: Int32,
    nombreCliente: Option<string>,
    numeroMovil: Int32,
    fechaRecogida: Int64,
    fechaDevolucion: Int64,
    precioTotal: Int32)

  const MSG_NOMBRE: string := "El nombre no puede estar vacío"
  const MSG_FECHA: string := "Fecha inválida"
  const MSG_FECHAS: string := "La fecha de devolución no puede ser anterior a la de recogida"
  const MSG_PRECIO: string := "El precio no puede ser negativo"

  // Setters: each replaces one field and keeps every other one.

  function SetIdReserva(r: Reserva, id: Int32): (s: Reserva)
    ensures s.idReserva == id
    ensures s.nombreCliente == r.nombreCliente && s.numeroMovil == r.numeroMovil
    ensures s.fechaRecogida == r.fechaRecogida && s.fechaDevolucion == r.fechaDevolucion
    ensures s.precioTotal == r.precioTotal
  {
    r.(idReserva := id)
  }

  function SetNombreCliente(r: Reserva, nombre: Option<string>): (s: Reserva)
    ensures s.nombreCliente == nombre
    ensures s.idReserva == r.idReserva && s.numeroMovil == r.numeroMovil
    ensures s.fechaRecogida == r.fechaRecogida && s.fechaDevolucion == r.fechaDevolucion
    ensures s.precioTotal == r.precioTotal
  {
    r.(nombreCliente := nombre)
  }

  function SetNumeroMovil(r: Reserva, movil: Int32): (s: Reserva)
    ensures s.numeroMovil == movil
    ensures s.idReserva == r.idReserva && s.nombreCliente == r.nombreCliente
    ensures s.fechaRecogida == r.fechaRecogida && s.fechaDevolucion == r.fechaDevolucion
    ensures s.precioTotal == r.precioTotal
  {
    r.(numeroMovil := movil)
  }

  function SetFechaRecogida(r: Reserva, fecha: Int64): (s: Reserva)
    ensures s.fechaRecogida == fecha
    ensures s.idReserva == r.idReserva && s.nombreCliente == r.nombreCliente
    ensures s.numeroMovil == r.numeroMovil && s.fechaDevolucion == r.fechaDevolucion
    ensures s.precioTotal == r.precioTotal
  {
    r.(fechaRecogida := fecha)
  }

  function SetFechaDevolucion(r: Reserva, fecha: Int64): (s: Reserva)
    ensures s.fechaDevolucion == fecha
    ensures s.idReserva == r.idReserva && s.nombreCliente == r.nombreCliente
    ensures s.numeroMovil == r.numeroMovil && s.fechaRecogida == r.fechaRecogida
    ensures s.precioTotal == r.precioTotal
  {
    r.(fechaDevolucion := fecha)
  }

  function SetPrecioTotal(r: Reserva, precio: Int32): (s: Reserva)
    ensures s.precioTotal == precio
    ensures s.idReserva == r.idReserva && s.nombreCliente == r.nombreCliente
    ensures s.numeroMovil == r.numeroMovil
    ensures s.fechaRecogida == r.fechaRecogida && s.fechaDevolucion == r.fechaDevolucion
  {
    r.(precioTotal := precio)
  }

  /** A name counts as given when it is present and has a char above ' '. */
  predicate HasVisibleChar(s: string)
  {
    exists i :: 0 <= i < |s| && !IsTrimmable(s[i])
  }

  /** `validateNombre`: rejects null and names that `trim()` empties. */
  function ValidateNombre(nombre: Option<string>): (r: Option<string>)
    ensures r.None? <==> nombre.Some? && HasVisibleChar(nombre.value)
    ensures r.Some? ==> r.value == MSG_NOMBRE
  {
    if nombre.None? then Some(MSG_NOMBRE)
    else
      TrimEmptyIffBlank(nombre.value);
      if Trim(nombre.value) == [] then Some(MSG_NOMBRE) else None
  }

  /** `validateFecha`: a timestamp must be strictly positive. */
  function ValidateFecha(fecha: Int64): (r: Option<string>)
    ensures r.None? <==> fecha > 0
    ensures r.Some? ==> r.value == MSG_FECHA
  {
    if fecha <= 0 then Some(MSG_FECHA) else None
  }

  /** `validateFechas`: the return may not come before the pick-up (equal is allowed). */
  function ValidateFechas(fechaRecogida: Int64, fechaDevolucion: Int64): (r: Option<string>)
    ensures r.None? <==> fechaRecogida <= fechaDevolucion
    ensures r.Some? ==> r.value == MSG_FECHAS
  {
    if fechaDevolucion < fechaRecogida then Some(MSG_FECHAS) else None
  }

  /** `validatePrecio`: a total price may be zero but not negative. */
  function ValidatePrecio(precio: Int32): (r: Option<string>)
    ensures r.None? <==> precio >= 0
    ensures r.Some? ==> r.value == MSG_PRECIO
  {
    if precio < 0 then Some(MSG_PRECIO) else None
  }
}
