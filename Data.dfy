/**
 * The two entities the view-models build: a note or task (`Note`) and a media
 * attachment (`Multimedia`), with the defaults of their Kotlin constructors.
 * Kotlin's nullable `String?` is `Option<string>`.
 */
module Data {

  datatype Option<+T> = None | Some(value: T)

  /** `idTipo` of a plain note. */
  const NOTE_TYPE: int := 1
  /** `idTipo` of a task. */
  const TASK_TYPE: int := 2
  /** The status every new task (and the `Note` constructor's default) carries. */
  const PENDIENTE: string := "Pendiente"
  /** `tipo` of an attached image. */
  const IMAGEN: string := "IMAGEN"

  /** The form's type selector: `seleccionarTipo` of a plain note, and of a task. */
  const NOTES_TAB: string := "Notes"
  const TASKS_TAB: string := "Tasks"
  /** The title the forms save in place of a blank one. */
  const UNTITLED: string := "(sin título)"

  /** A note or task row. `id` 0 asks the store for a fresh id. */
  datatype Note = Note(
    id: int := 0,
    title: string,
    description: string,
    imageUri: Option<string> := None,
    idTipo: int := NOTE_TYPE,
    fechaLimite: Option<string> := None,
    hora: Option<string> := None,
    estado: Option<string> := Some(PENDIENTE))

  /** A media attachment of note `notaId`. `fechaCreacion` is the clock reading
      (milliseconds) taken when the row was built; it has no default here. */
  datatype Multimedia = Multimedia(
    id: int := 0,
    notaId: int,
    uriArchivo: string,
    tipo: string,
    fechaCreacion: int)

  const INT_MIN: int := -0x8000_0000
  const INT_MAX: int := 0x7FFF_FFFF

  /** Kotlin's `Long.toInt()`: keep the low 32 bits, read as two's complement. */
  function LongToInt(x: int): (r: int)
    ensures INT_MIN <= r <= INT_MAX
    ensures (x - r) % 0x1_0000_0000 == 0
  {
    (x - INT_MIN) % 0x1_0000_0000 + INT_MIN
  }

  /** A value that already fits in an `Int` is unchanged by `toInt`. */
  lemma LongToIntInRange(x: int)
    requires INT_MIN <= x <= INT_MAX
    ensures LongToInt(x) == x
  {
  }

  /** Past `Int.MAX_VALUE` the conversion wraps: the next 2^32 keys come out
      2^32 lower, the first of them as `Int.MIN_VALUE`. */
  lemma LongToIntWraps(x: int)
    requires INT_MAX < x <= INT_MAX + 0x1_0000_0000
    ensures LongToInt(x) == x - 0x1_0000_0000
    ensures x < 0x1_0000_0000 ==> LongToInt(x) < 0
  {
  }
}
