/** The record shapes the pages work on, as the backend delivers them. */
module Types {

  datatype Option<T> = None | Some(value: T)

  /** A month index as `Date.prototype.getMonth` reports it: 0 is January, 11 is December. */
  type Month = m: int | 0 <= m < 12

  /**
   * A calendar date, read the way `getFullYear`, `getMonth` and `getDate` read it.
   * Stage publication dates and the calendar's current and selected days are all of this shape.
   */
  datatype Date = Date(year: int, month: Month, day: int)

  /** A competition announcement (table `dConcursos`). */
  datatype Concurso = Concurso(
    id: int,
    concurso: string,    // display name
    vagasTotal: int,     // total open positions
    salarioMax: int,     // highest salary offered
    link: string,
    status: string,
    idBanca: int)

  /** One stage on a competition's timeline (table `fEtapas`). */
  datatype Etapa = Etapa(
    id: int,
    idConcurso: int,
    secao: string,       // section label, used for grouping
    etapa: string,       // stage name
    dataPublicado: Date, // publication date
    link: string)
}
