/**
 * The component's records: a book of the yearly list (`libro`), the
 * editable fields `aggiornaLibro` is called with, and the reviewer's
 * dialog input (`recensoreData`).
 */
module Records {
  import opened Wrappers
  import opened Milestones

  /**
   * One entry of `libri`. The six date fields are always written
   * together, so they are one optional value: `None` stands both for a
   * record that never had dates and for one whose dates were blanked.
   */
  datatype Book = Book(
    id: int,
    titolo: string,
    autore: string,
    link: string,
    pagine: string,
    mese: string,
    nomeCognome: string,
    nome: string,
    cognome: string,
    email: string,
    copertina: string,
    dates: Option<MilestoneDates>)

  /** The text fields `aggiornaLibro(id, campo, valore)` can write. */
  datatype Field =
    | Titolo | Autore | Link | Pagine | Mese
    | NomeCognome | Nome | Cognome | Email | Copertina

  /** `recensoreData`: what the reviewer typed in the confirmation dialog. */
  datatype Candidate = Candidate(mese: string, nomeCognome: string, email: string)
}
