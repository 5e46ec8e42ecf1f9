/**
 * The `RecensioniApp` component as an object: its state (`anno`,
 * `libri`, `selectedBook`, `recensoreData`) and one method per handler.
 * Each `setX(value)` of a handler is an assignment to the field.
 */
module App {
  import opened Wrappers
  import opened Milestones
  import opened Records
  import opened Ledger

  /** Which input of the confirmation dialog an `onChange` writes. */
  datatype CandidateField = MeseInput | NomeCognomeInput | EmailInput

  class RecensioniApp {
    var anno: int
    var libri: seq<Book>
    var selectedBook: Option<Book>
    var recensoreData: Candidate

    /** The initial state: year 2026, no books, no dialog open, empty dialog input. */
    constructor ()
      ensures anno == 2026 && libri == [] && selectedBook == None
      ensures recensoreData == Candidate("", "", "")
    {
      anno := 2026;
      libri := [];
      selectedBook := None;
      recensoreData := Candidate("", "", "");
    }

    /** `aggiungiLibro`: append an empty book with id `libri.length + 1`. */
    method AggiungiLibro()
      modifies this`libri
      ensures libri == old(libri) + [NewBook(old(libri))]
      ensures libri[|libri| - 1].id == |old(libri)| + 1 && !IsActive(libri[|libri| - 1])
    {
      var extra := CalcolaDate(anno, "");
      UnknownMonthHasNoDates(anno, "");
      assert extra.None?;
      libri := libri + [NewBook(libri)];
    }

    /**
     * `aggiornaLibro(id, campo, valore)`: every record with that id gets
     * the field; on `mese` its dates are recomputed for the current year.
     */
    method AggiornaLibro(id: int, campo: Field, valore: string)
      modifies this`libri
      ensures libri == UpdateBooks(old(libri), id, campo, valore, if campo == Mese then DeriveDates(anno, valore) else None)
    {
      var derived := None;
      if campo == Mese {
        derived := CalcolaDate(anno, valore);
      }
      libri := UpdateBooks(libri, id, campo, valore, derived);
    }

    /** `rimuoviLibro(id)`: drop every record with that id. */
    method RimuoviLibro(id: int)
      modifies this`libri
      ensures libri == RemoveBooks(old(libri), id)
      ensures forall b :: b in libri <==> b in old(libri) && b.id != id
    {
      libri := RemoveBooks(libri, id);
    }

    /** `clearReviewer(id)`: blank the reviewer fields and dates of every record with that id. */
    method ClearReviewer(id: int)
      modifies this`libri
      ensures libri == Ledger.ClearReviewer(old(libri), id)
      ensures forall i :: 0 <= i < |libri| && old(libri)[i].id == id ==> !IsActive(libri[i])
      ensures old(Consistent(libri)) ==> Consistent(libri)
    {
      if Consistent(libri) {
        ClearPreservesConsistency(libri, id);
      }
      libri := Ledger.ClearReviewer(libri, id);
    }

    /**
     * `selezionaLibro(libro)`: a taken book is refused; a free one opens
     * the dialog with the book's month and empty name and e-mail.
     */
    method SelezionaLibro(libro: Book) returns (accepted: bool)
      modifies this`selectedBook, this`recensoreData
      ensures accepted <==> !IsActive(libro)
      ensures accepted ==> selectedBook == Some(libro) && recensoreData == Candidate(libro.mese, "", "")
      ensures !accepted ==> selectedBook == old(selectedBook) && recensoreData == old(recensoreData)
    {
      if IsActive(libro) {
        return false;
      }
      selectedBook := Some(libro);
      recensoreData := Candidate(libro.mese, "", "");
      return true;
    }

    /** The dialog's `onChange` handlers: one input of `recensoreData` replaced. */
    method ModificaCandidato(campo: CandidateField, valore: string)
      modifies this`recensoreData
      ensures campo == MeseInput ==> recensoreData == old(recensoreData).(mese := valore)
      ensures campo == NomeCognomeInput ==> recensoreData == old(recensoreData).(nomeCognome := valore)
      ensures campo == EmailInput ==> recensoreData == old(recensoreData).(email := valore)
    {
      match campo
      case MeseInput => recensoreData := recensoreData.(mese := valore);
      case NomeCognomeInput => recensoreData := recensoreData.(nomeCognome := valore);
      case EmailInput => recensoreData := recensoreData.(email := valore);
    }

    /** "Annulla": close the dialog, keeping what was typed. */
    method AnnullaSelezione()
      modifies this`selectedBook
      ensures selectedBook == None
    {
      selectedBook := None;
    }

    /**
     * `confermaRecensione`: the three checks in order; on success the
     * month, name and e-mail updates (taken one after the other) and the
     * dialog is closed and emptied. On any refusal nothing changes.
     */
    method ConfermaRecensione() returns (outcome: Outcome)
      requires selectedBook.Some?
      modifies this`libri, this`selectedBook, this`recensoreData
      ensures outcome == CheckConfirm(old(libri), old(selectedBook).value.id, old(recensoreData))
      ensures outcome == Confirmed ==>
        && libri == ApplyConfirm(old(libri), old(selectedBook).value.id, old(recensoreData), anno)
        && selectedBook == None && recensoreData == Candidate("", "", "")
      ensures outcome != Confirmed ==>
        libri == old(libri) && selectedBook == old(selectedBook) && recensoreData == old(recensoreData)
      ensures outcome == Confirmed && old(Consistent(libri)) ==> Consistent(libri)
    {
      outcome := CheckConfirm(libri, selectedBook.value.id, recensoreData);
      if outcome != Confirmed {
        return;
      }
      ghost var before := libri;
      var id, data := selectedBook.value.id, recensoreData;
      AggiornaLibro(id, Mese, data.mese);
      ghost var withMonth := libri;
      AggiornaLibro(id, NomeCognome, data.nomeCognome);
      ghost var withName := libri;
      AggiornaLibro(id, Email, data.email);
      assert withMonth == UpdateBooks(before, id, Mese, data.mese, DeriveDates(anno, data.mese));
      assert withName == UpdateBooks(withMonth, id, NomeCognome, data.nomeCognome, None);
      assert libri == ApplyConfirm(before, id, data, anno);
      if Consistent(before) {
        ConfirmPreservesConsistency(before, id, data, anno);
      }
      selectedBook := None;
      recensoreData := Candidate("", "", "");
    }
  }
}
