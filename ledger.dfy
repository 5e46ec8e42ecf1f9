/**
 * The yearly book list `libri` and everything the component computes
 * from it: the record transforms inside its handlers, the derived
 * views, the checks of `confermaRecensione`, and the invariants those
 * checks are there to keep.
 */
module Ledger {
  import opened Wrappers
  import opened Strings
  import opened Milestones
  import opened Records

  /** The number of reviews after which reviewers can no longer select a book. */
  const Capacity := 12

  /** A book is taken ("active") when its `nomeCognome` is non-empty; month and e-mail play no part. */
  predicate IsActive(b: Book)
  {
    b.nomeCognome != []
  }

  // ---------------------------------------------------------------------
  // Single-record transforms

  /** The record `aggiungiLibro` appends: id `libri.length + 1`, empty fields, no dates (`calcolaDate('')` is `{}`). */
  function NewBook(libri: seq<Book>): Book
  {
    Book(|libri| + 1, "", "", "", "", "", "", "", "", "", "", None)
  }

  /** The value of a text field of a record. */
  function Get(b: Book, f: Field): string
  {
    match f
    case Titolo => b.titolo
    case Autore => b.autore
    case Link => b.link
    case Pagine => b.pagine
    case Mese => b.mese
    case NomeCognome => b.nomeCognome
    case Nome => b.nome
    case Cognome => b.cognome
    case Email => b.email
    case Copertina => b.copertina
  }

  /** `{ ...libro, [campo]: valore }`. */
  function SetField(b: Book, f: Field, v: string): Book
  {
    match f
    case Titolo => b.(titolo := v)
    case Autore => b.(autore := v)
    case Link => b.(link := v)
    case Pagine => b.(pagine := v)
    case Mese => b.(mese := v)
    case NomeCognome => b.(nomeCognome := v)
    case Nome => b.(nome := v)
    case Cognome => b.(cognome := v)
    case Email => b.(email := v)
    case Copertina => b.(copertina := v)
  }

  /**
   * `parti = valore.trim().split(' ')`: `nome` is the first piece and
   * `cognome` the remaining pieces joined back with single spaces.
   */
  function SplitName(valore: string): (string, string)
  {
    var parti := Split(Trim(valore), " ");
    (parti[0], Join(parti[1..], " "))
  }

  /**
   * `nome` holds no space, and the trimmed input is `nome` alone when it
   * has no space, else `nome + ' ' + cognome`.
   */
  lemma SplitNameRecombines(valore: string)
    ensures var (nome, cognome) := SplitName(valore);
      var t := Trim(valore);
      && ' ' !in nome
      && (' ' !in t ==> t == nome && cognome == [])
      && (' ' in t ==> t == nome + " " + cognome)
  {
    var t := Trim(valore);
    var parti := Split(t, " ");
    JoinSplit(t, " ");
    SplitPiecesFree(t, " ");
    NoSpaceWhenFree(parti[0]);
    if |parti| == 1 {
      assert t == parti[0];
    } else {
      assert t == parti[0] + " " + Join(parti[1..], " ");
      assert t[|parti[0]|] == ' ';
    }
  }

  lemma NoSpaceWhenFree(s: string)
    requires !Contains(s, " ")
    ensures ' ' !in s
  {
    if ' ' in s {
      var i :| 0 <= i < |s| && s[i] == ' ';
      assert OccursAt(s, " ", i);
    }
  }

  /**
   * One record through `aggiornaLibro`'s callback: the field is written;
   * on `mese` the dates become `derived` (what `calcolaDate(valore)`
   * returned) unless that was empty; on `nomeCognome` the name is split.
   */
  function UpdateBook(b: Book, campo: Field, valore: string, derived: Option<MilestoneDates>): (r: Book)
    ensures r.id == b.id && Get(r, campo) == valore
    ensures forall f :: f != campo && !(campo == NomeCognome && (f == Nome || f == Cognome)) ==> Get(r, f) == Get(b, f)
    ensures campo == Mese ==> r.dates == if derived.Some? then derived else b.dates
    ensures campo != Mese ==> r.dates == b.dates
    ensures campo == NomeCognome ==> (r.nome, r.cognome) == SplitName(valore)
  {
    var updated := SetField(b, campo, valore);
    if campo == Mese then
      if derived.Some? then updated.(dates := derived) else updated
    else if campo == NomeCognome then
      var (nome, cognome) := SplitName(valore);
      updated.(nome := nome, cognome := cognome)
    else updated
  }

  /** `clearReviewer`'s callback: every reviewer field and every date blanked. */
  function ClearBook(b: Book): Book
  {
    b.(nomeCognome := "", nome := "", cognome := "", email := "", mese := "", dates := None)
  }

  // ---------------------------------------------------------------------
  // List transforms

  /** `libri.map(...)` of `aggiornaLibro`: every record with that id updated, the others kept, in order. */
  function UpdateBooks(libri: seq<Book>, id: int, campo: Field, valore: string, derived: Option<MilestoneDates>): (r: seq<Book>)
    ensures |r| == |libri|
    ensures forall i :: 0 <= i < |libri| && libri[i].id == id ==> r[i] == UpdateBook(libri[i], campo, valore, derived)
    ensures forall i :: 0 <= i < |libri| && libri[i].id != id ==> r[i] == libri[i]
  {
    if |libri| == 0 then []
    else
      var head := if libri[0].id == id then UpdateBook(libri[0], campo, valore, derived) else libri[0];
      [head] + UpdateBooks(libri[1..], id, campo, valore, derived)
  }

  /** `libri.map(...)` of `clearReviewer`. */
  function ClearReviewer(libri: seq<Book>, id: int): (r: seq<Book>)
    ensures |r| == |libri|
    ensures forall i :: 0 <= i < |libri| && libri[i].id == id ==> r[i] == ClearBook(libri[i])
    ensures forall i :: 0 <= i < |libri| && libri[i].id != id ==> r[i] == libri[i]
  {
    if |libri| == 0 then []
    else
      var head := if libri[0].id == id then ClearBook(libri[0]) else libri[0];
      var rest := ClearReviewer(libri[1..], id);
      assert forall i :: 1 <= i < |libri| ==> ([head] + rest)[i] == rest[i - 1] && libri[i] == libri[1..][i - 1];
      [head] + rest
  }

  /** `libri.filter(libro => libro.id !== id)`. */
  function RemoveBooks(libri: seq<Book>, id: int): (r: seq<Book>)
    ensures |r| <= |libri|
    ensures forall b :: b in r <==> b in libri && b.id != id
  {
    if |libri| == 0 then []
    else if libri[0].id == id then RemoveBooks(libri[1..], id)
    else [libri[0]] + RemoveBooks(libri[1..], id)
  }

  /** Removal distributes over concatenation: `filter` keeps the order of the kept records. */
  lemma {:induction false} RemoveBooksAppend(a: seq<Book>, b: seq<Book>, id: int)
    ensures RemoveBooks(a + b, id) == RemoveBooks(a, id) + RemoveBooks(b, id)
  {
    if |a| == 0 {
      assert a + b == b;
    } else {
      assert (a + b)[0] == a[0];
      assert (a + b)[1..] == a[1..] + b;
      RemoveBooksAppend(a[1..], b, id);
    }
  }

  /** Removing an id no record has leaves the list as it is. */
  lemma {:induction false} RemoveAbsentId(libri: seq<Book>, id: int)
    requires forall i :: 0 <= i < |libri| ==> libri[i].id != id
    ensures RemoveBooks(libri, id) == libri
  {
    if |libri| > 0 {
      RemoveAbsentId(libri[1..], id);
      assert libri == [libri[0]] + libri[1..];
    }
  }

  /** With distinct ids, removing the id of record `k` drops exactly that record, one fewer in all. */
  lemma {:induction false} RemovePresentId(libri: seq<Book>, k: int)
    requires IdsDistinct(libri) && 0 <= k < |libri|
    ensures RemoveBooks(libri, libri[k].id) == libri[..k] + libri[k + 1..]
    ensures |RemoveBooks(libri, libri[k].id)| == |libri| - 1
  {
    var id, t := libri[k].id, libri[1..];
    assert forall i :: 0 <= i < |t| ==> t[i] == libri[i + 1];
    if k == 0 {
      RemoveAbsentId(t, id);
    } else {
      assert t[k - 1] == libri[k];
      RemovePresentId(t, k - 1);
      assert libri[..k] + libri[k + 1..] == [libri[0]] + (t[..k - 1] + t[k..]);
    }
  }

  /** `libri.filter(l => l.nomeCognome)`. */
  function ActiveBooks(libri: seq<Book>): (r: seq<Book>)
    ensures |r| <= |libri|
    ensures forall b :: b in r <==> b in libri && IsActive(b)
  {
    if |libri| == 0 then []
    else if IsActive(libri[0]) then [libri[0]] + ActiveBooks(libri[1..])
    else ActiveBooks(libri[1..])
  }

  /** `libri.filter(l => !l.nomeCognome)`: what a reviewer is shown. */
  function FreeBooks(libri: seq<Book>): (r: seq<Book>)
    ensures |r| <= |libri|
    ensures forall b :: b in r <==> b in libri && !IsActive(b)
  {
    if |libri| == 0 then []
    else if IsActive(libri[0]) then FreeBooks(libri[1..])
    else [libri[0]] + FreeBooks(libri[1..])
  }

  // ---------------------------------------------------------------------
  // Derived views

  /** `recensioniAttive`: the number of taken books. */
  function ActiveCount(libri: seq<Book>): nat
  {
    |ActiveBooks(libri)|
  }

  /** `isBloccato`: twelve or more books are taken. */
  predicate IsBloccato(libri: seq<Book>)
  {
    ActiveCount(libri) >= Capacity
  }

  /** `libriVisibili`: the whole list for the administrator, only the free books for a reviewer. */
  function VisibleBooks(libri: seq<Book>, isAdmin: bool): seq<Book>
  {
    if isAdmin then libri else FreeBooks(libri)
  }

  /** The "Seleziona questo libro" button: reviewer mode, not locked, and the book has a title. */
  predicate ShowSelectButton(libri: seq<Book>, b: Book, isAdmin: bool)
  {
    !isAdmin && !IsBloccato(libri) && b.titolo != []
  }

  /** A month option of the dialog is disabled: another taken book holds that month. */
  predicate MonthOccupied(libri: seq<Book>, m: string, selectedId: int)
  {
    exists l :: l in libri && l.mese == m && IsActive(l) && l.id != selectedId
  }

  /** Taken and free books split the list between them. */
  lemma {:induction false} ActiveFreePartition(libri: seq<Book>)
    ensures ActiveCount(libri) + |FreeBooks(libri)| == |libri|
  {
    if |libri| > 0 {
      ActiveFreePartition(libri[1..]);
    }
  }

  /** The reviewer view keeps list order: filtering distributes over concatenation. */
  lemma {:induction false} FreeBooksAppend(a: seq<Book>, b: seq<Book>)
    ensures FreeBooks(a + b) == FreeBooks(a) + FreeBooks(b)
  {
    if |a| == 0 {
      assert a + b == b;
    } else {
      assert (a + b)[0] == a[0];
      assert (a + b)[1..] == a[1..] + b;
      FreeBooksAppend(a[1..], b);
    }
  }

  /** The reviewer view is all and only the free books; the administrator sees every book. */
  lemma VisibleBooksSelects(libri: seq<Book>, isAdmin: bool)
    ensures isAdmin ==> VisibleBooks(libri, isAdmin) == libri
    ensures !isAdmin ==> forall b :: b in VisibleBooks(libri, isAdmin) <==> b in libri && !IsActive(b)
    ensures !isAdmin ==> |VisibleBooks(libri, isAdmin)| == |libri| - ActiveCount(libri)
  {
    ActiveFreePartition(libri);
  }

  /** In a consistent list the reviewer view shows no reviewer's month, e-mail or name. */
  lemma ReviewerViewHidesReviewers(libri: seq<Book>)
    requires forall i :: 0 <= i < |libri| ==> AllOrNothing(libri[i])
    ensures forall b :: b in VisibleBooks(libri, false) ==>
      b.nomeCognome == [] && b.email == [] && b.mese == [] && b.nome == [] && b.cognome == []
  {
  }

  /** A select button is only ever drawn on a free book. */
  lemma SelectButtonOnlyOnFreeBooks(libri: seq<Book>, b: Book, isAdmin: bool)
    requires b in VisibleBooks(libri, isAdmin) && ShowSelectButton(libri, b, isAdmin)
    ensures !IsActive(b) && ActiveCount(libri) < Capacity
  {
  }

  // ---------------------------------------------------------------------
  // confermaRecensione

  /** What `confermaRecensione` reports, in the order it checks. */
  datatype Outcome = Incomplete | MonthTaken | EmailTaken | Confirmed

  /** `recensioniAttive.some(l => l.mese === mese && l.id !== selectedBook.id)`. */
  predicate MonthTakenByOther(libri: seq<Book>, mese: string, selectedId: int)
  {
    exists l :: l in ActiveBooks(libri) && l.mese == mese && l.id != selectedId
  }

  /** `recensioniAttive.some(l => l.email === email && l.id !== selectedBook.id)`. */
  predicate EmailTakenByOther(libri: seq<Book>, email: string, selectedId: int)
  {
    exists l :: l in ActiveBooks(libri) && l.email == email && l.id != selectedId
  }

  /** The fail-fast checks of `confermaRecensione`, first failure wins. */
  function CheckConfirm(libri: seq<Book>, selectedId: int, data: Candidate): Outcome
  {
    if data.mese == [] || data.nomeCognome == [] || data.email == [] then Incomplete
    else if MonthTakenByOther(libri, data.mese, selectedId) then MonthTaken
    else if EmailTakenByOther(libri, data.email, selectedId) then EmailTaken
    else Confirmed
  }

  /** Some record at an index of the list is taken, has another id, and holds the month. */
  predicate MonthHeld(libri: seq<Book>, mese: string, selectedId: int)
  {
    exists i :: 0 <= i < |libri| && IsActive(libri[i]) && libri[i].mese == mese && libri[i].id != selectedId
  }

  /** Some record at an index of the list is taken, has another id, and holds the e-mail. */
  predicate EmailHeld(libri: seq<Book>, email: string, selectedId: int)
  {
    exists i :: 0 <= i < |libri| && IsActive(libri[i]) && libri[i].email == email && libri[i].id != selectedId
  }

  lemma MonthTakenIff(libri: seq<Book>, mese: string, selectedId: int)
    ensures MonthTakenByOther(libri, mese, selectedId) <==> MonthHeld(libri, mese, selectedId)
  {
    if MonthTakenByOther(libri, mese, selectedId) {
      var l :| l in ActiveBooks(libri) && l.mese == mese && l.id != selectedId;
      var i :| 0 <= i < |libri| && libri[i] == l;
    }
    if MonthHeld(libri, mese, selectedId) {
      var i :| 0 <= i < |libri| && IsActive(libri[i]) && libri[i].mese == mese && libri[i].id != selectedId;
      assert libri[i] in ActiveBooks(libri);
    }
  }

  lemma EmailTakenIff(libri: seq<Book>, email: string, selectedId: int)
    ensures EmailTakenByOther(libri, email, selectedId) <==> EmailHeld(libri, email, selectedId)
  {
    if EmailTakenByOther(libri, email, selectedId) {
      var l :| l in ActiveBooks(libri) && l.email == email && l.id != selectedId;
      var i :| 0 <= i < |libri| && libri[i] == l;
    }
    if EmailHeld(libri, email, selectedId) {
      var i :| 0 <= i < |libri| && IsActive(libri[i]) && libri[i].email == email && libri[i].id != selectedId;
      assert libri[i] in ActiveBooks(libri);
    }
  }

  /**
   * The checks refuse, in this order: a missing field; a month held by a
   * taken book with another id; an e-mail held by a taken book with
   * another id. Only the three fields and the taken books count.
   */
  lemma CheckConfirmRefuses(libri: seq<Book>, selectedId: int, data: Candidate)
    ensures var filled := data.mese != [] && data.nomeCognome != [] && data.email != [];
      var monthHeld := MonthHeld(libri, data.mese, selectedId);
      var emailHeld := EmailHeld(libri, data.email, selectedId);
      && (CheckConfirm(libri, selectedId, data) == Incomplete <==> !filled)
      && (CheckConfirm(libri, selectedId, data) == MonthTaken <==> filled && monthHeld)
      && (CheckConfirm(libri, selectedId, data) == EmailTaken <==> filled && !monthHeld && emailHeld)
      && (CheckConfirm(libri, selectedId, data) == Confirmed <==> filled && !monthHeld && !emailHeld)
  {
    MonthTakenIff(libri, data.mese, selectedId);
    EmailTakenIff(libri, data.email, selectedId);
  }

  /** The dialog's disabled month options are exactly the months the confirm check refuses. */
  lemma OccupiedMonthIsRefused(libri: seq<Book>, selectedId: int, data: Candidate)
    requires data.mese != [] && data.nomeCognome != [] && data.email != []
    ensures MonthOccupied(libri, data.mese, selectedId) <==> CheckConfirm(libri, selectedId, data) == MonthTaken
  {
  }

  /** The three record updates of a confirm, one after the other, on one record. */
  function ConfirmBook(b: Book, data: Candidate, derived: Option<MilestoneDates>): Book
  {
    var withMonth := UpdateBook(b, Mese, data.mese, derived);
    var withName := UpdateBook(withMonth, NomeCognome, data.nomeCognome, None);
    UpdateBook(withName, Email, data.email, None)
  }

  /**
   * The three `aggiornaLibro` calls of a successful confirm, applied one
   * after the other: month (with its dates), name, e-mail.
   */
  function ApplyConfirm(libri: seq<Book>, id: int, data: Candidate, anno: int): seq<Book>
  {
    var withMonth := UpdateBooks(libri, id, Mese, data.mese, DeriveDates(anno, data.mese));
    var withName := UpdateBooks(withMonth, id, NomeCognome, data.nomeCognome, None);
    UpdateBooks(withName, id, Email, data.email, None)
  }

  /** The sequential confirm acts record by record. */
  lemma ApplyConfirmAt(libri: seq<Book>, id: int, data: Candidate, anno: int, i: int)
    requires 0 <= i < |libri|
    ensures |ApplyConfirm(libri, id, data, anno)| == |libri|
    ensures ApplyConfirm(libri, id, data, anno)[i]
      == if libri[i].id == id then ConfirmBook(libri[i], data, DeriveDates(anno, data.mese)) else libri[i]
  {
    var withMonth := UpdateBooks(libri, id, Mese, data.mese, DeriveDates(anno, data.mese));
    var withName := UpdateBooks(withMonth, id, NomeCognome, data.nomeCognome, None);
    assert withMonth[i].id == libri[i].id;
    assert withName[i].id == libri[i].id;
  }

  /**
   * `r` is `b` taken by the candidate: month, full name and e-mail
   * written, the name split into `nome`/`cognome`, the month's dates (the
   * old ones when the month is unknown), the catalogue fields kept.
   */
  predicate TakenBy(r: Book, b: Book, data: Candidate, derived: Option<MilestoneDates>)
  {
    && r.mese == data.mese && r.nomeCognome == data.nomeCognome && r.email == data.email
    && (r.nome, r.cognome) == SplitName(data.nomeCognome)
    && r.dates == (if derived.Some? then derived else b.dates)
    && r.id == b.id && r.titolo == b.titolo && r.autore == b.autore
    && r.link == b.link && r.pagine == b.pagine && r.copertina == b.copertina
  }

  /** The three updates on one record take it for the candidate. */
  lemma ConfirmBookFacts(b: Book, data: Candidate, derived: Option<MilestoneDates>)
    ensures TakenBy(ConfirmBook(b, data, derived), b, data, derived)
  {
    var withMonth := UpdateBook(b, Mese, data.mese, derived);
    var withName := UpdateBook(withMonth, NomeCognome, data.nomeCognome, None);
    MonthUpdateOnly(b, data.mese, derived);
    NameUpdateOnly(withMonth, data.nomeCognome);
    EmailUpdateOnly(withName, data.email);
  }

  /** Updating the month of a record sets the month and the month's dates, if any, and nothing else. */
  lemma MonthUpdateOnly(b: Book, v: string, derived: Option<MilestoneDates>)
    ensures UpdateBook(b, Mese, v, derived) == b.(mese := v, dates := if derived.Some? then derived else b.dates)
  {
  }

  /** Updating the full name of a record sets it and its split, and nothing else. */
  lemma NameUpdateOnly(b: Book, v: string)
    ensures UpdateBook(b, NomeCognome, v, None) == b.(nomeCognome := v, nome := SplitName(v).0, cognome := SplitName(v).1)
  {
  }

  /**
   * The same three calls as the source issues them: each maps over the
   * `libri` captured by the render and hands a plain value to `setLibri`.
   * The month and name values are computed and then overwritten: the last
   * value, the e-mail update alone, is the one kept.
   */
  function ConfirmAsBatched(libri: seq<Book>, id: int, data: Candidate, anno: int): seq<Book>
  {
    var withMonth := UpdateBooks(libri, id, Mese, data.mese, DeriveDates(anno, data.mese));
    var withName := UpdateBooks(libri, id, NomeCognome, data.nomeCognome, None);
    var withEmail := UpdateBooks(libri, id, Email, data.email, None);
    withEmail
  }

  /**
   * As issued, a confirm never takes the book: each record with the id
   * changes in its e-mail alone, every other record is unchanged, and a
   * free book stays free with its month and dates.
   */
  lemma BatchedConfirmLeavesBookFree(libri: seq<Book>, id: int, data: Candidate, anno: int)
    ensures var r := ConfirmAsBatched(libri, id, data, anno);
      && |r| == |libri|
      && (forall i :: 0 <= i < |libri| ==>
           r[i] == if libri[i].id == id then libri[i].(email := data.email) else libri[i])
      && forall i :: 0 <= i < |libri| && libri[i].id == id && !IsActive(libri[i]) ==>
           && !IsActive(r[i]) && r[i].mese == libri[i].mese && r[i].dates == libri[i].dates
           && r[i].email == data.email
  {
    var r := ConfirmAsBatched(libri, id, data, anno);
    assert r == UpdateBooks(libri, id, Email, data.email, None);
    forall i | 0 <= i < |libri| && libri[i].id == id
      ensures r[i] == libri[i].(email := data.email)
    {
      EmailUpdateOnly(libri[i], data.email);
    }
  }

  /** Updating the e-mail of a record changes nothing else. */
  lemma EmailUpdateOnly(b: Book, v: string)
    ensures UpdateBook(b, Email, v, None) == b.(email := v)
  {
  }

  /**
   * Applied in sequence, a confirm takes the book: it carries the
   * candidate's month, full name and e-mail, the name split into
   * `nome`/`cognome`, the month's dates, and keeps its catalogue fields;
   * every other record is unchanged.
   */
  lemma ConfirmAssignsBook(libri: seq<Book>, id: int, data: Candidate, anno: int)
    requires data.nomeCognome != []
    ensures var r := ApplyConfirm(libri, id, data, anno);
      && |r| == |libri|
      && (forall i :: 0 <= i < |libri| && libri[i].id != id ==> r[i] == libri[i])
      && (forall i :: 0 <= i < |libri| && libri[i].id == id ==> IsActive(r[i]))
      && forall i :: 0 <= i < |libri| && libri[i].id == id ==> TakenBy(r[i], libri[i], data, DeriveDates(anno, data.mese))
  {
    var r := ApplyConfirm(libri, id, data, anno);
    forall i | 0 <= i < |libri|
      ensures libri[i].id != id ==> r[i] == libri[i]
      ensures libri[i].id == id ==> TakenBy(r[i], libri[i], data, DeriveDates(anno, data.mese))
    {
      ApplyConfirmAt(libri, id, data, anno, i);
      ConfirmBookFacts(libri[i], data, DeriveDates(anno, data.mese));
    }
  }

  // ---------------------------------------------------------------------
  // Invariants

  /** Record ids are pairwise different (ids are `libri.length + 1`, so this can fail after a removal). */
  predicate IdsDistinct(libri: seq<Book>)
  {
    forall i, j :: 0 <= i < j < |libri| ==> libri[i].id != libri[j].id
  }

  /** No two taken books share a month. */
  predicate MonthsExclusive(libri: seq<Book>)
  {
    forall i, j :: 0 <= i < j < |libri| && IsActive(libri[i]) && IsActive(libri[j]) ==> libri[i].mese != libri[j].mese
  }

  /** No two taken books share an e-mail address. */
  predicate EmailsExclusive(libri: seq<Book>)
  {
    forall i, j :: 0 <= i < j < |libri| && IsActive(libri[i]) && IsActive(libri[j]) ==> libri[i].email != libri[j].email
  }

  /** A taken book has a month and an e-mail; a free one has no reviewer data and no dates. */
  predicate AllOrNothing(b: Book)
  {
    && (IsActive(b) ==> b.mese != [] && b.email != [])
    && (!IsActive(b) ==> b.mese == [] && b.email == [] && b.nome == [] && b.cognome == [] && b.dates.None?)
  }

  /** The invariant the confirm checks are there to keep. */
  predicate Consistent(libri: seq<Book>)
  {
    && IdsDistinct(libri) && MonthsExclusive(libri) && EmailsExclusive(libri)
    && forall i :: 0 <= i < |libri| ==> AllOrNothing(libri[i])
  }

  /** With distinct ids, a successful confirm keeps month and e-mail exclusivity and all-or-nothing records. */
  lemma ConfirmPreservesConsistency(libri: seq<Book>, id: int, data: Candidate, anno: int)
    requires Consistent(libri)
    requires CheckConfirm(libri, id, data) == Confirmed
    ensures Consistent(ApplyConfirm(libri, id, data, anno))
  {
    var r := ApplyConfirm(libri, id, data, anno);
    ConfirmAssignsBook(libri, id, data, anno);
    MonthTakenIff(libri, data.mese, id);
    EmailTakenIff(libri, data.email, id);
    AssignOnePreserves(libri, r, id, data);
  }

  /**
   * The invariant step of a confirm, on its own: one id's records become
   * taken with a month and e-mail no other taken book holds.
   */
  lemma AssignOnePreserves(libri: seq<Book>, r: seq<Book>, id: int, data: Candidate)
    requires Consistent(libri) && |r| == |libri|
    requires data.mese != [] && data.email != []
    requires !MonthHeld(libri, data.mese, id) && !EmailHeld(libri, data.email, id)
    requires forall i :: 0 <= i < |libri| && libri[i].id != id ==> r[i] == libri[i]
    requires forall i :: 0 <= i < |libri| && libri[i].id == id ==>
      IsActive(r[i]) && r[i].id == id && r[i].mese == data.mese && r[i].email == data.email
    ensures Consistent(r)
  {
    forall i, j | 0 <= i < j < |r| && IsActive(r[i]) && IsActive(r[j])
      ensures r[i].mese != r[j].mese && r[i].email != r[j].email
    {
      if libri[i].id == id {
        assert libri[j].id != id;
      }
    }
    assert forall i :: 0 <= i < |r| ==> r[i].id == libri[i].id;
  }

  /** Adding a book keeps every invariant as long as the ids are exactly 1..n. */
  lemma AddPreservesConsistency(libri: seq<Book>)
    requires Consistent(libri)
    requires forall i :: 0 <= i < |libri| ==> 1 <= libri[i].id <= |libri|
    ensures Consistent(libri + [NewBook(libri)])
  {
  }

  /** After a removal the next new book can repeat an id: [1, 2], remove 1, add gives [2, 2]. */
  lemma AddAfterRemoveRepeatsId(b1: Book, b2: Book)
    requires b1.id == 1 && b2.id == 2
    ensures var rest := RemoveBooks([b1, b2], 1);
      !IdsDistinct(rest + [NewBook(rest)])
  {
    assert [b1, b2][1..] == [b2] && [b2][1..] == [];
    var rest := RemoveBooks([b1, b2], 1);
    assert rest == [b2];
    var after := rest + [NewBook(rest)];
    assert after[0].id == 2 && after[1].id == 2;
  }

  /** Releasing a reviewer keeps every invariant; the released book is free with no reviewer data. */
  lemma ClearPreservesConsistency(libri: seq<Book>, id: int)
    requires Consistent(libri)
    ensures Consistent(ClearReviewer(libri, id))
    ensures forall i :: 0 <= i < |libri| && libri[i].id == id ==> !IsActive(ClearReviewer(libri, id)[i])
  {
  }

  /** Releasing after a confirm gives the same record as releasing before it. */
  lemma ClearUndoesConfirm(libri: seq<Book>, id: int, data: Candidate, anno: int)
    requires data.nomeCognome != []
    ensures ClearReviewer(ApplyConfirm(libri, id, data, anno), id) == ClearReviewer(libri, id)
  {
    ConfirmAssignsBook(libri, id, data, anno);
    var r := ApplyConfirm(libri, id, data, anno);
    forall i | 0 <= i < |libri| && libri[i].id == id
      ensures ClearBook(r[i]) == ClearBook(libri[i])
    {
      ClearTakenBook(r[i], libri[i], data, DeriveDates(anno, data.mese));
    }
    assert ClearReviewer(r, id) == ClearReviewer(libri, id);
  }

  /** Blanking a taken record gives what blanking it before it was taken gives. */
  lemma ClearTakenBook(r: Book, b: Book, data: Candidate, derived: Option<MilestoneDates>)
    requires TakenBy(r, b, data, derived)
    ensures ClearBook(r) == ClearBook(b)
  {
  }

  /** Removing books keeps every invariant. */
  lemma {:induction false} RemovePreservesConsistency(libri: seq<Book>, id: int)
    requires Consistent(libri)
    ensures Consistent(RemoveBooks(libri, id))
  {
    if |libri| > 0 {
      var h, t := libri[0], libri[1..];
      assert libri == [h] + t;
      ConsistentUncons(h, t);
      RemovePreservesConsistency(t, id);
      if h.id != id {
        ConsistentCons(h, RemoveBooks(t, id));
      }
    }
  }

  /** Two records may stand in one consistent list together. */
  predicate Compatible(a: Book, b: Book)
  {
    a.id != b.id && (IsActive(a) && IsActive(b) ==> a.mese != b.mese && a.email != b.email)
  }

  lemma ConsistentUncons(h: Book, t: seq<Book>)
    requires Consistent([h] + t)
    ensures Consistent(t) && AllOrNothing(h)
    ensures forall x :: x in t ==> Compatible(h, x)
  {
    var l := [h] + t;
    forall x | x in t ensures Compatible(h, x) {
      var k :| 0 <= k < |t| && t[k] == x;
      assert l[k + 1] == x;
    }
    forall i, j | 0 <= i < j < |t| ensures t[i].id != t[j].id {
      assert l[i + 1] == t[i] && l[j + 1] == t[j];
    }
    forall i, j | 0 <= i < j < |t| && IsActive(t[i]) && IsActive(t[j])
      ensures t[i].mese != t[j].mese && t[i].email != t[j].email
    {
      assert l[i + 1] == t[i] && l[j + 1] == t[j];
    }
    forall i | 0 <= i < |t| ensures AllOrNothing(t[i]) {
      assert l[i + 1] == t[i];
    }
    assert l[0] == h;
  }

  lemma ConsistentCons(h: Book, s: seq<Book>)
    requires Consistent(s) && AllOrNothing(h)
    requires forall x :: x in s ==> Compatible(h, x)
    ensures Consistent([h] + s)
  {
    var l := [h] + s;
    forall i, j | 0 <= i < j < |l| ensures Compatible(l[i], l[j]) {
      if i == 0 {
        assert l[j] == s[j - 1];
      } else {
        assert l[i] == s[i - 1] && l[j] == s[j - 1];
      }
    }
  }

  /** Catalogue edits (title, author, link, pages, cover) keep every invariant. */
  lemma CatalogueEditPreservesConsistency(libri: seq<Book>, id: int, campo: Field, valore: string)
    requires Consistent(libri)
    requires campo in {Titolo, Autore, Link, Pagine, Copertina}
    ensures Consistent(UpdateBooks(libri, id, campo, valore, None))
  {
    var r := UpdateBooks(libri, id, campo, valore, None);
    forall i | 0 <= i < |r| ensures SameReviewer(r[i], libri[i]) {
      if libri[i].id == id {
        CatalogueEditKeepsReviewer(libri[i], campo, valore);
      }
    }
    SameReviewersConsistent(libri, r);
  }

  /** Two records with the same id, reviewer fields and dates. */
  predicate SameReviewer(a: Book, b: Book)
  {
    && a.id == b.id && a.nomeCognome == b.nomeCognome && a.nome == b.nome && a.cognome == b.cognome
    && a.email == b.email && a.mese == b.mese && a.dates == b.dates
  }

  /** A catalogue edit touches no reviewer field and no date. */
  lemma CatalogueEditKeepsReviewer(b: Book, campo: Field, valore: string)
    requires campo in {Titolo, Autore, Link, Pagine, Copertina}
    ensures SameReviewer(UpdateBook(b, campo, valore, None), b)
  {
    var r := UpdateBook(b, campo, valore, None);
    assert Get(r, NomeCognome) == Get(b, NomeCognome);
    assert Get(r, Mese) == Get(b, Mese) && Get(r, Email) == Get(b, Email);
    assert Get(r, Nome) == Get(b, Nome) && Get(r, Cognome) == Get(b, Cognome);
  }

  /** The invariant looks only at ids, reviewer fields and dates. */
  lemma SameReviewersConsistent(libri: seq<Book>, r: seq<Book>)
    requires Consistent(libri) && |r| == |libri|
    requires forall i :: 0 <= i < |r| ==> SameReviewer(r[i], libri[i])
    ensures Consistent(r)
  {
  }

  // ---------------------------------------------------------------------
  // The twelve-review lock

  /** Every taken book holds one of the twelve month names. */
  predicate MonthsKnown(libri: seq<Book>)
  {
    forall i :: 0 <= i < |libri| && IsActive(libri[i]) ==> libri[i].mese in Mesi
  }

  /** The months held by taken books. */
  function ActiveMonths(libri: seq<Book>): set<string>
  {
    set i | 0 <= i < |libri| && IsActive(libri[i]) :: libri[i].mese
  }

  lemma {:induction false} ActiveMonthsCount(libri: seq<Book>)
    requires MonthsExclusive(libri)
    ensures |ActiveMonths(libri)| == ActiveCount(libri)
  {
    if |libri| > 0 {
      var h, t := libri[0], libri[1..];
      MonthsExclusiveSplit(libri);
      ActiveMonthsCount(t);
      ActiveMonthsSplit(libri);
    }
  }

  lemma MonthsExclusiveSplit(libri: seq<Book>)
    requires |libri| > 0 && MonthsExclusive(libri)
    ensures MonthsExclusive(libri[1..])
    ensures IsActive(libri[0]) ==> libri[0].mese !in ActiveMonths(libri[1..])
  {
    var t := libri[1..];
    forall i, j | 0 <= i < j < |t| && IsActive(t[i]) && IsActive(t[j]) ensures t[i].mese != t[j].mese {
      assert libri[i + 1] == t[i] && libri[j + 1] == t[j];
    }
    if IsActive(libri[0]) {
      forall k | 0 <= k < |t| && IsActive(t[k]) ensures t[k].mese != libri[0].mese {
        assert libri[k + 1] == t[k];
      }
    }
  }

  lemma ActiveMonthsSplit(libri: seq<Book>)
    requires |libri| > 0
    ensures ActiveMonths(libri) == (if IsActive(libri[0]) then {libri[0].mese} else {}) + ActiveMonths(libri[1..])
  {
    var t := libri[1..];
    forall x | x in ActiveMonths(libri)
      ensures x in (if IsActive(libri[0]) then {libri[0].mese} else {}) + ActiveMonths(t)
    {
      var i :| 0 <= i < |libri| && IsActive(libri[i]) && libri[i].mese == x;
      if i > 0 {
        assert t[i - 1] == libri[i];
      }
    }
    forall x | x in ActiveMonths(t) ensures x in ActiveMonths(libri) {
      var k :| 0 <= k < |t| && IsActive(t[k]) && t[k].mese == x;
      assert libri[k + 1] == t[k];
    }
  }

  /** Distinct values of a sequence are no more than its length. */
  lemma {:induction false} SeqSetCard(s: seq<string>)
    ensures |set x | x in s| <= |s|
  {
    if |s| > 0 {
      SeqSetCard(s[1..]);
      assert (set x | x in s) == {s[0]} + (set x | x in s[1..]);
    }
  }

  lemma SubsetCard(a: set<string>, b: set<string>)
    requires a <= b
    ensures |a| <= |b|
  {
    assert b == a + (b - a);
  }

  /**
   * With exclusive months drawn from the twelve names, at most twelve
   * books are ever taken, so `isBloccato` means exactly twelve.
   */
  lemma ActiveCountAtMostTwelve(libri: seq<Book>)
    requires MonthsExclusive(libri) && MonthsKnown(libri)
    ensures ActiveCount(libri) <= Capacity
    ensures IsBloccato(libri) <==> ActiveCount(libri) == Capacity
  {
    ActiveMonthsCount(libri);
    SeqSetCard(Mesi);
    SubsetCard(ActiveMonths(libri), set x | x in Mesi);
  }

  /** A confirm with one of the twelve names keeps every taken month among them. */
  lemma ConfirmKeepsMonthsKnown(libri: seq<Book>, id: int, data: Candidate, anno: int)
    requires MonthsKnown(libri) && data.mese in Mesi && data.nomeCognome != []
    ensures MonthsKnown(ApplyConfirm(libri, id, data, anno))
  {
    ConfirmAssignsBook(libri, id, data, anno);
  }
}
