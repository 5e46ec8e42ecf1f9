# Book-review booking: a Dafny model

This project models the booking and scheduling core of the `RecensioniApp`
React component (`src/RecensioniApp.jsx`). The component runs a yearly
programme of book reviews. An administrator keeps the list of books
(`libri`). A reviewer picks a free book and a month and leaves a name and an
e-mail. The component then derives the six workflow dates of that month and
fills them into an e-mail template.

The model has these modules:

- `Wrappers`: the `Option` type.
- `Strings`: the JavaScript string operations the component relies on:
  - `indexOf`;
  - `split` on a non-empty separator, and `join`;
  - `trim`, with ECMAScript's white-space set.
- `Calendar`:
  - proleptic Gregorian dates as `(year, month, day)` triples, months 1..12;
  - month lengths;
  - `getDay()` as a closed formula, with 0 = Sunday.
- `Milestones`: `calcolaDate`.
  - The walks `ultimaDomenica`, `primoLunedi` and `ultimoGiorno` are `while`
    loops, proved against closed forms of "last/first weekday of the month".
  - Every date is derived from the twelve Italian month names `MESI` and the
    year.
- `Records`: the book record, the names of its editable fields, and the
  reviewer's dialog input `recensoreData`.
- `Template`: `applyTemplate`. Twelve `{{Token}}` replacements are done in
  map order, each as `split(token).join(value)`, in a `for` loop.
- `Ledger`: pure transforms of the list and the views derived from it.
  - The `map`/`filter` bodies of the handlers.
  - `recensioniAttive`, `isBloccato`, `libriVisibili`, the select button and
    the disabled month options.
  - The fail-fast checks of `confermaRecensione`.
  - The invariants those checks keep: no two taken books share a month or an
    e-mail, and a record is either fully taken or fully free.
- `App`: the component as the class `RecensioniApp`.
  - Its fields are the state `anno`, `libri`, `selectedBook` and
    `recensoreData`.
  - It has one method per handler. Each `setX(value)` is an assignment to
    the field.

A book is *taken* ("active") exactly when its `nomeCognome` is non-empty, as
everywhere in the component. Month and e-mail play no part in that test.

Behaviour a reader might not expect, which the model keeps as the code
has it:

- **Deadlines.** The four deadlines are the last Wednesday, Thursday, Friday
  and Saturday of the month (`getDay()` targets 3..6). They are not the four
  days before publication.
  - For January 2026, publication is 25/1 and the deadlines are 28/1 to 31/1.
  - `Milestones.DeadlinesAreLastWeekdays` states the exact relation to the
    publication day.
- **Substitution re-scans earlier values.** Replacement rescans text already
  substituted. A record value holding a later token is replaced again:
  `Template.EarlierValuesAreRescanned`.
- **Active test.** "Taken" is decided by `nomeCognome` alone.
- **Confirm checks.** `confermaRecensione` does not:
  - check e-mail syntax;
  - check the 12-review capacity;
  - re-check that the selected book is still free.

  The capacity only hides the select button. Only `selezionaLibro` checks
  that a book is free.

## Model

| member | source | states |
|---|---|---|
| Strings.IndexOfFinds | src/RecensioniApp.jsx:190 | `MESI.indexOf(mese)`: none exactly when the name is absent, otherwise the first position holding it |
| Strings.JoinSplit | src/RecensioniApp.jsx:73 | joining the pieces of a split with the same separator gives back the original string |
| Strings.SplitPiecesFree | src/RecensioniApp.jsx:73 | no piece of a split contains the separator |
| Strings.SplitWithoutSeparator | src/RecensioniApp.jsx:73 | a string without the separator splits into itself alone |
| Strings.SplitHeadIsPrefix | src/RecensioniApp.jsx:257 | the first piece of a split is a prefix of the string |
| Strings.TrimStart | src/RecensioniApp.jsx:256 | the result is a suffix of the input, everything cut off is white space, and the result does not start with white space |
| Strings.TrimEnd | src/RecensioniApp.jsx:256 | the result is a prefix of the input, everything cut off is white space, and the result does not end with white space |
| Strings.Trim | src/RecensioniApp.jsx:256 | `trim()` leaves no white space at either end |
| Strings.TrimIsSlice | src/RecensioniApp.jsx:256 | `trim()` is a slice `s[i..j]` of its input with only white space outside it; with the previous row this fixes the result |
| Strings.TrimBothEnds | src/RecensioniApp.jsx:256 | cutting white space from the front and then from the back leaves such a slice |
| Calendar.DaysInMonth | src/RecensioniApp.jsx:194 | the day `new Date(y, m + 1, 0)` lands on, the last day of the month, is between 28 and 31 |
| Calendar.NextDay | src/RecensioniApp.jsx:204 | `setDate(getDate() + 1)` from a valid date gives a valid date |
| Calendar.Weekday | src/RecensioniApp.jsx:195 | `getDay()` of a date, between 0 (Sunday) and 6; `WeekdayOfNextDay` and `EpochIsThursday` tie it to the calendar |
| Calendar.WeekdayShift | src/RecensioniApp.jsx:211-213 | within a month, moving k days moves `getDay()` k places, modulo 7 |
| Calendar.WeekdayOfNextDay | src/RecensioniApp.jsx:203-205 | `getDay()` of the next calendar day is one more, modulo 7, across month and year ends as well |
| Calendar.YearShiftStep | src/RecensioniApp.jsx:194 | a year moves the weekday of a date by one, a leap year by two, under the Gregorian leap rule |
| Calendar.EpochIsThursday | src/RecensioniApp.jsx:195 | 1 January 1970 has `getDay()` 4; with `Calendar.WeekdayOfNextDay` this fixes the weekday of every date |
| Milestones.JsYear | src/RecensioniApp.jsx:194 | the year `new Date(anno, …)` uses: 0..99 read as 1900..1999, any other year as it is |
| Milestones.DeriveDates | src/RecensioniApp.jsx:189-225 | the dates `calcolaDate` returns; `UnknownMonthHasNoDates`, `PublicationAndInfoDates` and `DeadlinesAreLastWeekdays` state what they are |
| Milestones.LastWeekdayIsLast | src/RecensioniApp.jsx:209-215 | the closed form is a day of the month with the target weekday, no later day of the month has it, and it is at most six days before the end |
| Milestones.FirstWeekdayIsFirst | src/RecensioniApp.jsx:201-207 | the closed form is a day 1..7 with the target weekday, and no earlier day has it |
| Milestones.LastWeekday | src/RecensioniApp.jsx:193-199 | the backward walk from the month's last day stops on the last day with the target weekday, after at most six steps |
| Milestones.FirstWeekday | src/RecensioniApp.jsx:201-207 | the forward walk from the 1st stops on the first day with the target weekday, after at most six steps |
| Milestones.CalcolaDate | src/RecensioniApp.jsx:189-225 | the six walks give exactly the dates of `DeriveDates`, and nothing for an unknown month |
| Milestones.UnknownMonthHasNoDates | src/RecensioniApp.jsx:189-191 | no dates exactly when the name is not one of the twelve in `MESI`, `''` included |
| Milestones.PublicationAndInfoDates | src/RecensioniApp.jsx:193-219 | for a known month, publication is a Sunday of that month of the year with no later Sunday in the month; information dispatch is a Monday on day 1..7 with no earlier Monday |
| Milestones.DeadlinesAreLastWeekdays | src/RecensioniApp.jsx:209-223 | the four deadlines are the last Wednesday, Thursday, Friday and Saturday of the month; each is publication + 3..6 days when still in the month, else one week earlier |
| Milestones.LastWeekdayFromSunday | src/RecensioniApp.jsx:209-223 | the last t-day of a month is the last Sunday + t when that is still in the month, else the last Sunday + t − 7 |
| Milestones.January2026 | src/RecensioniApp.jsx:189-225 | January 2026 gives publication 25/1, information 5/1 and deadlines 28/1, 29/1, 30/1, 31/1 |
| Template.ReplaceAll | src/RecensioniApp.jsx:73 | `text.split(token).join(value)`; `JoinSplit`, `ReplaceWhole` and `ReplaceAllWithoutToken` state what it does |
| Template.ApplyAll | src/RecensioniApp.jsx:71-74 | the replacements of a list of entries in order, each on the previous result; `ApplyAllSnoc` gives the step of the loop |
| Template.ReplaceAllWithoutToken | src/RecensioniApp.jsx:73 | a text without the token is not changed by `split(token).join(value)` |
| Template.ReplaceAllByItself | src/RecensioniApp.jsx:73 | replacing a token by itself changes nothing |
| Template.DateTexts | src/RecensioniApp.jsx:61-68 | six date texts in map order, all `''` for a record without dates |
| Template.Entries | src/RecensioniApp.jsx:54-69 | the map has twelve entries and no empty token |
| Template.ApplyAllSnoc | src/RecensioniApp.jsx:71-74 | one more `forEach` step replaces the next token in the previous result |
| Template.ApplyTemplate | src/RecensioniApp.jsx:51-76 | an empty template gives `''`; otherwise the result is the twelve replacements applied in map order, each to the previous result |
| Template.ApplyAllWithoutTokens | src/RecensioniApp.jsx:71-74 | a text containing none of the tokens passes through every replacement unchanged |
| Template.TemplateWithoutPlaceholders | src/RecensioniApp.jsx:51-76 | a template mentioning none of the twelve placeholders is returned as it is |
| Template.ReplaceWhole | src/RecensioniApp.jsx:73 | a text that is exactly the token becomes the value |
| Template.ReplaceShorter | src/RecensioniApp.jsx:73 | a text shorter than the token is not changed |
| Template.ShortTextUnchanged | src/RecensioniApp.jsx:71-74 | a text shorter than every token is returned as it is |
| Template.EarlierValuesAreRescanned | src/RecensioniApp.jsx:71-74 | a name whose value is `{{Titolo}}` ends up as the title: later tokens are replaced inside earlier values |
| Ledger.SplitName | src/RecensioniApp.jsx:256-258 | `nome` is the first space-separated piece of the trimmed input, `cognome` the rest joined by spaces; `SplitNameRecombines` states how they give back the input |
| Ledger.SplitNameRecombines | src/RecensioniApp.jsx:256-260 | `nome` has no space; the trimmed input is `nome` alone (and `cognome` is `''`) when it has no space, otherwise `nome + ' ' + cognome` |
| Ledger.UpdateBook | src/RecensioniApp.jsx:247-263 | the id is kept and the field gets the value; every other field is unchanged except the split name; on `mese` the dates become `calcolaDate(valore)` unless that is empty, in which case the old ones stay |
| Ledger.UpdateBooks | src/RecensioniApp.jsx:246-264 | same length and order; every record with the id is updated, every other record is unchanged |
| Ledger.ClearBook | src/RecensioniApp.jsx:274-289 | a record with no reviewer name, e-mail, month or dates; `ClearTakenBook` and `ClearPreservesConsistency` state its effect |
| Ledger.ClearReviewer | src/RecensioniApp.jsx:274-292 | same length and order; every record with the id is blanked, every other record is unchanged |
| Ledger.RemoveBooks | src/RecensioniApp.jsx:269 | a record is kept exactly when its id differs; the list does not grow |
| Ledger.RemoveBooksAppend | src/RecensioniApp.jsx:269 | removal distributes over concatenation, so the kept records stay in their order |
| Ledger.RemoveAbsentId | src/RecensioniApp.jsx:269 | removing an id no record has leaves the list unchanged |
| Ledger.RemovePresentId | src/RecensioniApp.jsx:269 | with distinct ids, removing the id of record k drops exactly that record: the list is `libri[..k] + libri[k+1..]`, one shorter |
| Ledger.ActiveBooks | src/RecensioniApp.jsx:342 | a record is kept exactly when it is taken |
| Ledger.ActiveCount | src/RecensioniApp.jsx:427 | `recensioniAttive`, the number of taken books; `ActiveFreePartition` and `ActiveCountAtMostTwelve` bound it |
| Ledger.IsBloccato | src/RecensioniApp.jsx:428 | `isBloccato`: at least 12 books taken; `ActiveCountAtMostTwelve` shows it holds exactly at 12 |
| Ledger.FreeBooks | src/RecensioniApp.jsx:431-433 | a record is kept exactly when it is free |
| Ledger.ActiveFreePartition | src/RecensioniApp.jsx:427-433 | the taken count plus the free count is the list length |
| Ledger.FreeBooksAppend | src/RecensioniApp.jsx:431-433 | the reviewer view of a concatenation is the concatenation of the views: it is an order-preserving subsequence |
| Ledger.VisibleBooks | src/RecensioniApp.jsx:431-433 | `libriVisibili`; `VisibleBooksSelects` states which books it holds and how many |
| Ledger.VisibleBooksSelects | src/RecensioniApp.jsx:431-433 | the administrator sees the whole list; a reviewer sees exactly the free books, `libri.length − recensioniAttive` of them |
| Ledger.ReviewerViewHidesReviewers | src/RecensioniApp.jsx:430-433 | in a consistent list the reviewer view shows no month, name or e-mail |
| Ledger.ShowSelectButton | src/RecensioniApp.jsx:749-751 | the condition for drawing a select button; `SelectButtonOnlyOnFreeBooks` states what it guarantees |
| Ledger.SelectButtonOnlyOnFreeBooks | src/RecensioniApp.jsx:748-751 | a select button is drawn only on a free book, while fewer than 12 are taken |
| Ledger.MonthTakenIff | src/RecensioniApp.jsx:344-349 | "another taken book has this month" over the filtered list is the same as over the indices of `libri` |
| Ledger.EmailTakenIff | src/RecensioniApp.jsx:353-358 | the same for the e-mail |
| Ledger.CheckConfirm | src/RecensioniApp.jsx:333-360 | the checks of `confermaRecensione` in their order; `CheckConfirmRefuses` states each outcome's exact condition |
| Ledger.CheckConfirmRefuses | src/RecensioniApp.jsx:332-360 | the outcome is, in this order: incomplete exactly when a field is empty; month taken exactly when another taken book holds the month; e-mail taken exactly when, in addition, no other taken book holds the month and another holds the e-mail; confirmed otherwise |
| Ledger.MonthOccupied | src/RecensioniApp.jsx:791-796 | a month option is disabled; `OccupiedMonthIsRefused` shows it is exactly a month the confirm refuses |
| Ledger.OccupiedMonthIsRefused | src/RecensioniApp.jsx:787-796 | with all fields filled, a month option is disabled exactly when confirming with that month is refused as taken |
| Ledger.ApplyConfirmAt | src/RecensioniApp.jsx:362-368 | the three updates applied in sequence act record by record |
| Ledger.ConfirmBookFacts | src/RecensioniApp.jsx:362-368 | the three updates on one record set the month, name and e-mail, split the name, set the dates, and keep the catalogue fields |
| Ledger.ConfirmAssignsBook | src/RecensioniApp.jsx:362-368 | applied in sequence, a confirm takes every record with the id with the candidate's data and the month's dates, and leaves every other record as it was |
| Ledger.ConfirmAsBatched | src/RecensioniApp.jsx:362-368 | the three updates as written, each from the same `libri`, the last one kept; `BatchedConfirmLeavesBookFree` states the result |
| Ledger.BatchedConfirmLeavesBookFree | src/RecensioniApp.jsx:362-368 | as written, with each update computed from the same captured `libri`, every record with the id differs from before only in its e-mail, every other record is unchanged, and a free book stays free with its old month and dates |
| Ledger.ConfirmPreservesConsistency | src/RecensioniApp.jsx:332-368 | with distinct ids, a confirm that passes the checks keeps months and e-mails exclusive among taken books and keeps every record all-or-nothing |
| Ledger.AssignOnePreserves | src/RecensioniApp.jsx:362-368 | writing a month and an e-mail that no other taken book holds into the records of one id keeps the list consistent |
| Ledger.AddPreservesConsistency | src/RecensioniApp.jsx:227-243 | when the ids are 1..n, appending the new free book keeps every invariant, distinct ids included |
| Ledger.AddAfterRemoveRepeatsId | src/RecensioniApp.jsx:227-270 | ids `libri.length + 1` repeat after a removal: [1, 2], remove 1, add gives ids [2, 2] |
| Ledger.ClearPreservesConsistency | src/RecensioniApp.jsx:273-295 | releasing a reviewer keeps every invariant and leaves the records of that id free |
| Ledger.ClearUndoesConfirm | src/RecensioniApp.jsx:273-295 | releasing after a confirm gives the same list as releasing before it |
| Ledger.RemovePreservesConsistency | src/RecensioniApp.jsx:268-270 | removing books keeps every invariant |
| Ledger.ConsistentUncons | src/RecensioniApp.jsx:269 | the tail of a consistent list is consistent and compatible with its head |
| Ledger.ConsistentCons | src/RecensioniApp.jsx:269 | a record compatible with every record of a consistent list can be put in front of it |
| Ledger.CatalogueEditKeepsReviewer | src/RecensioniApp.jsx:247-263 | editing title, author, link, pages or cover keeps the id, the reviewer fields and the dates of the record |
| Ledger.CatalogueEditPreservesConsistency | src/RecensioniApp.jsx:245-266 | editing title, author, link, pages or cover keeps every invariant |
| Ledger.ActiveMonthsCount | src/RecensioniApp.jsx:427 | with exclusive months, the number of taken books is the number of distinct months they hold |
| Ledger.MonthsExclusiveSplit | src/RecensioniApp.jsx:427 | month exclusivity passes to the tail, and a taken head's month is not among the tail's |
| Ledger.ActiveMonthsSplit | src/RecensioniApp.jsx:427 | the months held are the head's (when taken) and the tail's |
| Ledger.ActiveCountAtMostTwelve | src/RecensioniApp.jsx:427-428 | with exclusive months drawn from `MESI`, at most 12 books are taken, and `isBloccato` holds exactly when 12 are |
| Ledger.ConfirmKeepsMonthsKnown | src/RecensioniApp.jsx:362-368 | a confirm with one of the twelve names keeps every taken month among them |
| App.RecensioniApp.constructor | src/RecensioniApp.jsx:82-90 | the initial state: year 2026, no books, no book selected, empty dialog input |
| App.RecensioniApp.AggiungiLibro | src/RecensioniApp.jsx:227-243 | appends one free book with id `libri.length + 1` and no dates |
| App.RecensioniApp.AggiornaLibro | src/RecensioniApp.jsx:245-266 | `libri` becomes the update of every record with the id, with the month's dates computed for the current `anno`; other records are unchanged |
| App.RecensioniApp.RimuoviLibro | src/RecensioniApp.jsx:268-270 | `libri` keeps exactly the records with a different id |
| App.RecensioniApp.ClearReviewer | src/RecensioniApp.jsx:273-295 | every record with the id becomes free, and consistency is kept |
| App.RecensioniApp.SelezionaLibro | src/RecensioniApp.jsx:318-330 | accepted exactly when the book is free; then the dialog opens on it with its month and empty name and e-mail; otherwise nothing changes |
| App.RecensioniApp.ModificaCandidato | src/RecensioniApp.jsx:776-840 | each input of the dialog replaces its own field of `recensoreData` and no other |
| App.RecensioniApp.AnnullaSelezione | src/RecensioniApp.jsx:849 | "Annulla" closes the dialog |
| App.RecensioniApp.ConfermaRecensione | src/RecensioniApp.jsx:332-373 | the outcome is the fail-fast check; on success the book is taken (sequential updates), the dialog is closed and emptied, and consistency is kept; on refusal nothing changes |

## Left out

- The `storage` wrapper, `loadData`/`saveData` and the JSON kept in `localStorage` (src/RecensioniApp.jsx:29-48, 139-173): browser I/O.
- EmailJS initialisation and `emailjs.send`, with the pre-send guards and the `templateParams` of `handleSendEmail` (src/RecensioniApp.jsx:126-133, 375-425): a network call. `applyTemplate` itself is modelled.
- `handleImageUpload` (src/RecensioniApp.jsx:297-316): browser file I/O. Its one effect on the list is `aggiornaLibro(id, 'copertina', …)`, which is modelled.
- `showMessage` and its timer, and `handleLogin` with its password (src/RecensioniApp.jsx:175-187): UI feedback and a constant comparison. The administrator flag `isAdmin` is a parameter of the views.
- All rendering (src/RecensioniApp.jsx:435-973), except the conditions used by the select button and the month options.
- `toLocaleDateString('it-IT')`: a locale library call. Dates are integer triples. `Template` takes the formatting as a parameter `fmt`.
- Template.DateTexts: a record without dates gives six `''` texts. The model does not tell "no date fields" (a new book, or a month name outside `MESI`) apart from date fields set to `''` (after `clearReviewer`): the template sees `''` in both cases.
- Milestones.CalcolaDate: `anno` is any integer, with JavaScript's reading of 0..99 as 1900..1999. A non-integer or out-of-range `anno` (an Invalid Date, whose `getDay()` is `NaN`, so the walk never ends) is not modelled.
- App.RecensioniApp.ConfermaRecensione: the three `aggiornaLibro` calls are modelled as taking effect one after another, on the current `libri`. Under React's batching each computes its value from the same captured `libri`, so only the last survives. That as-written behaviour is modelled separately; see Findings.
- App.RecensioniApp.ConfermaRecensione: requires an open dialog (`selectedBook` set). The handler is only reachable from the dialog, and it reads `selectedBook.id`.
- The handlers' `setLibri` calls are plain assignments to the field. Re-rendering, and the `useEffect` that reloads `libri` from storage when `anno` changes (src/RecensioniApp.jsx:135-137), are not modelled.

## Findings

| source | as written | input that shows it | evidently intended | confidence | as-written member | corrected member |
|---|---|---|---|---|---|---|
| src/RecensioniApp.jsx:362-368 | `confermaRecensione` calls `aggiornaLibro` three times (month, name, e-mail). Each call maps over the `libri` captured by the render and passes the result to `setLibri` as a plain value, so the last call's value replaces the first two. | A free book with id 1 is confirmed with month "Gennaio", name "Anna Rossi" and e-mail "a@b.it". Afterwards the book has only the e-mail set. It is still free, and keeps its old month and dates. | The book is taken: month, name, split name, e-mail and the month's dates all written. | not executed (relies on React's documented batching of state updates) | Ledger.BatchedConfirmLeavesBookFree | Ledger.ConfirmAssignsBook |
