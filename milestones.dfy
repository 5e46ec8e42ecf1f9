/**
 * `calcolaDate`: from one of the twelve Italian month names and the
 * selected year, the six workflow dates of a review.
 */
module Milestones {
  import opened Wrappers
  import opened Strings
  import opened Calendar

  /** `MESI`, in calendar order. */
  const Mesi: seq<string> := [
    "Gennaio", "Febbraio", "Marzo", "Aprile", "Maggio", "Giugno",
    "Luglio", "Agosto", "Settembre", "Ottobre", "Novembre", "Dicembre"
  ]

  /** The six dates `calcolaDate` returns for a known month. */
  datatype MilestoneDates = MilestoneDates(
    pubblicazione: Date,               // dataPubblicazione: last Sunday
    invioInfo: Date,                   // dataInvioInfo: first Monday
    invioRecensione: Date,             // dataInvioRecensione: last Wednesday
    invioCommenti: Date,               // dataInvioCommenti: last Thursday
    invioRecensioneConCommenti: Date,  // dataInvioRecensioneConCommenti: last Friday
    preparazionePubblicazione: Date    // dataPreparazionePubblicazione: last Saturday
  )

  /** The year `new Date(anno, ...)` works in: years 0..99 are read as 1900..1999. */
  function JsYear(anno: int): int
  {
    if 0 <= anno <= 99 then 1900 + anno else anno
  }

  /**
   * The day number of the last `target` weekday of the month, in closed
   * form: step back from the last day by the weekday distance.
   */
  function LastWeekdayDay(y: int, m: int, target: int): int
    requires 1 <= m <= 12 && 0 <= target < 7
  {
    var last := DaysInMonth(y, m);
    last - (Weekday(y, m, last) - target) % 7
  }

  /** The day number of the first `target` weekday of the month, in closed form. */
  function FirstWeekdayDay(y: int, m: int, target: int): int
    requires 1 <= m <= 12 && 0 <= target < 7
  {
    1 + (target - Weekday(y, m, 1)) % 7
  }

  /** The closed form is the last day of the month with that weekday, at most six days from the end. */
  lemma LastWeekdayIsLast(y: int, m: int, target: int)
    requires 1 <= m <= 12 && 0 <= target < 7
    ensures var d := LastWeekdayDay(y, m, target);
      && DaysInMonth(y, m) - 6 <= d <= DaysInMonth(y, m)
      && Weekday(y, m, d) == target
      && forall k :: d < k <= DaysInMonth(y, m) ==> Weekday(y, m, k) != target
  {
    var last := DaysInMonth(y, m);
    var w := Weekday(y, m, last);
    var gap := (w - target) % 7;
    var d := last - gap;
    WeekdayShift(y, m, d, gap);
    BackGap(Weekday(y, m, d), gap, w, target);
    forall k | d < k <= last ensures Weekday(y, m, k) != target {
      WeekdayAhead(y, m, d, k, target);
    }
  }

  /** The closed form is the first day of the month with that weekday, within the first seven days. */
  lemma FirstWeekdayIsFirst(y: int, m: int, target: int)
    requires 1 <= m <= 12 && 0 <= target < 7
    ensures var d := FirstWeekdayDay(y, m, target);
      && 1 <= d <= 7
      && Weekday(y, m, d) == target
      && forall k :: 1 <= k < d ==> Weekday(y, m, k) != target
  {
    var w := Weekday(y, m, 1);
    var gap := (target - w) % 7;
    WeekdayShift(y, m, 1, gap);
    ForwardGap(w, target, gap);
    forall k | 1 <= k < 1 + gap ensures Weekday(y, m, k) != target {
      WeekdayShift(y, m, 1, k - 1);
      ForwardGap(w, target, k - 1);
    }
  }

  /** Within one week after a day with weekday `t`, no other day has weekday `t`. */
  lemma WeekdayAhead(y: int, m: int, d: int, k: int, t: int)
    requires 1 <= m <= 12 && 0 <= t < 7 && Weekday(y, m, d) == t
    requires d < k <= d + 6
    ensures Weekday(y, m, k) != t
  {
    WeekdayShift(y, m, d, k - d);
    NoReturnWithinWeek(t, k - d);
  }

  lemma NoReturnWithinWeek(t: int, j: int)
    requires 0 <= t < 7 && 1 <= j <= 6
    ensures (t + j) % 7 != t
  {
  }

  /** Stepping back `(w - t) % 7` days from weekday `w` reaches weekday `t`. */
  lemma BackGap(wd: int, g: int, w: int, t: int)
    requires 0 <= wd < 7 && 0 <= w < 7 && 0 <= t < 7
    requires g == (w - t) % 7 && w == (wd + g) % 7
    ensures wd == t
  {
  }

  /** Stepping forward `j` days from weekday `w` reaches `t` at `j == (t - w) % 7` and not before. */
  lemma ForwardGap(w: int, t: int, j: int)
    requires 0 <= w < 7 && 0 <= t < 7 && 0 <= j <= (t - w) % 7
    ensures (w + j) % 7 == t <==> j == (t - w) % 7
  {
  }

  /**
   * `ultimoGiorno(anno, mese, giorno)` (and `ultimaDomenica`, which is the
   * same walk with Sunday as target): start on the month's last day and
   * step back one day while the weekday is not the target.
   */
  method LastWeekday(y: int, m: int, target: int) returns (d: Date, ghost steps: nat)
    requires 1 <= m <= 12 && 0 <= target < 7
    ensures d == Date(y, m, LastWeekdayDay(y, m, target))
    ensures steps <= 6 && d.day == DaysInMonth(y, m) - steps
  {
    LastWeekdayIsLast(y, m, target);
    var day := DaysInMonth(y, m);
    steps := 0;
    while Weekday(y, m, day) != target
      invariant LastWeekdayDay(y, m, target) <= day <= DaysInMonth(y, m)
      invariant day == DaysInMonth(y, m) - steps
      decreases day
    {
      day := day - 1;
      steps := steps + 1;
    }
    d := Date(y, m, day);
  }

  /** `primoLunedi` with its weekday as a parameter: step forward from the 1st. */
  method FirstWeekday(y: int, m: int, target: int) returns (d: Date, ghost steps: nat)
    requires 1 <= m <= 12 && 0 <= target < 7
    ensures d == Date(y, m, FirstWeekdayDay(y, m, target))
    ensures steps <= 6 && d.day == 1 + steps
  {
    FirstWeekdayIsFirst(y, m, target);
    var day := 1;
    steps := 0;
    while Weekday(y, m, day) != target
      invariant 1 <= day <= FirstWeekdayDay(y, m, target)
      invariant day == 1 + steps
      decreases FirstWeekdayDay(y, m, target) - day
    {
      day := day + 1;
      steps := steps + 1;
    }
    d := Date(y, m, day);
  }

  /**
   * What `calcolaDate(mese)` returns with the component's `anno`: no dates
   * for a name outside `MESI`, otherwise the six walks' results.
   */
  function DeriveDates(anno: int, mese: string): Option<MilestoneDates>
  {
    match IndexOf(Mesi, mese)
    case None => None
    case Some(i) =>
      IndexOfFinds(Mesi, mese);
      var y, m := JsYear(anno), i + 1;
      Some(MilestoneDates(
        Date(y, m, LastWeekdayDay(y, m, Sunday)),
        Date(y, m, FirstWeekdayDay(y, m, Monday)),
        Date(y, m, LastWeekdayDay(y, m, 3)),
        Date(y, m, LastWeekdayDay(y, m, 4)),
        Date(y, m, LastWeekdayDay(y, m, 5)),
        Date(y, m, LastWeekdayDay(y, m, 6))))
  }

  /** `calcolaDate`, running the same walks as the source. */
  method CalcolaDate(anno: int, mese: string) returns (r: Option<MilestoneDates>)
    ensures r == DeriveDates(anno, mese)
  {
    var meseIndex := IndexOf(Mesi, mese);
    IndexOfFinds(Mesi, mese);
    if meseIndex.None? {
      return None;
    }
    var y, m := JsYear(anno), meseIndex.value + 1;
    var pubblicazione, _ := LastWeekday(y, m, Sunday);
    var invioInfo, _ := FirstWeekday(y, m, Monday);
    var invioRecensione, _ := LastWeekday(y, m, 3);
    var invioCommenti, _ := LastWeekday(y, m, 4);
    var conCommenti, _ := LastWeekday(y, m, 5);
    var preparazione, _ := LastWeekday(y, m, 6);
    r := Some(MilestoneDates(pubblicazione, invioInfo, invioRecensione, invioCommenti, conCommenti, preparazione));
  }

  /** No dates at all exactly for names outside the twelve, the empty name included. */
  lemma UnknownMonthHasNoDates(anno: int, mese: string)
    ensures DeriveDates(anno, mese).None? <==> mese !in Mesi
    ensures DeriveDates(anno, "").None?
  {
    IndexOfFinds(Mesi, mese);
    IndexOfFinds(Mesi, "");
    MonthNamesNonEmpty();
  }

  lemma MonthNamesNonEmpty()
    ensures forall k :: 0 <= k < |Mesi| ==> |Mesi[k]| >= 5
  {
  }

  /**
   * For a known month every date lies in that month of the (JavaScript)
   * year; publication is its last Sunday and information dispatch its
   * first Monday, within days 1..7.
   */
  lemma PublicationAndInfoDates(anno: int, mese: string)
    requires mese in Mesi
    ensures var r := DeriveDates(anno, mese);
      var y := JsYear(anno);
      && r.Some?
      && var p := r.value.pubblicazione;
      && var info := r.value.invioInfo;
      && 1 <= p.month <= 12 && Mesi[p.month - 1] == mese && p.year == y
      && IsValid(p) && WeekdayOf(p) == Sunday
      && (forall k :: p.day < k <= DaysInMonth(y, p.month) ==> Weekday(y, p.month, k) != Sunday)
      && info.year == y && info.month == p.month && 1 <= info.day <= 7
      && WeekdayOf(info) == Monday
      && (forall k :: 1 <= k < info.day ==> Weekday(y, p.month, k) != Monday)
  {
    IndexOfFinds(Mesi, mese);
    var i := IndexOf(Mesi, mese).value;
    LastWeekdayIsLast(JsYear(anno), i + 1, Sunday);
    FirstWeekdayIsFirst(JsYear(anno), i + 1, Monday);
  }

  /**
   * The four deadlines are the last Wednesday, Thursday, Friday and
   * Saturday of the month (weekdays 3..6), and each is the publication
   * date plus its weekday number when that day is still in the month,
   * else the same day one week earlier.
   */
  lemma DeadlinesAreLastWeekdays(anno: int, mese: string)
    requires mese in Mesi
    ensures var r := DeriveDates(anno, mese);
      && r.Some?
      && var y, m, p := JsYear(anno), r.value.pubblicazione.month, r.value.pubblicazione.day;
      && 1 <= m <= 12
      && DeadlineFacts(y, m, p, r.value.invioRecensione, 3)
      && DeadlineFacts(y, m, p, r.value.invioCommenti, 4)
      && DeadlineFacts(y, m, p, r.value.invioRecensioneConCommenti, 5)
      && DeadlineFacts(y, m, p, r.value.preparazionePubblicazione, 6)
  {
    IndexOfFinds(Mesi, mese);
    var i := IndexOf(Mesi, mese).value;
    var y, m := JsYear(anno), i + 1;
    LastWeekdayFacts(y, m, 3);
    LastWeekdayFacts(y, m, 4);
    LastWeekdayFacts(y, m, 5);
    LastWeekdayFacts(y, m, 6);
  }

  lemma LastWeekdayFacts(y: int, m: int, t: int)
    requires 1 <= m <= 12 && 0 <= t < 7
    ensures DeadlineFacts(y, m, LastWeekdayDay(y, m, Sunday), Date(y, m, LastWeekdayDay(y, m, t)), t)
  {
    LastWeekdayIsLast(y, m, t);
    LastWeekdayFromSunday(y, m, t);
  }

  /** `d` is the last `t`-day of month `m`, placed relative to the last Sunday `p`. */
  predicate DeadlineFacts(y: int, m: int, p: int, d: Date, t: int)
    requires 1 <= m <= 12
  {
    && d.year == y && d.month == m
    && IsValid(d) && WeekdayOf(d) == t
    && (forall k :: d.day < k <= DaysInMonth(y, m) ==> Weekday(y, m, k) != t)
    && d.day == if p + t <= DaysInMonth(y, m) then p + t else p + t - 7
  }

  /** Relates the last `t`-day of a month to its last Sunday `p`. */
  lemma LastWeekdayFromSunday(y: int, m: int, t: int)
    requires 1 <= m <= 12 && 0 <= t < 7
    ensures var p := LastWeekdayDay(y, m, Sunday);
      LastWeekdayDay(y, m, t) == if p + t <= DaysInMonth(y, m) then p + t else p + t - 7
  {
    BackwardDistance(Weekday(y, m, DaysInMonth(y, m)), t);
    BackwardDistance(Weekday(y, m, DaysInMonth(y, m)), Sunday);
  }

  /** The distance back from weekday `w` to weekday `t`. */
  lemma BackwardDistance(w: int, t: int)
    requires 0 <= w < 7 && 0 <= t < 7
    ensures (w - t) % 7 == if t <= w then w - t else w - t + 7
  {
  }

  /** January 2026: publication 25/1, information 5/1, then 28/1, 29/1, 30/1 and 31/1. */
  lemma January2026()
    ensures DeriveDates(2026, "Gennaio") == Some(MilestoneDates(
      Date(2026, 1, 25), Date(2026, 1, 5), Date(2026, 1, 28),
      Date(2026, 1, 29), Date(2026, 1, 30), Date(2026, 1, 31)))
  {
    assert IndexOf(Mesi, "Gennaio") == Some(0);
    assert YearShift(2025) == 2516;
    assert Weekday(2026, 1, 31) == 6;
    assert Weekday(2026, 1, 1) == 4;
    assert LastWeekdayDay(2026, 1, Sunday) == 25;
    assert FirstWeekdayDay(2026, 1, Monday) == 5;
  }
}
