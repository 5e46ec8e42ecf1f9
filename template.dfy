/**
 * `applyTemplate`: substitution of the twelve `{{Token}}` placeholders of
 * the e-mail subject and body by fields of a book record.
 */
module Template {
  import opened Wrappers
  import opened Strings
  import opened Calendar
  import opened Milestones
  import opened Records

  /** `text.split(token).join(value)`: every occurrence of `token` replaced by `value`. */
  function ReplaceAll(text: string, token: string, value: string): string
    requires token != []
  {
    Join(Split(text, token), value)
  }

  /** A text without the token is left as it is. */
  lemma ReplaceAllWithoutToken(text: string, token: string, value: string)
    requires token != [] && !Contains(text, token)
    ensures ReplaceAll(text, token, value) == text
  {
    SplitWithoutSeparator(text, token);
  }

  /** Replacing a token by itself changes nothing. */
  lemma ReplaceAllByItself(text: string, token: string)
    requires token != []
    ensures ReplaceAll(text, token, token) == text
  {
    JoinSplit(text, token);
  }

  /** The six date texts in map order, all `''` when the record has no dates. */
  function DateTexts(dates: Option<MilestoneDates>, fmt: Date -> string): (ts: seq<string>)
    ensures |ts| == 6
  {
    match dates
    case None => ["", "", "", "", "", ""]
    case Some(d) =>
      [fmt(d.pubblicazione), fmt(d.invioInfo), fmt(d.invioRecensione),
       fmt(d.invioCommenti), fmt(d.invioRecensioneConCommenti), fmt(d.preparazionePubblicazione)]
  }

  /**
   * The placeholder map of the source, in its order; `fmt` stands for
   * `toLocaleDateString('it-IT')`, which produced the stored date text.
   */
  function Entries(b: Book, fmt: Date -> string): (es: seq<(string, string)>)
    ensures |es| == 12
    ensures TokensNonEmpty(es)
  {
    var ds := DateTexts(b.dates, fmt);
    [ ("{{Nome}}", b.nome),
      ("{{Cognome}}", b.cognome),
      ("{{NomeCompleto}}", b.nomeCognome),
      ("{{Titolo}}", b.titolo),
      ("{{Autore}}", b.autore),
      ("{{Mese}}", b.mese),
      ("{{DataPubblicazione}}", ds[0]),
      ("{{DataInvioInfo}}", ds[1]),
      ("{{DataInvioRecensione}}", ds[2]),
      ("{{DataInvioCommenti}}", ds[3]),
      ("{{DataInvioRecensioneConCommenti}}", ds[4]),
      ("{{DataPreparazionePubblicazione}}", ds[5]) ]
  }

  predicate TokensNonEmpty(es: seq<(string, string)>)
  {
    forall k :: 0 <= k < |es| ==> es[k].0 != []
  }

  /** The entries applied one after the other, each to the previous result. */
  function ApplyAll(text: string, es: seq<(string, string)>): string
    requires TokensNonEmpty(es)
    decreases |es|
  {
    if |es| == 0 then text
    else ApplyAll(ReplaceAll(text, es[0].0, es[0].1), es[1..])
  }

  lemma {:induction false} ApplyAllSnoc(text: string, es: seq<(string, string)>, e: (string, string))
    requires TokensNonEmpty(es) && e.0 != []
    ensures TokensNonEmpty(es + [e])
    ensures ApplyAll(text, es + [e]) == ReplaceAll(ApplyAll(text, es), e.0, e.1)
    decreases |es|
  {
    if |es| > 0 {
      assert (es + [e])[1..] == es[1..] + [e];
      ApplyAllSnoc(ReplaceAll(text, es[0].0, es[0].1), es[1..], e);
    }
  }

  /** A text containing none of the tokens comes out of every replacement unchanged. */
  lemma {:induction false} ApplyAllWithoutTokens(text: string, es: seq<(string, string)>)
    requires TokensNonEmpty(es)
    requires forall k :: 0 <= k < |es| ==> !Contains(text, es[k].0)
    ensures ApplyAll(text, es) == text
    decreases |es|
  {
    if |es| > 0 {
      ReplaceAllWithoutToken(text, es[0].0, es[0].1);
      ApplyAllWithoutTokens(text, es[1..]);
    }
  }

  /**
   * `applyTemplate(template, libro)`: an empty template gives `''`;
   * otherwise each placeholder of the map is replaced, in map order, in
   * the running result.
   */
  method ApplyTemplate(template: string, b: Book, fmt: Date -> string) returns (result: string)
    ensures template == [] ==> result == []
    ensures template != [] ==> result == ApplyAll(template, Entries(b, fmt))
  {
    if template == [] {
      return [];
    }
    var es := Entries(b, fmt);
    result := template;
    for i := 0 to |es|
      invariant result == ApplyAll(template, es[..i])
    {
      assert es[..i + 1] == es[..i] + [es[i]];
      ApplyAllSnoc(template, es[..i], es[i]);
      result := ReplaceAll(result, es[i].0, es[i].1);
    }
    assert es[..|es|] == es;
  }

  /** A template that mentions none of the twelve placeholders is sent as it is. */
  lemma TemplateWithoutPlaceholders(template: string, b: Book, fmt: Date -> string)
    requires forall k :: 0 <= k < 12 ==> !Contains(template, Entries(b, fmt)[k].0)
    ensures ApplyAll(template, Entries(b, fmt)) == template
  {
    ApplyAllWithoutTokens(template, Entries(b, fmt));
  }

  /**
   * Replacement is sequential, not simultaneous: a value put in for an
   * earlier placeholder is scanned again for the later ones, so a name
   * that reads `{{Titolo}}` turns into the title.
   */
  lemma EarlierValuesAreRescanned(fmt: Date -> string)
    ensures ApplyAll("{{Nome}}", Entries(Book(1, "X", "", "", "", "", "", "{{Titolo}}", "", "", "", None), fmt)) == "X"
  {
    var es := Entries(Book(1, "X", "", "", "", "", "", "{{Titolo}}", "", "", "", None), fmt);
    RescanFirstFour(es);
    ShortTextUnchanged("X", es[4..]);
  }

  /**
   * The value put in by the first entry is the token of the fourth, which
   * the two entries in between (longer tokens) leave alone.
   */
  lemma RescanFirstFour(es: seq<(string, string)>)
    requires |es| >= 4 && TokensNonEmpty(es)
    requires es[0] == ("{{Nome}}", "{{Titolo}}") && es[3] == ("{{Titolo}}", "X")
    requires |es[1].0| > 10 && |es[2].0| > 10
    ensures ApplyAll("{{Nome}}", es) == ApplyAll("X", es[4..])
  {
    ReplaceWhole("{{Nome}}", "{{Titolo}}");
    assert ApplyAll("{{Nome}}", es) == ApplyAll("{{Titolo}}", es[1..]);
    ReplaceShorter("{{Titolo}}", es[1].0, es[1].1);
    assert es[1..][1..] == es[2..];
    assert ApplyAll("{{Titolo}}", es[1..]) == ApplyAll("{{Titolo}}", es[2..]);
    ReplaceShorter("{{Titolo}}", es[2].0, es[2].1);
    assert es[2..][1..] == es[3..];
    assert ApplyAll("{{Titolo}}", es[2..]) == ApplyAll("{{Titolo}}", es[3..]);
    ReplaceWhole("{{Titolo}}", "X");
    assert es[3..][1..] == es[4..];
  }

  /** A text that is exactly the token becomes the value. */
  lemma ReplaceWhole(token: string, value: string)
    requires token != []
    ensures ReplaceAll(token, token, value) == value
  {
    assert token[|token|..] == [];
    assert Split([], token) == [[]];
    assert Split(token, token) == [[], []];
    assert Join([[], []], value) == [] + value + Join([[]], value);
  }

  /** A text shorter than the token is left as it is. */
  lemma ReplaceShorter(text: string, token: string, value: string)
    requires token != [] && |text| < |token|
    ensures ReplaceAll(text, token, value) == text
  {
    assert Split(text, token) == [text];
  }

  /** A text shorter than every token is left alone by every replacement. */
  lemma {:induction false} ShortTextUnchanged(text: string, es: seq<(string, string)>)
    requires TokensNonEmpty(es)
    requires forall k :: 0 <= k < |es| ==> |text| < |es[k].0|
    ensures ApplyAll(text, es) == text
    decreases |es|
  {
    if |es| > 0 {
      ReplaceShorter(text, es[0].0, es[0].1);
      ShortTextUnchanged(text, es[1..]);
    }
  }
}
