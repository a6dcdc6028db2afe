/** The transition table of the scanner, one lemma per case of the `switch`
    in `parseTranslations`, and how the whole scan follows one iteration. */
module LexerSteps {
  import opened Common
  import opened Lexer

  /** A separator is skipped by one position in every state that tests for it. */
  lemma StepSkip(text: TString, s: Lexer)
    requires s.pos < |text| && IsSeparator(text[s.pos])
    requires s.token.BeginDocument? || s.token.EndValue? || s.token.BeginStringId? || s.token.EndStringId? || s.token.EndLocale?
    ensures Step(text, s) == Advance(text, s, 1)
  {
  }

  /** A `;` between entries skips through the next line break, or to the end. */
  lemma StepComment(text: TString, s: Lexer, end: nat)
    requires s.pos < |text| && text[s.pos] == ';' && (s.token.BeginDocument? || s.token.EndValue?)
    requires end == Find(text, '\n', s.pos)
    ensures Step(text, s) == Advance(text, s, if end == |text| then |text| - s.pos else end - s.pos + 1)
  {
    var incr := if end == |text| then |text| - s.pos else end - s.pos + 1;
    assert GapStep(text, s) == Advance(text, s, incr);
    assert Step(text, s) == GapStep(text, s);
  }

  /** Any other character between entries must start a locale name of an allowed length. */
  lemma StepEntryStart(text: TString, s: Lexer, end: nat)
    requires s.pos < |text| && !IsSeparator(text[s.pos]) && text[s.pos] != ';'
    requires s.token.BeginDocument? || s.token.EndValue?
    requires end == LocaleRunEnd(text, s.pos)
    ensures IsLocaleLength(end - s.pos) ==> Step(text, s) == Next(s.(token := BeginLocale))
    ensures !IsLocaleLength(end - s.pos) ==> Step(text, s) == Halt(LexicalError(text[..s.pos + 1]))
  {
    if IsLocaleLength(end - s.pos) {
      assert GapStep(text, s) == Next(s.(token := BeginLocale));
    } else {
      assert GapStep(text, s) == Halt(LexicalError(text[..s.pos + 1]));
    }
    assert Step(text, s) == GapStep(text, s);
  }

  /** A string id running to the end of the text is the `at(len)` exception. */
  lemma StepStringIdAtEnd(text: TString, s: Lexer)
    requires s.pos < |text| && !IsSeparator(text[s.pos]) && s.token.BeginStringId?
    requires StringIdRunEnd(text, s.pos) == |text|
    ensures Step(text, s) == Halt(OutOfRange)
  {
    assert IdEndStep(text, s, |text|) == Halt(OutOfRange);
    assert IdStep(text, s) == IdEndStep(text, s, |text|);
    assert Step(text, s) == IdStep(text, s);
  }

  /** A string id must be followed by a separator or `=`. */
  lemma StepStringIdBadEnd(text: TString, s: Lexer, end: nat)
    requires s.pos < |text| && !IsSeparator(text[s.pos]) && s.token.BeginStringId?
    requires end == StringIdRunEnd(text, s.pos) && end < |text| && !IsSeparator(text[end]) && text[end] != '='
    ensures Step(text, s) == Halt(LexicalError(text[..end + 1]))
  {
    assert IdEndStep(text, s, end) == Halt(LexicalError(text[..end + 1]));
    assert IdStep(text, s) == IdEndStep(text, s, end);
    assert Step(text, s) == IdStep(text, s);
  }

  /** A well-terminated string id is recorded and noted in the map. */
  lemma StepStringId(text: TString, s: Lexer, end: nat)
    requires s.pos < |text| && !IsSeparator(text[s.pos]) && s.token.BeginStringId?
    requires end == StringIdRunEnd(text, s.pos) && end < |text| && (IsSeparator(text[end]) || text[end] == '=')
    ensures Step(text, s) == Advance(text, s.(token := EndStringId, stringId := text[s.pos..end], tm := NoteStringId(s.tm, text[s.pos..end])), end - s.pos)
  {
    var id := text[s.pos..end];
    var s' := s.(token := EndStringId, stringId := id, tm := NoteStringId(s.tm, id));
    assert IdEndStep(text, s, end) == Advance(text, s', end - s.pos);
    assert IdStep(text, s) == IdEndStep(text, s, end);
    assert Step(text, s) == IdStep(text, s);
  }

  /** After a string id only `=` may come, after a locale only `.`. */
  lemma StepExpect(text: TString, s: Lexer, c: TChar, next: Token)
    requires s.pos < |text| && !IsSeparator(text[s.pos])
    requires (s.token == EndStringId && c == '=' && next == BeginValue) || (s.token == EndLocale && c == '.' && next == BeginStringId)
    ensures text[s.pos] == c ==> Step(text, s) == Advance(text, s.(token := next), 1)
    ensures text[s.pos] != c ==> Step(text, s) == Halt(LexicalError(text[..s.pos + 1]))
  {
    if text[s.pos] == c {
      assert ExpectStep(text, s, c, next) == Advance(text, s.(token := next), 1);
    } else {
      assert ExpectStep(text, s, c, next) == Halt(LexicalError(text[..s.pos + 1]));
    }
    assert Step(text, s) == ExpectStep(text, s, c, next);
  }

  /** A locale name is read whole; one reaching the end of the text is an error. */
  lemma StepBeginLocale(text: TString, s: Lexer, end: nat)
    requires s.pos < |text| && s.token.BeginLocale? && end == LocaleRunEnd(text, s.pos)
    ensures end == |text| ==> Step(text, s) == Halt(LexicalError(text[..end]))
    ensures end < |text| ==> Step(text, s) == Advance(text, s.(token := EndLocale, currentLocale := text[s.pos..end]), end - s.pos)
  {
    if end == |text| {
      assert LocaleStep(text, s) == Halt(LexicalError(text[..end]));
    } else {
      var s' := s.(token := EndLocale, currentLocale := text[s.pos..end]);
      assert LocaleStep(text, s) == Advance(text, s', end - s.pos);
    }
    assert Step(text, s) == LocaleStep(text, s);
  }

  /** A value runs to the line break and is stored under the current id and locale. */
  lemma StepBeginValue(text: TString, s: Lexer, end: nat)
    requires s.pos < |text| && s.token.BeginValue? && end == Find(text, '\n', s.pos)
    ensures Step(text, s) == Advance(text, s.(token := EndValue, tm := StoreValue(s.tm, s.stringId, s.currentLocale, LineValue(text, s.pos, end))), end - s.pos)
  {
    StepIsValueStep(text, s);
    ValueStepTo(text, s, end);
  }

  lemma StepIsValueStep(text: TString, s: Lexer)
    requires s.pos < |text| && s.token.BeginValue?
    ensures Step(text, s) == ValueStep(text, s)
  {
  }

  lemma ValueStepTo(text: TString, s: Lexer, end: nat)
    requires s.pos < |text| && s.token.BeginValue? && end == Find(text, '\n', s.pos)
    ensures ValueStep(text, s) == Advance(text, s.(token := EndValue, tm := StoreValue(s.tm, s.stringId, s.currentLocale, LineValue(text, s.pos, end))), end - s.pos)
  {
  }

  /** The end state only moves on; the loop never sees it before the end. */
  lemma StepEndDocument(text: TString, s: Lexer)
    requires s.pos < |text| && s.token.EndDocument?
    ensures Step(text, s) == Advance(text, s, 1)
  {
  }

  /** One iteration that continues: the rest of the scan is the scan from the next state. */
  lemma RunNext(text: TString, s: Lexer, s': Lexer)
    requires s.pos < |text| && Step(text, s) == Next(s')
    ensures Run(text, s) == Run(text, s')
  {
  }

  /** One iteration that stops: the scan ends there with the map as it is. */
  lemma RunHalt(text: TString, s: Lexer, st: Status)
    requires s.pos < |text| && Step(text, s) == Halt(st)
    ensures Run(text, s) == ParseResult(s.tm, st)
  {
  }
}
