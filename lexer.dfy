/** The translation-source lexer of `ISLParser::parseTranslations` as a pure
    state machine: the character classes, the eight token states, one step of
    the loop (`Step`) and the whole scan (`Run`, `Parse`).  The imperative
    parser in module IslParser is proved to compute exactly `Parse`. */
module Lexer {
  import opened Common

  // ---------------------------------------------------------------------------
  // Character classes (ASCII `isalpha` / `isalnum`)

  predicate IsSeparator(c: char)
  {
    c == ' ' || c == '\t' || c == '\r' || c == '\n'
  }

  predicate IsAlpha(c: char)
  {
    ('a' <= c <= 'z') || ('A' <= c <= 'Z')
  }

  predicate IsAlnum(c: char)
  {
    IsAlpha(c) || ('0' <= c <= '9')
  }

  predicate IsStringIdChar(c: char)
  {
    IsAlnum(c) || IsAlpha(c) || c == '_'
  }

  predicate IsLocaleChar(c: char)
  {
    IsAlpha(c) || c == '_'
  }

  /** The lengths a locale run may have: below 12 and not 0, 1, 4 or 9, which
      leaves exactly the lengths listed below for a run that exists. */
  predicate IsLocaleLength(n: int)
    ensures IsLocaleLength(n) && 0 <= n <==> n in {2, 3, 5, 6, 7, 8, 10, 11}
  {
    n < 12 && n != 0 && n != 1 && n != 4 && n != 9
  }

  /** A name the parser can store as a locale. */
  predicate IsLocaleName(s: TString)
  {
    IsLocaleLength(|s|) && forall i :: 0 <= i < |s| ==> IsLocaleChar(s[i])
  }

  /** A name the parser can store as a string id. */
  predicate IsStringId(s: TString)
  {
    |s| > 0 && forall i :: 0 <= i < |s| ==> IsStringIdChar(s[i])
  }

  // ---------------------------------------------------------------------------
  // Searches.  "Not found" (`npos`) is represented by `|s|`.

  /** `find_first_of(c, from)`: the first index at or after `from` holding `c`. */
  function Find(s: TString, c: char, from: nat): (r: nat)
    ensures r <= |s|
    ensures r < |s| ==> from <= r && s[r] == c
    ensures forall k :: from <= k < r ==> s[k] != c
    decreases |s| - from
  {
    if from >= |s| then |s|
    else if s[from] == c then from
    else Find(s, c, from + 1)
  }

  /** End of the maximal run of locale characters starting at `from`. */
  function LocaleRunEnd(s: TString, from: nat): (r: nat)
    requires from <= |s|
    ensures from <= r <= |s|
    ensures forall k :: from <= k < r ==> IsLocaleChar(s[k])
    ensures r < |s| ==> !IsLocaleChar(s[r])
    decreases |s| - from
  {
    if from < |s| && IsLocaleChar(s[from]) then LocaleRunEnd(s, from + 1) else from
  }

  /** End of the maximal run of string-id characters starting at `from`. */
  function StringIdRunEnd(s: TString, from: nat): (r: nat)
    requires from <= |s|
    ensures from <= r <= |s|
    ensures forall k :: from <= k < r ==> IsStringIdChar(s[k])
    ensures r < |s| ==> !IsStringIdChar(s[r])
    decreases |s| - from
  {
    if from < |s| && IsStringIdChar(s[from]) then StringIdRunEnd(s, from + 1) else from
  }

  // ---------------------------------------------------------------------------
  // Values: trailing CR, and the two-character escape backslash-n

  /** A backslash followed by `n` starts at index `i`. */
  predicate EscapeAt(s: TString, i: int)
  {
    0 <= i && i + 1 < |s| && s[i] == '\\' && s[i + 1] == 'n'
  }

  predicate NoEscapePair(s: TString)
  {
    forall i :: 0 <= i < |s| ==> !EscapeAt(s, i)
  }

  predicate NoNewline(s: TString)
  {
    forall i :: 0 <= i < |s| ==> s[i] != '\n'
  }

  /** Removes one trailing carriage return: the result is the value itself,
      or the value less its last character when that is a carriage return. */
  function StripCR(s: TString): (r: TString)
    ensures |r| <= |s| && r == s[..|r|]
    ensures |r| == |s| || (|r| == |s| - 1 && s[|s| - 1] == '\r')
    ensures |r| < |s| <==> |s| > 0 && s[|s| - 1] == '\r'
  {
    if |s| > 0 && s[|s| - 1] == '\r' then s[..|s| - 1] else s
  }

  /** Replaces, left to right and without overlap, every backslash-n pair by a
      newline: each character of the result stands for one or two of the text. */
  function Unescape(s: TString): (r: TString)
    ensures |r| <= |s| <= 2 * |r|
    decreases |s|
  {
    if |s| >= 2 && s[0] == '\\' && s[1] == 'n' then ['\n'] + Unescape(s[2..])
    else if s == [] then []
    else [s[0]] + Unescape(s[1..])
  }

  /** Replaces every newline by the two characters backslash-n: the result
      holds no newline. */
  function Escape(v: TString): (r: TString)
    ensures NoNewline(r)
    decreases |v|
  {
    if v == [] then []
    else if v[0] == '\n' then ['\\', 'n'] + Escape(v[1..])
    else [v[0]] + Escape(v[1..])
  }

  // ---------------------------------------------------------------------------
  // The state machine

  /** `ISLParser::TokenType`. */
  datatype Token =
    | BeginDocument
    | EndDocument
    | BeginStringId
    | EndStringId
    | BeginLocale
    | EndLocale
    | BeginValue
    | EndValue

  /** The enumerator values of `TokenType`, in declaration order from 0. */
  function Ordinal(t: Token): (n: nat)
    ensures n < 8
    ensures n == 0 <==> t == BeginDocument
  {
    match t
    case BeginDocument => 0
    case EndDocument => 1
    case BeginStringId => 2
    case EndStringId => 3
    case BeginLocale => 4
    case EndLocale => 5
    case BeginValue => 6
    case EndValue => 7
  }

  /** The states in which the next token must be a comment, a locale or the end. */
  predicate Awaiting(t: Token)
  {
    t == BeginDocument || t == EndValue
  }

  /** Orders the states so that every step that does not advance lowers the rank. */
  function Rank(t: Token): nat
  {
    match t
    case BeginValue => 3
    case BeginDocument => 2
    case EndValue => 2
    case BeginLocale => 1
    case BeginStringId => 1
    case _ => 0
  }

  /** What every map the parser fills satisfies: ids are non-empty runs of
      string-id characters, locales obey the locale-length rule, and no stored
      value contains a backslash-n pair. */
  ghost predicate WellFormedMap(tm: TranslationsMap)
  {
    forall id :: id in tm ==>
      && IsStringId(id)
      && forall loc :: loc in tm[id] ==> IsLocaleName(loc) && NoEscapePair(tm[id][loc])
  }

  /** The local variables of the scanning loop, and the map it fills. */
  datatype Lexer = Lexer(token: Token, pos: nat, stringId: TString, currentLocale: TString, tm: TranslationsMap)

  /** How a scan ends: the loop ran out (valid iff it ended in `EndDocument`),
      a lexical error with the diagnostic prefix, or the `std::out_of_range`
      thrown by `translations.at(len)` when a string id runs to the end. */
  datatype Status = Finished(valid: bool) | LexicalError(errorSubstr: TString) | OutOfRange

  datatype ParseResult = ParseResult(tm: TranslationsMap, status: Status)

  datatype StepOutcome = Next(next: Lexer) | Halt(status: Status)

  /** The map after reading a string id: a non-empty id gets an empty entry if absent. */
  function NoteStringId(tm: TranslationsMap, id: TString): (r: TranslationsMap)
    ensures id != [] ==> id in r && (id in tm ==> r[id] == tm[id]) && (id !in tm ==> r[id] == map[])
    ensures forall k :: k in tm && k != id ==> k in r && r[k] == tm[k]
    ensures forall k :: k in r ==> k in tm || (k == id && id != [])
  {
    if id != [] && id !in tm then tm[id := map[]] else tm
  }

  /** The map after a value: stored under (id, locale) only if the locale is
      non-empty and the id has an entry; the other locales of that entry stay. */
  function StoreValue(tm: TranslationsMap, id: TString, locale: TString, val: TString): (r: TranslationsMap)
    ensures r.Keys == tm.Keys
    ensures locale != [] && id in tm ==> r[id] == tm[id][locale := val]
    ensures forall k :: k in tm && (k != id || locale == []) ==> r[k] == tm[k]
  {
    if locale != [] && id in tm then tm[id := tm[id][locale := val]] else tm
  }

  /** The value stored for the line starting at `pos` and ending before `end`. */
  function LineValue(text: TString, pos: nat, end: nat): TString
    requires pos <= end <= |text|
  {
    Unescape(StripCR(text[pos..end]))
  }

  /** `pos += incr`, then `if (pos == len) token = TOKEN_END_DOCUMENT`. */
  function Advance(text: TString, s: Lexer, incr: nat): (o: StepOutcome)
    requires s.pos + incr <= |text|
    ensures o.Next? && o.next.pos == s.pos + incr
    ensures o.next.pos == |text| ==> o.next.token == EndDocument
    ensures o.next.pos < |text| ==> o.next.token == s.token
    ensures o.next.tm == s.tm
  {
    var p := s.pos + incr;
    Next(s.(pos := p, token := if p == |text| then EndDocument else s.token))
  }

  /** What every iteration does: it moves forward, or stays and lowers the
      rank; it reaches the end only in `EndDocument`; and
      leaving early is an error whose diagnostic is a prefix of the text. */
  ghost predicate Moves(text: TString, s: Lexer, o: StepOutcome)
  {
    match o
    case Next(n) =>
      && s.pos <= n.pos <= |text|
      && (n.pos == s.pos ==> Rank(n.token) < Rank(s.token))
      && (n.pos == |text| ==> n.token == EndDocument)
    case Halt(st) =>
      && !st.Finished?
      && (st.LexicalError? ==> 0 < |st.errorSubstr| <= |text| && st.errorSubstr == text[..|st.errorSubstr|])
  }

  /** `TOKEN_BEGIN_DOCUMENT` and `TOKEN_END_VALUE`: skip a separator, skip a
      `;` comment through its line break, or hand a locale name of an allowed
      length to `TOKEN_BEGIN_LOCALE` at the same position (the `continue`). */
  function GapStep(text: TString, s: Lexer): (o: StepOutcome)
    requires s.pos < |text| && Awaiting(s.token)
    ensures Moves(text, s, o)
  {
    if IsSeparator(text[s.pos]) then Advance(text, s, 1)
    else if text[s.pos] == ';' then
      Advance(text, s, if Find(text, '\n', s.pos) == |text| then |text| - s.pos else Find(text, '\n', s.pos) - s.pos + 1)
    else if IsLocaleLength(LocaleRunEnd(text, s.pos) - s.pos) then
      Next(s.(token := BeginLocale))
    else
      Halt(LexicalError(text[..s.pos + 1]))
  }

  /** `TOKEN_BEGIN_STRINGID`: skip a separator, or read the string id up to `IdEndStep`. */
  function IdStep(text: TString, s: Lexer): (o: StepOutcome)
    requires s.pos < |text| && s.token == BeginStringId
    ensures Moves(text, s, o)
  {
    if IsSeparator(text[s.pos]) then Advance(text, s, 1)
    else IdEndStep(text, s, StringIdRunEnd(text, s.pos))
  }

  /** The string id `text[pos..end]`: running to the end of the text is the
      `at(len)` exception; it must be followed by a separator or `=`; a new
      non-empty id gets an empty entry. */
  function IdEndStep(text: TString, s: Lexer, end: nat): (o: StepOutcome)
    requires s.pos < |text| && s.token == BeginStringId && s.pos <= end <= |text|
    ensures Moves(text, s, o)
  {
    if end == |text| then Halt(OutOfRange)
    else if !IsSeparator(text[end]) && text[end] != '=' then Halt(LexicalError(text[..end + 1]))
    else Advance(text, s.(token := EndStringId, stringId := text[s.pos..end], tm := NoteStringId(s.tm, text[s.pos..end])), end - s.pos)
  }

  /** `TOKEN_END_STRINGID` (expecting `=`) and `TOKEN_END_LOCALE` (expecting
      `.`): skip a separator, move to `next` on the expected character, and
      report any other character. */
  function ExpectStep(text: TString, s: Lexer, c: TChar, next: Token): (o: StepOutcome)
    requires s.pos < |text|
    requires s.token == EndStringId || s.token == EndLocale
    ensures Moves(text, s, o)
  {
    if IsSeparator(text[s.pos]) then Advance(text, s, 1)
    else if text[s.pos] == c then Advance(text, s.(token := next), 1)
    else Halt(LexicalError(text[..s.pos + 1]))
  }

  /** `TOKEN_BEGIN_LOCALE`: the locale name is read whole; one that runs to the
      end of the text is reported with the whole text. */
  function LocaleStep(text: TString, s: Lexer): (o: StepOutcome)
    requires s.pos < |text| && s.token == BeginLocale
    ensures Moves(text, s, o)
  {
    if LocaleRunEnd(text, s.pos) == |text| then Halt(LexicalError(text[..LocaleRunEnd(text, s.pos)]))
    else Advance(text, s.(token := EndLocale, currentLocale := text[s.pos..LocaleRunEnd(text, s.pos)]), LocaleRunEnd(text, s.pos) - s.pos)
  }

  /** `TOKEN_BEGIN_VALUE`: the rest of the line is the value, stored when the
      locale and the id are known. */
  function ValueStep(text: TString, s: Lexer): (o: StepOutcome)
    requires s.pos < |text| && s.token == BeginValue
    ensures Moves(text, s, o)
  {
    Advance(text, s.(token := EndValue, tm := StoreValue(s.tm, s.stringId, s.currentLocale, LineValue(text, s.pos, Find(text, '\n', s.pos)))),
            Find(text, '\n', s.pos) - s.pos)
  }

  /** One iteration of the `while (pos < len)` loop: the `switch (token)`. */
  function Step(text: TString, s: Lexer): (o: StepOutcome)
    requires s.pos < |text|
    ensures Moves(text, s, o)
  {
    match s.token
    case BeginDocument | EndValue => GapStep(text, s)
    case BeginStringId => IdStep(text, s)
    case EndStringId => ExpectStep(text, s, '=', BeginValue)
    case BeginLocale => LocaleStep(text, s)
    case EndLocale => ExpectStep(text, s, '.', BeginStringId)
    case BeginValue => ValueStep(text, s)
    case EndDocument => Advance(text, s, 1)
  }

  /** The scanning loop from state `s` to its end. */
  function Run(text: TString, s: Lexer): (r: ParseResult)
    requires s.pos <= |text|
    ensures s.pos < |text| ==> r.status != Finished(false)
    ensures r.status.LexicalError? ==>
              var e := r.status.errorSubstr; 0 < |e| <= |text| && e == text[..|e|]
    decreases |text| - s.pos, Rank(s.token)
  {
    if s.pos == |text| then ParseResult(s.tm, Finished(s.token == EndDocument))
    else
      match Step(text, s)
      case Next(s') => Run(text, s')
      case Halt(st) => ParseResult(s.tm, st)
  }

  /** The initial state of `parseTranslations`. */
  function Start(tm: TranslationsMap): Lexer
  {
    Lexer(BeginDocument, 0, [], [], tm)
  }

  /** `parseTranslations` on `text`, adding to the map `tm` it finds in the parser. */
  function Parse(text: TString, tm: TranslationsMap): (r: ParseResult)
    ensures r.status == Finished(true) <==> |text| > 0 && r.status.Finished?
    ensures r.status.LexicalError? ==>
              var e := r.status.errorSubstr; 0 < |e| <= |text| && e == text[..|e|]
  {
    Run(text, Start(tm))
  }
}
