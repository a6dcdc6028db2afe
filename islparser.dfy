/** The stateful parser class `ISLParser`: its four fields and the scanning
    loop `parseTranslations`, which fills `translMap` in place. */
module IslParser {
  import opened Common
  import opened Lexer
  import opened Scan
  import opened LexerSteps
  import LexerInvariants
  import opened Codec
  import opened Driver
  import opened Render
  import BinFile
  import CodecMaps

  /** What one pass of the loop body did, as the scanner function says: left
      `parseTranslations` with `halt`, stayed at the same position (`stay`), or
      moved on by `incr` in state `next`. */
  ghost predicate Performs(text: TString, s: Lexer, next: Lexer, incr: nat, stay: bool, halt: Option<Status>)
    requires s.pos < |text|
  {
    match halt
    case Some(st) => Step(text, s) == Halt(st)
    case None => next.pos == s.pos && s.pos + incr <= |text| && Step(text, s) == (if stay then Next(next) else Advance(text, next, incr))
  }

  class ISLParser {
    var translMap: TranslationsMap
    var translations: TString
    var errorSubstr: TString
    var isTranslationsValid: bool

    /** The map only ever holds what the scanner can store. */
    ghost predicate Valid()
      reads this
    {
      WellFormedMap(translMap)
    }

    /** `ISLParser::ISLParser() : is_translations_valid(false)`. */
    constructor ()
      ensures Valid()
      ensures translMap == map[] && translations == [] && errorSubstr == [] && !isTranslationsValid
    {
      translMap := map[];
      translations := [];
      errorSubstr := [];
      isTranslationsValid := false;
    }

    /** The `TOKEN_BEGIN_DOCUMENT` / `TOKEN_END_VALUE` case: skip a separator,
        skip a `;` comment through the line break, or hand a locale name of an
        allowed length over to `TOKEN_BEGIN_LOCALE` without moving on. */
    method LexBetweenEntries(text: TString, token: Token, pos: nat, stringId: TString, currentLocale: TString)
      returns (token': Token, incr: nat, stay: bool, halt: Option<Status>)
      requires pos < |text| && (token.BeginDocument? || token.EndValue?)
      modifies this`errorSubstr
      ensures var s := Lexer(token, pos, stringId, currentLocale, translMap);
              Performs(text, s, s.(token := token'), incr, stay, halt)
      ensures errorSubstr == (if halt.Some? && halt.value.LexicalError? then halt.value.errorSubstr else old(errorSubstr))
    {
      ghost var cur := Lexer(token, pos, stringId, currentLocale, translMap);
      token', incr, stay, halt := token, 1, false, None;
      var len := |text|;
      var ch := text[pos];
      if IsSeparator(ch) {
        StepSkip(text, cur);
      } else if ch == ';' {
        // a comment runs through the next line break
        var end := Find(text, '\n', pos);
        StepComment(text, cur, end);
        incr := if end == len then len - pos else end - pos + 1;
      } else {
        var end := ScanLocaleRun(text, pos);
        StepEntryStart(text, cur, end);
        var localeLen := end - pos;
        if IsLocaleLength(localeLen) {
          token' := BeginLocale;
          stay := true;
        } else {
          errorSubstr := text[..pos + 1];
          halt := Some(LexicalError(errorSubstr));
        }
      }
    }

    /** The `TOKEN_BEGIN_STRINGID` case: skip a separator, or read the string id,
        which must end in a separator or `=` before the end of the text, and
        give it an empty entry when it is new. */
    method LexStringId(text: TString, pos: nat, stringId: TString, currentLocale: TString)
      returns (token': Token, stringId': TString, incr: nat, halt: Option<Status>)
      requires pos < |text|
      modifies this`translMap, this`errorSubstr
      ensures var s := Lexer(BeginStringId, pos, stringId, currentLocale, old(translMap));
              Performs(text, s, Lexer(token', pos, stringId', currentLocale, translMap), incr, false, halt)
      ensures halt.Some? ==> translMap == old(translMap)
      ensures errorSubstr == (if halt.Some? && halt.value.LexicalError? then halt.value.errorSubstr else old(errorSubstr))
    {
      ghost var cur := Lexer(BeginStringId, pos, stringId, currentLocale, translMap);
      token', stringId', incr, halt := BeginStringId, stringId, 1, None;
      var len := |text|;
      if IsSeparator(text[pos]) {
        StepSkip(text, cur);
        return;
      }
      var end := ScanStringIdRun(text, pos);
      if end == len {
        StepStringIdAtEnd(text, cur);
        halt := Some(OutOfRange);
        return;
      }
      var c := text[end];
      if !IsSeparator(c) && c != '=' {
        StepStringIdBadEnd(text, cur, end);
        errorSubstr := text[..end + 1];
        halt := Some(LexicalError(errorSubstr));
        return;
      }
      StepStringId(text, cur, end);
      token' := EndStringId;
      stringId' := text[pos..end];
      if stringId' != [] && stringId' !in translMap {
        translMap := translMap[stringId' := map[]];
      }
      incr := end - pos;
    }

    /** The `TOKEN_END_STRINGID` and `TOKEN_END_LOCALE` cases: skip a separator,
        move to `next` on the expected character `c`, and report any other. */
    method LexExpect(text: TString, token: Token, pos: nat, stringId: TString, currentLocale: TString, c: TChar, next: Token)
      returns (token': Token, halt: Option<Status>)
      requires pos < |text|
      requires (token == EndStringId && c == '=' && next == BeginValue) || (token == EndLocale && c == '.' && next == BeginStringId)
      modifies this`errorSubstr
      ensures var s := Lexer(token, pos, stringId, currentLocale, translMap);
              Performs(text, s, s.(token := token'), 1, false, halt)
      ensures errorSubstr == (if halt.Some? && halt.value.LexicalError? then halt.value.errorSubstr else old(errorSubstr))
    {
      ghost var cur := Lexer(token, pos, stringId, currentLocale, translMap);
      token', halt := token, None;
      var ch := text[pos];
      if IsSeparator(ch) {
        StepSkip(text, cur);
      } else {
        StepExpect(text, cur, c, next);
        if ch == c {
          token' := next;
        } else {
          errorSubstr := text[..pos + 1];
          halt := Some(LexicalError(errorSubstr));
        }
      }
    }

    /** The `TOKEN_BEGIN_LOCALE` case: the locale name is read whole; one that
        runs to the end of the text is a lexical error. */
    method LexLocale(text: TString, pos: nat, stringId: TString, currentLocale: TString)
      returns (token': Token, currentLocale': TString, incr: nat, halt: Option<Status>)
      requires pos < |text|
      modifies this`errorSubstr
      ensures var s := Lexer(BeginLocale, pos, stringId, currentLocale, translMap);
              Performs(text, s, Lexer(token', pos, stringId, currentLocale', translMap), incr, false, halt)
      ensures errorSubstr == (if halt.Some? && halt.value.LexicalError? then halt.value.errorSubstr else old(errorSubstr))
    {
      ghost var cur := Lexer(BeginLocale, pos, stringId, currentLocale, translMap);
      token', halt := EndLocale, None;
      var end := ScanLocaleRun(text, pos);
      StepBeginLocale(text, cur, end);
      var localeLen := end - pos;
      currentLocale' := text[pos..end];
      incr := localeLen;
      if pos + localeLen == |text| {
        errorSubstr := text[..pos + localeLen];
        halt := Some(LexicalError(errorSubstr));
      }
    }

    /** The `TOKEN_BEGIN_VALUE` case: the rest of the line, without a final
        carriage return and with `\n` pairs unescaped, is stored under the current
        id and locale when both are known.  `incr` reaches the line break. */
    method ReadValue(text: TString, pos: nat, stringId: TString, currentLocale: TString) returns (incr: nat)
      requires pos <= |text|
      modifies this`translMap
      ensures pos + incr == Find(text, '\n', pos)
      ensures translMap == StoreValue(old(translMap), stringId, currentLocale, LineValue(text, pos, pos + incr))
    {
      var end := Find(text, '\n', pos);
      var line := text[pos..end];
      incr := end - pos;
      if |line| > 0 && line[|line| - 1] == '\r' {
        line := line[..|line| - 1];
      }
      assert line == StripCR(text[pos..end]);
      var val := UnescapeValue(line);
      assert val == LineValue(text, pos, end);
      if currentLocale != [] && stringId in translMap {
        translMap := translMap[stringId := translMap[stringId][currentLocale := val]];
      }
    }

    /** The `TOKEN_BEGIN_VALUE` case as one pass of the loop body. */
    method LexValue(text: TString, pos: nat, stringId: TString, currentLocale: TString) returns (token': Token, incr: nat)
      requires pos < |text|
      modifies this`translMap
      ensures var s := Lexer(BeginValue, pos, stringId, currentLocale, old(translMap));
              Performs(text, s, Lexer(token', pos, stringId, currentLocale, translMap), incr, false, None)
    {
      ghost var cur := Lexer(BeginValue, pos, stringId, currentLocale, translMap);
      incr := ReadValue(text, pos, stringId, currentLocale);
      StepBeginValue(text, cur, pos + incr);
      token' := EndValue;
    }

    /** The body of the scanning loop: the `switch (token)` for the character at
        `pos`.  `halt` is the status when the body leaves `parseTranslations`
        (writing `errorSubstr` on a lexical error); `stay` is the `continue`
        that re-examines the same position as a locale name. */
    method LexStep(text: TString, token: Token, pos: nat, stringId: TString, currentLocale: TString)
      returns (token': Token, incr: nat, stringId': TString, currentLocale': TString, stay: bool, halt: Option<Status>)
      requires pos < |text|
      modifies this`translMap, this`errorSubstr
      ensures var s := Lexer(token, pos, stringId, currentLocale, old(translMap));
              Performs(text, s, Lexer(token', pos, stringId', currentLocale', translMap), incr, stay, halt)
      ensures halt.Some? ==> translMap == old(translMap)
      ensures errorSubstr == (if halt.Some? && halt.value.LexicalError? then halt.value.errorSubstr else old(errorSubstr))
    {
      ghost var cur := Lexer(token, pos, stringId, currentLocale, translMap);
      token', stringId', currentLocale' := token, stringId, currentLocale;
      incr, stay, halt := 1, false, None;
      match token {
        case BeginDocument | EndValue =>
          token', incr, stay, halt := LexBetweenEntries(text, token, pos, stringId, currentLocale);
        case BeginStringId =>
          token', stringId', incr, halt := LexStringId(text, pos, stringId, currentLocale);
        case EndStringId =>
          token', halt := LexExpect(text, token, pos, stringId, currentLocale, '=', BeginValue);
        case BeginLocale =>
          token', currentLocale', incr, halt := LexLocale(text, pos, stringId, currentLocale);
        case EndLocale =>
          token', halt := LexExpect(text, token, pos, stringId, currentLocale, '.', BeginStringId);
        case BeginValue =>
          token', incr := LexValue(text, pos, stringId, currentLocale);
        case EndDocument =>
          StepEndDocument(text, cur);
      }
    }

    /** `parseTranslations`: scans `translations` into `translMap`.  On a lexical
        error it records the prefix and stops; entries added before stay.  The
        flag is only ever set, never cleared.  `outOfRange` reports the
        `std::out_of_range` that `translations.at(len)` throws. */
    method ParseTranslations() returns (outOfRange: bool)
      requires Valid()
      modifies this
      ensures Valid()
      ensures translations == old(translations)
      ensures var r := Parse(old(translations), old(translMap));
              && translMap == r.tm
              && outOfRange == (r.status == OutOfRange)
              && errorSubstr == (if r.status.LexicalError? then r.status.errorSubstr else old(errorSubstr))
              && isTranslationsValid == (old(isTranslationsValid) || r.status == Finished(true))
    {
      var text := translations;
      ghost var spec := Parse(text, translMap);
      LexerInvariants.ParseKeepsWellFormed(text, translMap);
      outOfRange := false;
      var token := BeginDocument;
      var stringId: TString, currentLocale: TString := [], [];
      var pos, len := 0, |text|;
      while pos < len
        invariant pos <= len == |text| && text == translations
        invariant Run(text, Lexer(token, pos, stringId, currentLocale, translMap)) == spec
        invariant errorSubstr == old(errorSubstr) && isTranslationsValid == old(isTranslationsValid)
        decreases len - pos, Rank(token)
      {
        ghost var cur := Lexer(token, pos, stringId, currentLocale, translMap);
        var incr, stay, halt;
        token, incr, stringId, currentLocale, stay, halt := LexStep(text, token, pos, stringId, currentLocale);
        if halt.Some? {
          RunHalt(text, cur, halt.value);
          outOfRange := halt.value == OutOfRange;
          return;
        }
        if stay {
          RunNext(text, cur, Lexer(token, pos, stringId, currentLocale, translMap));
          continue;
        }
        pos := pos + incr;
        if pos == len {
          token := EndDocument;
        }
        RunNext(text, cur, Lexer(token, pos, stringId, currentLocale, translMap));
      }
      if token == EndDocument {
        isTranslationsValid := true;
      }
    }
  
    /** The loop of `translationToBin` over the files: their texts, each
        non-empty one followed by a line break, up to the first file that
        cannot be read. */
    method GatherTexts(files: seq<SourceFile>) returns (readable: bool, path: TString)
      modifies this
      ensures translMap == old(translMap) && errorSubstr == old(errorSubstr)
      ensures isTranslationsValid == old(isTranslationsValid)
      ensures Gather(files) == if readable then Gathered(translations) else Unreadable(path, translations)
    {
      translations := [];
      var i := 0;
      while i < |files|
        invariant i <= |files|
        invariant Gather(files[..i]) == Gathered(translations)
        invariant translMap == old(translMap) && errorSubstr == old(errorSubstr)
        invariant isTranslationsValid == old(isTranslationsValid)
      {
        assert files[..i + 1][..i] == files[..i];
        if files[i].content.None? {
          GatherStops(files, i + 1);
          return false, files[i].path;
        }
        var tr := files[i].content.value;
        if tr != [] {
          translations := translations + tr + ['\n'];
        }
        i := i + 1;
      }
      assert files[..i] == files;
      return true, [];
    }

    /** `translationToBin(islFilePaths, binFilePath, error)`: concatenates the
        sources, scans them into `translMap` (which is not cleared first) and
        writes the map.  `writeOk` is whether `NS_File::writeBinFile` succeeds;
        `bytes` is what it writes, `es` the order in which it walks the map.
        `error` is only assigned when the result is false. */
    method TranslationToBin(files: seq<SourceFile>, binPath: TString, writeOk: bool, error0: TString)
      returns (ok: bool, outOfRange: bool, error: TString, bytes: seq<uint8>, ghost es: seq<Entry>)
      requires Valid()
      modifies this
      ensures Valid()
      ensures Compile(files, binPath, writeOk, old(translMap), old(errorSubstr)) ==
        Compiled(if ok then Written else if outOfRange then Threw else Failed(error),
                 translations, translMap, errorSubstr, isTranslationsValid)
      ensures ok || outOfRange ==> error == error0
      ensures ok ==> Lists(es, translMap) && bytes == Encode(es)
      ensures ok && MapFits(translMap) ==> Decode(bytes) == Some(translMap)
    {
      ok, outOfRange, error, bytes, es := false, false, error0, [], [];
      isTranslationsValid := false;
      var readable, path := GatherTexts(files);
      if !readable {
        error := CannotReadFile + path;
        return;
      }
      if translations == [] {
        error := TranslationsEmpty;
        return;
      }
      outOfRange := ParseTranslations();
      if outOfRange {
        return;
      }
      if !isTranslationsValid {
        error := ParseErrorHead + errorSubstr + ErrorTail;
        return;
      }
      if translMap == map[] {
        error := MapEmpty;
        return;
      }
      bytes, es := BinFile.WriteBinFile(translMap);
      if !writeOk {
        error := CannotWriteFile + binPath;
        return;
      }
      ok := true;
      if MapFits(translMap) {
        CodecMaps.DecodeEncodeMap(es, translMap);
      }
    }

    /** One pass of the loop of `verify`: the report on `f`, appended to `report`. */
    method VerifyFile(f: SourceFile, report: TString) returns (report': TString, outOfRange: bool)
      requires Valid()
      modifies this
      ensures Valid()
      ensures CheckFile(Session(report, old(translMap), old(translations), old(errorSubstr), old(isTranslationsValid), false), f)
           == Session(report', translMap, translations, errorSubstr, isTranslationsValid, outOfRange)
    {
      report', outOfRange := report + Banner(f.path), false;
      isTranslationsValid := false;
      translations := [];
      if f.content.None? {
        report' := report' + Message(CannotRead, errorSubstr);
        return;
      }
      var tr := f.content.value;
      if tr != [] {
        translations := tr;
      }
      if translations == [] {
        report' := report' + Message(NoText, errorSubstr);
        return;
      }
      outOfRange := ParseTranslations();
      if outOfRange {
        return;
      }
      if !isTranslationsValid {
        report' := report' + Message(CannotParse, errorSubstr);
      } else if translMap == map[] {
        report' := report' + Message(NoEntries, errorSubstr);
      } else {
        report' := report' + Message(StatusOk, errorSubstr);
      }
    }

    /** `verify(islFilePaths, error)`: appends a report on every file to
        `report`.  Each file is scanned on its own text, but into the same
        `translMap`.  `outOfRange` reports the exception that ends the loop. */
    method Verify(files: seq<SourceFile>, report0: TString) returns (report: TString, outOfRange: bool)
      requires Valid()
      modifies this
      ensures Valid()
      ensures VerifyAll(files, Session(report0, old(translMap), old(translations), old(errorSubstr), old(isTranslationsValid), false))
           == Session(report, translMap, translations, errorSubstr, isTranslationsValid, outOfRange)
    {
      ghost var start := Session(report0, translMap, translations, errorSubstr, isTranslationsValid, false);
      report, outOfRange := report0, false;
      var i := 0;
      while i < |files|
        invariant i <= |files| && Valid()
        invariant VerifyAll(files[..i], start) == Session(report, translMap, translations, errorSubstr, isTranslationsValid, false)
      {
        VerifyAllSnoc(files, i, start);
        report, outOfRange := VerifyFile(files[i], report);
        if outOfRange {
          VerifyAllStops(files, i + 1, start);
          return;
        }
        i := i + 1;
      }
      assert files[..i] == files;
    }

    /** `binToTranslation(binFilePath, islFilePath)`: reads the file into a
        fresh map and renders it, walking the map in whatever order it yields
        its keys.  `writeOk` is whether `NS_File::writeFile` succeeds. */
    static method BinToTranslation(bytes: seq<uint8>, writeOk: bool) returns (ok: bool, out: TString, ghost es: seq<Entry>)
      ensures Decode(bytes).None? ==> !ok && out == []
      ensures Decode(bytes).Some? ==> ok == writeOk && Lists(es, Decode(bytes).value) && out == RenderEntries(es)
    {
      out, es := [], [];
      var read, m;
      ghost var listing;
      read, m, listing := BinFile.ReadBinFile(bytes, map[]);
      if !read {
        return false, out, es;
      }
      assert m == EntriesToMap(listing);
      out, es := RenderMap(m);
      ok := writeOk;
    }
  }
}
