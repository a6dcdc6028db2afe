/** What the two drivers `ISLParser::translationToBin` and `ISLParser::verify`
    do with a list of source files, as functions of the files and of the
    parser's state.  Reading a file is an input: a `SourceFile` whose content
    is `None` is one that `NS_File::readFile` could not read. */
module Driver {
  import opened Common
  import opened Lexer
  import LexerMerge
  import LexerInvariants

  datatype SourceFile = SourceFile(path: TString, content: Option<TString>)

  // ---------------------------------------------------------------------------
  // Gathering the sources of translationToBin

  /** What one readable file adds to `translations`: its text and a line
      break, or nothing at all when it is empty. */
  function Piece(content: TString): (r: TString)
    ensures r == [] <==> content == []
    ensures r != [] ==> r[..|r| - 1] == content && r[|r| - 1] == '\n'
  {
    if content == [] then [] else content + ['\n']
  }

  predicate AllReadable(files: seq<SourceFile>)
  {
    forall i :: 0 <= i < |files| ==> files[i].content.Some?
  }

  /** The text read so far, and the first file that could not be read if any. */
  datatype Gathered = Unreadable(path: TString, text: TString) | Gathered(text: TString)

  /** The reading loop of `translationToBin`, over the files in order: when
      it stops, the path it names is that of a file that cannot be read. */
  function Gather(files: seq<SourceFile>): (r: Gathered)
    ensures r.Unreadable? ==> exists i :: 0 <= i < |files| && files[i].content.None? && files[i].path == r.path
    decreases |files|
  {
    if files == [] then Gathered([])
    else
      match Gather(files[..|files| - 1])
      case Unreadable(p, t) => Unreadable(p, t)
      case Gathered(t) =>
        match files[|files| - 1].content
        case None => Unreadable(files[|files| - 1].path, t)
        case Some(c) => Gathered(t + Piece(c))
  }

  /** Once a file could not be read, later files change nothing. */
  lemma {:induction false} GatherStops(files: seq<SourceFile>, i: nat)
    requires i <= |files| && Gather(files[..i]).Unreadable?
    ensures Gather(files) == Gather(files[..i])
    decreases |files| - i
  {
    if i < |files| {
      assert files[..i + 1][..i] == files[..i];
      GatherStops(files, i + 1);
    } else {
      assert files[..i] == files;
    }
  }

  /** An independent account of the text: the pieces of all files, front to back. */
  function Joined(files: seq<SourceFile>): TString
    decreases |files|
  {
    if files == [] then []
    else (match files[0].content case None => [] case Some(c) => Piece(c)) + Joined(files[1..])
  }

  lemma {:induction false} JoinedSnoc(files: seq<SourceFile>, f: SourceFile)
    ensures Joined(files + [f]) == Joined(files) + (match f.content case None => [] case Some(c) => Piece(c))
    decreases |files|
  {
    if files != [] {
      assert (files + [f])[1..] == files[1..] + [f];
      JoinedSnoc(files[1..], f);
    }
  }

  /** When every file can be read, `translations` is each non-empty file
      followed by a line break, in order. */
  lemma {:induction false} GatherReadable(files: seq<SourceFile>)
    requires AllReadable(files)
    ensures Gather(files) == Gathered(Joined(files))
    decreases |files|
  {
    if files != [] {
      var init := files[..|files| - 1];
      assert AllReadable(init) by {
        forall i | 0 <= i < |init| ensures init[i].content.Some? { assert init[i] == files[i]; }
      }
      assert files[|files| - 1].content.Some?;
      GatherReadable(init);
      assert init + [files[|files| - 1]] == files;
      JoinedSnoc(init, files[|files| - 1]);
    }
  }

  /** The loop stops at the first file that cannot be read, and reports that one. */
  lemma {:induction false} GatherUnreadable(files: seq<SourceFile>)
    ensures Gather(files).Unreadable? <==> !AllReadable(files)
    ensures Gather(files).Unreadable? ==>
      exists i :: 0 <= i < |files| && files[i].content.None? && files[i].path == Gather(files).path
        && AllReadable(files[..i])
    decreases |files|
  {
    if files != [] {
      var init := files[..|files| - 1];
      var last := files[|files| - 1];
      GatherUnreadable(init);
      if AllReadable(init) {
        if last.content.None? {
          assert files[..|files| - 1] == init;
        } else {
          assert AllReadable(files) by {
            forall i | 0 <= i < |files| ensures files[i].content.Some? {
              if i < |init| { assert files[i] == init[i]; }
            }
          }
        }
      } else {
        var i :| 0 <= i < |init| && init[i].content.None? && init[i].path == Gather(init).path && AllReadable(init[..i]);
        assert files[i] == init[i] && files[..i] == init[..i];
      }
    }
  }

  /** `translations` stays empty exactly when every file read was empty. */
  lemma {:induction false} JoinedEmpty(files: seq<SourceFile>)
    requires AllReadable(files)
    ensures Joined(files) == [] <==> forall i :: 0 <= i < |files| ==> files[i].content == Some([])
    decreases |files|
  {
    if files != [] {
      assert AllReadable(files[1..]) by {
        forall i | 0 <= i < |files[1..]| ensures files[1..][i].content.Some? { assert files[1..][i] == files[i + 1]; }
      }
      JoinedEmpty(files[1..]);
      if Joined(files) == [] {
        forall i | 0 <= i < |files| ensures files[i].content == Some([]) {
          if i > 0 { assert files[i] == files[1..][i - 1]; }
        }
      }
      if forall i :: 0 <= i < |files| ==> files[i].content == Some([]) {
        forall i | 0 <= i < |files[1..]| ensures files[1..][i].content == Some([]) { assert files[1..][i] == files[i + 1]; }
      }
    }
  }

  // ---------------------------------------------------------------------------
  // translationToBin

  /** `error_substr` after a scan: replaced on a lexical error, kept otherwise. */
  function ErrorSubstrAfter(st: Status, errorSubstr: TString): TString
  {
    if st.LexicalError? then st.errorSubstr else errorSubstr
  }

  /** The messages `translationToBin` leaves in `error`. */
  const CannotReadFile: TString := "cannot read file "
  const TranslationsEmpty: TString := "translations is empty!"
  const MapEmpty: TString := "translations map is empty!"
  const CannotWriteFile: TString := "cannot write file "
  const CannotParseTranslations: TString := "cannot parse translations"

  /** The message of a scan that failed, around the text `error_substr` holds. */
  const ParseErrorHead: TString := CannotParseTranslations + ", error in string: "
  const ErrorTail: TString := " <---"

  /** How `translationToBin` ends: the file was written, it returned false with
      a message, or `parseTranslations` threw `std::out_of_range`. */
  datatype Outcome = Written | Failed(error: TString) | Threw

  /** The outcome and the parser's fields (`translations`, `translMap`,
      `error_substr`, `is_translations_valid`) after `translationToBin`. */
  datatype Compiled = Compiled(outcome: Outcome, translations: TString, tm: TranslationsMap, errorSubstr: TString, valid: bool)

  /** `translationToBin` from the parse on: the checks after `parseTranslations`
      and the write, whose success is the input `writeOk`. */
  function AfterParse(text: TString, r: ParseResult, errorSubstr: TString, binPath: TString, writeOk: bool): Compiled
  {
    if r.status == OutOfRange then Compiled(Threw, text, r.tm, errorSubstr, false)
    else if r.status != Finished(true) then
      Compiled(Failed(ParseErrorHead + ErrorSubstrAfter(r.status, errorSubstr) + ErrorTail),
               text, r.tm, ErrorSubstrAfter(r.status, errorSubstr), false)
    else if r.tm == map[] then Compiled(Failed(MapEmpty), text, r.tm, errorSubstr, true)
    else if !writeOk then Compiled(Failed(CannotWriteFile + binPath), text, r.tm, errorSubstr, true)
    else Compiled(Written, text, r.tm, errorSubstr, true)
  }

  /** `translationToBin(files, binPath, error)` on a parser holding `tm` and
      `errorSubstr`: a file is written only after a write that succeeds, of a
      non-empty map scanned from non-empty text that left the parser valid,
      and no text at all is always a failure. */
  function Compile(files: seq<SourceFile>, binPath: TString, writeOk: bool, tm: TranslationsMap, errorSubstr: TString): (r: Compiled)
    ensures r.outcome == Written ==> writeOk && r.valid && r.tm != map[] && r.translations != []
    ensures r.translations == [] ==> r.outcome.Failed?
  {
    match Gather(files)
    case Unreadable(p, t) => Compiled(Failed(CannotReadFile + p), t, tm, errorSubstr, false)
    case Gathered(t) =>
      if t == [] then Compiled(Failed(TranslationsEmpty), t, tm, errorSubstr, false)
      else AfterParse(t, Parse(t, tm), errorSubstr, binPath, writeOk)
  }

  /** A file is written exactly when every source can be read, their text
      scans without error to the end, the map is not empty and the write
      succeeds; what is written is the scan of the text laid over what the
      parser already held. */
  lemma CompileWritten(files: seq<SourceFile>, binPath: TString, writeOk: bool, tm: TranslationsMap, errorSubstr: TString)
    requires WellFormedMap(tm)
    ensures Compile(files, binPath, writeOk, tm, errorSubstr).outcome == Written <==>
      && AllReadable(files)
      && Parse(Joined(files), map[]).status == Finished(true)
      && Compile(files, binPath, writeOk, tm, errorSubstr).tm != map[]
      && writeOk
    ensures Compile(files, binPath, writeOk, tm, errorSubstr).outcome == Written ==>
      && Compile(files, binPath, writeOk, tm, errorSubstr).tm == LexerMerge.Merge(tm, Parse(Joined(files), map[]).tm)
      && Compile(files, binPath, writeOk, tm, errorSubstr).valid
      && WellFormedMap(Compile(files, binPath, writeOk, tm, errorSubstr).tm)
  {
    GatherUnreadable(files);
    if AllReadable(files) {
      GatherReadable(files);
      var t := Joined(files);
      assert [] !in tm;
      LexerMerge.ParseIntoExisting(t, tm);
      LexerInvariants.ParseKeepsWellFormed(t, tm);
    }
  }

  /** A read failure is reported for the first file that cannot be read, and
      nothing is scanned. */
  lemma CompileUnreadable(files: seq<SourceFile>, binPath: TString, writeOk: bool, tm: TranslationsMap, errorSubstr: TString)
    requires !AllReadable(files)
    ensures exists i :: (0 <= i < |files| && files[i].content.None? && AllReadable(files[..i])
      && Compile(files, binPath, writeOk, tm, errorSubstr).outcome == Failed(CannotReadFile + files[i].path))
    ensures Compile(files, binPath, writeOk, tm, errorSubstr).tm == tm
  {
    GatherUnreadable(files);
  }

  /** Sources that are all empty leave nothing to scan. */
  lemma CompileNothing(files: seq<SourceFile>, binPath: TString, writeOk: bool, tm: TranslationsMap, errorSubstr: TString)
    requires forall i :: 0 <= i < |files| ==> files[i].content == Some([])
    ensures Compile(files, binPath, writeOk, tm, errorSubstr) == Compiled(Failed(TranslationsEmpty), [], tm, errorSubstr, false)
  {
    assert AllReadable(files);
    GatherReadable(files);
    JoinedEmpty(files);
  }

  // ---------------------------------------------------------------------------
  // verify

  /** The line `verify` reports for one file. */
  datatype Verdict = CannotRead | NoText | CannotParse | NoEntries | StatusOk

  const ReportParseHead: TString := "Error: " + CannotParseTranslations + ", error in string:\n"
  const ReportTail: TString := " <---\n"

  function Message(v: Verdict, errorSubstr: TString): TString
  {
    match v
    case CannotRead => "Error: cannot read file!\n"
    case NoText => "Warning: translations is empty!\n"
    case CannotParse => ReportParseHead + errorSubstr + ReportTail
    case NoEntries => "Warning: translations map is empty!\n"
    case StatusOk => "Status: ok\n"
  }

  /** The two header lines `verify` writes before looking at a file. */
  function Banner(path: TString): TString
  {
    "\nFile verification: " + path + "\n" + "============================\n"
  }

  /** The parser's state between files, and the report written so far.
      `threw` records that `parseTranslations` threw `std::out_of_range`,
      which ends `verify` with that exception. */
  datatype Session = Session(report: TString, tm: TranslationsMap, translations: TString,
                             errorSubstr: TString, valid: bool, threw: bool)

  /** The verdict on a scan, or `None` when it threw. */
  function ScanVerdict(r: ParseResult): Option<Verdict>
  {
    if r.status == OutOfRange then None
    else if r.status != Finished(true) then Some(CannotParse)
    else if r.tm == map[] then Some(NoEntries)
    else Some(StatusOk)
  }

  /** `verify` after scanning a non-empty file. */
  function Checked(s: Session, text: TString, r: ParseResult): Session
  {
    match ScanVerdict(r)
    case None => Session(s.report, r.tm, text, s.errorSubstr, false, true)
    case Some(v) =>
      Session(s.report + Message(v, ErrorSubstrAfter(r.status, s.errorSubstr)), r.tm, text,
              ErrorSubstrAfter(r.status, s.errorSubstr), v != CannotParse, false)
  }

  /** One pass of the loop of `verify`.  `translations` is cleared and
      `is_translations_valid` reset for every file, `translMap` is not: the
      report grows by the file's banner and more, a file that cannot be read
      leaves the map alone, and only a scanned file can throw. */
  function CheckFile(s: Session, f: SourceFile): (r: Session)
    ensures s.report + Banner(f.path) <= r.report
    ensures f.content.None? ==> r.tm == s.tm && !r.valid && !r.threw
    ensures r.threw ==> f.content.Some? && f.content.value != [] && !r.valid
  {
    match f.content
    case None => Session(s.report + Banner(f.path) + Message(CannotRead, s.errorSubstr), s.tm, [], s.errorSubstr, false, false)
    case Some(t) =>
      if t == [] then Session(s.report + Banner(f.path) + Message(NoText, s.errorSubstr), s.tm, [], s.errorSubstr, false, false)
      else Checked(s.(report := s.report + Banner(f.path)), t, Parse(t, s.tm))
  }

  /** `verify(files, error)`: the files in order, until one throws.  The
      report only grows, and a session that has thrown is left as it is. */
  function VerifyAll(files: seq<SourceFile>, s: Session): (r: Session)
    ensures s.report <= r.report
    ensures s.threw ==> r == s
    decreases |files|
  {
    if files == [] then s
    else if VerifyAll(files[..|files| - 1], s).threw then VerifyAll(files[..|files| - 1], s)
    else CheckFile(VerifyAll(files[..|files| - 1], s), files[|files| - 1])
  }

  /** One more file, after files that did not throw. */
  lemma VerifyAllSnoc(files: seq<SourceFile>, i: nat, s: Session)
    requires i < |files| && !VerifyAll(files[..i], s).threw
    ensures VerifyAll(files[..i + 1], s) == CheckFile(VerifyAll(files[..i], s), files[i])
  {
    assert files[..i + 1][..i] == files[..i];
  }

  /** Once a scan has thrown, later files are not looked at. */
  lemma {:induction false} VerifyAllStops(files: seq<SourceFile>, i: nat, s: Session)
    requires i <= |files| && VerifyAll(files[..i], s).threw
    ensures VerifyAll(files, s) == VerifyAll(files[..i], s)
    decreases |files| - i
  {
    if i < |files| {
      assert files[..i + 1][..i] == files[..i];
      VerifyAllStops(files, i + 1, s);
    } else {
      assert files[..i] == files;
    }
  }

  /** The verdict a file gets, given the map the parser holds when it is reached. */
  function VerdictOf(f: SourceFile, tm: TranslationsMap): Option<Verdict>
  {
    match f.content
    case None => Some(CannotRead)
    case Some(t) =>
      if t == [] then Some(NoText) else ScanVerdict(Parse(t, tm))
  }

  /** Each file adds its banner and the message of its verdict to the report. */
  lemma CheckFileReport(s: Session, f: SourceFile)
    requires !CheckFile(s, f).threw
    ensures VerdictOf(f, s.tm).Some?
    ensures CheckFile(s, f).report ==
      s.report + Banner(f.path) + Message(VerdictOf(f, s.tm).value, CheckFile(s, f).errorSubstr)
  {
  }

  /** Whether a file scans is its own affair: the map left by earlier files
      changes neither an error verdict nor a throw. */
  lemma VerdictParseIndependent(f: SourceFile, tm1: TranslationsMap, tm2: TranslationsMap)
    ensures VerdictOf(f, tm1) == None <==> VerdictOf(f, tm2) == None
    ensures VerdictOf(f, tm1) == Some(CannotParse) <==> VerdictOf(f, tm2) == Some(CannotParse)
  {
    if f.content.Some? && f.content.value != [] {
      LexerInvariants.ParseStatusIgnoresMap(f.content.value, tm1, tm2);
    }
  }

  /** Because `translMap` is carried from file to file, once an earlier file
      has stored an entry no later file can get the empty-map warning: a file
      without entries that scans is reported as ok. */
  lemma NoEntriesOnlyWhileEmpty(f: SourceFile, tm: TranslationsMap)
    requires WellFormedMap(tm) && tm != map[]
    ensures VerdictOf(f, tm) != Some(NoEntries)
  {
    if f.content.Some? && f.content.value != [] {
      assert [] !in tm;
      var k :| k in tm;
      LexerMerge.ParseGrows(f.content.value, tm);
      assert k in Parse(f.content.value, tm).tm;
    }
  }
}
