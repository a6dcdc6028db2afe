# ISLCompiler model

ISLCompiler turns translation sources (`.isl` text) into a binary translation
file and back. A source holds lines `locale.stringId =value`, comments that
start with `;`, and blank lines. `\n` inside a value stands for a line break.

This project models the compiler's core in Dafny and proves properties of it:

- **Lexer** (`Lexer`, `LexerSteps`, `LexerLemmas`, `LexerInvariants`,
  `LexerMerge`, `Scan`).
  - The eight-state scanner of `ISLParser::parseTranslations` is a pure state
    machine: one `Step` per loop iteration, `Run` for the whole loop, `Parse`
    from the start state.
  - The character classes, the locale-length rule, the trailing carriage
    return and the backslash-n escape are modelled exactly.
  - The `std::out_of_range` thrown by `translations.at(len)` is the status
    `OutOfRange`.
- **The `ISLParser` class** (`IslParser`). It has the four fields of the C++
  class.
  - `ParseTranslations` is an imperative loop that updates `translMap` in
    place, proved to compute `Parse`.
  - The drivers `TranslationToBin`, `Verify` and `BinToTranslation` are proved
    against the specification functions `Compile` and `VerifyAll` (module
    `Driver`) and `RenderEntries` (module `Render`).
- **Binary format** (`Codec`, `CodecLemmas`, `CodecMaps`, `BinFile`).
  - Layout: the magic `ISL\0`, then a little-endian 16-bit entry count. Each
    entry is a 1-byte key length, the key, and a 16-bit locale count. Each
    locale is a 1-byte name length, the name, a 16-bit value length and the
    value.
  - `Encode`/`Decode` are pure functions over listings of the map.
  - `WriteBinFile`/`ReadBinFile` are the imperative loops of
    `writeBinFile`/`readBinFile`, proved equal to them.
  - Round trip: `Decode(Encode(es))` gives back the map whenever its sizes fit
    the fields.
- **Reading a rendering back** (`Reparse`).
  - The text `binToTranslation` writes for a map scans back into that map.
    Compiling that text as the only source writes a bin file exactly when the
    write succeeds, and the parser then holds the original map.
  - This holds for maps the scanner can read back. Ids are made of string-id
    characters, and locale names have a valid length. Each id has at least
    one locale. No value holds a backslash-n pair, and none ends in a
    carriage return.
  - Outside that class the text loses information. An id with an empty
    locale map is written as an empty line only. A trailing carriage return
    is stripped on reading. A backslash-n pair in a value reads back as a
    line break.
- **Small utilities**:
  - command-line queries (`Args`);
  - the POSIX `parentPath` (`Paths`);
  - `replaceExtension` (`Extension`).

Text is `TString`, a sequence of 8-bit characters: the POSIX build's narrow
`std::string`. `isalpha`/`isalnum` are the ASCII classes.

An `std::unordered_map` has no defined walk order. Each loop that walks one
therefore returns a ghost listing `es` with `Lists(es, m)`: the listing
enumerates the map exactly once. The results are stated in terms of that
listing.

Where the header `src/islparser.h` declares driver signatures that differ from
those in `src/islparser.cpp`, the model follows the `.cpp` definitions.

## Model

| member | source | states |
|---|---|---|
| Lexer.Find | src/islparser.cpp:283 | `find_first_of('\n', pos)`: the first index at or after `from` holding the character, or the length; no earlier index holds it |
| Lexer.LocaleRunEnd | src/islparser.cpp:197-202 | the end of the maximal run of locale characters (letters and `_`) from `from`: every character before it is a locale character, the one at it is not |
| Lexer.StringIdRunEnd | src/islparser.cpp:218-224 | the end of the maximal run of string-id characters (letters, digits, `_`) from `from` |
| Lexer.Ordinal | src/islparser.h:39-48 | the token enumerators take the values 0 to 7, with `TOKEN_BEGIN_DOCUMENT` the only 0 |
| Lexer.IsLocaleLength | src/islparser.cpp:204 | the lengths a locale run may have are exactly 2, 3, 5, 6, 7, 8, 10 and 11 |
| Lexer.StripCR | src/islparser.cpp:293-294 | the value is kept whole, or loses its last character exactly when that character is a carriage return |
| Lexer.Unescape | src/islparser.cpp:296-301 | each character of the result stands for one or two characters of the text: it is no longer, and at least half as long |
| Lexer.Escape | src/islparser.cpp:166-170 | an escaped value contains no line break |
| Lexer.NoteStringId | src/islparser.cpp:231-233 | a non-empty id gets an empty locale map only if it is absent; every other id is kept unchanged; no other key appears |
| Lexer.StoreValue | src/islparser.cpp:302-303 | the value is stored under (id, locale) only when the locale is non-empty and the id has an entry; the ids and all other locales stay |
| Lexer.Advance | src/islparser.cpp:312-314 | `pos += incr`; reaching the end of the text switches the token to `TOKEN_END_DOCUMENT`; the map is untouched |
| Lexer.GapStep | src/islparser.cpp:189-214 | between entries: skip a separator, skip a `;` comment through its line break, or hand a locale of an allowed length (below 12, not 0, 1, 4 or 9) to `TOKEN_BEGIN_LOCALE` without moving; any other run is an error with the prefix through `pos` |
| Lexer.IdStep | src/islparser.cpp:216-238 | in `TOKEN_BEGIN_STRING_ID`: a separator is skipped, otherwise the string id is read; every outcome moves forward or lowers the rank, and an error prefix is a prefix of the text |
| Lexer.IdEndStep | src/islparser.cpp:225-236 | an id that runs to the end of the text throws (`OutOfRange`); one followed by anything but a separator or `=` is an error through that character; otherwise the id is noted and the scanner moves past it |
| Lexer.ExpectStep | src/islparser.cpp:240-250 | after an id only `=` may follow, and after a locale only `.`; separators are skipped |
| Lexer.LocaleStep | src/islparser.cpp:252-268 | a locale run reaching the end of the text is an error whose prefix is the whole text; otherwise the locale is recorded and skipped |
| Lexer.ValueStep | src/islparser.cpp:282-307 | the rest of the line, without one trailing carriage return and with backslash-n pairs unescaped, is stored under the current id and locale |
| Lexer.Step | src/islparser.cpp:184-315 | one loop iteration: it moves forward, or stays and lowers the rank; only `TOKEN_END_DOCUMENT` reaches the end; an early exit's error text is a non-empty prefix of the text |
| Lexer.Run | src/islparser.cpp:184-318 | the loop never ends as `Finished(false)` once it has started on a non-empty rest, and every error text is a non-empty prefix of the text |
| Lexer.Parse | src/islparser.cpp:179-319 | the text is valid exactly when it is non-empty and the loop runs out; error texts are prefixes of the text |
| LexerLemmas.UnescapeHasNoPair | src/islparser.cpp:296-301 | no value left by the unescape loop contains a backslash-n pair |
| LexerLemmas.UnescapeIdentity | src/islparser.cpp:296-301 | text without a backslash-n pair is not changed by the unescape loop |
| LexerLemmas.UnescapeEscape | src/islparser.cpp:166-170 | escaping newlines and unescaping again gives back every value that has no backslash-n pair |
| LexerLemmas.ParsedValueRoundTrip | src/islparser.cpp:166-170 | every value the unescape loop can leave survives being escaped by `binToTranslation` and unescaped again; the removal of a trailing carriage return is not part of this statement |
| LexerInvariants.StepKeepsInv | src/islparser.cpp:184-315 | every iteration keeps the scanner's invariant: stored ids are string ids, locales have allowed lengths, values have no backslash-n pair |
| LexerInvariants.ParseKeepsWellFormed | src/islparser.cpp:179-319 | starting from a well-formed map, the scan leaves a well-formed map, whatever its verdict |
| LexerInvariants.StepIgnoresMap | src/islparser.cpp:184-315 | the control flow of an iteration does not depend on the map's contents |
| LexerInvariants.ParseStatusIgnoresMap | src/islparser.cpp:179-319 | validity, the error text and the exception do not depend on the map the parser already holds |
| LexerMerge.Merge | src/islparser.cpp:303 | the ids of the merged map are those of both maps |
| LexerMerge.MergeAt | src/islparser.cpp:302-303 | under each (id, locale) the upper map's value wins and the lower map's other locales persist |
| LexerMerge.RunOverlaid | src/islparser.cpp:184-315 | scanning on top of existing entries gives the same status, and the map is the fresh result laid over them |
| LexerMerge.ParseIntoExisting | src/islparser.cpp:179-319 | parsing into a map that has entries equals parsing into an empty map and laying the result over the old entries |
| LexerMerge.ParseGrows | src/islparser.cpp:179-319 | nothing is rolled back: every id and (id, locale) pair held before a scan is still there after it, on every verdict |
| Scan.ScanLocaleRun | src/islparser.cpp:253-258 | the loop finds the end of the locale run |
| Scan.ScanStringIdRun | src/islparser.cpp:218-224 | the loop finds the end of the string-id run |
| Scan.FindEscape | src/islparser.cpp:296 | `val.find("\\n", from)`: the first backslash-n pair at or after `from`, or the length |
| Scan.UnescapeValue | src/islparser.cpp:296-301 | the in-place replace loop computes `Unescape` |
| Scan.EscapeValue | src/islparser.cpp:166-170 | the in-place replace loop computes `Escape` |
| IslParser.ISLParser.constructor | src/islparser.cpp:49-53 | a new parser has an empty map and empty texts and is not valid |
| IslParser.ISLParser.LexBetweenEntries | src/islparser.cpp:189-214 | the case body does what `GapStep` specifies and records the error text |
| IslParser.ISLParser.LexStringId | src/islparser.cpp:216-238 | the case body does what `IdStep` specifies; an error leaves the map as it was |
| IslParser.ISLParser.LexExpect | src/islparser.cpp:240-250 | the case bodies for `TOKEN_END_STRING_ID` and `TOKEN_END_LOCALE` do what `ExpectStep` specifies |
| IslParser.ISLParser.LexLocale | src/islparser.cpp:252-268 | the case body does what `LocaleStep` specifies |
| IslParser.ISLParser.ReadValue | src/islparser.cpp:283-303 | the value is read up to the line break and stored as `StoreValue` says |
| IslParser.ISLParser.LexValue | src/islparser.cpp:282-307 | the case body does what `ValueStep` specifies |
| IslParser.ISLParser.LexStep | src/islparser.cpp:187-311 | the `switch (token)` does what `Step` specifies |
| IslParser.ISLParser.ParseTranslations | src/islparser.cpp:179-319 | the map becomes `Parse(translations, translMap).tm` and keeps its invariant; `error_substr` is set on a lexical error only; validity is set only when the text is accepted; the exception is reported |
| IslParser.ISLParser.GatherTexts | src/islparser.cpp:101-118 | the loop over the files collects each non-empty text followed by a line break, and stops at the first unreadable file, as `Gather` specifies; the map and the error text are untouched |
| IslParser.ISLParser.TranslationToBin | src/islparser.cpp:99-140 | the call does what `Compile` specifies; on success the bytes written encode a listing of the new map and decode back to it when its sizes fit the fields |
| IslParser.ISLParser.VerifyFile | src/islparser.cpp:61-96 | one pass of the loop does what `CheckFile` specifies |
| IslParser.ISLParser.Verify | src/islparser.cpp:60-97 | the loop over the files does what `VerifyAll` specifies, and stops at the first exception |
| IslParser.ISLParser.BinToTranslation | src/islparser.cpp:142-177 | an unreadable binary gives `false` and no text; otherwise the text is the rendering of a listing of the decoded map, and the result is whether it could be written |
| Driver.Piece | src/islparser.cpp:110-117 | a non-empty file adds its text and a line break; an empty file adds nothing |
| Driver.Gather | src/islparser.cpp:104-109 | when reading stops, the path it names is that of a file that cannot be read |
| Driver.GatherStops | src/islparser.cpp:104-109 | once a file cannot be read, later files change nothing |
| Driver.GatherReadable | src/islparser.cpp:103-118 | when every file is readable, the text is every file's piece, front to back |
| Driver.GatherUnreadable | src/islparser.cpp:104-109 | reading fails exactly when some file is unreadable, and the message names the first such file |
| Driver.JoinedEmpty | src/islparser.cpp:110-123 | the text is empty exactly when every file is empty |
| Driver.CompileWritten | src/islparser.cpp:99-140 | the bin file is written exactly when every file is readable, the text parses, the map is non-empty and the write succeeds; the new map is then the parsed text laid over the old map, and it stays well-formed |
| Driver.CompileUnreadable | src/islparser.cpp:104-109 | a read failure reports `cannot read file` with the first unreadable path and leaves the map alone |
| Driver.CompileNothing | src/islparser.cpp:120-123 | sources that are all empty fail with `translations is empty!` and change nothing else |
| Driver.Compile | src/islparser.cpp:99-140 | a file is written only after a successful write of a non-empty map scanned from non-empty text, with the parser valid; no text at all is always a failure |
| Driver.CheckFile | src/islparser.cpp:62-96 | the report grows by the file's two banner lines first; an unreadable file leaves the map alone and the parser invalid; only a scanned, non-empty file can throw |
| Driver.VerifyAll | src/islparser.cpp:60-97 | the report only grows, and a session that has thrown is left as it is |
| Driver.VerifyAllStops | src/islparser.cpp:60-97 | after an exception no later file is looked at |
| Driver.CheckFileReport | src/islparser.cpp:63-95 | each file adds its two banner lines and the message of its verdict to the report |
| Driver.VerdictParseIndependent | src/islparser.cpp:82-86 | whether a file throws or is reported unparseable does not depend on the files before it |
| Driver.NoEntriesOnlyWhileEmpty | src/islparser.cpp:87-90 | the warning `translations map is empty!` can only be given while no earlier file has added an entry |
| Codec.Bytes | src/utils.cpp:243-285 | a text is written as its bytes: same length and same codes |
| Codec.Text | src/utils.cpp:146-160 | bytes read back as text: same length and same codes |
| Codec.TextBytes | src/utils.cpp:146-160 | reading back the bytes of a text gives that text |
| Codec.U8 | src/utils.cpp:236-237 | a `uint8_t` field keeps only the low 8 bits of what it holds, and a 1-byte read gives them back |
| Codec.U16 | src/utils.cpp:220-221 | a `WORD` field keeps only the low 16 bits, low byte first, and a 16-bit read gives them back |
| Codec.Text8 | src/utils.cpp:236-243 | a key or locale name: its length, cut to 8 bits, reads back from the first byte, and the bytes after it, written in full, read back as the text |
| Codec.Text16 | src/utils.cpp:278-285 | a value: its length, cut to 16 bits, reads back from the first two bytes, and the bytes after them read back as the value |
| Codec.Encode | src/utils.cpp:214-222 | a written file starts with a magic that is accepted, followed by the entry count cut to 16 bits |
| Codec.U8At | src/utils.cpp:140-144 | a 1-byte read succeeds exactly when a byte is left, and gives a value below 256 |
| Codec.U16At | src/utils.cpp:130-136 | a 16-bit read succeeds exactly when two bytes are left, and gives a value below 65536 |
| Codec.TextAt | src/utils.cpp:146-153 | a read of `n` bytes succeeds exactly when `n` bytes are left |
| Codec.PairAt | src/utils.cpp:166-197 | a locale record read moves the cursor forward, within the file |
| Codec.PairsAt | src/utils.cpp:165-200 | reading `count` locale records gives exactly `count` of them |
| Codec.EntryAt | src/utils.cpp:139-201 | an entry read moves the cursor forward, within the file |
| Codec.EntriesAt | src/utils.cpp:138-202 | reading `count` entries gives exactly `count` of them |
| Codec.DecodeListing | src/utils.cpp:122-204 | a file is read only if it starts with `ISL` and a count, and then has exactly that many entries |
| Codec.EntriesToMap | src/utils.cpp:201 | the map holds exactly the keys of the entries read |
| Codec.Decode | src/utils.cpp:114-205 | a map is read only from a file with the right magic and an entry count, and it is empty exactly when that count is 0 |
| CodecLemmas.DecodeEncode | src/utils.cpp:114-295 | reading what `writeBinFile` wrote gives back the same listing, when its sizes fit the fields |
| CodecLemmas.DecodeIgnoresTrailing | src/utils.cpp:114-205 | bytes after the last entry are ignored |
| CodecLemmas.DecodeAnyFourthByte | src/utils.cpp:122-128 | only the first three bytes of the magic are compared; the fourth may be anything |
| CodecLemmas.DecodeRejectsBadMagic | src/utils.cpp:122-128 | a file shorter than the magic, or without `ISL` at the front, is rejected |
| CodecLemmas.DecodeRejectsTruncated | src/utils.cpp:138-202 | every proper prefix of a written file is rejected |
| CodecMaps.LocalesLastWins | src/utils.cpp:199 | a locale name keeps the value of its last record |
| CodecMaps.EntriesLastWins | src/utils.cpp:201 | a string id keeps the locale map of its last entry |
| CodecMaps.LocalesCount | src/utils.cpp:258 | records with distinct names give one map entry each |
| CodecMaps.EntriesCount | src/utils.cpp:220 | entries with distinct ids give one map entry each, so `mapSize` is the listing's length |
| CodecMaps.ListedMap | src/utils.cpp:230 | a listing of a map folds back into that map |
| CodecMaps.ListedFits | src/utils.cpp:220-262 | when the map's sizes fit the file's fields, so do those of its listings |
| CodecMaps.DecodeEncodeMap | src/utils.cpp:114-295 | a map written in any walk order and read back is the same map, when its sizes fit the fields |
| BinFile.WalkStep | src/utils.cpp:230 | one step of a map walk visits a key not yet visited, with its value |
| BinFile.WalkDone | src/utils.cpp:230 | a walk that has nothing left has visited the whole map |
| BinFile.WriteLocales | src/utils.cpp:258-291 | the locale loop writes the records of a listing of the locale map |
| BinFile.WriteBinFile | src/utils.cpp:207-295 | the file is the magic, the entry count and the entries of a listing of the map |
| BinFile.PairsAtFails | src/utils.cpp:165-200 | once a locale record cannot be read, the whole entry cannot |
| BinFile.EntriesAtFails | src/utils.cpp:138-202 | once an entry cannot be read, the whole file cannot |
| BinFile.ReadPair | src/utils.cpp:166-197 | one locale record is read exactly as `PairAt` says |
| BinFile.ReadLocales | src/utils.cpp:165-200 | the locale loop succeeds exactly when `PairsAt` does, and builds the map of the records read |
| BinFile.ReadEntry | src/utils.cpp:139-201 | one entry is read exactly as `EntryAt` says |
| BinFile.ReadBinFile | src/utils.cpp:114-205 | succeeds exactly when `DecodeListing` does; the entries read are added to the caller's map (later ones win), and on failure the entries read before it stay |
| Render.RenderPair | src/islparser.cpp:160-172 | a locale line ends with a line break, and the field after `locale.id =` unescapes back to the value whenever the value has no backslash-n pair |
| Render.RenderEntries | src/islparser.cpp:148-174 | the text has at least one character per id, and it ends with a line break unless there is no id |
| Render.RenderPairIsOneLine | src/islparser.cpp:158-171 | each locale record is written as exactly one line, since escaping removes every newline from the value |
| Render.AppendLocales | src/islparser.cpp:151-172 | the inner loop appends the lines of a listing of the id's locale map |
| Render.RenderMap | src/islparser.cpp:148-174 | the outer loop writes the rendering of a listing of the whole map |
| Reparse.EscapeEndsInCR | src/islparser.cpp:166-170 | an escaped value ends in a carriage return only when the value does |
| Reparse.LocaleScan | src/islparser.cpp:196-267 | between entries, a valid locale name followed by a dot is recorded as the current locale and the scan stops on the dot |
| Reparse.DotPart | src/islparser.cpp:270-280 | the dot after the locale moves the scan on to the string id |
| Reparse.LocalePart | src/islparser.cpp:189-280 | `locale.` read from between entries leaves the scan at the string id with that locale current and the map unchanged |
| Reparse.IdScan | src/islparser.cpp:216-237 | a string id followed by a space is taken as the current id and noted in the map |
| Reparse.AssignPart | src/islparser.cpp:240-250 | the space and `=` after the id move the scan on to the value |
| Reparse.IdPart | src/islparser.cpp:216-250 | `id =` leaves the scan at the value with the id current and noted in the map |
| Reparse.ValueEnd | src/islparser.cpp:282-291 | the value of a written line ends at the line break written after it |
| Reparse.ValueRead | src/islparser.cpp:293-301 | the written line reads back as the original value: nothing is stripped and unescaping undoes the escape |
| Reparse.ValuePart | src/islparser.cpp:282-314 | the value is stored under the current id and locale, and the line break returns the scan to between entries, or to the end |
| Reparse.LineRun | src/islparser.cpp:158-171 | a written line `locale.id =value`, read from between entries, notes the id, stores the value under (id, locale) and ends between entries |
| Reparse.FirstLineMap | src/islparser.cpp:231-233 | the first line of an id adds its locale to whatever the id held |
| Reparse.NextLineMap | src/islparser.cpp:302-303 | each further line of the same id adds its locale to the id's map |
| Reparse.PairsRun | src/islparser.cpp:151-172 | the lines of one id add exactly its listed locales, later pairs winning, to whatever the id held |
| Reparse.EntryRun | src/islparser.cpp:151-173 | an id's lines and the empty line after them store its locale map and end between entries |
| Reparse.EntriesRun | src/islparser.cpp:148-174 | the whole written text, read from the start on an empty map, builds exactly the map of the listing |
| Reparse.TailRun | src/islparser.cpp:312-318 | separators after the last line are skipped and the scan ends valid |
| Reparse.ParseRendered | src/islparser.cpp:179-319 | a text holding a listing's rendering, followed only by separators, is accepted and scans into the listed map |
| Reparse.RenderedMapReparses | src/islparser.cpp:142-177 | for any walk order, the text written for a readable map scans back into that map and is valid |
| Reparse.CompileScanned | src/islparser.cpp:120-140 | a text that scans valid into a non-empty map is written exactly when the write succeeds, and the parser holds that map |
| Reparse.Recompile | src/islparser.cpp:99-140 | compiling the written text of a readable map, as the only source of a fresh parser, writes a file exactly when the write succeeds, and the parser holds the original map, valid |
| Reparse.ScanIdWithoutValue | src/islparser.cpp:216-237 | the text `en.T ` and a line break is accepted, and leaves the id `T` with no locale |
| Reparse.ScanDoubleCR | src/islparser.cpp:282-303 | `en.T =a`, two carriage returns and a line break store under (`T`, `en`) the value `a` with one carriage return |
| Reparse.ScanSingleCR | src/islparser.cpp:282-303 | `en.T =a`, one carriage return and line breaks store under (`T`, `en`) the value `a` |
| Reparse.IdWithoutLocaleLost | src/islparser.cpp:231-233 | compiling the source `en.T ` writes the id `T` with no locale; the text written for that map is a bare line break, and compiling it fails with an empty map |
| Reparse.TrailingCRLost | src/islparser.cpp:293-294 | compiling `en.T =a` with two trailing carriage returns writes the value with one of them; the text written for that map compiles to the value without it |
| Args.CarriesNames | src/utils.cpp:48-64 | every argument that gives a value for a parameter also names it |
| Args.Names | src/utils.cpp:50-52 | an argument names a parameter exactly when it is the parameter itself or carries a value for it |
| Args.Carries | src/utils.cpp:60 | an argument that carries a value is the parameter, then one delimiter, then the value |
| Args.CmdArgs.Contains | src/utils.cpp:48-54 | some argument is the bare parameter or carries a value for it |
| Args.CmdArgs.constructor | src/utils.cpp:42-46 | the command line starts empty |
| Args.CmdArgs.ParseCmdArgs | src/utils.cpp:42-46 | every argument is appended, in order, the program name included |
| Args.CmdArgs.Value | src/utils.cpp:56-64 | the text after the delimiter of the first argument that gives a value, or empty when none does; a non-empty value implies the parameter is contained |
| Args.BareParameter | src/utils.cpp:48-54 | a parameter given on its own is contained |
| Paths.LastNonSeparator | src/utils.cpp:374-382 | the first backward loop stops at the last non-`/`, or runs off the front |
| Paths.LastSeparator | src/utils.cpp:383-391 | the second backward loop stops at the last `/`, or runs off the front |
| Paths.ParentPath | src/utils.cpp:368-401 | the two backward loops compute `Parent` |
| Paths.Parent | src/utils.cpp:368-401 | the parent is `/` or a prefix of the path, and it is shorter than the path unless it is empty |
| Paths.TrailingSeparator | src/utils.cpp:374-382 | a trailing `/` does not change the parent |
| Paths.ParentIsPrefix | src/utils.cpp:368-401 | the parent is empty, `/`, or a proper prefix of the path that is followed by a `/` and then by a non-`/` |
| Paths.RootParent | src/utils.cpp:392-396 | a path whose only separator, apart from trailing ones, is the leading `/` has the parent `/` |
| Paths.NoSeparatorNoParent | src/utils.cpp:383-389 | a path without any `/` has no parent |
| Extension.FindLast | src/main.cpp:34 | `find_last_of('.')`: the last index holding the character, or -1 for `npos` |
| Extension.ReplaceExtension | src/main.cpp:32-38 | the result is a prefix of the path followed by the new extension; the part dropped is empty when the path has no `.`, and otherwise starts at its last `.` |
| Extension.ReplaceExtensionShape | src/main.cpp:32-38 | without a `.` the extension is appended; otherwise the path is cut at its last `.`; the result always ends with the new extension |
| Extension.FindLastInExtension | src/main.cpp:34 | the last `.` of a name ending in `.ext` is the one that starts the extension |
| Extension.ReplaceExtensionIdempotent | src/main.cpp:32-38 | replacing twice by an extension with one leading `.` is the same as replacing once |
| Extension.BinNameIsStable | src/main.cpp:72 | the `.bin` output name is a fixed point of `replaceExtension` |

## Left out

- File I/O is an input of the model, not performed by it.
  - `readFile` becomes `SourceFile.content`: `None` when the file cannot be
    read.
  - `writeFile` and `writeBinFile` become the flag `writeOk`.
  - `readBinFile` takes the file's bytes.
- `writeBinFile` can stop after a partial write. The model gives only its
  result: the bytes of a complete file, or failure.
- `fileExists`, `getFilesWithExtension`, `appPath`, `fromNativeSeparators`,
  `toNativeSeparators` and `NS_Logger` are outside the core and not modelled.
- The Windows branches are not modelled:
  - wide strings and the UTF-8 conversions;
  - the `\` separator and the empty-string root of `parentPath`.
- `main`'s argument handling is not modelled. Only `replaceExtension`, and its
  use for the `.bin` name, are.
- Walk order: `std::unordered_map` walks in an unspecified order. The model
  lets a loop pick any key not yet visited, and states its results for every
  such order.
- `CodecMaps.DecodeEncodeMap` and `IslParser.ISLParser.TranslationToBin`
  state their round trip only under `MapFits`: every count and length fits
  its field.
  - The truncation itself is modelled: `U8` and `U16` keep the low bits of
    a count or length, while `Text8` and `Text16` write the bytes in full.
  - `BinFile.WriteBinFile` states the bytes it writes, `Encode` of a listing,
    for every map, with no size condition.
  - What `Decode` makes of the file written for an over-long map is not
    stated.
- `Reparse.RenderedMapReparses` holds only for maps in `ReparsableMap`. Two
  losses fall outside it:
  - an id with an empty locale map is written as a bare line break, so it
    is gone on reading;
  - a value that ends in a carriage return loses it on reading.
- `Reparse.Recompile` holds only for maps in `ReparsableMap`, and loses the
  same two things: an id with no locale, and a value's trailing carriage
  return.
- Exceptions: `std::out_of_range` is modelled only where the scanner raises
  it, at `translations.at(len)`. It becomes a returned flag (`outOfRange`,
  `Threw`), not a C++ exception. Allocation failures are not modelled.

## Findings

| source | as written | input that shows it | evidently intended | confidence | as-written member | corrected member |
|---|---|---|---|---|---|---|
| src/islparser.cpp:231-233 | an id enters the map as soon as it is read, before any value, so a source line with no value leaves an id with no locale; `binToTranslation` writes such an id as a bare line break | the source `en.T ` | the text `binToTranslation` writes compiles back to the map it was written from | not executed | Reparse.IdWithoutLocaleLost | Reparse.Recompile |
| src/islparser.cpp:293-294 | one trailing carriage return is removed from every value read, but a stored value can still end in one, when its line ended in two; `binToTranslation` writes it unchanged, and reading it back removes it | the source `en.T =a` followed by two carriage returns | the text `binToTranslation` writes compiles back to the map it was written from | not executed | Reparse.TrailingCRLost | Reparse.Recompile |
