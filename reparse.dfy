/** Reading back what `ISLParser::binToTranslation` writes: each line
    `locale.id =value` it renders is scanned by `parseTranslations` into the
    (id, locale) value it came from, so a map written out as text and compiled
    again by `translationToBin` is the same map. */
module Reparse {
  import opened Common
  import opened Lexer
  import opened LexerSteps
  import LexerLemmas
  import LexerMerge
  import opened Render
  import opened Driver
  import Codec
  import CodecMaps

  // ---------------------------------------------------------------------------
  // Where a piece of text stands

  /** `x` stands in `s` from index `o` on. */
  ghost predicate At(s: TString, o: nat, x: TString)
  {
    o + |x| <= |s| && s[o..o + |x|] == x
  }

  lemma AtSplit(s: TString, o: nat, a: TString, b: TString)
    requires At(s, o, a + b)
    ensures At(s, o, a) && At(s, o + |a|, b)
  {
    var w := s[o..o + |a| + |b|];
    assert w == a + b;
    assert s[o..o + |a|] == w[..|a|];
    assert w[..|a|] == a;
    assert s[o + |a|..o + |a| + |b|] == w[|a|..];
    assert w[|a|..] == b;
  }

  /** As `AtSplit`, with the position where `b` starts given as `m`. */
  lemma AtSplitAt(s: TString, o: nat, a: TString, b: TString, m: nat)
    requires At(s, o, a + b) && m == o + |a|
    ensures At(s, o, a) && At(s, m, b)
  {
    AtSplit(s, o, a, b);
  }

  lemma AtIndex(s: TString, o: nat, x: TString, i: nat)
    requires At(s, o, x) && i < |x|
    ensures s[o + i] == x[i]
  {
    assert s[o..o + |x|][i] == s[o + i];
  }

  // ---------------------------------------------------------------------------
  // The scans of a rendered line end where the line's parts end

  lemma {:induction false} LocaleRunEndAt(s: TString, from: nat, e: nat)
    requires from <= e < |s| && !IsLocaleChar(s[e])
    requires forall k :: from <= k < e ==> IsLocaleChar(s[k])
    ensures LocaleRunEnd(s, from) == e
    decreases e - from
  {
    if from < e {
      LocaleRunEndAt(s, from + 1, e);
    }
  }

  lemma {:induction false} StringIdRunEndAt(s: TString, from: nat, e: nat)
    requires from <= e < |s| && !IsStringIdChar(s[e])
    requires forall k :: from <= k < e ==> IsStringIdChar(s[k])
    ensures StringIdRunEnd(s, from) == e
    decreases e - from
  {
    if from < e {
      StringIdRunEndAt(s, from + 1, e);
    }
  }

  lemma {:induction false} FindAt(s: TString, c: char, from: nat, e: nat)
    requires from <= e < |s| && s[e] == c
    requires forall k :: from <= k < e ==> s[k] != c
    ensures Find(s, c, from) == e
    decreases e - from
  {
    if from < e {
      FindAt(s, c, from + 1, e);
    }
  }

  // ---------------------------------------------------------------------------
  // Values that survive a render and a re-scan

  predicate EndsInCR(v: TString)
  {
    |v| > 0 && v[|v| - 1] == '\r'
  }

  /** A value is read back unchanged when it holds no backslash-n pair (the
      scanner would unescape it) and does not end in a carriage return (the
      scanner would strip it). */
  predicate Reparsable(v: TString)
  {
    NoEscapePair(v) && !EndsInCR(v)
  }

  /** Escaping only ends in a carriage return when the value does. */
  lemma {:induction false} EscapeEndsInCR(v: TString)
    ensures EndsInCR(Escape(v)) ==> EndsInCR(v)
    decreases |v|
  {
    if v != [] {
      EscapeEndsInCR(v[1..]);
      var head: TString := if v[0] == '\n' then ['\\', 'n'] else [v[0]];
      var r := Escape(v[1..]);
      assert Escape(v) == head + r;
      if r != [] {
        assert Escape(v)[|Escape(v)| - 1] == r[|r| - 1];
        assert v[1..][|v[1..]| - 1] == v[|v| - 1];
      }
    }
  }

  // ---------------------------------------------------------------------------
  // One line, part by part

  /** The state after a line break at `q - 1`: between entries, or at the end. */
  function Resume(text: TString, q: nat, id: TString, loc: TString, tm: TranslationsMap): Lexer
  {
    Lexer(if q == |text| then EndDocument else EndValue, q, id, loc, tm)
  }

  /** The locale name between entries: it is recorded as the current locale. */
  lemma LocaleScan(text: TString, s: Lexer, name: TString, next: nat)
    requires Awaiting(s.token) && IsLocaleName(name)
    requires At(text, s.pos, name + Dot) && next == s.pos + |name|
    ensures Run(text, s) == Run(text, Lexer(EndLocale, next, s.stringId, name, s.tm))
  {
    var o, n := s.pos, |name|;
    forall k | o <= k < o + n
      ensures IsLocaleChar(text[k])
    {
      AtIndex(text, o, name + Dot, k - o);
    }
    AtIndex(text, o, name + Dot, n);
    LocaleRunEndAt(text, o, o + n);
    AtIndex(text, o, name + Dot, 0);
    StepEntryStart(text, s, o + n);
    var s1 := s.(token := BeginLocale);
    RunNext(text, s, s1);
    StepBeginLocale(text, s1, o + n);
    assert text[o..o + n] == name by {
      AtSplit(text, o, name, Dot);
    }
    assert Step(text, s1) == Next(Lexer(EndLocale, next, s.stringId, name, s.tm));
    RunNext(text, s1, Lexer(EndLocale, next, s.stringId, name, s.tm));
  }

  /** The dot after the locale: the scanner waits for the string id. */
  lemma DotPart(text: TString, q: nat, id: TString, loc: TString, tm: TranslationsMap, next: nat)
    requires At(text, q, Dot) && next == q + 1 && next < |text|
    ensures Run(text, Lexer(EndLocale, q, id, loc, tm)) == Run(text, Lexer(BeginStringId, next, id, loc, tm))
  {
    AtIndex(text, q, Dot, 0);
    var s2 := Lexer(EndLocale, q, id, loc, tm);
    StepExpect(text, s2, '.', BeginStringId);
    assert Step(text, s2) == Next(Lexer(BeginStringId, next, id, loc, tm));
    RunNext(text, s2, Lexer(BeginStringId, next, id, loc, tm));
  }

  /** `locale.` between entries: the locale is recorded and the scanner waits
      for the string id after the dot. */
  lemma LocalePart(text: TString, s: Lexer, name: TString, next: nat)
    requires Awaiting(s.token) && IsLocaleName(name)
    requires At(text, s.pos, name + Dot) && next == s.pos + |name| + 1 && next < |text|
    ensures Run(text, s) == Run(text, Lexer(BeginStringId, next, s.stringId, name, s.tm))
  {
    var q := s.pos + |name|;
    AtSplitAt(text, s.pos, name, Dot, q);
    DotPart(text, q, s.stringId, name, s.tm, next);
    LocaleScan(text, s, name, q);
  }

  /** The string id: it is noted in the map as the current id. */
  lemma IdScan(text: TString, s: Lexer, key: TString, next: nat)
    requires s.token == BeginStringId && IsStringId(key)
    requires At(text, s.pos, key + Assign) && next == s.pos + |key|
    ensures Run(text, s) == Run(text, Lexer(EndStringId, next, key, s.currentLocale, NoteStringId(s.tm, key)))
  {
    var o, k := s.pos, |key|;
    forall j | o <= j < o + k
      ensures IsStringIdChar(text[j])
    {
      AtIndex(text, o, key + Assign, j - o);
    }
    AtIndex(text, o, key + Assign, k);
    StringIdRunEndAt(text, o, o + k);
    assert text[o..o + k] == key by {
      AtSplit(text, o, key, Assign);
    }
    AtIndex(text, o, key + Assign, 0);
    StepStringId(text, s, o + k);
    var s4 := Lexer(EndStringId, next, key, s.currentLocale, NoteStringId(s.tm, key));
    assert Step(text, s) == Next(s4);
    RunNext(text, s, s4);
  }

  /** ` =` after the string id: the scanner waits for the value. */
  lemma AssignPart(text: TString, q: nat, id: TString, loc: TString, tm: TranslationsMap, next: nat)
    requires At(text, q, Assign) && next == q + 2 && next < |text|
    ensures Run(text, Lexer(EndStringId, q, id, loc, tm)) == Run(text, Lexer(BeginValue, next, id, loc, tm))
  {
    AtIndex(text, q, Assign, 0);
    AtIndex(text, q, Assign, 1);
    var s4 := Lexer(EndStringId, q, id, loc, tm);
    var s5 := Lexer(EndStringId, q + 1, id, loc, tm);
    var s6 := Lexer(BeginValue, next, id, loc, tm);
    StepSkip(text, s4);
    assert Step(text, s4) == Next(s5);
    StepExpect(text, s5, '=', BeginValue);
    assert Step(text, s5) == Next(s6);
    RunNext(text, s5, s6);
    RunNext(text, s4, s5);
  }

  /** `id =`: the string id is noted in the map and the scanner waits for
      the value. */
  lemma IdPart(text: TString, s: Lexer, key: TString, next: nat)
    requires s.token == BeginStringId && IsStringId(key)
    requires At(text, s.pos, key + Assign) && next == s.pos + |key| + 2 && next < |text|
    ensures Run(text, s) == Run(text, Lexer(BeginValue, next, key, s.currentLocale, NoteStringId(s.tm, key)))
  {
    var q := s.pos + |key|;
    AtSplitAt(text, s.pos, key, Assign, q);
    AssignPart(text, q, key, s.currentLocale, NoteStringId(s.tm, key), next);
    IdScan(text, s, key, q);
  }

  /** The line after the `=` of a rendered line ends right after the escaped
      value. */
  lemma ValueEnd(text: TString, o: nat, v: TString, end: nat, next: nat)
    requires At(text, o, Escape(v) + Newline) && end == o + |Escape(v)| && next == end + 1
    ensures end < |text| && IsSeparator(text[end])
    ensures Find(text, '\n', o) == end
  {
    var e := Escape(v);
    forall j | o <= j < o + |e|
      ensures text[j] != '\n'
    {
      AtIndex(text, o, e + Newline, j - o);
    }
    AtIndex(text, o, e + Newline, |e|);
    FindAt(text, '\n', o, end);
  }

  /** That line reads back as the value. */
  lemma ValueRead(text: TString, o: nat, v: TString, end: nat)
    requires Reparsable(v) && At(text, o, Escape(v) + Newline) && end == o + |Escape(v)|
    ensures end <= |text| && LineValue(text, o, end) == v
  {
    var e := Escape(v);
    AtSplit(text, o, e, Newline);
    assert text[o..end] == e;
    EscapeEndsInCR(v);
    assert StripCR(e) == e;
    LexerLemmas.UnescapeEscape(v);
  }

  /** The escaped value and its line break: the value is stored under the
      current id and locale, and the line break is skipped. */
  lemma ValuePart(text: TString, q: nat, id: TString, loc: TString, tm: TranslationsMap, v: TString, next: nat)
    requires Reparsable(v)
    requires At(text, q, Escape(v) + Newline) && next == q + |Escape(v)| + 1
    ensures Run(text, Lexer(BeginValue, q, id, loc, tm)) == Run(text, Resume(text, next, id, loc, StoreValue(tm, id, loc, v)))
  {
    var end := q + |Escape(v)|;
    ValueEnd(text, q, v, end, next);
    ValueRead(text, q, v, end);
    var s6 := Lexer(BeginValue, q, id, loc, tm);
    var tm2 := StoreValue(tm, id, loc, v);
    var s7 := Lexer(EndValue, end, id, loc, tm2);
    var s8 := Resume(text, next, id, loc, tm2);
    StepBeginValue(text, s6, end);
    assert Step(text, s6) == Next(s7);
    StepSkip(text, s7);
    assert Step(text, s7) == Next(s8);
    RunNext(text, s7, s8);
    RunNext(text, s6, s7);
  }

  /** Where the parts of a rendered line stand. */
  lemma LineLayout(text: TString, o: nat, key: TString, p: LocalePair, p1: nat, p2: nat, next: nat)
    requires At(text, o, RenderPair(key, p)) && next == o + |RenderPair(key, p)|
    requires p1 == o + |p.name| + 1 && p2 == p1 + |key| + 2
    ensures At(text, o, p.name + Dot) && At(text, p1, key + Assign) && At(text, p2, Escape(p.value) + Newline)
    ensures p1 < |text| && p2 < |text| && next == p2 + |Escape(p.value)| + 1
  {
    var a, b, c := p.name + Dot, key + Assign, Escape(p.value) + Newline;
    assert RenderPair(key, p) == a + b + c;
    AtSplitAt(text, o, a + b, c, p2);
    AtSplitAt(text, o, a, b, p1);
  }

  /** A whole rendered line, read from between two entries. */
  lemma LineRun(text: TString, s: Lexer, key: TString, p: LocalePair, next: nat)
    requires Awaiting(s.token) && IsStringId(key) && IsLocaleName(p.name) && Reparsable(p.value)
    requires At(text, s.pos, RenderPair(key, p)) && next == s.pos + |RenderPair(key, p)|
    ensures Run(text, s) == Run(text, Resume(text, next, key, p.name, StoreValue(NoteStringId(s.tm, key), key, p.name, p.value)))
  {
    var p1 := s.pos + |p.name| + 1;
    var p2 := p1 + |key| + 2;
    LineLayout(text, s.pos, key, p, p1, p2, next);
    var s3 := Lexer(BeginStringId, p1, s.stringId, p.name, s.tm);
    ValuePart(text, p2, key, p.name, NoteStringId(s.tm, key), p.value, next);
    IdPart(text, s3, key, p2);
    LocalePart(text, s, p.name, p1);
  }

  // ---------------------------------------------------------------------------
  // Lines, entries, the whole text

  ghost predicate ReparsablePairs(ls: seq<LocalePair>)
  {
    forall i :: 0 <= i < |ls| ==> IsLocaleName(ls[i].name) && Reparsable(ls[i].value)
  }

  lemma UpdateTwice<K, V>(m: map<K, V>, k: K, a: V, b: V)
    ensures m[k := a][k := b] == m[k := b]
  {
  }

  /** The map after the first line of a string id. */
  lemma FirstLineMap(tm: TranslationsMap, key: TString, ls: seq<LocalePair>)
    requires key != [] && |ls| == 1 && ls[|ls| - 1].name != []
    ensures StoreValue(NoteStringId(tm, key), key, ls[|ls| - 1].name, ls[|ls| - 1].value)
            == tm[key := LexerMerge.Under(tm, key) + LocalesToMap(ls)]
  {
    var u := LexerMerge.Under(tm, key);
    var p := ls[|ls| - 1];
    var tm0 := NoteStringId(tm, key);
    assert key in tm0 && tm0[key] == u;
    assert StoreValue(tm0, key, p.name, p.value) == tm0[key := u[p.name := p.value]];
    assert ls[..|ls| - 1] == [];
    assert LocalesToMap(ls) == map[][p.name := p.value];
    LexerMerge.UnionUpdate(u, map[], p.name, p.value);
    LexerMerge.UnionEmpty(u);
    if key in tm {
      assert tm0 == tm;
    } else {
      assert tm0 == tm[key := map[]];
      UpdateTwice(tm, key, map[], u + LocalesToMap(ls));
    }
  }

  /** The map after a further line of the same string id. */
  lemma NextLineMap(tm: TranslationsMap, key: TString, ls: seq<LocalePair>, tm1: TranslationsMap)
    requires key != [] && |ls| > 1 && ls[|ls| - 1].name != []
    requires tm1 == tm[key := LexerMerge.Under(tm, key) + LocalesToMap(ls[..|ls| - 1])]
    ensures StoreValue(NoteStringId(tm1, key), key, ls[|ls| - 1].name, ls[|ls| - 1].value)
            == tm[key := LexerMerge.Under(tm, key) + LocalesToMap(ls)]
  {
    var u := LexerMerge.Under(tm, key);
    var l0 := LocalesToMap(ls[..|ls| - 1]);
    var p := ls[|ls| - 1];
    assert key in tm1 && tm1[key] == u + l0;
    assert NoteStringId(tm1, key) == tm1;
    assert StoreValue(tm1, key, p.name, p.value) == tm1[key := (u + l0)[p.name := p.value]];
    LexerMerge.UnionUpdate(u, l0, p.name, p.value);
    assert LocalesToMap(ls) == l0[p.name := p.value];
    UpdateTwice(tm, key, u + l0, u + LocalesToMap(ls));
  }

  /** A further line of the same string id, read after the line before it. */
  lemma PairsStep(text: TString, q1: nat, key: TString, loc: TString, ls: seq<LocalePair>, tm: TranslationsMap, next: nat)
    requires |ls| > 1 && IsStringId(key) && IsLocaleName(ls[|ls| - 1].name) && Reparsable(ls[|ls| - 1].value)
    requires At(text, q1, RenderPair(key, ls[|ls| - 1])) && next == q1 + |RenderPair(key, ls[|ls| - 1])|
    ensures Run(text, Resume(text, q1, key, loc, tm[key := LexerMerge.Under(tm, key) + LocalesToMap(ls[..|ls| - 1])]))
         == Run(text, Resume(text, next, key, ls[|ls| - 1].name, tm[key := LexerMerge.Under(tm, key) + LocalesToMap(ls)]))
  {
    var tm1 := tm[key := LexerMerge.Under(tm, key) + LocalesToMap(ls[..|ls| - 1])];
    NextLineMap(tm, key, ls, tm1);
    var mid := Resume(text, q1, key, loc, tm1);
    assert mid.pos == q1 && Awaiting(mid.token) && mid.tm == tm1;
    LineRun(text, mid, key, ls[|ls| - 1], next);
  }

  /** Where the lines before the last one and the last line stand. */
  lemma PairsLayout(text: TString, o: nat, key: TString, ls: seq<LocalePair>, q1: nat, next: nat)
    requires ls != [] && At(text, o, RenderPairs(key, ls)) && next == o + |RenderPairs(key, ls)|
    requires q1 == o + |RenderPairs(key, ls[..|ls| - 1])|
    ensures At(text, o, RenderPairs(key, ls[..|ls| - 1]))
    ensures At(text, q1, RenderPair(key, ls[|ls| - 1])) && next == q1 + |RenderPair(key, ls[|ls| - 1])|
    ensures q1 < |text| && (ls[..|ls| - 1] == [] ==> q1 == o)
  {
    assert RenderPairs(key, ls) == RenderPairs(key, ls[..|ls| - 1]) + RenderPair(key, ls[|ls| - 1]);
    AtSplitAt(text, o, RenderPairs(key, ls[..|ls| - 1]), RenderPair(key, ls[|ls| - 1]), q1);
  }

  /** What the last pair and the pairs before it inherit from the listing. */
  lemma PairsInit(ls: seq<LocalePair>)
    requires ls != [] && ReparsablePairs(ls)
    ensures ReparsablePairs(ls[..|ls| - 1])
    ensures IsLocaleName(ls[|ls| - 1].name) && Reparsable(ls[|ls| - 1].value) && ls[|ls| - 1].name != []
  {
    var init := ls[..|ls| - 1];
    forall i | 0 <= i < |init| ensures init[i] == ls[i] { }
  }

  /** The lines of one string id add its locales to whatever the id held. */
  lemma {:induction false} PairsRun(text: TString, s: Lexer, key: TString, ls: seq<LocalePair>, next: nat)
    requires ls != [] && Awaiting(s.token) && IsStringId(key) && ReparsablePairs(ls)
    requires At(text, s.pos, RenderPairs(key, ls)) && next == s.pos + |RenderPairs(key, ls)|
    ensures Run(text, s) == Run(text, Resume(text, next, key, ls[|ls| - 1].name,
                                             s.tm[key := LexerMerge.Under(s.tm, key) + LocalesToMap(ls)]))
    decreases |ls|
  {
    var init := ls[..|ls| - 1];
    var q1 := s.pos + |RenderPairs(key, init)|;
    PairsLayout(text, s.pos, key, ls, q1, next);
    PairsInit(ls);
    if init == [] {
      FirstLineMap(s.tm, key, ls);
      LineRun(text, s, key, ls[|ls| - 1], next);
    } else {
      PairsStep(text, q1, key, init[|init| - 1].name, ls, s.tm, next);
      PairsRun(text, s, key, init, q1);
    }
  }

  ghost predicate ReparsableEntries(es: seq<Entry>)
  {
    forall i :: 0 <= i < |es| ==> IsStringId(es[i].key) && es[i].locales != [] && ReparsablePairs(es[i].locales)
  }

  /** Where the lines of an entry and the empty line after them stand. */
  lemma EntryLayout(text: TString, o: nat, e: Entry, q1: nat, next: nat)
    requires At(text, o, RenderEntry(e)) && next == o + |RenderEntry(e)|
    requires q1 == o + |RenderPairs(e.key, e.locales)|
    ensures At(text, o, RenderPairs(e.key, e.locales))
    ensures q1 < |text| && IsSeparator(text[q1]) && next == q1 + 1
  {
    AtSplitAt(text, o, RenderPairs(e.key, e.locales), Newline, q1);
    AtIndex(text, q1, Newline, 0);
  }

  /** One entry: its lines and the empty line after them. */
  lemma EntryRun(text: TString, s: Lexer, e: Entry, next: nat)
    requires Awaiting(s.token) && IsStringId(e.key) && e.locales != [] && ReparsablePairs(e.locales)
    requires At(text, s.pos, RenderEntry(e)) && next == s.pos + |RenderEntry(e)|
    ensures Run(text, s) == Run(text, Resume(text, next, e.key, e.locales[|e.locales| - 1].name,
                                             s.tm[e.key := LexerMerge.Under(s.tm, e.key) + LocalesToMap(e.locales)]))
  {
    var q1 := s.pos + |RenderPairs(e.key, e.locales)|;
    EntryLayout(text, s.pos, e, q1, next);
    var loc := e.locales[|e.locales| - 1].name;
    var tm1 := s.tm[e.key := LexerMerge.Under(s.tm, e.key) + LocalesToMap(e.locales)];
    var mid := Resume(text, q1, e.key, loc, tm1);
    StepSkip(text, mid);
    assert Step(text, mid) == Next(Resume(text, next, e.key, loc, tm1));
    RunNext(text, mid, Resume(text, next, e.key, loc, tm1));
    PairsRun(text, s, e.key, e.locales, q1);
  }

  /** Adding the locales of a new last entry gives the map of the listing. */
  lemma EntryMap(es: seq<Entry>, m0: TranslationsMap)
    requires es != [] && m0 == Codec.EntriesToMap(es[..|es| - 1]) && es[|es| - 1].key !in m0
    ensures m0[es[|es| - 1].key := LexerMerge.Under(m0, es[|es| - 1].key) + LocalesToMap(es[|es| - 1].locales)]
            == Codec.EntriesToMap(es)
  {
    var l := LocalesToMap(es[|es| - 1].locales);
    assert LexerMerge.Under(m0, es[|es| - 1].key) == map[];
    assert map[] + l == l;
  }

  /** The string id and locale the scan of a listing ends on. */
  function LastKey(es: seq<Entry>): TString
    requires es != []
  {
    es[|es| - 1].key
  }

  function LastLocale(es: seq<Entry>): TString
    requires es != [] && es[|es| - 1].locales != []
  {
    var ls := es[|es| - 1].locales; ls[|ls| - 1].name
  }

  /** A further entry, read after the entries before it. */
  lemma EntriesStep(text: TString, q1: nat, id: TString, loc: TString, es: seq<Entry>, m0: TranslationsMap, next: nat)
    requires es != [] && m0 == Codec.EntriesToMap(es[..|es| - 1]) && es[|es| - 1].key !in m0
    requires IsStringId(es[|es| - 1].key) && es[|es| - 1].locales != [] && ReparsablePairs(es[|es| - 1].locales)
    requires At(text, q1, RenderEntry(es[|es| - 1])) && next == q1 + |RenderEntry(es[|es| - 1])|
    ensures Run(text, Resume(text, q1, id, loc, m0))
         == Run(text, Resume(text, next, LastKey(es), LastLocale(es), Codec.EntriesToMap(es)))
  {
    EntryMap(es, m0);
    var mid := Resume(text, q1, id, loc, m0);
    assert mid.pos == q1 && Awaiting(mid.token) && mid.tm == m0;
    EntryRun(text, mid, es[|es| - 1], next);
  }

  /** What a listing's last entry and the entries before it inherit from the
      listing. */
  lemma EntriesInit(es: seq<Entry>)
    requires es != [] && DistinctKeys(es) && ReparsableEntries(es)
    ensures DistinctKeys(es[..|es| - 1]) && ReparsableEntries(es[..|es| - 1])
    ensures es[|es| - 1].key !in Codec.EntriesToMap(es[..|es| - 1])
    ensures IsStringId(es[|es| - 1].key) && es[|es| - 1].locales != [] && ReparsablePairs(es[|es| - 1].locales)
    ensures es[..|es| - 1] != [] ==> es[..|es| - 1][|es[..|es| - 1]| - 1].locales != []
  {
    var init, e := es[..|es| - 1], es[|es| - 1];
    forall i | 0 <= i < |init| ensures init[i] == es[i] && init[i].key != e.key { }
  }

  /** Where the entries before the last one and the last entry stand. */
  lemma EntriesLayout(text: TString, o: nat, es: seq<Entry>, q1: nat, next: nat)
    requires es != [] && At(text, o, RenderEntries(es)) && next == o + |RenderEntries(es)|
    requires q1 == o + |RenderEntries(es[..|es| - 1])|
    ensures At(text, o, RenderEntries(es[..|es| - 1]))
    ensures At(text, q1, RenderEntry(es[|es| - 1])) && next == q1 + |RenderEntry(es[|es| - 1])|
    ensures q1 < |text| && (es[..|es| - 1] == [] ==> q1 == o && |es| == 1)
  {
    var init := es[..|es| - 1];
    assert RenderEntries(es) == RenderEntries(init) + RenderEntry(es[|es| - 1]);
    AtSplitAt(text, o, RenderEntries(init), RenderEntry(es[|es| - 1]), q1);
    if init == [] {
      assert |init| == |es| - 1;
      assert RenderEntries(init) == [];
    }
  }

  /** The first entry, read from the start of the scan on an empty map. */
  lemma EntriesFirst(text: TString, s: Lexer, es: seq<Entry>, next: nat)
    requires |es| == 1 && Awaiting(s.token) && s.tm == map[]
    requires IsStringId(es[|es| - 1].key) && es[|es| - 1].locales != [] && ReparsablePairs(es[|es| - 1].locales)
    requires At(text, s.pos, RenderEntry(es[|es| - 1])) && next == s.pos + |RenderEntry(es[|es| - 1])|
    ensures Run(text, s) == Run(text, Resume(text, next, LastKey(es), LastLocale(es), Codec.EntriesToMap(es)))
  {
    assert es[..|es| - 1] == [];
    EntryMap(es, s.tm);
    EntryRun(text, s, es[|es| - 1], next);
  }

  /** All entries, from the start of the scan on an empty map. */
  lemma {:induction false} EntriesRun(text: TString, s: Lexer, es: seq<Entry>, next: nat)
    requires es != [] && Awaiting(s.token) && s.tm == map[] && DistinctKeys(es) && ReparsableEntries(es)
    requires At(text, s.pos, RenderEntries(es)) && next == s.pos + |RenderEntries(es)|
    ensures Run(text, s) == Run(text, Resume(text, next, LastKey(es), LastLocale(es), Codec.EntriesToMap(es)))
    decreases |es|
  {
    var init := es[..|es| - 1];
    var q1 := s.pos + |RenderEntries(init)|;
    EntriesLayout(text, s.pos, es, q1, next);
    EntriesInit(es);
    if init == [] {
      EntriesFirst(text, s, es, next);
    } else {
      EntriesStep(text, q1, LastKey(init), LastLocale(init), es, Codec.EntriesToMap(init), next);
      EntriesRun(text, s, init, q1);
    }
  }

  /** Separators after the last entry are skipped to the end, and the scan
      ends valid. */
  lemma {:induction false} TailRun(text: TString, q: nat, id: TString, loc: TString, tm: TranslationsMap)
    requires q <= |text|
    requires forall k :: q <= k < |text| ==> IsSeparator(text[k])
    ensures Run(text, Resume(text, q, id, loc, tm)) == ParseResult(tm, Finished(true))
    decreases |text| - q
  {
    if q < |text| {
      var s := Resume(text, q, id, loc, tm);
      StepSkip(text, s);
      assert Step(text, s) == Next(Resume(text, q + 1, id, loc, tm));
      RunNext(text, s, Resume(text, q + 1, id, loc, tm));
      TailRun(text, q + 1, id, loc, tm);
    }
  }

  /** A text that starts with the rendering of a listing and goes on with
      separators only is accepted, and scans into exactly the listed map. */
  lemma ParseRendered(text: TString, es: seq<Entry>)
    requires es != [] && DistinctKeys(es) && ReparsableEntries(es)
    requires At(text, 0, RenderEntries(es))
    requires forall k :: |RenderEntries(es)| <= k < |text| ==> IsSeparator(text[k])
    ensures Parse(text, map[]) == ParseResult(Codec.EntriesToMap(es), Finished(true))
  {
    var n := |RenderEntries(es)|;
    assert es[|es| - 1].locales != [];
    TailRun(text, n, LastKey(es), LastLocale(es), Codec.EntriesToMap(es));
    EntriesRun(text, Start(map[]), es, n);
  }

  // ---------------------------------------------------------------------------
  // Maps

  /** A map whose text form reads back as the same map: not empty, every id
      with at least one locale (an id without one renders as an empty line
      only), and every id, locale and value as the scanner stores them. */
  ghost predicate ReparsableMap(m: TranslationsMap)
  {
    && m != map[]
    && forall id :: id in m ==>
         && IsStringId(id)
         && m[id] != map[]
         && forall loc :: loc in m[id] ==> IsLocaleName(loc) && Reparsable(m[id][loc])
  }

  lemma ListedReparsable(es: seq<Entry>, m: TranslationsMap)
    requires Lists(es, m) && ReparsableMap(m)
    ensures es != [] && ReparsableEntries(es)
  {
    var k :| k in m;
    assert es != [];
    forall i | 0 <= i < |es|
      ensures IsStringId(es[i].key) && es[i].locales != [] && ReparsablePairs(es[i].locales)
    {
      var ls := es[i].locales;
      assert m[es[i].key] == LocalesToMap(ls);
      forall j | 0 <= j < |ls|
        ensures IsLocaleName(ls[j].name) && Reparsable(ls[j].value)
      {
        assert forall j' :: j < j' < |ls| ==> ls[j'].name != ls[j].name;
        CodecMaps.LocalesLastWins(ls, j);
      }
    }
  }

  lemma AtWhole(s: TString)
    ensures At(s, 0, s)
  {
    assert s[0..|s|] == s;
  }

  /** The text `binToTranslation` writes for any walk order of the map scans
      back into that map. */
  lemma RenderedMapReparses(es: seq<Entry>, m: TranslationsMap)
    requires Lists(es, m) && ReparsableMap(m)
    ensures Parse(RenderEntries(es), map[]) == ParseResult(m, Finished(true))
  {
    ListedReparsable(es, m);
    CodecMaps.ListedMap(es, m);
    AtWhole(RenderEntries(es));
    ParseRendered(RenderEntries(es), es);
  }

  /** A single readable source contributes its text and a line break. */
  lemma GatherOne(path: TString, r: TString)
    ensures Gather([SourceFile(path, Some(r))]) == Gathered(Piece(r))
  {
    assert [SourceFile(path, Some(r))][..0] == [];
  }

  /** A text that scans valid into a map that is not empty is written exactly
      when the write succeeds. */
  lemma CompileScanned(files: seq<SourceFile>, t: TString, m: TranslationsMap, binPath: TString, writeOk: bool, errorSubstr: TString)
    requires Gather(files) == Gathered(t) && t != []
    requires Parse(t, map[]) == ParseResult(m, Finished(true)) && m != map[]
    ensures var c := Compile(files, binPath, writeOk, map[], errorSubstr);
      && (c.outcome == Written <==> writeOk)
      && c.tm == m
      && c.valid
  {
  }

  /** The rendering of a listing followed by a line break. */
  lemma PieceAt(r: TString)
    requires r != []
    ensures At(Piece(r), 0, r)
    ensures forall k :: |r| <= k < |Piece(r)| ==> IsSeparator(Piece(r)[k])
  {
    var t := Piece(r);
    assert t[0..|r|] == r;
    assert |t| == |r| + 1 && t[|r|] == '\n';
  }

  /** Compiling the text `binToTranslation` wrote, as the only source of a
      fresh parser, writes a bin file exactly when the write succeeds, and the
      parser then holds the original map. */
  lemma Recompile(es: seq<Entry>, m: TranslationsMap, path: TString, binPath: TString, writeOk: bool, errorSubstr: TString)
    requires Lists(es, m) && ReparsableMap(m)
    ensures var c := Compile([SourceFile(path, Some(RenderEntries(es)))], binPath, writeOk, map[], errorSubstr);
      && (c.outcome == Written <==> writeOk)
      && c.tm == m
      && c.valid
  {
    var r := RenderEntries(es);
    ListedReparsable(es, m);
    CodecMaps.ListedMap(es, m);
    assert r == RenderEntries(es[..|es| - 1]) + RenderEntry(es[|es| - 1]);
    PieceAt(r);
    ParseRendered(Piece(r), es);
    GatherOne(path, r);
    CompileScanned([SourceFile(path, Some(r))], Piece(r), m, binPath, writeOk, errorSubstr);
  }

  // ---------------------------------------------------------------------------
  // What the text form loses outside `ReparsableMap`

  /** `en.T` followed by a line break and no `=`: the id is noted and gets no
      locale, and the text is accepted. */
  lemma ScanIdWithoutValue()
    ensures Parse("en.T \n", map[]) == ParseResult(map["T" := map[]], Finished(true))
  {
    var t: TString := "en.T \n";
    var tm: TranslationsMap := map["T" := map[]];
    var s3 := Lexer(BeginStringId, 3, [], "en", map[]);
    var s4 := Lexer(EndStringId, 4, "T", "en", tm);
    var s5 := Lexer(EndStringId, 5, "T", "en", tm);
    var s6 := Lexer(EndDocument, 6, "T", "en", tm);
    assert At(t, 0, "en" + Dot);
    StringIdRunEndAt(t, 3, 4);
    assert t[3..4] == "T";
    assert NoteStringId(map[], "T") == tm;
    StepStringId(t, s3, 4);
    StepSkip(t, s4);
    StepSkip(t, s5);
    assert Step(t, s3) == Next(s4);
    assert Step(t, s4) == Next(s5);
    assert Step(t, s5) == Next(s6);
    RunNext(t, s5, s6);
    RunNext(t, s4, s5);
    RunNext(t, s3, s4);
    LocalePart(t, Start(map[]), "en", 3);
  }

  /** Empty lines only: accepted, and nothing is stored. */
  lemma ScanBlankLines()
    ensures Parse("\n\n", map[]) == ParseResult(map[], Finished(true))
  {
    TailRun("\n\n", 0, [], [], map[]);
  }

  /** `en.T =` at the front of a text: the scan stands at the value with the
      id noted. */
  lemma ValueLineHead(t: TString)
    requires At(t, 0, "en" + Dot + "T" + Assign) && 6 < |t|
    ensures Parse(t, map[]) == Run(t, Lexer(BeginValue, 6, "T", "en", map["T" := map[]]))
  {
    AtSplitAt(t, 0, "en" + Dot, "T" + Assign, 3);
    assert NoteStringId(map[], "T") == map["T" := map[]];
    IdPart(t, Lexer(BeginStringId, 3, [], "en", map[]), "T", 6);
    LocalePart(t, Start(map[]), "en", 3);
  }

  /** A value line ending in two carriage returns loses only the last one. */
  lemma DoubleCRValue()
    ensures Run("en.T =a\r\r\n", Lexer(BeginValue, 6, "T", "en", map["T" := map[]]))
         == Run("en.T =a\r\r\n", Lexer(EndValue, 9, "T", "en", map["T" := map["en" := "a\r"]]))
  {
    var t: TString := "en.T =a\r\r\n";
    var tm1: TranslationsMap := map["T" := map[]];
    FindAt(t, '\n', 6, 9);
    assert t[6..9] == "a\r\r";
    assert LineValue(t, 6, 9) == "a\r";
    assert StoreValue(tm1, "T", "en", "a\r") == map["T" := map["en" := "a\r"]];
    StepBeginValue(t, Lexer(BeginValue, 6, "T", "en", tm1), 9);
  }

  lemma ScanDoubleCR()
    ensures Parse("en.T =a\r\r\n", map[]) == ParseResult(map["T" := map["en" := "a\r"]], Finished(true))
  {
    var t: TString := "en.T =a\r\r\n";
    var tm2: TranslationsMap := map["T" := map["en" := "a\r"]];
    assert At(t, 0, "en" + Dot + "T" + Assign);
    ValueLineHead(t);
    DoubleCRValue();
    assert Resume(t, 9, "T", "en", tm2) == Lexer(EndValue, 9, "T", "en", tm2);
    TailRun(t, 9, "T", "en", tm2);
  }

  /** The line written for the value `a` followed by a carriage return. */
  lemma SingleCRValue()
    ensures Run("en.T =a\r\n\n\n", Lexer(BeginValue, 6, "T", "en", map["T" := map[]]))
         == Run("en.T =a\r\n\n\n", Lexer(EndValue, 8, "T", "en", map["T" := map["en" := "a"]]))
  {
    var t: TString := "en.T =a\r\n\n\n";
    var tm1: TranslationsMap := map["T" := map[]];
    FindAt(t, '\n', 6, 8);
    assert t[6..8] == "a\r";
    assert LineValue(t, 6, 8) == "a";
    assert StoreValue(tm1, "T", "en", "a") == map["T" := map["en" := "a"]];
    StepBeginValue(t, Lexer(BeginValue, 6, "T", "en", tm1), 8);
  }

  lemma ScanSingleCR()
    ensures Parse("en.T =a\r\n\n\n", map[]) == ParseResult(map["T" := map["en" := "a"]], Finished(true))
  {
    var t: TString := "en.T =a\r\n\n\n";
    var tm2: TranslationsMap := map["T" := map["en" := "a"]];
    assert At(t, 0, "en" + Dot + "T" + Assign);
    ValueLineHead(t);
    SingleCRValue();
    assert Resume(t, 8, "T", "en", tm2) == Lexer(EndValue, 8, "T", "en", tm2);
    TailRun(t, 8, "T", "en", tm2);
  }

  /** Compiling a single source: its text and a line break are scanned. */
  lemma CompileOne(path: TString, r: TString, binPath: TString, writeOk: bool, errorSubstr: TString)
    requires r != []
    ensures Compile([SourceFile(path, Some(r))], binPath, writeOk, map[], errorSubstr)
         == AfterParse(Piece(r), Parse(Piece(r), map[]), errorSubstr, binPath, writeOk)
  {
    GatherOne(path, r);
  }

  /** A single source whose text scans valid into a map that is not empty is
      written. */
  lemma CompileWrites(path: TString, r: TString, t: TString, m: TranslationsMap, binPath: TString, errorSubstr: TString)
    requires r != [] && Piece(r) == t && Parse(t, map[]) == ParseResult(m, Finished(true)) && m != map[]
    ensures var c := Compile([SourceFile(path, Some(r))], binPath, true, map[], errorSubstr);
      c.outcome == Written && c.tm == m
  {
    CompileOne(path, r, binPath, true, errorSubstr);
  }

  /** The source `en.T ` compiles into a map holding `T` with no locale. */
  lemma CompileIdWithoutValue(path: TString, src: TString, binPath: TString, errorSubstr: TString)
    requires src == "en.T "
    ensures var c := Compile([SourceFile(path, Some(src))], binPath, true, map[], errorSubstr);
      c.outcome == Written && c.tm == map["T" := map[]]
  {
    assert Piece(src) == "en.T \n";
    ScanIdWithoutValue();
    var m: TranslationsMap := map["T" := map[]];
    assert "T" in m;
    CompileWrites(path, src, "en.T \n", m, binPath, errorSubstr);
  }

  /** A source holding one empty line compiles into an empty map, which is refused. */
  lemma CompileBlankLine(path: TString, src: TString, binPath: TString, errorSubstr: TString)
    requires src == "\n"
    ensures Compile([SourceFile(path, Some(src))], binPath, true, map[], errorSubstr).outcome == Failed(MapEmpty)
  {
    CompileOne(path, src, binPath, true, errorSubstr);
    assert Piece(src) == "\n\n";
    ScanBlankLines();
  }

  /** As written, an id named without any value is compiled into the binary
      file with an empty locale map; `binToTranslation` writes that id as an
      empty line only, and compiling that text again fails because the map is
      empty. */
  lemma IdWithoutLocaleLost(path: TString, src: TString, binPath: TString, errorSubstr: TString)
    requires src == "en.T "
    ensures var c := Compile([SourceFile(path, Some(src))], binPath, true, map[], errorSubstr);
      c.outcome == Written && c.tm == map["T" := map[]]
    ensures Lists([Entry("T", [])], map["T" := map[]])
    ensures var text := RenderEntries([Entry("T", [])]);
      text == "\n" && Compile([SourceFile(path, Some(text))], binPath, true, map[], errorSubstr).outcome == Failed(MapEmpty)
  {
    CompileIdWithoutValue(path, src, binPath, errorSubstr);
    var text := RenderEntries([Entry("T", [])]);
    assert text == "\n";
    CompileBlankLine(path, text, binPath, errorSubstr);
  }

  /** The source `en.T =a` followed by two carriage returns keeps one of them. */
  lemma CompileDoubleCR(path: TString, src: TString, binPath: TString, errorSubstr: TString)
    requires src == "en.T =a\r\r"
    ensures var c := Compile([SourceFile(path, Some(src))], binPath, true, map[], errorSubstr);
      c.outcome == Written && c.tm == map["T" := map["en" := "a\r"]]
  {
    assert Piece(src) == "en.T =a\r\r\n";
    ScanDoubleCR();
    var m: TranslationsMap := map["T" := map["en" := "a\r"]];
    assert "T" in m;
    CompileWrites(path, src, "en.T =a\r\r\n", m, binPath, errorSubstr);
  }

  /** The text written for that map compiles without the carriage return. */
  lemma CompileSingleCR(path: TString, src: TString, binPath: TString, errorSubstr: TString)
    requires src == "en.T =a\r\n\n"
    ensures var c := Compile([SourceFile(path, Some(src))], binPath, true, map[], errorSubstr);
      c.outcome == Written && c.tm == map["T" := map["en" := "a"]]
  {
    assert Piece(src) == "en.T =a\r\n\n\n";
    ScanSingleCR();
    var m: TranslationsMap := map["T" := map["en" := "a"]];
    assert "T" in m;
    CompileWrites(path, src, "en.T =a\r\n\n\n", m, binPath, errorSubstr);
  }

  /** As written, a value ending in a carriage return is compiled with it,
      but the text `binToTranslation` writes for it compiles back without it. */
  lemma TrailingCRLost(path: TString, src: TString, binPath: TString, errorSubstr: TString)
    requires src == "en.T =a\r\r"
    ensures var c := Compile([SourceFile(path, Some(src))], binPath, true, map[], errorSubstr);
      c.outcome == Written && c.tm == map["T" := map["en" := "a\r"]]
    ensures Lists([Entry("T", [LocalePair("en", "a\r")])], map["T" := map["en" := "a\r"]])
    ensures var text := RenderEntries([Entry("T", [LocalePair("en", "a\r")])]);
      && text == "en.T =a\r\n\n"
      && var c := Compile([SourceFile(path, Some(text))], binPath, true, map[], errorSubstr);
         c.outcome == Written && c.tm == map["T" := map["en" := "a"]]
  {
    CompileDoubleCR(path, src, binPath, errorSubstr);
    ListsDoubleCR();
    RenderDoubleCR();
    CompileSingleCR(path, "en.T =a\r\n\n", binPath, errorSubstr);
  }

  /** The map with the kept carriage return is listed by its only entry. */
  lemma ListsDoubleCR()
    ensures Lists([Entry("T", [LocalePair("en", "a\r")])], map["T" := map["en" := "a\r"]])
  {
    var ls := [LocalePair("en", "a\r")];
    var es := [Entry("T", ls)];
    var m: TranslationsMap := map["T" := map["en" := "a\r"]];
    assert DistinctNames(ls);
    assert LocalesToMap(ls) == map["en" := "a\r"];
    forall k | k in m ensures exists i :: 0 <= i < |es| && es[i].key == k {
      assert es[0].key == k;
    }
  }

  /** The map with the kept carriage return is written back as one line and
      an empty line. */
  lemma RenderDoubleCR()
    ensures RenderEntries([Entry("T", [LocalePair("en", "a\r")])]) == "en.T =a\r\n\n"
  {
    assert RenderPairs("T", [LocalePair("en", "a\r")]) == "en.T =a\r\n";
  }
}
