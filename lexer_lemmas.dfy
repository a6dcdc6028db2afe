/** Properties of the lexer's value handling and of the state machine. */
module LexerLemmas {
  import opened Common
  import opened Lexer

  // ---------------------------------------------------------------------------
  // Escapes

  /** A value produced by `Unescape` never contains a backslash-n pair. */
  lemma {:induction false} UnescapeHasNoPair(s: TString)
    ensures NoEscapePair(Unescape(s))
    decreases |s|
  {
    var r := Unescape(s);
    if |s| >= 2 && s[0] == '\\' && s[1] == 'n' {
      UnescapeHasNoPair(s[2..]);
      var t := Unescape(s[2..]);
      assert r == ['\n'] + t;
      forall i | 0 <= i < |r| ensures !EscapeAt(r, i) {
        if i > 0 { assert !EscapeAt(t, i - 1); }
      }
    } else if s != [] {
      UnescapeHasNoPair(s[1..]);
      var t := Unescape(s[1..]);
      assert r == [s[0]] + t;
      forall i | 0 <= i < |r| ensures !EscapeAt(r, i) {
        if i > 0 { assert !EscapeAt(t, i - 1); }
      }
    }
  }

  /** Text without a backslash-n pair is left as it is. */
  lemma {:induction false} UnescapeIdentity(s: TString)
    requires NoEscapePair(s)
    ensures Unescape(s) == s
    decreases |s|
  {
    if s != [] {
      assert !EscapeAt(s, 0);
      assert NoEscapePair(s[1..]) by {
        forall i | 0 <= i < |s[1..]| ensures !EscapeAt(s[1..], i) { assert !EscapeAt(s, i + 1); }
      }
      UnescapeIdentity(s[1..]);
    }
  }

  /** Re-escaping then unescaping gives back every value without a backslash-n pair. */
  lemma {:induction false} UnescapeEscape(v: TString)
    requires NoEscapePair(v)
    ensures Unescape(Escape(v)) == v
    decreases |v|
  {
    if v != [] {
      assert NoEscapePair(v[1..]) by {
        forall i | 0 <= i < |v[1..]| ensures !EscapeAt(v[1..], i) { assert !EscapeAt(v, i + 1); }
      }
      UnescapeEscape(v[1..]);
      var t := Escape(v[1..]);
      if v[0] == '\n' {
        assert Escape(v) == ['\\', 'n'] + t;
        assert (['\\', 'n'] + t)[2..] == t;
      } else {
        assert Escape(v) == [v[0]] + t;
        assert ([v[0]] + t)[1..] == t;
        if v[0] == '\\' && |v| >= 2 {
          assert !EscapeAt(v, 0);
          assert t[0] != 'n';
        }
      }
    }
  }

  /** Every value the parser can store survives a render and re-parse of its escape. */
  lemma ParsedValueRoundTrip(s: TString)
    ensures Unescape(Escape(Unescape(s))) == Unescape(s)
  {
    UnescapeHasNoPair(s);
    UnescapeEscape(Unescape(s));
  }
}

module LexerInvariants {
  import opened Common
  import opened Lexer
  import opened LexerLemmas

  // ---------------------------------------------------------------------------
  // Well-formedness of everything the parser stores

  /** What holds of every state the scanner reaches from its start state. */
  ghost predicate LexInv(text: TString, s: Lexer)
  {
    && WellFormedMap(s.tm)
    && (s.currentLocale == [] || IsLocaleName(s.currentLocale))
    && (s.token == BeginLocale && s.pos < |text| ==> IsLocaleLength(LocaleRunEnd(text, s.pos) - s.pos))
  }

  lemma IdStepKeepsInv(text: TString, s: Lexer)
    requires s.pos < |text| && s.token == BeginStringId && LexInv(text, s) && IdStep(text, s).Next?
    ensures LexInv(text, IdStep(text, s).next)
  {
    var pos := s.pos;
    if !IsSeparator(text[pos]) {
      var end := StringIdRunEnd(text, pos);
      var id := text[pos..end];
      assert id != [] ==> IsStringId(id);
      assert WellFormedMap(NoteStringId(s.tm, id));
    }
  }

  lemma ValueStepKeepsInv(text: TString, s: Lexer)
    requires s.pos < |text| && s.token == BeginValue && LexInv(text, s)
    ensures LexInv(text, ValueStep(text, s).next)
  {
    var pos := s.pos;
    var end := Find(text, '\n', pos);
    var val := LineValue(text, pos, end);
    UnescapeHasNoPair(StripCR(text[pos..end]));
    var tm' := StoreValue(s.tm, s.stringId, s.currentLocale, val);
    assert WellFormedMap(tm');
    assert ValueStep(text, s) == Advance(text, s.(token := EndValue, tm := tm'), end - pos);
  }

  lemma LocaleStepKeepsInv(text: TString, s: Lexer)
    requires s.pos < |text| && s.token == BeginLocale && LexInv(text, s) && LocaleStep(text, s).Next?
    ensures LexInv(text, LocaleStep(text, s).next)
  {
    var pos := s.pos;
    var end := LocaleRunEnd(text, pos);
    assert IsLocaleName(text[pos..end]);
  }

  lemma GapStepKeepsInv(text: TString, s: Lexer)
    requires s.pos < |text| && Awaiting(s.token) && LexInv(text, s) && GapStep(text, s).Next?
    ensures LexInv(text, GapStep(text, s).next)
  {
  }

  lemma StepKeepsInv(text: TString, s: Lexer)
    requires s.pos < |text| && LexInv(text, s) && Step(text, s).Next?
    ensures LexInv(text, Step(text, s).next)
  {
    match s.token
    case BeginStringId =>
      assert Step(text, s) == IdStep(text, s);
      IdStepKeepsInv(text, s);
    case BeginLocale =>
      assert Step(text, s) == LocaleStep(text, s);
      LocaleStepKeepsInv(text, s);
    case BeginValue =>
      assert Step(text, s) == ValueStep(text, s);
      ValueStepKeepsInv(text, s);
    case BeginDocument | EndValue =>
      assert Step(text, s) == GapStep(text, s);
      GapStepKeepsInv(text, s);
    case EndStringId =>
      assert Step(text, s) == ExpectStep(text, s, '=', BeginValue);
    case EndLocale =>
      assert Step(text, s) == ExpectStep(text, s, '.', BeginStringId);
    case EndDocument =>
  }

  lemma {:induction false} RunKeepsWellFormed(text: TString, s: Lexer)
    requires s.pos <= |text| && LexInv(text, s)
    ensures WellFormedMap(Run(text, s).tm)
    decreases |text| - s.pos, Rank(s.token)
  {
    if s.pos < |text| && Step(text, s).Next? {
      StepKeepsInv(text, s);
      RunKeepsWellFormed(text, Step(text, s).next);
    }
  }

  /** Every id the parser adds is a non-empty string id, every locale it adds
      has an allowed length, and no value it adds holds a backslash-n pair. */
  lemma ParseKeepsWellFormed(text: TString, tm: TranslationsMap)
    requires WellFormedMap(tm)
    ensures WellFormedMap(Parse(text, tm).tm)
  {
    RunKeepsWellFormed(text, Start(tm));
  }

  // ---------------------------------------------------------------------------
  // The verdict depends on the text only

  lemma StepIgnoresMap(text: TString, s: Lexer, tm2: TranslationsMap)
    requires s.pos < |text|
    ensures Step(text, s).Halt? == Step(text, s.(tm := tm2)).Halt?
    ensures Step(text, s).Halt? ==> Step(text, s).status == Step(text, s.(tm := tm2)).status
    ensures Step(text, s).Next? ==>
              Step(text, s.(tm := tm2)).next == Step(text, s).next.(tm := Step(text, s.(tm := tm2)).next.tm)
  {
    var s2 := s.(tm := tm2);
    match s.token
    case BeginStringId =>
      assert Step(text, s) == IdStep(text, s) && Step(text, s2) == IdStep(text, s2);
      if !IsSeparator(text[s.pos]) {
        var end := StringIdRunEnd(text, s.pos);
        if end < |text| && (IsSeparator(text[end]) || text[end] == '=') {
          var id := text[s.pos..end];
          var n1 := s.(token := EndStringId, stringId := id, tm := NoteStringId(s.tm, id));
          var n2 := s2.(token := EndStringId, stringId := id, tm := NoteStringId(tm2, id));
          assert n2 == n1.(tm := n2.tm);
        }
      }
    case BeginValue =>
      assert Step(text, s) == ValueStep(text, s) && Step(text, s2) == ValueStep(text, s2);
      var end := Find(text, '\n', s.pos);
      var val := LineValue(text, s.pos, end);
      var n1 := s.(token := EndValue, tm := StoreValue(s.tm, s.stringId, s.currentLocale, val));
      var n2 := s2.(token := EndValue, tm := StoreValue(tm2, s.stringId, s.currentLocale, val));
      assert n2 == n1.(tm := n2.tm);
    case BeginDocument | EndValue =>
      assert Step(text, s) == GapStep(text, s) && Step(text, s2) == GapStep(text, s2);
    case EndStringId =>
      assert Step(text, s) == ExpectStep(text, s, '=', BeginValue) && Step(text, s2) == ExpectStep(text, s2, '=', BeginValue);
    case BeginLocale =>
      assert Step(text, s) == LocaleStep(text, s) && Step(text, s2) == LocaleStep(text, s2);
    case EndLocale =>
      assert Step(text, s) == ExpectStep(text, s, '.', BeginStringId) && Step(text, s2) == ExpectStep(text, s2, '.', BeginStringId);
    case EndDocument =>
  }

  lemma {:induction false} RunStatusIgnoresMap(text: TString, s: Lexer, tm2: TranslationsMap)
    requires s.pos <= |text|
    ensures Run(text, s).status == Run(text, s.(tm := tm2)).status
    decreases |text| - s.pos, Rank(s.token)
  {
    if s.pos < |text| {
      StepIgnoresMap(text, s, tm2);
      if Step(text, s).Next? {
        var n1 := Step(text, s).next;
        var n2 := Step(text, s.(tm := tm2)).next;
        RunStatusIgnoresMap(text, n1, n2.tm);
        assert n2 == n1.(tm := n2.tm);
      }
    }
  }

  /** Whether a text is accepted, and the error prefix, never depend on the map
      already held by the parser. */
  lemma ParseStatusIgnoresMap(text: TString, tm1: TranslationsMap, tm2: TranslationsMap)
    ensures Parse(text, tm1).status == Parse(text, tm2).status
  {
    RunStatusIgnoresMap(text, Start(tm1), tm2);
    assert Start(tm1).(tm := tm2) == Start(tm2);
  }
}

module LexerMerge {
  import opened Common
  import opened Lexer

  /** `b` laid over `a`, locale by locale: ids of either map, and under each id
      the locales of both, `b`'s value winning. */
  function Merge(a: TranslationsMap, b: TranslationsMap): (r: TranslationsMap)
    ensures r.Keys == a.Keys + b.Keys
  {
    map id | id in a.Keys + b.Keys :: Under(a, id) + Under(b, id)
  }

  /** The locale map of `id` in `tm`, empty when `id` has no entry. */
  function Under(tm: TranslationsMap, id: TString): LocaleMap
  {
    if id in tm then tm[id] else map[]
  }

  /** What `Merge` holds under one (id, locale) pair. */
  lemma MergeAt(a: TranslationsMap, b: TranslationsMap, id: TString, loc: TString)
    ensures id in Merge(a, b) <==> id in a || id in b
    ensures id in b && loc in b[id] ==> id in Merge(a, b) && Merge(a, b)[id][loc] == b[id][loc]
    ensures id in a && loc in a[id] && (id !in b || loc !in b[id]) ==>
              id in Merge(a, b) && loc in Merge(a, b)[id] && Merge(a, b)[id][loc] == a[id][loc]
    ensures id in Merge(a, b) ==> Merge(a, b)[id].Keys == Under(a, id).Keys + Under(b, id).Keys
  {
  }

  lemma MergeUnder(a: TranslationsMap, b: TranslationsMap, k: TString)
    requires k in a || k in b
    ensures Merge(a, b)[k] == Under(a, k) + Under(b, k)
  {
  }

  lemma UnionEmpty(m: LocaleMap)
    ensures m + map[] == m
  {
  }

  lemma MergeEmpty(a: TranslationsMap)
    ensures Merge(a, map[]) == a
  {
    var m := Merge(a, map[]);
    forall k | k in a ensures m[k] == a[k] {
      MergeUnder(a, map[], k);
      UnionEmpty(a[k]);
    }
  }

  lemma MergeSetAt(a: TranslationsMap, b: TranslationsMap, id: TString, x: LocaleMap, k: TString)
    requires k in a || k in b || k == id
    ensures Merge(a, b[id := x])[k] == Merge(a, b)[id := Under(a, id) + x][k]
  {
    MergeUnder(a, b[id := x], k);
    if k != id {
      MergeUnder(a, b, k);
      assert Under(b[id := x], k) == Under(b, k);
    }
  }

  /** Replacing one entry of the upper map replaces that entry of the merge. */
  lemma MergeSet(a: TranslationsMap, b: TranslationsMap, id: TString, x: LocaleMap)
    ensures Merge(a, b[id := x]) == Merge(a, b)[id := Under(a, id) + x]
  {
    var l := Merge(a, b[id := x]);
    var r := Merge(a, b)[id := Under(a, id) + x];
    assert l.Keys == r.Keys;
    forall k | k in l ensures l[k] == r[k] {
      MergeSetAt(a, b, id, x, k);
    }
  }

  lemma MergeNote(a: TranslationsMap, b: TranslationsMap, id: TString)
    ensures Merge(a, NoteStringId(b, id)) == NoteStringId(Merge(a, b), id)
  {
    if id != [] && id !in b {
      MergeSet(a, b, id, map[]);
      UnionEmpty(Under(a, id));
      if id in a {
        MergeUnder(a, b, id);
        assert Merge(a, b)[id] == a[id] + map[];
      }
    } else {
      assert id == [] || id in Merge(a, b);
    }
  }

  lemma UnionUpdate(x: LocaleMap, y: LocaleMap, loc: TString, val: TString)
    ensures x + y[loc := val] == (x + y)[loc := val]
  {
  }

  lemma MergeStore(a: TranslationsMap, b: TranslationsMap, id: TString, loc: TString, val: TString)
    requires loc != [] && id in b
    ensures Merge(a, StoreValue(b, id, loc, val)) == StoreValue(Merge(a, b), id, loc, val)
  {
    MergeSet(a, b, id, b[id][loc := val]);
    UnionUpdate(Under(a, id), b[id], loc, val);
    MergeUnder(a, b, id);
  }

  /** Two scanner states that agree on everything but the map, the first one's
      map being the second one's laid over `tm0`. */
  ghost predicate Overlaid(tm0: TranslationsMap, s1: Lexer, s2: Lexer)
  {
    && s1 == s2.(tm := s1.tm)
    && s1.tm == Merge(tm0, s2.tm)
    && [] !in tm0 && [] !in s2.tm
    && (s2.stringId == [] || s2.stringId in s2.tm)
  }

  /** Two outcomes of one iteration that agree as `Overlaid` states do. */
  ghost predicate OverlaidOutcomes(tm0: TranslationsMap, o1: StepOutcome, o2: StepOutcome)
  {
    && o1.Halt? == o2.Halt?
    && (o1.Halt? && o2.Halt? ==> o1.status == o2.status)
    && (o1.Next? && o2.Next? ==> Overlaid(tm0, o1.next, o2.next))
  }

  lemma AdvanceOverlaid(text: TString, tm0: TranslationsMap, s1: Lexer, s2: Lexer, incr: nat)
    requires s2.pos + incr <= |text| && Overlaid(tm0, s1, s2)
    ensures OverlaidOutcomes(tm0, Advance(text, s1, incr), Advance(text, s2, incr))
  {
  }

  lemma IdStepOverlaid(text: TString, tm0: TranslationsMap, s1: Lexer, s2: Lexer)
    requires s2.pos < |text| && s2.token == BeginStringId && Overlaid(tm0, s1, s2)
    ensures OverlaidOutcomes(tm0, IdStep(text, s1), IdStep(text, s2))
  {
    var pos := s2.pos;
    if IsSeparator(text[pos]) {
      AdvanceOverlaid(text, tm0, s1, s2, 1);
    } else {
      var end := StringIdRunEnd(text, pos);
      if end < |text| && (IsSeparator(text[end]) || text[end] == '=') {
        var id := text[pos..end];
        MergeNote(tm0, s2.tm, id);
        var n1 := s1.(token := EndStringId, stringId := id, tm := NoteStringId(s1.tm, id));
        var n2 := s2.(token := EndStringId, stringId := id, tm := NoteStringId(s2.tm, id));
        assert Overlaid(tm0, n1, n2);
        AdvanceOverlaid(text, tm0, n1, n2, end - pos);
      }
    }
  }

  lemma ValueStepOverlaid(text: TString, tm0: TranslationsMap, s1: Lexer, s2: Lexer)
    requires s2.pos < |text| && s2.token == BeginValue && Overlaid(tm0, s1, s2)
    ensures OverlaidOutcomes(tm0, ValueStep(text, s1), ValueStep(text, s2))
  {
    var pos := s2.pos;
    var end := Find(text, '\n', pos);
    var val := LineValue(text, pos, end);
    if s2.currentLocale != [] && s2.stringId in s2.tm {
      MergeStore(tm0, s2.tm, s2.stringId, s2.currentLocale, val);
    } else {
      assert s2.stringId !in s1.tm || s2.currentLocale == [];
    }
    var n1 := s1.(token := EndValue, tm := StoreValue(s1.tm, s1.stringId, s1.currentLocale, val));
    var n2 := s2.(token := EndValue, tm := StoreValue(s2.tm, s2.stringId, s2.currentLocale, val));
    assert Overlaid(tm0, n1, n2);
    AdvanceOverlaid(text, tm0, n1, n2, end - pos);
  }

  lemma GapStepOverlaid(text: TString, tm0: TranslationsMap, s1: Lexer, s2: Lexer)
    requires s2.pos < |text| && Awaiting(s2.token) && Overlaid(tm0, s1, s2)
    ensures OverlaidOutcomes(tm0, GapStep(text, s1), GapStep(text, s2))
  {
    var pos := s2.pos;
    var ch := text[pos];
    if IsSeparator(ch) {
      AdvanceOverlaid(text, tm0, s1, s2, 1);
    } else if ch == ';' {
      var end := Find(text, '\n', pos);
      AdvanceOverlaid(text, tm0, s1, s2, if end == |text| then |text| - pos else end - pos + 1);
    }
  }

  lemma ExpectStepOverlaid(text: TString, tm0: TranslationsMap, s1: Lexer, s2: Lexer, c: TChar, next: Token)
    requires s2.pos < |text| && (s2.token == EndStringId || s2.token == EndLocale) && Overlaid(tm0, s1, s2)
    ensures OverlaidOutcomes(tm0, ExpectStep(text, s1, c, next), ExpectStep(text, s2, c, next))
  {
    if IsSeparator(text[s2.pos]) {
      AdvanceOverlaid(text, tm0, s1, s2, 1);
    } else if text[s2.pos] == c {
      AdvanceOverlaid(text, tm0, s1.(token := next), s2.(token := next), 1);
    }
  }

  lemma LocaleStepOverlaid(text: TString, tm0: TranslationsMap, s1: Lexer, s2: Lexer)
    requires s2.pos < |text| && s2.token == BeginLocale && Overlaid(tm0, s1, s2)
    ensures OverlaidOutcomes(tm0, LocaleStep(text, s1), LocaleStep(text, s2))
  {
    var pos := s2.pos;
    var end := LocaleRunEnd(text, pos);
    if end < |text| {
      var loc := text[pos..end];
      AdvanceOverlaid(text, tm0, s1.(token := EndLocale, currentLocale := loc), s2.(token := EndLocale, currentLocale := loc), end - pos);
    }
  }

  lemma StepOverlaid(text: TString, tm0: TranslationsMap, s1: Lexer, s2: Lexer)
    requires s2.pos < |text| && Overlaid(tm0, s1, s2)
    ensures OverlaidOutcomes(tm0, Step(text, s1), Step(text, s2))
  {
    match s2.token
    case BeginDocument | EndValue =>
      assert Step(text, s1) == GapStep(text, s1) && Step(text, s2) == GapStep(text, s2);
      GapStepOverlaid(text, tm0, s1, s2);
    case BeginStringId =>
      assert Step(text, s1) == IdStep(text, s1) && Step(text, s2) == IdStep(text, s2);
      IdStepOverlaid(text, tm0, s1, s2);
    case EndStringId =>
      assert Step(text, s1) == ExpectStep(text, s1, '=', BeginValue) && Step(text, s2) == ExpectStep(text, s2, '=', BeginValue);
      ExpectStepOverlaid(text, tm0, s1, s2, '=', BeginValue);
    case BeginLocale =>
      assert Step(text, s1) == LocaleStep(text, s1) && Step(text, s2) == LocaleStep(text, s2);
      LocaleStepOverlaid(text, tm0, s1, s2);
    case EndLocale =>
      assert Step(text, s1) == ExpectStep(text, s1, '.', BeginStringId) && Step(text, s2) == ExpectStep(text, s2, '.', BeginStringId);
      ExpectStepOverlaid(text, tm0, s1, s2, '.', BeginStringId);
    case BeginValue =>
      assert Step(text, s1) == ValueStep(text, s1) && Step(text, s2) == ValueStep(text, s2);
      ValueStepOverlaid(text, tm0, s1, s2);
    case EndDocument =>
      assert Step(text, s1) == Advance(text, s1, 1) && Step(text, s2) == Advance(text, s2, 1);
      AdvanceOverlaid(text, tm0, s1, s2, 1);
  }

  lemma {:induction false} RunOverlaid(text: TString, tm0: TranslationsMap, s1: Lexer, s2: Lexer)
    requires s2.pos <= |text| && Overlaid(tm0, s1, s2)
    ensures Run(text, s1).status == Run(text, s2).status
    ensures Run(text, s1).tm == Merge(tm0, Run(text, s2).tm)
    decreases |text| - s2.pos, Rank(s2.token)
  {
    if s2.pos < |text| {
      StepOverlaid(text, tm0, s1, s2);
      if Step(text, s2).Next? {
        RunOverlaid(text, tm0, Step(text, s1).next, Step(text, s2).next);
      }
    }
  }

  /** Parsing into a map that already holds entries gives the same verdict and
      the same map as parsing into an empty map and laying the result over the
      old entries: earlier entries persist, and only (id, locale) pairs the
      text assigns are overwritten. */
  lemma ParseIntoExisting(text: TString, tm0: TranslationsMap)
    requires [] !in tm0
    ensures Parse(text, tm0).status == Parse(text, map[]).status
    ensures Parse(text, tm0).tm == Merge(tm0, Parse(text, map[]).tm)
  {
    MergeEmpty(tm0);
    RunOverlaid(text, tm0, Start(tm0), Start(map[]));
  }

  /** `tm` only gains ids and locale names on the way to `tm'`. */
  ghost predicate Grows(tm: TranslationsMap, tm': TranslationsMap)
  {
    forall id :: id in tm ==> id in tm' && tm[id].Keys <= tm'[id].Keys
  }

  /** Nothing is rolled back: every id and every (id, locale) pair the parser
      held before a scan is still there afterwards, whatever the verdict. */
  lemma ParseGrows(text: TString, tm0: TranslationsMap)
    requires [] !in tm0
    ensures Grows(tm0, Parse(text, tm0).tm)
  {
    ParseIntoExisting(text, tm0);
    var tm1 := Parse(text, map[]).tm;
    forall id | id in tm0 ensures id in Parse(text, tm0).tm && tm0[id].Keys <= Parse(text, tm0).tm[id].Keys {
      MergeAt(tm0, tm1, id, []);
    }
  }
}
