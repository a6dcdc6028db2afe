/** The text `ISLParser::binToTranslation` writes back: per string id, one line
    `locale.id =value` per locale with every newline of the value escaped as
    backslash-n, then an empty line. */
module Render {
  import opened Common
  import opened Lexer
  import LexerLemmas
  import Scan
  import BinFile
  import opened Codec

  const Dot: TString := "."
  const Assign: TString := " ="
  const Newline: TString := "\n"

  /** One locale line: it ends with a line break, and the field after
      `locale.id =` gives the value back once unescaped, unless the value
      itself holds a backslash-n pair. */
  function RenderPair(key: TString, p: LocalePair): (r: TString)
    ensures |p.name| + |key| + 3 < |r| && r[|r| - 1] == '\n'
    ensures NoEscapePair(p.value) ==> Unescape(r[|p.name| + |key| + 3..|r| - 1]) == p.value
  {
    var r := p.name + Dot + key + Assign + Escape(p.value) + Newline;
    assert r[|p.name| + |key| + 3..|r| - 1] == Escape(p.value);
    if NoEscapePair(p.value) then (LexerLemmas.UnescapeEscape(p.value); r) else r
  }

  /** The locale lines of one string id, in listing order. */
  function RenderPairs(key: TString, ls: seq<LocalePair>): TString
    decreases |ls|
  {
    if ls == [] then [] else RenderPairs(key, ls[..|ls| - 1]) + RenderPair(key, ls[|ls| - 1])
  }

  /** One string id: its locale lines and an empty line. */
  function RenderEntry(e: Entry): TString
  {
    RenderPairs(e.key, e.locales) + Newline
  }

  /** The whole text for a listing of the map: at least one line per string
      id, and a text that ends with a line break unless there is no id. */
  function RenderEntries(es: seq<Entry>): (r: TString)
    ensures |es| <= |r|
    ensures es != [] ==> r[|r| - 1] == '\n'
    decreases |es|
  {
    if es == [] then [] else RenderEntries(es[..|es| - 1]) + RenderEntry(es[|es| - 1])
  }

  /** Every locale record becomes exactly one line: its only newline is the
      last character. */
  lemma RenderPairIsOneLine(key: TString, p: LocalePair)
    requires NoNewline(key) && NoNewline(p.name)
    ensures var r := RenderPair(key, p);
      && |r| > 0 && r[|r| - 1] == '\n'
      && NoNewline(r[..|r| - 1])
  {
    var r := RenderPair(key, p);
    var body := p.name + Dot + key + Assign + Escape(p.value);
    assert r == body + Newline;
    assert r[..|r| - 1] == body;
    forall k | 0 <= k < |body| ensures body[k] != '\n' {
      var a := p.name + Dot + key + Assign;
      assert body == a + Escape(p.value);
      if k >= |a| {
        assert body[k] == Escape(p.value)[k - |a|];
      } else {
        var b := p.name + Dot + key;
        assert a == b + Assign;
        if k < |b| {
          var c := p.name + Dot;
          assert b == c + key;
          if k >= |c| { assert b[k] == key[k - |c|]; }
          else if k < |p.name| { assert c[k] == p.name[k]; }
        }
      }
    }
  }

  lemma RenderPairsSnoc(key: TString, ls: seq<LocalePair>, p: LocalePair)
    ensures RenderPairs(key, ls + [p]) == RenderPairs(key, ls) + RenderPair(key, p)
  {
    assert (ls + [p])[..|ls|] == ls;
  }

  lemma RenderEntriesSnoc(es: seq<Entry>, e: Entry)
    ensures RenderEntries(es + [e]) == RenderEntries(es) + RenderEntry(e)
  {
    assert (es + [e])[..|es|] == es;
  }

  /** The inner loop of `binToTranslation`: appends the lines of one string
      id to `out`, in the order its locale map is walked. */
  method AppendLocales(out: TString, key: TString, lm: LocaleMap) returns (out': TString, ghost ls: seq<LocalePair>)
    ensures DistinctNames(ls) && LocalesToMap(ls) == lm
    ensures out' == out + RenderPairs(key, ls)
  {
    out', ls := out, [];
    var rest := lm.Keys;
    while rest != {}
      invariant BinFile.Walked(lm, LocalesToMap(ls), rest)
      invariant DistinctNames(ls)
      invariant out' == out + RenderPairs(key, ls)
      decreases |rest|
    {
      var n :| n in rest;
      var val := Scan.EscapeValue(lm[n]);
      BinFile.WalkStep(lm, LocalesToMap(ls), rest, n);
      BinFile.LocalesSnoc(ls, LocalePair(n, lm[n]));
      BinFile.DistinctNamesSnoc(ls, LocalePair(n, lm[n]));
      RenderPairsSnoc(key, ls, LocalePair(n, lm[n]));
      BinFile.Assoc(out, RenderPairs(key, ls), RenderPair(key, LocalePair(n, lm[n])));
      out', ls := out' + (n + Dot + key + Assign + val + Newline), ls + [LocalePair(n, lm[n])];
      rest := rest - {n};
    }
    BinFile.WalkDone(lm, LocalesToMap(ls));
  }

  /** The outer loop of `binToTranslation`: the lines of every string id of
      `m`, each followed by an empty line, in the order the map is walked. */
  method RenderMap(m: TranslationsMap) returns (out: TString, ghost es: seq<Entry>)
    ensures Lists(es, m)
    ensures out == RenderEntries(es)
  {
    out, es := [], [];
    var rest := m.Keys;
    while rest != {}
      invariant BinFile.Walked(m, EntriesToMap(es), rest)
      invariant DistinctKeys(es) && BinFile.EntriesAgree(m, es)
      invariant out == RenderEntries(es)
      decreases |rest|
    {
      var k :| k in rest;
      var lines, ls := AppendLocales(out, k, m[k]);
      BinFile.WalkStep(m, EntriesToMap(es), rest, k);
      BinFile.EntriesMapSnoc(es, Entry(k, ls));
      BinFile.DistinctKeysSnoc(es, Entry(k, ls));
      BinFile.EntriesAgreeSnoc(m, es, Entry(k, ls));
      RenderEntriesSnoc(es, Entry(k, ls));
      BinFile.Assoc(out, RenderPairs(k, ls), Newline);
      out, es := lines + Newline, es + [Entry(k, ls)];
      rest := rest - {k};
    }
    BinFile.EntriesWrittenDone(m, es);
  }
}
