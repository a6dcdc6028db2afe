/** The loops inside `parseTranslations` and `binToTranslation` that scan or
    rewrite one piece of text, each proved to compute the lexer's function. */
module Scan {
  import opened Common
  import opened Lexer
  import LexerLemmas

  /** `for (end = pos; end < len; end++) if (!isValidLocaleCharacter(...)) break;` */
  method ScanLocaleRun(text: TString, pos: nat) returns (end: nat)
    requires pos <= |text|
    ensures end == LocaleRunEnd(text, pos)
  {
    end := pos;
    while end < |text|
      invariant pos <= end <= |text|
      invariant LocaleRunEnd(text, end) == LocaleRunEnd(text, pos)
    {
      if !IsLocaleChar(text[end]) {
        break;
      }
      end := end + 1;
    }
  }

  /** `for (end = pos; end < len; end++) if (!isValidStringIdCharacter(...)) break;` */
  method ScanStringIdRun(text: TString, pos: nat) returns (end: nat)
    requires pos <= |text|
    ensures end == StringIdRunEnd(text, pos)
  {
    end := pos;
    while end < |text|
      invariant pos <= end <= |text|
      invariant StringIdRunEnd(text, end) == StringIdRunEnd(text, pos)
    {
      if !IsStringIdChar(text[end]) {
        break;
      }
      end := end + 1;
    }
  }

  /** `val.find("\\n", from)`: the first backslash-n pair at or after `from`, `|s|` if none. */
  function FindEscape(s: TString, from: nat): (r: nat)
    ensures r <= |s|
    ensures r < |s| ==> from <= r && EscapeAt(s, r)
    ensures forall k :: from <= k < r ==> !EscapeAt(s, k)
    ensures r == |s| ==> forall k :: from <= k < |s| ==> !EscapeAt(s, k)
    decreases |s| - from
  {
    if from >= |s| then |s|
    else if EscapeAt(s, from) then from
    else FindEscape(s, from + 1)
  }

  /** Unescaping stops at the first pair: the text before it is copied. */
  lemma {:induction false} UnescapeFirstPair(s: TString, p: nat)
    requires EscapeAt(s, p)
    requires forall k :: 0 <= k < p ==> !EscapeAt(s, k)
    ensures Unescape(s) == s[..p] + ['\n'] + Unescape(s[p + 2..])
    decreases p
  {
    if p > 0 {
      assert !EscapeAt(s, 0);
      var t := s[1..];
      forall k | 0 <= k < p - 1 ensures !EscapeAt(t, k) { assert !EscapeAt(s, k + 1); }
      assert EscapeAt(t, p - 1);
      UnescapeFirstPair(t, p - 1);
      assert t[p - 1 + 2..] == s[p + 2..];
      assert s[..p] == [s[0]] + t[..p - 1];
    }
  }

  lemma NoPairFrom(s: TString, q: nat)
    requires q <= |s|
    requires forall k :: q <= k < |s| ==> !EscapeAt(s, k)
    ensures NoEscapePair(s[q..])
  {
    forall i | 0 <= i < |s[q..]| ensures !EscapeAt(s[q..], i) { assert !EscapeAt(s, q + i); }
  }

  /** One replacement keeps "done part + unescaped rest" unchanged. */
  lemma UnescapeStep(r: TString, q: nat, p: nat)
    requires q <= p < |r| && p == FindEscape(r, q)
    ensures var r' := r[..p] + ['\n'] + r[p + 2..];
            r'[..p + 1] + Unescape(r'[p + 1..]) == r[..q] + Unescape(r[q..])
  {
    var t := r[q..];
    forall k | 0 <= k < p - q ensures !EscapeAt(t, k) { assert !EscapeAt(r, q + k); }
    assert EscapeAt(t, p - q);
    UnescapeFirstPair(t, p - q);
    assert t[p - q + 2..] == r[p + 2..];
    assert t[..p - q] == r[q..p];
    var r' := r[..p] + ['\n'] + r[p + 2..];
    assert r'[..p + 1] == r[..q] + r[q..p] + ['\n'];
    assert r'[p + 1..] == r[p + 2..];
  }

  /** With no pair left after `q`, the rest is copied. */
  lemma UnescapeDone(r: TString, q: nat)
    requires q <= |r| && NoEscapePair(r[q..])
    ensures r[..q] + Unescape(r[q..]) == r
  {
    var t := r[q..];
    LexerLemmas.UnescapeIdentity(t);
    calc {
      r[..q] + Unescape(t);
      r[..q] + t;
      r;
    }
  }

  /** The `val.replace(p, 2, "\\"); val[p] = '\n'` loop of a value. */
  method UnescapeValue(val: TString) returns (r: TString)
    ensures r == Unescape(val)
  {
    r := val;
    var q := 0;
    var p := FindEscape(r, 0);
    while p < |r|
      invariant q <= p <= |r|
      invariant p == FindEscape(r, q)
      invariant r[..q] + Unescape(r[q..]) == Unescape(val)
      decreases |r| - q
    {
      UnescapeStep(r, q, p);
      r := r[..p] + ['\n'] + r[p + 2..];
      q := p + 1;
      p := FindEscape(r, q);
    }
    NoPairFrom(r, q);
    UnescapeDone(r, q);
  }

  /** Escaping copies the text before the first newline. */
  lemma {:induction false} EscapeFirstNewline(s: TString, p: nat)
    requires p < |s| && s[p] == '\n'
    requires forall k :: 0 <= k < p ==> s[k] != '\n'
    ensures Escape(s) == s[..p] + ['\\', 'n'] + Escape(s[p + 1..])
    decreases p
  {
    if p > 0 {
      EscapeFirstNewline(s[1..], p - 1);
      assert s[1..][p..] == s[p + 1..];
      assert s[..p] == [s[0]] + s[1..][..p - 1];
    }
  }

  lemma {:induction false} EscapeIdentity(s: TString)
    requires NoNewline(s)
    ensures Escape(s) == s
    decreases |s|
  {
    if s != [] {
      EscapeIdentity(s[1..]);
    }
  }

  lemma EscapeStep(r: TString, q: nat, p: nat)
    requires q <= p < |r| && p == Find(r, '\n', q)
    ensures var r' := r[..p] + ['\\', 'n'] + r[p + 1..];
            r'[..p + 2] + Escape(r'[p + 2..]) == r[..q] + Escape(r[q..])
  {
    var t := r[q..];
    forall k | 0 <= k < p - q ensures t[k] != '\n' { assert r[q + k] != '\n'; }
    EscapeFirstNewline(t, p - q);
    var head, rest := r[q..p], r[p + 1..];
    assert t[p - q + 1..] == rest;
    assert t[..p - q] == head;
    var r' := r[..p] + ['\\', 'n'] + rest;
    assert r'[..p + 2] == r[..q] + head + ['\\', 'n'];
    assert r'[p + 2..] == rest;
    calc {
      r'[..p + 2] + Escape(r'[p + 2..]);
      (r[..q] + head + ['\\', 'n']) + Escape(rest);
      r[..q] + (head + ['\\', 'n'] + Escape(rest));
      r[..q] + Escape(t);
    }
  }

  lemma EscapeDone(r: TString, q: nat)
    requires q <= |r| && Find(r, '\n', q) == |r|
    ensures r[..q] + Escape(r[q..]) == r
  {
    var t := r[q..];
    assert NoNewline(t) by {
      forall k | 0 <= k < |t| ensures t[k] != '\n' { assert t[k] == r[q + k]; }
    }
    EscapeIdentity(t);
    assert r[..q] + t == r;
  }

  /** The `val.replace(p, 1, "\\n")` loop of `binToTranslation`. */
  method EscapeValue(val: TString) returns (r: TString)
    ensures r == Escape(val)
  {
    r := val;
    var q := 0;
    var p := Find(r, '\n', 0);
    while p < |r|
      invariant q <= |r|
      invariant p == Find(r, '\n', q)
      invariant r[..q] + Escape(r[q..]) == Escape(val)
      decreases |r| - q
    {
      EscapeStep(r, q, p);
      r := r[..p] + ['\\', 'n'] + r[p + 1..];
      q := p + 2;
      p := Find(r, '\n', q);
    }
    EscapeDone(r, q);
  }
}
