/** `NS_File::writeBinFile` and `NS_File::readBinFile` as imperative code:
    the writer walks the hash maps in whatever order they yield their keys, the
    reader advances a cursor field by field and gives up at the first short read.
    Each is proved against the functions of `Codec`. */
module BinFile {
  import opened Common
  import opened Codec
  import opened CodecLemmas
  import CodecMaps

  // ---------------------------------------------------------------------------
  // Appending one record to a listing

  /** `(a + b) + c` and `a + (b + c)` are the same bytes. */
  lemma Assoc<T>(a: seq<T>, b: seq<T>, c: seq<T>)
    ensures (a + b) + c == a + (b + c)
  {
  }

  lemma LocalesSnoc(ls: seq<LocalePair>, p: LocalePair)
    ensures LocalesToMap(ls + [p]) == LocalesToMap(ls)[p.name := p.value]
  {
    assert (ls + [p])[..|ls|] == ls;
  }

  lemma EncodePairsSnoc(ls: seq<LocalePair>, p: LocalePair)
    ensures EncodePairs(ls + [p]) == EncodePairs(ls) + EncodePair(p)
  {
    assert (ls + [p])[..|ls|] == ls;
  }

  lemma EntriesMapSnoc(es: seq<Entry>, e: Entry)
    ensures EntriesToMap(es + [e]) == EntriesToMap(es)[e.key := LocalesToMap(e.locales)]
  {
    assert (es + [e])[..|es|] == es;
  }

  lemma EncodeEntriesSnoc(es: seq<Entry>, e: Entry)
    ensures EncodeEntries(es + [e]) == EncodeEntries(es) + EncodeEntry(e)
  {
    assert (es + [e])[..|es|] == es;
  }

  /** A pair whose name is not yet in the map keeps the names distinct. */
  lemma DistinctNamesSnoc(ls: seq<LocalePair>, p: LocalePair)
    requires DistinctNames(ls) && p.name !in LocalesToMap(ls)
    ensures DistinctNames(ls + [p])
  {
    forall i | 0 <= i < |ls|
      ensures ls[i].name != p.name
    {
      assert ls[i] in ls;
    }
    var ls' := ls + [p];
    forall i, j | 0 <= i < j < |ls'|
      ensures ls'[i].name != ls'[j].name
    {
      if j < |ls| {
        assert ls'[i] == ls[i] && ls'[j] == ls[j];
      } else {
        assert ls'[i] == ls[i] && ls'[j] == p;
      }
    }
  }

  /** An entry whose string id is not yet in the map keeps the ids distinct. */
  lemma DistinctKeysSnoc(es: seq<Entry>, e: Entry)
    requires DistinctKeys(es) && e.key !in EntriesToMap(es)
    ensures DistinctKeys(es + [e])
  {
    var es' := es + [e];
    forall i, j | 0 <= i < j < |es'|
      ensures es'[i].key != es'[j].key
    {
      if j < |es| {
        assert es'[i] == es[i] && es'[j] == es[j];
      } else {
        assert es'[i] == es[i] && es'[j] == e;
      }
    }
  }

  // ---------------------------------------------------------------------------
  // Writing

  /** Invariant of a walk over the map `all`: `done` holds the part already
      written and `rest` the keys still to come. */
  ghost predicate Walked<K, V>(all: map<K, V>, done: map<K, V>, rest: set<K>)
  {
    && done.Keys + rest == all.Keys
    && done.Keys !! rest
    && forall x :: x in done ==> x in all && done[x] == all[x]
  }

  /** Writing the key `x` next keeps the invariant. */
  lemma WalkStep<K, V>(all: map<K, V>, done: map<K, V>, rest: set<K>, x: K)
    requires Walked(all, done, rest) && x in rest
    ensures x !in done && x in all
    ensures Walked(all, done[x := all[x]], rest - {x})
  {
    assert done[x := all[x]].Keys == done.Keys + {x};
  }

  /** Once no key is left, everything has been written. */
  lemma WalkDone<K, V>(all: map<K, V>, done: map<K, V>)
    requires Walked(all, done, {})
    ensures done == all
  {
  }

  /** The locale records of one string id, in the order the map yields them
      (the inner `for` loop of `writeBinFile`). */
  method WriteLocales(lm: LocaleMap) returns (bytes: seq<uint8>, ghost ls: seq<LocalePair>)
    ensures DistinctNames(ls) && LocalesToMap(ls) == lm && |ls| == |lm|
    ensures bytes == EncodePairs(ls)
  {
    bytes, ls := [], [];
    var rest := lm.Keys;
    while rest != {}
      invariant Walked(lm, LocalesToMap(ls), rest)
      invariant DistinctNames(ls)
      invariant bytes == EncodePairs(ls)
      decreases |rest|
    {
      var n :| n in rest;
      var record := U8(|n|) + Bytes(n) + U16(|lm[n]|) + Bytes(lm[n]);
      WalkStep(lm, LocalesToMap(ls), rest, n);
      LocalesSnoc(ls, LocalePair(n, lm[n]));
      DistinctNamesSnoc(ls, LocalePair(n, lm[n]));
      EncodePairsSnoc(ls, LocalePair(n, lm[n]));
      PairLayout(LocalePair(n, lm[n]));
      bytes, ls := bytes + record, ls + [LocalePair(n, lm[n])];
      rest := rest - {n};
    }
    WalkDone(lm, LocalesToMap(ls));
    CodecMaps.LocalesCount(ls);
  }

  /** Each entry written so far lists the locale map of its string id. */
  ghost predicate EntriesAgree(m: TranslationsMap, es: seq<Entry>)
  {
    forall i :: 0 <= i < |es| ==>
      && DistinctNames(es[i].locales)
      && es[i].key in m && m[es[i].key] == LocalesToMap(es[i].locales)
  }

  lemma EntriesAgreeSnoc(m: TranslationsMap, es: seq<Entry>, e: Entry)
    requires EntriesAgree(m, es)
    requires DistinctNames(e.locales) && e.key in m && m[e.key] == LocalesToMap(e.locales)
    ensures EntriesAgree(m, es + [e])
  {
    var es' := es + [e];
    forall i | 0 <= i < |es'|
      ensures DistinctNames(es'[i].locales)
      ensures es'[i].key in m && m[es'[i].key] == LocalesToMap(es'[i].locales)
    {
      if i < |es| {
        assert es'[i] == es[i];
      } else {
        assert es'[i] == e;
      }
    }
  }

  lemma EntriesWrittenDone(m: TranslationsMap, es: seq<Entry>)
    requires Walked(m, EntriesToMap(es), {}) && DistinctKeys(es) && EntriesAgree(m, es)
    ensures Lists(es, m) && |es| == |m|
  {
    WalkDone(m, EntriesToMap(es));
    CodecMaps.EntriesCount(es);
    forall k | k in m
      ensures exists i :: 0 <= i < |es| && es[i].key == k
    {
      assert k in EntriesToMap(es);
    }
  }

  /** The bytes `writeBinFile` sends to the file, and the order in which the
      map happened to be walked. */
  method WriteBinFile(m: TranslationsMap) returns (bytes: seq<uint8>, ghost es: seq<Entry>)
    ensures Lists(es, m)
    ensures bytes == Encode(es)
  {
    var header := Magic + U16(|m|);
    bytes, es := header, [];
    var rest := m.Keys;
    while rest != {}
      invariant Walked(m, EntriesToMap(es), rest)
      invariant DistinctKeys(es) && EntriesAgree(m, es)
      invariant bytes == header + EncodeEntries(es)
      decreases |rest|
    {
      var k :| k in rest;
      var pairs, ls := WriteLocales(m[k]);
      var record := U8(|k|) + Bytes(k) + U16(|m[k]|) + pairs;
      WalkStep(m, EntriesToMap(es), rest, k);
      EntriesMapSnoc(es, Entry(k, ls));
      DistinctKeysSnoc(es, Entry(k, ls));
      EntriesAgreeSnoc(m, es, Entry(k, ls));
      EntryLayout(Entry(k, ls));
      EncodeEntriesSnoc(es, Entry(k, ls));
      Assoc(header, EncodeEntries(es), record);
      bytes, es := bytes + record, es + [Entry(k, ls)];
      rest := rest - {k};
    }
    EntriesWrittenDone(m, es);
  }

  // ---------------------------------------------------------------------------
  // Reading

  /** Once a read has failed, reading more records fails too. */
  lemma {:induction false} PairsAtFails(b: seq<uint8>, pos: nat, i: nat, count: nat)
    requires i <= count && PairsAt(b, pos, i).None?
    ensures PairsAt(b, pos, count).None?
    decreases count
  {
    if i < count {
      PairsAtFails(b, pos, i, count - 1);
    }
  }

  lemma {:induction false} EntriesAtFails(b: seq<uint8>, pos: nat, i: nat, count: nat)
    requires i <= count && EntriesAt(b, pos, i).None?
    ensures EntriesAt(b, pos, count).None?
    decreases count
  {
    if i < count {
      EntriesAtFails(b, pos, i, count - 1);
    }
  }

  /** Past a good header, the listing is whatever the entry loop reads. */
  lemma DecodeListingAfterHeader(b: seq<uint8>, count: nat)
    requires MagicOk(b) && |b| >= 6 && count == b[4] as int + 256 * b[5] as int
    ensures U16At(b, 4) == Some(Parsed(count, 6))
    ensures DecodeListing(b).Some? <==> EntriesAt(b, 6, count).Some?
    ensures DecodeListing(b).Some? ==> DecodeListing(b).value == EntriesAt(b, 6, count).value.value
  {
  }

  /** Storing into a map that was merged over `into` is storing into the merge. */
  lemma MergeStore<K, V>(into: map<K, V>, m: map<K, V>, k: K, v: V)
    ensures (into + m)[k := v] == into + m[k := v]
  {
  }

  /** One locale record at `pos`: the four reads of the inner loop's body. */
  method ReadPair(b: seq<uint8>, pos: nat) returns (ok: bool, p: LocalePair, next: nat)
    ensures ok <==> PairAt(b, pos).Some?
    ensures ok ==> PairAt(b, pos).value == Parsed(p, next)
  {
    p, next := LocalePair([], []), pos;
    if pos >= |b| {
      return false, p, next;
    }
    var len := b[pos];
    var c := pos + 1;
    if c + len > |b| {
      return false, p, next;
    }
    var name := Text(b[c..c + len]);
    c := c + len;
    if c + 2 > |b| {
      return false, p, next;
    }
    var len2 := b[c] as int + 256 * b[c + 1] as int;
    c := c + 2;
    if c + len2 > |b| {
      return false, p, next;
    }
    var value := Text(b[c..c + len2]);
    return true, LocalePair(name, value), c + len2;
  }

  /** The `count` locale records of one entry, stored into a fresh locale map. */
  method ReadLocales(b: seq<uint8>, pos: nat, count: nat)
    returns (ok: bool, lm: LocaleMap, next: nat, ghost ls: seq<LocalePair>)
    requires pos <= |b|
    ensures ok <==> PairsAt(b, pos, count).Some?
    ensures ok ==> PairsAt(b, pos, count).value == Parsed(ls, next) && lm == LocalesToMap(ls)
  {
    lm, next, ls := map[], pos, [];
    var j := 0;
    while j < count
      invariant j <= count
      invariant PairsAt(b, pos, j) == Some(Parsed(ls, next))
      invariant lm == LocalesToMap(ls)
    {
      var found, p, after := ReadPair(b, next);
      if !found {
        PairsAtFails(b, pos, j + 1, count);
        return false, lm, next, ls;
      }
      LocalesSnoc(ls, p);
      lm, next, ls := lm[p.name := p.value], after, ls + [p];
      j := j + 1;
    }
    ok := true;
  }

  /** One entry at `pos`: the body of the outer loop. */
  method ReadEntry(b: seq<uint8>, pos: nat)
    returns (ok: bool, key: TString, lm: LocaleMap, next: nat, ghost ls: seq<LocalePair>)
    ensures ok <==> EntryAt(b, pos).Some?
    ensures ok ==> EntryAt(b, pos).value == Parsed(Entry(key, ls), next) && lm == LocalesToMap(ls)
  {
    key, lm, next, ls := [], map[], pos, [];
    if pos >= |b| {
      return false, key, lm, next, ls;
    }
    var len := b[pos];
    var c := pos + 1;
    if c + len > |b| {
      return false, key, lm, next, ls;
    }
    assert U8At(b, pos) == Some(Parsed(len as nat, c));
    key := Text(b[c..c + len]);
    assert TextAt(b, c, len) == Some(Parsed(key, c + len));
    c := c + len;
    if c + 2 > |b| {
      return false, key, lm, next, ls;
    }
    var count := b[c] as int + 256 * b[c + 1] as int;
    assert U16At(b, c) == Some(Parsed(count, c + 2));
    c := c + 2;
    ok, lm, next, ls := ReadLocales(b, c, count);
  }

  /** `readBinFile(path, translMap)`: the entries read so far are stored into
      `into` one by one, so a file that breaks off part-way leaves the entries
      before the break in the map. */
  method ReadBinFile(b: seq<uint8>, into: TranslationsMap)
    returns (ok: bool, translMap: TranslationsMap, ghost read: seq<Entry>)
    ensures ok <==> DecodeListing(b).Some?
    ensures ok ==> read == DecodeListing(b).value
    ensures translMap == into + EntriesToMap(read)
    ensures MagicOk(b) && |b| >= 6 ==>
      EntriesAt(b, 6, |read|).Some? && EntriesAt(b, 6, |read|).value.value == read
  {
    translMap, read := into, [];
    if !(|b| >= 4 && b[0] == 73 && b[1] == 83 && b[2] == 76) {
      return false, translMap, read;
    }
    if |b| < 6 {
      return false, translMap, read;
    }
    var count := b[4] as int + 256 * b[5] as int;
    DecodeListingAfterHeader(b, count);
    var c := 6;
    var i := 0;
    while i < count
      invariant i <= count
      invariant EntriesAt(b, 6, i) == Some(Parsed(read, c))
      invariant translMap == into + EntriesToMap(read)
    {
      var found, key, lm, after, ls := ReadEntry(b, c);
      if !found {
        EntriesAtFails(b, 6, i + 1, count);
        return false, translMap, read;
      }
      EntriesMapSnoc(read, Entry(key, ls));
      MergeStore(into, EntriesToMap(read), key, lm);
      translMap, read, c := translMap[key := lm], read + [Entry(key, ls)], after;
      i := i + 1;
    }
    ok := true;
  }
}
