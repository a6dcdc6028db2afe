/** From listings to maps: which value a repeated key or locale keeps, when a
    listing enumerates a map, and the round trip of a map through the file. */
module CodecMaps {
  import opened Common
  import opened Codec
  import opened CodecLemmas

  // ---------------------------------------------------------------------------
  // Later records overwrite earlier ones

  /** The value a locale name keeps is the one of its last pair. */
  lemma {:induction false} LocalesLastWins(ls: seq<LocalePair>, i: nat)
    requires i < |ls|
    requires forall j :: i < j < |ls| ==> ls[j].name != ls[i].name
    ensures ls[i].name in LocalesToMap(ls) && LocalesToMap(ls)[ls[i].name] == ls[i].value
    decreases |ls|
  {
    if i < |ls| - 1 {
      var init := ls[..|ls| - 1];
      assert init[i] == ls[i];
      forall j | i < j < |init|
        ensures init[j].name != init[i].name
      {
        assert init[j] == ls[j];
      }
      LocalesLastWins(init, i);
    }
  }

  /** The locale map a string id keeps is the one of its last entry. */
  lemma {:induction false} EntriesLastWins(es: seq<Entry>, i: nat)
    requires i < |es|
    requires forall j :: i < j < |es| ==> es[j].key != es[i].key
    ensures es[i].key in EntriesToMap(es) && EntriesToMap(es)[es[i].key] == LocalesToMap(es[i].locales)
    decreases |es|
  {
    if i < |es| - 1 {
      var init := es[..|es| - 1];
      assert init[i] == es[i];
      forall j | i < j < |init|
        ensures init[j].key != init[i].key
      {
        assert init[j] == es[j];
      }
      EntriesLastWins(init, i);
    }
  }

  // ---------------------------------------------------------------------------
  // Sizes of the maps a listing without repetitions denotes

  /** Pairs with distinct names give one map entry each. */
  lemma {:induction false} LocalesCount(ls: seq<LocalePair>)
    requires DistinctNames(ls)
    ensures |LocalesToMap(ls)| == |ls|
    decreases |ls|
  {
    if ls != [] {
      var init := ls[..|ls| - 1];
      assert DistinctNames(init) by {
        forall i, j | 0 <= i < j < |init|
          ensures init[i].name != init[j].name
        {
          assert init[i] == ls[i] && init[j] == ls[j];
        }
      }
      LocalesCount(init);
    }
  }

  /** Entries with distinct string ids give one map entry each. */
  lemma {:induction false} EntriesCount(es: seq<Entry>)
    requires DistinctKeys(es)
    ensures |EntriesToMap(es)| == |es|
    decreases |es|
  {
    if es != [] {
      var init := es[..|es| - 1];
      assert DistinctKeys(init) by {
        forall i, j | 0 <= i < j < |init|
          ensures init[i].key != init[j].key
        {
          assert init[i] == es[i] && init[j] == es[j];
        }
      }
      EntriesCount(init);
    }
  }

  // ---------------------------------------------------------------------------
  // Listings of a map

  /** A listing that enumerates `m` folds back into `m`. */
  lemma ListedMap(es: seq<Entry>, m: TranslationsMap)
    requires Lists(es, m)
    ensures EntriesToMap(es) == m
  {
    var r := EntriesToMap(es);
    forall k | k in m
      ensures k in r && r[k] == m[k]
    {
      var i :| 0 <= i < |es| && es[i].key == k;
      EntriesLastWins(es, i);
    }
    assert r.Keys == m.Keys;
  }

  /** The locale pairs of one listed entry have the sizes of the map they list. */
  lemma ListedEntryFits(es: seq<Entry>, m: TranslationsMap, i: nat)
    requires Lists(es, m) && MapFits(m) && i < |es|
    ensures EntryFits(es[i])
  {
    var e := es[i];
    var lm := LocalesToMap(e.locales);
    LocalesCount(e.locales);
    forall j | 0 <= j < |e.locales|
      ensures PairFits(e.locales[j])
    {
      var p := e.locales[j];
      assert forall j' :: j < j' < |e.locales| ==> e.locales[j'].name != p.name;
      LocalesLastWins(e.locales, j);
      assert p.name in m[e.key] && m[e.key][p.name] == p.value;
    }
  }

  /** Whenever the map's sizes fit the file's fields, so do its listings'. */
  lemma ListedFits(es: seq<Entry>, m: TranslationsMap)
    requires Lists(es, m) && MapFits(m)
    ensures Fits(es)
  {
    EntriesCount(es);
    ListedMap(es, m);
    forall i | 0 <= i < |es|
      ensures EntryFits(es[i])
    {
      ListedEntryFits(es, m, i);
    }
  }

  /** A map written in any order it can be walked in, and read back, is the
      same map, as long as its sizes fit the file's fields. */
  lemma DecodeEncodeMap(es: seq<Entry>, m: TranslationsMap)
    requires Lists(es, m) && MapFits(m)
    ensures Decode(Encode(es)) == Some(m)
  {
    ListedFits(es, m);
    DecodeEncode(es);
    ListedMap(es, m);
  }
}
