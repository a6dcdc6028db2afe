/** Types shared by the parser, the binary codec and the command-line helpers.

    The model follows the POSIX build of the compiler, where the text type is the
    narrow `std::string`: every character is one byte, and the conversion between
    stored UTF-8 bytes and in-memory text is the identity. */
module Common {

  /** One character of the narrow text type: a byte. */
  type TChar = c: char | c as int < 256 witness 'a'

  /** The text type (`tstring` on POSIX). */
  type TString = seq<TChar>

  /** An unsigned 8-bit value, as written to and read from the binary file. */
  type uint8 = x: int | 0 <= x < 256

  datatype Option<T> = None | Some(value: T)

  /** Locale name to value; a map holds at most one value per locale. */
  type LocaleMap = map<TString, TString>

  /** String id to its locale map; at most one locale map per id. */
  type TranslationsMap = map<TString, LocaleMap>

  /** One (locale, value) pair of an explicit listing. */
  datatype LocalePair = LocalePair(name: TString, value: TString)

  /** One string id with its locale pairs, in the order a hash map happens to yield them. */
  datatype Entry = Entry(key: TString, locales: seq<LocalePair>)

  /** The locale map a listing of pairs denotes: later pairs overwrite earlier ones. */
  function LocalesToMap(ls: seq<LocalePair>): (m: LocaleMap)
    ensures forall p :: p in ls ==> p.name in m
    ensures forall n :: n in m ==> exists p :: p in ls && p.name == n
    decreases |ls|
  {
    if ls == [] then map[]
    else LocalesToMap(ls[..|ls| - 1])[ls[|ls| - 1].name := ls[|ls| - 1].value]
  }

  /** No two pairs of the listing share a locale name. */
  predicate DistinctNames(ls: seq<LocalePair>)
  {
    forall i, j :: 0 <= i < j < |ls| ==> ls[i].name != ls[j].name
  }

  /** No two entries of the listing share a string id. */
  predicate DistinctKeys(es: seq<Entry>)
  {
    forall i, j :: 0 <= i < j < |es| ==> es[i].key != es[j].key
  }

  /** `es` enumerates the map `m` exactly once: distinct keys, distinct locale
      names per key, and the same contents. */
  predicate Lists(es: seq<Entry>, m: TranslationsMap)
  {
    && DistinctKeys(es)
    && (forall i :: 0 <= i < |es| ==> DistinctNames(es[i].locales))
    && (forall i :: 0 <= i < |es| ==> es[i].key in m && m[es[i].key] == LocalesToMap(es[i].locales))
    && (forall k :: k in m ==> exists i :: 0 <= i < |es| && es[i].key == k)
  }
}
