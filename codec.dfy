/** The binary translation file of `NS_File::writeBinFile` and
    `NS_File::readBinFile`, as functions on byte sequences.

    Layout, every 16-bit field little-endian:
      magic        4 bytes   'I' 'S' 'L' NUL
      entry count  u16
      per entry:   u8 key length, key bytes, u16 locale count,
                   then per locale: u8 name length, name bytes,
                                    u16 value length, value bytes

    A listing (`seq<Entry>`) stands for the order in which the encoder's hash
    map happens to be walked; `Decode` reads the listing back and folds it into
    a map, later entries overwriting earlier ones as `translMap[key] = ...` does. */
module Codec {
  import opened Common

  // ---------------------------------------------------------------------------
  // Bytes and text

  /** `ISL_MAGIC`, written with its terminating NUL (`sizeof(ISL_MAGIC)` is 4). */
  const Magic: seq<uint8> := [73, 83, 76, 0]

  /** The bytes of a narrow string (`Utf8ToTStr` is the identity on POSIX). */
  function Bytes(s: TString): (b: seq<uint8>)
    ensures |b| == |s|
    ensures forall i :: 0 <= i < |s| ==> b[i] == s[i] as int
  {
    seq(|s|, i requires 0 <= i < |s| => s[i] as int)
  }

  /** The narrow string of some bytes. */
  function Text(b: seq<uint8>): (s: TString)
    ensures |s| == |b|
    ensures forall i :: 0 <= i < |b| ==> s[i] as int == b[i]
  {
    seq(|b|, i requires 0 <= i < |b| => b[i] as char)
  }

  lemma TextBytes(s: TString)
    ensures Text(Bytes(s)) == s
  {
  }

  /** A `uint8_t` field holding `n`: only the low 8 bits survive, and they
      are what a one-byte read gives back. */
  function U8(n: nat): (r: seq<uint8>)
    ensures |r| == 1 && U8At(r, 0) == Some(Parsed(n % 256, 1))
  {
    [n % 256]
  }

  /** A `WORD` field holding `n`, low byte first: only the low 16 bits
      survive, and they are what a two-byte read gives back. */
  function U16(n: nat): (r: seq<uint8>)
    ensures |r| == 2 && U16At(r, 0) == Some(Parsed(n % 65536, 2))
  {
    LowBits16(n);
    [n % 256, (n / 256) % 256]
  }

  /** The two bytes of a `WORD` put back together give its low 16 bits. */
  lemma LowBits16(n: nat)
    ensures n % 256 + 256 * ((n / 256) % 256) == n % 65536
  {
    var m := n / 256;
    var low := n % 256 + 256 * (m % 256);
    assert n == 256 * m + n % 256;
    assert m == 256 * (m / 256) + m % 256;
    assert n == 65536 * (m / 256) + low;
    assert 0 <= low < 65536;
    ModOfSplit(n, m / 256, low);
  }

  /** Euclidean division is unique: `n % d` is the remainder of any split. */
  lemma ModOfSplit(n: nat, q: nat, low: nat)
    requires low < 65536 && n == 65536 * q + low
    ensures n % 65536 == low
  {
  }

  // ---------------------------------------------------------------------------
  // Encoding

  /** A string with a one-byte length: the length field is truncated, the
      bytes are written in full. */
  function Text8(s: TString): (r: seq<uint8>)
    ensures U8At(r, 0) == Some(Parsed(|s| % 256, 1))
    ensures TextAt(r, 1, |s|) == Some(Parsed(s, |r|))
  {
    TextBytes(s);
    assert (U8(|s|) + Bytes(s))[1..1 + |s|] == Bytes(s);
    U8(|s|) + Bytes(s)
  }

  /** A string with a two-byte length, truncated the same way. */
  function Text16(s: TString): (r: seq<uint8>)
    ensures U16At(r, 0) == Some(Parsed(|s| % 65536, 2))
    ensures TextAt(r, 2, |s|) == Some(Parsed(s, |r|))
  {
    TextBytes(s);
    assert (U16(|s|) + Bytes(s))[..2] == U16(|s|);
    assert (U16(|s|) + Bytes(s))[2..2 + |s|] == Bytes(s);
    U16(|s|) + Bytes(s)
  }

  function EncodePair(p: LocalePair): seq<uint8>
  {
    Text8(p.name) + Text16(p.value)
  }

  /** The locale records of one entry, in listing order. */
  function EncodePairs(ls: seq<LocalePair>): seq<uint8>
    decreases |ls|
  {
    if ls == [] then [] else EncodePairs(ls[..|ls| - 1]) + EncodePair(ls[|ls| - 1])
  }

  /** One entry: key, locale count, locale records. */
  function EncodeEntry(e: Entry): seq<uint8>
  {
    Text8(e.key) + U16(|e.locales|) + EncodePairs(e.locales)
  }

  function EncodeEntries(es: seq<Entry>): seq<uint8>
    decreases |es|
  {
    if es == [] then [] else EncodeEntries(es[..|es| - 1]) + EncodeEntry(es[|es| - 1])
  }

  /** The whole file for a listing of the map. */
  function Encode(es: seq<Entry>): (r: seq<uint8>)
    ensures MagicOk(r)
    ensures U16At(r, 4) == Some(Parsed(|es| % 65536, 6))
  {
    assert (Magic + U16(|es|) + EncodeEntries(es))[4..6] == U16(|es|);
    Magic + U16(|es|) + EncodeEntries(es)
  }

  // ---------------------------------------------------------------------------
  // Decoding: every read advances a cursor and fails when the bytes run out

  /** A value read, and the position after it. */
  datatype Parsed<T> = Parsed(value: T, next: nat)

  /** `file.read(&len, 1)`. */
  function U8At(b: seq<uint8>, pos: nat): (r: Option<Parsed<nat>>)
    ensures r.Some? <==> pos < |b|
    ensures r.Some? ==> r.value.next == pos + 1 && r.value.value < 256
  {
    if pos < |b| then Some(Parsed(b[pos], pos + 1)) else None
  }

  /** `file.read(&word, 2)`, low byte first. */
  function U16At(b: seq<uint8>, pos: nat): (r: Option<Parsed<nat>>)
    ensures r.Some? <==> pos + 2 <= |b|
    ensures r.Some? ==> r.value.next == pos + 2 && r.value.value < 65536
  {
    if pos + 2 <= |b| then Some(Parsed(b[pos] as int + 256 * b[pos + 1] as int, pos + 2)) else None
  }

  /** `str.resize(n); file.read(&str[0], n)`: fails on a short read. */
  function TextAt(b: seq<uint8>, pos: nat, n: nat): (r: Option<Parsed<TString>>)
    ensures r.Some? <==> pos + n <= |b|
    ensures r.Some? ==> r.value.next == pos + n && |r.value.value| == n
  {
    if pos + n <= |b| then Some(Parsed(Text(b[pos..pos + n]), pos + n)) else None
  }

  /** One locale record. */
  function PairAt(b: seq<uint8>, pos: nat): (r: Option<Parsed<LocalePair>>)
    ensures r.Some? ==> pos < r.value.next <= |b|
  {
    match U8At(b, pos)
    case None => None
    case Some(n) =>
      match TextAt(b, n.next, n.value)
      case None => None
      case Some(name) =>
        match U16At(b, name.next)
        case None => None
        case Some(m) =>
          match TextAt(b, m.next, m.value)
          case None => None
          case Some(value) => Some(Parsed(LocalePair(name.value, value.value), value.next))
  }

  /** The first `count` locale records from `pos` (the `for (j = 0; j < localeSize; j++)` loop). */
  function PairsAt(b: seq<uint8>, pos: nat, count: nat): (r: Option<Parsed<seq<LocalePair>>>)
    ensures r.Some? ==> |r.value.value| == count && pos <= r.value.next <= |b|
    decreases count
  {
    if count == 0 then (if pos <= |b| then Some(Parsed([], pos)) else None)
    else
      match PairsAt(b, pos, count - 1)
      case None => None
      case Some(ps) =>
        match PairAt(b, ps.next)
        case None => None
        case Some(p) => Some(Parsed(ps.value + [p.value], p.next))
  }

  /** One entry: key, locale count, and that many locale records. */
  function EntryAt(b: seq<uint8>, pos: nat): (r: Option<Parsed<Entry>>)
    ensures r.Some? ==> pos < r.value.next <= |b|
  {
    match U8At(b, pos)
    case None => None
    case Some(n) =>
      match TextAt(b, n.next, n.value)
      case None => None
      case Some(key) =>
        match U16At(b, key.next)
        case None => None
        case Some(c) =>
          match PairsAt(b, c.next, c.value)
          case None => None
          case Some(ls) => Some(Parsed(Entry(key.value, ls.value), ls.next))
  }

  /** The first `count` entries from `pos` (the `for (i = 0; i < mapSize; i++)` loop). */
  function EntriesAt(b: seq<uint8>, pos: nat, count: nat): (r: Option<Parsed<seq<Entry>>>)
    ensures r.Some? ==> |r.value.value| == count && pos <= r.value.next <= |b|
    decreases count
  {
    if count == 0 then (if pos <= |b| then Some(Parsed([], pos)) else None)
    else
      match EntriesAt(b, pos, count - 1)
      case None => None
      case Some(es) =>
        match EntryAt(b, es.next)
        case None => None
        case Some(e) => Some(Parsed(es.value + [e.value], e.next))
  }

  /** The header check: four bytes must be there, and the first three must
      be `ISL` (`strncmp(magic, ISL_MAGIC, 3)`); the fourth is not looked at. */
  predicate MagicOk(b: seq<uint8>)
  {
    |b| >= 4 && b[0] == 73 && b[1] == 83 && b[2] == 76
  }

  /** The listing stored in a file, or `None` when the header is wrong or any
      field runs past the end.  Bytes after the last declared entry are ignored. */
  function DecodeListing(b: seq<uint8>): (r: Option<seq<Entry>>)
    ensures r.Some? ==> MagicOk(b) && |b| >= 6 && |r.value| == b[4] as int + 256 * b[5] as int
  {
    if !MagicOk(b) then None
    else
      match U16At(b, 4)
      case None => None
      case Some(c) =>
        match EntriesAt(b, c.next, c.value)
        case None => None
        case Some(es) => Some(es.value)
  }

  /** The map of a listing: `translMap[key] = localeMap` in listing order, so a
      repeated key's last locale map replaces the earlier ones whole. */
  function EntriesToMap(es: seq<Entry>): (m: TranslationsMap)
    ensures forall i :: 0 <= i < |es| ==> es[i].key in m
    ensures forall k :: k in m ==> exists i :: 0 <= i < |es| && es[i].key == k
    decreases |es|
  {
    if es == [] then map[]
    else EntriesToMap(es[..|es| - 1])[es[|es| - 1].key := LocalesToMap(es[|es| - 1].locales)]
  }

  /** `readBinFile` into a fresh map. */
  function Decode(b: seq<uint8>): (r: Option<TranslationsMap>)
    ensures r.Some? ==> MagicOk(b) && |b| >= 6
    ensures r.Some? ==> (r.value == map[] <==> b[4] == 0 && b[5] == 0)
  {
    match DecodeListing(b)
    case None => None
    case Some(es) => Some(EntriesToMap(es))
  }

  // ---------------------------------------------------------------------------
  // Sizes the fields can hold

  predicate PairFits(p: LocalePair)
  {
    |p.name| < 256 && |p.value| < 65536
  }

  predicate EntryFits(e: Entry)
  {
    |e.key| < 256 && |e.locales| < 65536 && forall j :: 0 <= j < |e.locales| ==> PairFits(e.locales[j])
  }

  /** Every count and length of the listing fits its field. */
  predicate Fits(es: seq<Entry>)
  {
    |es| < 65536 && forall i :: 0 <= i < |es| ==> EntryFits(es[i])
  }

  /** Every count and length of the map fits its field. */
  predicate MapFits(m: TranslationsMap)
  {
    && |m| < 65536
    && forall k :: k in m ==>
         && |k| < 256 && |m[k]| < 65536
         && forall n :: n in m[k] ==> |n| < 256 && |m[k][n]| < 65536
  }
}
