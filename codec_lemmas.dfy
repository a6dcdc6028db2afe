/** What the decoder makes of what the encoder writes: the round trip, bytes
    after the last entry, the unchecked fourth magic byte, and truncation. */
module CodecLemmas {
  import opened Common
  import opened Codec

  // ---------------------------------------------------------------------------
  // Bytes found at a position

  /** `b` holds the bytes `e` from `pos` on. */
  ghost predicate Holds(b: seq<uint8>, pos: nat, e: seq<uint8>)
    decreases |e|
  {
    pos + |e| <= |b| && (e == [] || (b[pos] == e[0] && Holds(b, pos + 1, e[1..])))
  }

  lemma {:induction false} HoldsSlice(b: seq<uint8>, pos: nat, e: seq<uint8>)
    ensures Holds(b, pos, e) <==> pos + |e| <= |b| && b[pos..pos + |e|] == e
    decreases |e|
  {
    if e != [] && pos + |e| <= |b| {
      HoldsSlice(b, pos + 1, e[1..]);
      assert b[pos..pos + |e|] == [b[pos]] + b[pos + 1..pos + |e|];
      assert e == [e[0]] + e[1..];
    }
  }

  /** The bytes `x + y` found at `pos` are `x` at `pos` and `y` right after
      it, at `mid`. */
  lemma HoldsSplit(b: seq<uint8>, pos: nat, x: seq<uint8>, y: seq<uint8>, mid: nat)
    requires Holds(b, pos, x + y) && mid == pos + |x|
    ensures Holds(b, pos, x) && Holds(b, mid, y)
  {
    HoldsSlice(b, pos, x + y);
    HoldsSlice(b, pos, x);
    HoldsSlice(b, mid, y);
    assert b[pos..pos + |x|] == b[pos..pos + |x| + |y|][..|x|];
    assert b[pos + |x|..pos + |x| + |y|] == b[pos..pos + |x| + |y|][|x|..];
  }

  // ---------------------------------------------------------------------------
  // Reading back one field

  lemma U8AtOf(b: seq<uint8>, pos: nat, n: nat, next: nat)
    requires n < 256 && Holds(b, pos, U8(n)) && next == pos + 1
    ensures U8At(b, pos) == Some(Parsed(n, next))
  {
  }

  lemma U16AtOf(b: seq<uint8>, pos: nat, n: nat, next: nat)
    requires n < 65536 && Holds(b, pos, U16(n)) && next == pos + 2
    ensures U16At(b, pos) == Some(Parsed(n, next))
  {
    HoldsSlice(b, pos, U16(n));
    assert b[pos] == b[pos..pos + 2][0] == n % 256;
    assert b[pos + 1] == b[pos..pos + 2][1] == (n / 256) % 256;
    assert n / 256 < 256;
  }

  lemma TextAtOf(b: seq<uint8>, pos: nat, s: TString, next: nat)
    requires Holds(b, pos, Bytes(s)) && next == pos + |s|
    ensures TextAt(b, pos, |s|) == Some(Parsed(s, next))
  {
    HoldsSlice(b, pos, Bytes(s));
    TextBytes(s);
  }

  // ---------------------------------------------------------------------------
  // Reading back records

  /** How `PairAt` puts a locale record together from its four fields. */
  lemma PairAtFrom(b: seq<uint8>, pos: nat, p: LocalePair, a: nat, c: nat, d: nat, next: nat)
    requires U8At(b, pos) == Some(Parsed(|p.name|, a))
    requires TextAt(b, a, |p.name|) == Some(Parsed(p.name, c))
    requires U16At(b, c) == Some(Parsed(|p.value|, d))
    requires TextAt(b, d, |p.value|) == Some(Parsed(p.value, next))
    ensures PairAt(b, pos) == Some(Parsed(p, next))
  {
  }

  lemma PairLayout(p: LocalePair)
    ensures EncodePair(p) == U8(|p.name|) + Bytes(p.name) + U16(|p.value|) + Bytes(p.value)
    ensures |EncodePair(p)| == 3 + |p.name| + |p.value|
  {
  }

  /** A locale record is read back whole, the cursor landing right after it. */
  lemma PairAtOf(b: seq<uint8>, pos: nat, p: LocalePair, next: nat)
    requires PairFits(p) && Holds(b, pos, EncodePair(p)) && next == pos + |EncodePair(p)|
    ensures PairAt(b, pos) == Some(Parsed(p, next))
  {
    var n, v := |p.name|, |p.value|;
    PairLayout(p);
    HoldsSplit(b, pos, U8(n) + Bytes(p.name) + U16(v), Bytes(p.value), pos + 3 + n);
    HoldsSplit(b, pos, U8(n) + Bytes(p.name), U16(v), pos + 1 + n);
    HoldsSplit(b, pos, U8(n), Bytes(p.name), pos + 1);
    U8AtOf(b, pos, n, pos + 1);
    TextAtOf(b, pos + 1, p.name, pos + 1 + n);
    U16AtOf(b, pos + 1 + n, v, pos + 3 + n);
    TextAtOf(b, pos + 3 + n, p.value, next);
    PairAtFrom(b, pos, p, pos + 1, pos + 1 + n, pos + 3 + n, next);
  }

  /** A non-empty sequence is its front followed by its last element. */
  lemma Snoc<T>(s: seq<T>)
    requires s != []
    ensures s[..|s| - 1] + [s[|s| - 1]] == s
  {
  }

  /** How `PairsAt` adds one more locale record. */
  lemma PairsAtFrom(b: seq<uint8>, pos: nat, init: seq<LocalePair>, last: LocalePair, mid: nat, next: nat)
    requires PairsAt(b, pos, |init|) == Some(Parsed(init, mid))
    requires PairAt(b, mid) == Some(Parsed(last, next))
    ensures PairsAt(b, pos, |init + [last]|) == Some(Parsed(init + [last], next))
  {
  }

  lemma PairsLast(ls: seq<LocalePair>)
    requires ls != []
    ensures EncodePairs(ls) == EncodePairs(ls[..|ls| - 1]) + EncodePair(ls[|ls| - 1])
  {
  }

  lemma {:induction false} PairsAtOf(b: seq<uint8>, pos: nat, ls: seq<LocalePair>, next: nat)
    requires forall j :: 0 <= j < |ls| ==> PairFits(ls[j])
    requires Holds(b, pos, EncodePairs(ls)) && next == pos + |EncodePairs(ls)|
    ensures PairsAt(b, pos, |ls|) == Some(Parsed(ls, next))
    decreases |ls|
  {
    if ls == [] {
      HoldsSlice(b, pos, []);
    } else {
      var init, last := ls[..|ls| - 1], ls[|ls| - 1];
      var mid := pos + |EncodePairs(init)|;
      PairsLast(ls);
      HoldsSplit(b, pos, EncodePairs(init), EncodePair(last), mid);
      PairsAtOf(b, pos, init, mid);
      PairAtOf(b, mid, last, next);
      PairsAtFrom(b, pos, init, last, mid, next);
      Snoc(ls);
    }
  }

  /** How `EntryAt` puts an entry together from its four fields. */
  lemma EntryAtFrom(b: seq<uint8>, pos: nat, e: Entry, a: nat, c: nat, d: nat, next: nat)
    requires U8At(b, pos) == Some(Parsed(|e.key|, a))
    requires TextAt(b, a, |e.key|) == Some(Parsed(e.key, c))
    requires U16At(b, c) == Some(Parsed(|e.locales|, d))
    requires PairsAt(b, d, |e.locales|) == Some(Parsed(e.locales, next))
    ensures EntryAt(b, pos) == Some(Parsed(e, next))
  {
  }

  lemma EntryLayout(e: Entry)
    ensures EncodeEntry(e) == U8(|e.key|) + Bytes(e.key) + U16(|e.locales|) + EncodePairs(e.locales)
    ensures |EncodeEntry(e)| == 3 + |e.key| + |EncodePairs(e.locales)|
  {
  }

  /** The key and the locale count of an encoded entry are read back, and
      its locale records follow them. */
  lemma EntryHeadOf(b: seq<uint8>, pos: nat, e: Entry)
    requires EntryFits(e) && Holds(b, pos, EncodeEntry(e))
    ensures U8At(b, pos) == Some(Parsed(|e.key|, pos + 1))
    ensures TextAt(b, pos + 1, |e.key|) == Some(Parsed(e.key, pos + 1 + |e.key|))
    ensures U16At(b, pos + 1 + |e.key|) == Some(Parsed(|e.locales|, pos + 3 + |e.key|))
    ensures Holds(b, pos + 3 + |e.key|, EncodePairs(e.locales))
  {
    var n, c := |e.key|, |e.locales|;
    EntryLayout(e);
    HoldsSplit(b, pos, U8(n) + Bytes(e.key) + U16(c), EncodePairs(e.locales), pos + 3 + n);
    HoldsSplit(b, pos, U8(n) + Bytes(e.key), U16(c), pos + 1 + n);
    HoldsSplit(b, pos, U8(n), Bytes(e.key), pos + 1);
    U8AtOf(b, pos, n, pos + 1);
    TextAtOf(b, pos + 1, e.key, pos + 1 + n);
    U16AtOf(b, pos + 1 + n, c, pos + 3 + n);
  }

  /** An entry is read back whole, the cursor landing right after it. */
  lemma EntryAtOf(b: seq<uint8>, pos: nat, e: Entry, next: nat)
    requires EntryFits(e) && Holds(b, pos, EncodeEntry(e)) && next == pos + |EncodeEntry(e)|
    ensures EntryAt(b, pos) == Some(Parsed(e, next))
  {
    EntryLayout(e);
    EntryHeadOf(b, pos, e);
    PairsAtOf(b, pos + 3 + |e.key|, e.locales, next);
    EntryAtFrom(b, pos, e, pos + 1, pos + 1 + |e.key|, pos + 3 + |e.key|, next);
  }

  /** How `EntriesAt` adds one more entry. */
  lemma EntriesAtFrom(b: seq<uint8>, pos: nat, init: seq<Entry>, last: Entry, mid: nat, next: nat)
    requires EntriesAt(b, pos, |init|) == Some(Parsed(init, mid))
    requires EntryAt(b, mid) == Some(Parsed(last, next))
    ensures EntriesAt(b, pos, |init + [last]|) == Some(Parsed(init + [last], next))
  {
  }

  lemma EntriesLast(es: seq<Entry>)
    requires es != []
    ensures EncodeEntries(es) == EncodeEntries(es[..|es| - 1]) + EncodeEntry(es[|es| - 1])
  {
  }

  lemma {:induction false} EntriesAtOf(b: seq<uint8>, pos: nat, es: seq<Entry>, next: nat)
    requires forall i :: 0 <= i < |es| ==> EntryFits(es[i])
    requires Holds(b, pos, EncodeEntries(es)) && next == pos + |EncodeEntries(es)|
    ensures EntriesAt(b, pos, |es|) == Some(Parsed(es, next))
    decreases |es|
  {
    if es == [] {
      HoldsSlice(b, pos, []);
    } else {
      var init, last := es[..|es| - 1], es[|es| - 1];
      var mid := pos + |EncodeEntries(init)|;
      EntriesLast(es);
      HoldsSplit(b, pos, EncodeEntries(init), EncodeEntry(last), mid);
      EntryAtOf(b, mid, last, next);
      EntriesAtOf(b, pos, init, mid);
      EntriesAtFrom(b, pos, init, last, mid, next);
      Snoc(es);
    }
  }

  /** Any bytes that start with `ISL`, some fourth byte, the entry count and the
      entries of a listing decode to that listing. */
  lemma DecodeListingOf(b: seq<uint8>, es: seq<Entry>)
    requires Fits(es) && MagicOk(b)
    requires 6 + |EncodeEntries(es)| <= |b|
    requires b[4..6] == U16(|es|) && b[6..6 + |EncodeEntries(es)|] == EncodeEntries(es)
    ensures DecodeListing(b) == Some(es)
  {
    HoldsSlice(b, 4, U16(|es|));
    HoldsSlice(b, 6, EncodeEntries(es));
    U16AtOf(b, 4, |es|, 6);
    EntriesAtOf(b, 6, es, 6 + |EncodeEntries(es)|);
  }

  // ---------------------------------------------------------------------------
  // The round trip and its variants

  /** Reading back a written file gives back the listing it was written from,
      as long as every count and length fits its field. */
  lemma DecodeEncode(es: seq<Entry>)
    requires Fits(es)
    ensures DecodeListing(Encode(es)) == Some(es)
  {
    var b := Encode(es);
    assert b[4..6] == U16(|es|);
    assert b[6..] == EncodeEntries(es);
    DecodeListingOf(b, es);
  }

  /** Bytes after the last declared entry are never read. */
  lemma DecodeIgnoresTrailing(es: seq<Entry>, extra: seq<uint8>)
    requires Fits(es)
    ensures DecodeListing(Encode(es) + extra) == Some(es)
  {
    var b := Encode(es) + extra;
    assert b[4..6] == U16(|es|);
    assert b[6..6 + |EncodeEntries(es)|] == EncodeEntries(es);
    DecodeListingOf(b, es);
  }

  /** The fourth magic byte is never checked: any value is accepted there. */
  lemma DecodeAnyFourthByte(es: seq<Entry>, x: uint8)
    requires Fits(es)
    ensures DecodeListing(Encode(es)[3 := x]) == Some(es)
  {
    var b := Encode(es)[3 := x];
    assert b[4..6] == U16(|es|);
    assert b[6..] == EncodeEntries(es);
    DecodeListingOf(b, es);
  }

  /** A header that does not start with `ISL`, or is shorter than four bytes, is rejected. */
  lemma DecodeRejectsBadMagic(b: seq<uint8>)
    requires |b| < 4 || b[..3] != [73, 83, 76]
    ensures Decode(b) == None
  {
    assert !MagicOk(b) by {
      if |b| >= 4 {
        assert b[..3] == [b[0], b[1], b[2]];
      }
    }
  }

  // ---------------------------------------------------------------------------
  // Reads depend only on the bytes they reach: extending the input keeps them

  lemma U8AtExtend(b: seq<uint8>, b': seq<uint8>, pos: nat)
    requires b <= b' && U8At(b, pos).Some?
    ensures U8At(b', pos) == U8At(b, pos)
  {
    assert b'[pos] == b[pos];
  }

  lemma U16AtExtend(b: seq<uint8>, b': seq<uint8>, pos: nat)
    requires b <= b' && U16At(b, pos).Some?
    ensures U16At(b', pos) == U16At(b, pos)
  {
    assert b'[pos] == b[pos] && b'[pos + 1] == b[pos + 1];
  }

  lemma TextAtExtend(b: seq<uint8>, b': seq<uint8>, pos: nat, n: nat)
    requires b <= b' && TextAt(b, pos, n).Some?
    ensures TextAt(b', pos, n) == TextAt(b, pos, n)
  {
    assert b'[pos..pos + n] == b[pos..pos + n];
  }

  lemma PairAtExtend(b: seq<uint8>, b': seq<uint8>, pos: nat)
    requires b <= b' && PairAt(b, pos).Some?
    ensures PairAt(b', pos) == PairAt(b, pos)
  {
    var n := U8At(b, pos).value;
    U8AtExtend(b, b', pos);
    var name := TextAt(b, n.next, n.value).value;
    TextAtExtend(b, b', n.next, n.value);
    var m := U16At(b, name.next).value;
    U16AtExtend(b, b', name.next);
    TextAtExtend(b, b', m.next, m.value);
  }

  lemma {:induction false} PairsAtExtend(b: seq<uint8>, b': seq<uint8>, pos: nat, count: nat)
    requires b <= b' && PairsAt(b, pos, count).Some?
    ensures PairsAt(b', pos, count) == PairsAt(b, pos, count)
    decreases count
  {
    if count > 0 {
      PairsAtExtend(b, b', pos, count - 1);
      PairAtExtend(b, b', PairsAt(b, pos, count - 1).value.next);
    }
  }

  lemma EntryAtExtend(b: seq<uint8>, b': seq<uint8>, pos: nat)
    requires b <= b' && EntryAt(b, pos).Some?
    ensures EntryAt(b', pos) == EntryAt(b, pos)
  {
    var n := U8At(b, pos).value;
    U8AtExtend(b, b', pos);
    var key := TextAt(b, n.next, n.value).value;
    TextAtExtend(b, b', n.next, n.value);
    var c := U16At(b, key.next).value;
    U16AtExtend(b, b', key.next);
    PairsAtExtend(b, b', c.next, c.value);
  }

  lemma {:induction false} EntriesAtExtend(b: seq<uint8>, b': seq<uint8>, pos: nat, count: nat)
    requires b <= b' && EntriesAt(b, pos, count).Some?
    ensures EntriesAt(b', pos, count) == EntriesAt(b, pos, count)
    decreases count
  {
    if count > 0 {
      EntriesAtExtend(b, b', pos, count - 1);
      EntryAtExtend(b, b', EntriesAt(b, pos, count - 1).value.next);
    }
  }

  /** No partial data: every proper prefix of a written file is rejected. */
  lemma DecodeRejectsTruncated(es: seq<Entry>, k: nat)
    requires Fits(es) && k < |Encode(es)|
    ensures DecodeListing(Encode(es)[..k]) == None
  {
    var full := Encode(es);
    var b := full[..k];
    if DecodeListing(b).Some? {
      assert b <= full;
      U16AtExtend(b, full, 4);
      var c := U16At(b, 4).value;
      EntriesAtExtend(b, full, 6, c.value);
      EntriesEndOfFile(es);
      assert false;
    }
  }

  /** In a written file the entries are read from byte 6 up to the very end. */
  lemma EntriesEndOfFile(es: seq<Entry>)
    requires Fits(es)
    ensures U16At(Encode(es), 4) == Some(Parsed(|es|, 6))
    ensures EntriesAt(Encode(es), 6, |es|) == Some(Parsed(es, |Encode(es)|))
  {
    var full := Encode(es);
    assert |es| % 65536 == |es|;
    assert |full| == 6 + |EncodeEntries(es)|;
    assert full[6..6 + |EncodeEntries(es)|] == EncodeEntries(es);
    HoldsSlice(full, 6, EncodeEntries(es));
    EntriesAtOf(full, 6, es, 6 + |EncodeEntries(es)|);
  }
}
