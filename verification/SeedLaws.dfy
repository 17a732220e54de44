/** The seed codec's promises: what `encode` prints, `decode` reads back (up to the length limit), the
    printer never confuses two seeds. */
module SeedLaws {
  import opened Wrappers
  import opened Seed

  // ---- one value ----

  lemma HexRoundTrip(b: Byte)
    ensures FromHex(HexDigit(b / 16), HexDigit(b % 16)) == Some(b)
  {
  }

  /** The spellings of one byte: its two hex digits in either case, or, below sixteen, a plus sign and its
      digit; nothing else is read as it. */
  lemma EscapesAccepted(h: Byte, l: Byte, b: Byte)
    ensures FromHex(h, l) == Some(b)
            <==> (HexValue(h) == Some(b / 16) && HexValue(l) == Some(b % 16)) || (h == PLUS && b < 16 && HexValue(l) == Some(b))
  {
    HexRange(h, l);
    if HexValue(h).Some? && HexValue(l).Some? {
      var x, y := HexValue(h).value, HexValue(l).value;
      assert (16 * x + y) / 16 == x && (16 * x + y) % 16 == y;
    }
  }

  lemma PrefixedIs(out: Bytes)
    ensures Prefixed(out, Unescape([])) == Ok(out)
  {
    assert out + [] == out;
  }

  /** So `%+A` is a line feed like `%0A`, and decoding is not injective. */
  lemma PlusIsZero()
    ensures Unescape([PERCENT, PLUS, 65]) == Unescape([PERCENT, 48, 65]) == Ok([10])
  {
    var plus, zero: Bytes := [PERCENT, PLUS, 65], [PERCENT, 48, 65];
    assert plus[3..] == [] && zero[3..] == [];
    PrefixedIs([10]);
    EscapesAccepted(PLUS, 65, 10);
    EscapesAccepted(48, 65, 10);
  }

  lemma {:induction false} UnescapeEscaped(s: Bytes)
    ensures Unescape(PctEncode(s)) == Ok(s)
  {
    if s != [] {
      UnescapeEscaped(s[1..]);
      var rest := PctEncode(s[1..]);
      var e := Escape(s[0]) + rest;
      if KeptAsIs(s[0]) {
        assert e[1..] == rest;
      } else {
        HexRoundTrip(s[0]);
        assert e[3..] == rest;
      }
      assert [s[0]] + s[1..] == s;
    }
  }

  /** Text that cannot end a field, start one, or be trimmed. */
  predicate Plain(s: Bytes) {
    forall i :: 0 <= i < |s| ==> IsGraphic(s[i]) && s[i] != AMPERSAND && s[i] != EQUALS
  }

  lemma {:induction false} EncodedIsPlain(s: Bytes)
    ensures Plain(PctEncode(s))
    ensures s != [] ==> PctEncode(s) != []
  {
    if s != [] { EncodedIsPlain(s[1..]); }
  }

  lemma {:induction false} AsciiIsUtf8(s: Bytes)
    requires forall i :: 0 <= i < |s| ==> s[i] < 128
    ensures IsUtf8(s)
  {
    if s != [] { AsciiIsUtf8(s[1..]); }
  }

  lemma ValueRoundTrip(s: Bytes)
    requires IsUtf8(s)
    ensures PctDecode(PctEncode(s)) == Ok(s)
  {
    UnescapeEscaped(s);
  }

  // ---- splitting ----

  lemma {:induction false} SplitPlain(s: Bytes, rest: Bytes, sep: Byte)
    requires forall i :: 0 <= i < |s| ==> s[i] != sep
    ensures Split(s, sep) == [s]
    ensures Split(s + [sep] + rest, sep) == [s] + Split(rest, sep)
  {
    var t := s + [sep] + rest;
    if s == [] {
      assert t[1..] == rest;
    } else {
      SplitPlain(s[1..], rest, sep);
      assert t[1..] == s[1..] + [sep] + rest;
      assert [s[0]] + s[1..] == s;
    }
  }

  lemma {:induction false} KeyValueSplits(k: Bytes, v: Bytes)
    requires forall i :: 0 <= i < |k| ==> k[i] != EQUALS
    ensures KeyValue(k + [EQUALS] + v) == (k, v)
  {
    var t := k + [EQUALS] + v;
    if k != [] {
      KeyValueSplits(k[1..], v);
      assert t[1..] == k[1..] + [EQUALS] + v;
      assert [k[0]] + k[1..] == k;
    } else {
      assert t[1..] == v;
    }
  }

  // ---- the fields of an encoded seed ----

  function AddrPairs(addrs: seq<Bytes>): seq<Bytes> {
    if addrs == [] then [] else [Field(KEY_A, addrs[0])] + AddrPairs(addrs[1..])
  }

  lemma FieldReads(key: Bytes, value: Bytes)
    requires key == KEY_A || key == KEY_G || key == KEY_V
    ensures KeyValue(Field(key, value)) == (key, PctEncode(value))
    ensures Field(key, value) != [] && forall i :: 0 <= i < |Field(key, value)| ==> Field(key, value)[i] != AMPERSAND
  {
    KeyValueSplits(key, PctEncode(value));
    EncodedIsPlain(value);
  }

  lemma {:induction false} SplitAddrFields(head: Bytes, addrs: seq<Bytes>)
    requires head != [] && forall i :: 0 <= i < |head| ==> head[i] != AMPERSAND
    ensures NonEmpty(Split(head + AddrFields(addrs), AMPERSAND)) == [head] + AddrPairs(addrs)
    decreases |addrs|
  {
    hide Field, KeyValue;
    if addrs == [] {
      SplitPlain(head, [], AMPERSAND);
      assert head + [] == head;
    } else {
      var f, rest := Field(KEY_A, addrs[0]), AddrFields(addrs[1..]);
      FieldReads(KEY_A, addrs[0]);
      SplitAddrFields(f, addrs[1..]);
      SplitPlain(head, f + rest, AMPERSAND);
      assert head + AddrFields(addrs) == head + [AMPERSAND] + (f + rest);
      var parts := [head] + Split(f + rest, AMPERSAND);
      assert parts[1..] == Split(f + rest, AMPERSAND);
    }
  }

  lemma VersionField()
    ensures Field(KEY_V, VERSION) == KEY_V + [EQUALS] + VERSION
  {
    assert VERSION[1..] == [];
  }

  lemma QueryPairs(s: GroupSeed)
    ensures NonEmpty(Split(Query(s), AMPERSAND)) == [Field(KEY_V, VERSION), Field(KEY_G, s.group)] + AddrPairs(s.addrs)
  {
    hide KeyValue, PctEncode, Field, AddrPairs;
    var v, g, rest := Field(KEY_V, VERSION), Field(KEY_G, s.group), AddrFields(s.addrs);
    FieldReads(KEY_V, VERSION);
    FieldReads(KEY_G, s.group);
    VersionField();
    assert Query(s) == v + [AMPERSAND] + (g + rest);
    SplitPlain(v, g + rest, AMPERSAND);
    SplitAddrFields(g, s.addrs);
    var parts := [v] + Split(g + rest, AMPERSAND);
    assert parts[1..] == Split(g + rest, AMPERSAND);
  }

  lemma ReadAddr(d: Draft, a: Bytes)
    requires |d.addrs| < MAX_SEED_ADDRS && IsUtf8(a)
    ensures ReadField(d, Field(KEY_A, a)) == Ok(d.(addrs := d.addrs + [a]))
  {
    hide PctEncode, PctDecode, KeyValue, Field, IsUtf8;
    FieldReads(KEY_A, a);
    ValueRoundTrip(a);
  }

  lemma {:induction false} ReadAddrs(d: Draft, addrs: seq<Bytes>)
    requires |d.addrs| + |addrs| <= MAX_SEED_ADDRS
    requires forall i :: 0 <= i < |addrs| ==> IsUtf8(addrs[i])
    ensures ReadFields(d, AddrPairs(addrs)) == Ok(d.(addrs := d.addrs + addrs))
    decreases |addrs|
  {
    hide ReadField, Field, IsUtf8;
    if addrs == [] {
      assert d.addrs + addrs == d.addrs;
    } else {
      ReadAddr(d, addrs[0]);
      var next, pairs := d.(addrs := d.addrs + [addrs[0]]), AddrPairs(addrs);
      assert pairs[0] == Field(KEY_A, addrs[0]) && pairs[1..] == AddrPairs(addrs[1..]);
      assert ReadFields(d, pairs) == ReadFields(next, pairs[1..]);
      ReadAddrs(next, addrs[1..]);
      assert next.addrs + addrs[1..] == d.addrs + addrs;
    }
  }

  lemma AddrsAreUtf8(s: GroupSeed)
    requires ValidSeed(s)
    ensures forall i :: 0 <= i < |s.addrs| ==> IsUtf8(s.addrs[i])
  {
    forall i | 0 <= i < |s.addrs| ensures IsUtf8(s.addrs[i]) {
      assert ValidAddr(s.addrs[i]);
      AsciiIsUtf8(s.addrs[i]);
    }
  }

  lemma ReadsBack(s: GroupSeed)
    requires ValidSeed(s)
    ensures DecodeQuery(Query(s)) == Ok(s)
  {
    hide PctEncode, PctDecode, KeyValue, Field, ValidGroup, ValidAddr, IsUtf8, Split, Query;
    QueryPairs(s);
    var pairs := [Field(KEY_V, VERSION), Field(KEY_G, s.group)] + AddrPairs(s.addrs);
    FieldReads(KEY_V, VERSION);
    FieldReads(KEY_G, s.group);
    AsciiIsUtf8(VERSION);
    ValueRoundTrip(VERSION);
    ValueRoundTrip(s.group);
    var d1 := BLANK.(version := Some(VERSION));
    var d2 := d1.(group := Some(s.group));
    assert pairs[1..][1..] == AddrPairs(s.addrs);
    assert pairs[1..][0] == Field(KEY_G, s.group);
    AddrsAreUtf8(s);
    ReadAddrs(d2, s.addrs);
    assert d2.addrs + s.addrs == s.addrs;
    assert ReadFields(BLANK, pairs) == ReadFields(d1, pairs[1..]) == ReadFields(d2, pairs[1..][1..]);
  }

  // ---- the whole text ----

  /** No white-space character contains a graphic byte. */
  lemma GraphicSplitsNoSpace(w: Bytes, i: nat)
    requires i < |w| && IsGraphic(w[i])
    ensures !IsSpace(w)
  {
  }

  lemma NoSpaceAtStart(t: Bytes)
    requires t != [] && IsGraphic(t[0])
    ensures SpaceAtStart(t) == 0
  {
    hide IsSpace;
    forall k | 1 <= k <= 3 && k <= |t| ensures !StartsInSpace(t, k) { GraphicSplitsNoSpace(t[..k], 0); }
  }

  lemma NoSpaceAtEnd(t: Bytes)
    requires t != [] && IsGraphic(t[|t| - 1])
    ensures SpaceAtEnd(t) == 0
  {
    hide IsSpace;
    forall k | 1 <= k <= 3 && k <= |t| ensures !EndsInSpace(t, k) { GraphicSplitsNoSpace(t[|t| - k..], k - 1); }
  }

  lemma NoTrimStart(t: Bytes)
    requires t != [] && IsGraphic(t[0])
    ensures TrimStart(t) == t
  {
    NoSpaceAtStart(t);
  }

  lemma NoTrimEnd(t: Bytes)
    requires t != [] && IsGraphic(t[|t| - 1])
    ensures TrimEnd(t) == t
  {
    NoSpaceAtEnd(t);
  }

  lemma TrimKeeps(t: Bytes)
    requires t != [] && IsGraphic(t[0]) && IsGraphic(t[|t| - 1])
    ensures Trim(t) == t
  {
    hide TrimStart, TrimEnd;
    NoTrimStart(t);
    NoTrimEnd(t);
  }

  lemma {:induction false} LastOfAddrFields(addrs: seq<Bytes>)
    requires addrs != [] && addrs[|addrs| - 1] != []
    ensures AddrFields(addrs) != [] && IsGraphic(AddrFields(addrs)[|AddrFields(addrs)| - 1])
  {
    EncodedIsPlain(addrs[0]);
    if |addrs| > 1 {
      LastOfAddrFields(addrs[1..]);
    } else {
      assert AddrFields(addrs[1..]) == [];
    }
  }

  lemma EndsGraphic(s: GroupSeed)
    requires ValidSeed(s)
    ensures var t := Encode(s); |t| > |PREFIX| && IsGraphic(t[0]) && IsGraphic(t[|t| - 1])
  {
    hide ValidAddr, ValidGroup, AddrFields, PctEncode, Field, IsUtf8;
    LastAddrNotEmpty(s);
    LastOfAddrFields(s.addrs);
  }

  lemma LastAddrNotEmpty(s: GroupSeed)
    requires ValidSeed(s)
    ensures s.addrs != [] && s.addrs[|s.addrs| - 1] != []
  {
    hide ValidGroup, IsUtf8;
    assert ValidAddr(s.addrs[|s.addrs| - 1]);
  }

  lemma EncodedText(s: GroupSeed)
    requires ValidSeed(s)
    ensures Trim(Encode(s)) == Encode(s)
    ensures Encode(s)[..|PREFIX|] == PREFIX && Encode(s)[|PREFIX|..] == Query(s)
  {
    hide Trim, Validate, IsUtf8, Query;
    EndsGraphic(s);
    TrimKeeps(Encode(s));
  }

  /** Decoding an encoded seed gives the seed back whenever the text is short enough to be read at all,
      and is refused as too long otherwise. */
  lemma RoundTrip(s: GroupSeed)
    requires ValidSeed(s)
    ensures Decode(Encode(s)) == if |Encode(s)| <= MAX_SEED_LEN then Ok(s) else Err(TooLong)
  {
    EncodedText(s);
    ReadsBack(s);
  }

  /** `/p2p/` and 251 letters: as long as an address may be. */
  const LONG_ADDR: Bytes := [SLASH] + (P2P + [SLASH] + seq(251, _ => 81))

  lemma LongAddrIsValid()
    ensures |LONG_ADDR| == MAX_ADDR_LEN && ValidAddr(LONG_ADDR)
  {
    var tail: Bytes := seq(251, _ => 81);
    SplitPlain(P2P, tail, SLASH);
    SplitPlain(tail, [], SLASH);
    var parts := [P2P] + [tail];
    assert LONG_ADDR[1..] == P2P + [SLASH] + tail;
    assert Split(LONG_ADDR[1..], SLASH) == parts;
    assert parts[0] == P2P && AllAlphanumeric(parts[1]);
  }

  lemma {:induction false} EncodedIsNoShorter(s: Bytes)
    ensures |PctEncode(s)| >= |s|
  {
    if s != [] { EncodedIsNoShorter(s[1..]); }
  }

  lemma {:induction false} FieldsAreNoShorter(addrs: seq<Bytes>)
    requires forall i :: 0 <= i < |addrs| ==> addrs[i] == LONG_ADDR
    ensures |AddrFields(addrs)| >= 256 * |addrs|
  {
    hide PctEncode;
    LongAddrIsValid();
    if addrs != [] {
      EncodedIsNoShorter(addrs[0]);
      FieldsAreNoShorter(addrs[1..]);
    }
  }

  /** The other branch is taken: a valid seed may print more than can be read back. */
  lemma SeedsCanBeTooLong() returns (s: GroupSeed)
    ensures ValidSeed(s) && |Encode(s)| > MAX_SEED_LEN && Decode(Encode(s)) == Err(TooLong)
  {
    hide ValidAddr, AddrFields, PctEncode, Decode;
    var a: Bytes := [97];
    s := GroupSeed(a, seq(MAX_SEED_ADDRS, _ => LONG_ADDR));
    LongAddrIsValid();
    TrimKeeps(a);
    AsciiIsUtf8(a);
    assert !HasControl(a);
    FieldsAreNoShorter(s.addrs);
    RoundTrip(s);
  }

  /** Two valid seeds never print the same text, however long. */
  lemma PrinterInjective(s: GroupSeed, t: GroupSeed)
    requires ValidSeed(s) && ValidSeed(t) && Encode(s) == Encode(t)
    ensures s == t
  {
    EncodedText(s);
    EncodedText(t);
    ReadsBack(s);
    ReadsBack(t);
  }
}
