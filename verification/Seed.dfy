/** The group seed codec (`cluster-core/src/seed.rs`). A Rust `str` is its UTF-8 bytes here. */
module Seed {
  import opened Wrappers

  type Byte = n: nat | n < 256
  type Bytes = seq<Byte>

  const MAX_SEED_ADDRS: nat := 8
  const MAX_SEED_LEN: nat := 2048
  const MAX_GROUP_LEN: nat := 256
  const MAX_ADDR_LEN: nat := 256

  /** "citrate-cluster://seed?" */
  const PREFIX: Bytes :=
    [99, 105, 116, 114, 97, 116, 101, 45, 99, 108, 117, 115, 116, 101, 114, 58, 47, 47, 115, 101, 101, 100, 63]

  const PERCENT: Byte := 37
  const AMPERSAND: Byte := 38
  const PLUS: Byte := 43
  const SLASH: Byte := 47
  const EQUALS: Byte := 61
  const KEY_A: Bytes := [97]
  const KEY_G: Bytes := [103]
  const KEY_V: Bytes := [118]
  /** "1" */
  const VERSION: Bytes := [49]

  datatype GroupSeed = GroupSeed(group: Bytes, addrs: seq<Bytes>)

  datatype SeedError = NotASeed | TooLong | Version | Encoding | Group | AddrCount | Addr

  datatype Result<+T> = Ok(value: T) | Err(error: SeedError)

  // ---- bytes of text ----

  predicate IsGraphic(b: Byte) { 33 <= b <= 126 }

  predicate IsAlphanumeric(b: Byte) { 48 <= b <= 57 || 65 <= b <= 90 || 97 <= b <= 122 }

  predicate AllAlphanumeric(s: Bytes) { forall i :: 0 <= i < |s| ==> IsAlphanumeric(s[i]) }

  predicate IsContinuation(b: Byte) { 128 <= b < 192 }

  /** Length of the well-formed UTF-8 character `s` starts with (section 4 of RFC 3629), 0 if none. */
  function CharLength(s: Bytes): (n: nat)
    ensures n <= |s|
  {
    if s == [] then 0
    else if s[0] < 0x80 then 1
    else if |s| >= 2 && 0xC2 <= s[0] <= 0xDF && IsContinuation(s[1]) then 2
    else if |s| >= 3 && 0xE0 <= s[0] <= 0xEF && IsContinuation(s[1]) && IsContinuation(s[2])
            && (s[0] == 0xE0 ==> s[1] >= 0xA0) && (s[0] == 0xED ==> s[1] < 0xA0) then 3
    else if |s| >= 4 && 0xF0 <= s[0] <= 0xF4 && IsContinuation(s[1]) && IsContinuation(s[2]) && IsContinuation(s[3])
            && (s[0] == 0xF0 ==> s[1] >= 0x90) && (s[0] == 0xF4 ==> s[1] < 0x90) then 4
    else 0
  }

  predicate IsUtf8(s: Bytes) {
    s == [] || (CharLength(s) > 0 && IsUtf8(s[CharLength(s)..]))
  }

  /** The byte strings that are one `White_Space` character. */
  predicate IsSpace(s: Bytes) {
    || (|s| == 1 && (9 <= s[0] <= 13 || s[0] == 32))
    || (|s| == 2 && s[0] == 0xC2 && (s[1] == 0x85 || s[1] == 0xA0))
    || (|s| == 3 && s[0] == 0xE1 && s[1] == 0x9A && s[2] == 0x80)
    || (|s| == 3 && s[0] == 0xE2 && s[1] == 0x80 && (0x80 <= s[2] <= 0x8A || s[2] == 0xA8 || s[2] == 0xA9 || s[2] == 0xAF))
    || (|s| == 3 && s[0] == 0xE2 && s[1] == 0x81 && s[2] == 0x9F)
    || (|s| == 3 && s[0] == 0xE3 && s[1] == 0x80 && s[2] == 0x80)
  }

  predicate StartsInSpace(s: Bytes, k: nat) { k <= |s| && IsSpace(s[..k]) }

  predicate EndsInSpace(s: Bytes, k: nat) { k <= |s| && IsSpace(s[|s| - k..]) }

  /** The length of the white-space character `s` begins with, or zero. */
  function SpaceAtStart(s: Bytes): (k: nat)
    ensures k <= |s|
  {
    if StartsInSpace(s, 1) then 1 else if StartsInSpace(s, 2) then 2 else if StartsInSpace(s, 3) then 3 else 0
  }

  function TrimStart(s: Bytes): Bytes {
    var k := SpaceAtStart(s);
    if k == 0 then s else TrimStart(s[k..])
  }

  /** The length of the white-space character `s` ends with, or zero. */
  function SpaceAtEnd(s: Bytes): (k: nat)
    ensures k <= |s|
  {
    if EndsInSpace(s, 1) then 1 else if EndsInSpace(s, 2) then 2 else if EndsInSpace(s, 3) then 3 else 0
  }

  function TrimEnd(s: Bytes): Bytes {
    var k := SpaceAtEnd(s);
    if k == 0 then s else TrimEnd(s[..|s| - k])
  }

  /** `str::trim`. */
  function Trim(s: Bytes): Bytes { TrimEnd(TrimStart(s)) }

  /** `char::is_control` of some character: C0, DEL or C1. */
  predicate HasControl(s: Bytes) {
    || (exists i :: 0 <= i < |s| && (s[i] < 32 || s[i] == 127))
    || (exists i :: 0 <= i < |s| - 1 && s[i] == 0xC2 && 0x80 <= s[i + 1] <= 0x9F)
  }

  /** `split(sep)`: always at least one piece. */
  function Split(s: Bytes, sep: Byte): (r: seq<Bytes>)
    ensures r != []
  {
    if s == [] then [[]]
    else
      var rest := Split(s[1..], sep);
      if s[0] == sep then [[]] + rest else [[s[0]] + rest[0]] + rest[1..]
  }

  function NonEmpty(parts: seq<Bytes>): seq<Bytes> {
    if parts == [] then []
    else
      var rest := NonEmpty(parts[1..]);
      if parts[0] == [] then rest else [parts[0]] + rest
  }

  /** `split_once('=')`, with the whole text as key when there is no `=`. */
  function KeyValue(s: Bytes): (Bytes, Bytes) {
    if s == [] then ([], [])
    else if s[0] == EQUALS then ([], s[1..])
    else
      var (k, v) := KeyValue(s[1..]);
      ([s[0]] + k, v)
  }

  // ---- validation ----

  predicate ValidGroup(g: Bytes) {
    Trim(g) != [] && |g| <= MAX_GROUP_LEN && !HasControl(g)
  }

  /** "p2p" */
  const P2P: Bytes := [112, 50, 112]

  predicate ValidAddr(a: Bytes) {
    && |a| <= MAX_ADDR_LEN && a != [] && a[0] == SLASH
    && (forall i :: 0 <= i < |a| ==> IsGraphic(a[i]))
    && var parts := Split(a[1..], SLASH);
       && (forall i :: 0 <= i < |parts| ==> parts[i] != [])
       && (exists i :: 0 <= i < |parts| - 1 && parts[i] == P2P && AllAlphanumeric(parts[i + 1]))
  }

  function Validate(s: GroupSeed): Option<SeedError> {
    if !ValidGroup(s.group) then Some(Group)
    else if s.addrs == [] || |s.addrs| > MAX_SEED_ADDRS then Some(AddrCount)
    else if exists i :: 0 <= i < |s.addrs| && !ValidAddr(s.addrs[i]) then Some(Addr)
    else None
  }

  /** What `GroupSeed::new` accepts; the group is text, so its bytes are UTF-8. */
  predicate ValidSeed(s: GroupSeed) { Validate(s).None? && IsUtf8(s.group) }

  // ---- percent escapes (section 2.1 of RFC 3986) ----

  predicate KeptAsIs(b: Byte) {
    IsGraphic(b) && b != PERCENT && b != AMPERSAND && b != EQUALS && b != 35 && b != PLUS
  }

  function HexDigit(n: nat): Byte
    requires n < 16
  {
    if n < 10 then 48 + n else 55 + n
  }

  function HexValue(b: Byte): Option<nat> {
    if 48 <= b <= 57 then Some(b - 48)
    else if 65 <= b <= 70 then Some(b - 55)
    else if 97 <= b <= 102 then Some(b - 87)
    else None
  }

  /** `u8::from_str_radix(_, 16)` on two bytes: two hex digits, or a plus sign and one. */
  function FromHex(h: Byte, l: Byte): Option<Byte> {
    match (HexValue(h), HexValue(l))
    case (Some(x), Some(y)) => HexRange(h, l); Some(16 * x + y)
    case (None, Some(y)) => if h == PLUS then HexRange(h, l); Some(y) else None
    case _ => None
  }

  lemma HexRange(h: Byte, l: Byte)
    ensures HexValue(h).Some? ==> HexValue(h).value < 16
    ensures HexValue(l).Some? ==> HexValue(l).value < 16
  {
  }

  function Escape(b: Byte): Bytes {
    if KeptAsIs(b) then [b] else [PERCENT, HexDigit(b / 16), HexDigit(b % 16)]
  }

  function PctEncode(s: Bytes): Bytes {
    if s == [] then [] else Escape(s[0]) + PctEncode(s[1..])
  }

  /** `out` already read, then the rest. */
  function Prefixed(out: Bytes, rest: Result<Bytes>): Result<Bytes> {
    match rest
    case Ok(more) => Ok(out + more)
    case Err(e) => Err(e)
  }

  function Unescape(s: Bytes): Result<Bytes> {
    if s == [] then Ok([])
    else if s[0] == PERCENT then
      if |s| < 3 || FromHex(s[1], s[2]).None? then Err(Encoding)
      else Prefixed([FromHex(s[1], s[2]).value], Unescape(s[3..]))
    else Prefixed([s[0]], Unescape(s[1..]))
  }

  function PctDecode(s: Bytes): Result<Bytes> {
    match Unescape(s)
    case Ok(out) => if IsUtf8(out) then Ok(out) else Err(Encoding)
    case Err(e) => Err(e)
  }

  lemma {:induction false} EncodeLast(s: Bytes)
    requires s != []
    ensures PctEncode(s) == PctEncode(s[..|s| - 1]) + Escape(s[|s| - 1])
  {
    hide Escape;
    if |s| == 1 {
      assert s[1..] == [] && s[..0] == [];
    } else {
      EncodeLast(s[1..]);
      assert s[1..][..|s| - 2] == s[..|s| - 1][1..];
    }
  }

  method EncodeValue(s: Bytes) returns (out: Bytes)
    ensures out == PctEncode(s)
  {
    hide PctEncode, HexDigit, KeptAsIs;
    out := [];
    assert PctEncode(s[..0]) == [] by { EncodeNothing(); }
    for i := 0 to |s|
      invariant out == PctEncode(s[..i])
    {
      EncodeLast(s[..i + 1]);
      assert s[..i + 1][..i] == s[..i];
      out := out + (if KeptAsIs(s[i]) then [s[i]] else [PERCENT, HexDigit(s[i] / 16), HexDigit(s[i] % 16)]);
    }
    assert s[..|s|] == s;
  }

  lemma EncodeNothing()
    ensures PctEncode([]) == []
  {
  }

  method DecodeValue(s: Bytes) returns (r: Result<Bytes>)
    ensures r == PctDecode(s)
  {
    var out: Bytes := [];
    var i := 0;
    PrefixedNothing(Unescape(s));
    assert s[0..] == s;
    while i < |s|
      invariant i <= |s|
      invariant Prefixed(out, Unescape(s[i..])) == Unescape(s)
    {
      ghost var rest := s[i..];
      if s[i] == PERCENT {
        if i + 3 > |s| {
          return Err(Encoding);
        }
        match FromHex(s[i + 1], s[i + 2]) {
          case None => return Err(Encoding);
          case Some(v) =>
            assert rest[3..] == s[i + 3..];
            PrefixedTwice(out, [v], Unescape(rest[3..]));
            out := out + [v];
            i := i + 3;
        }
      } else {
        assert rest[1..] == s[i + 1..];
        PrefixedTwice(out, [s[i]], Unescape(rest[1..]));
        out := out + [s[i]];
        i := i + 1;
      }
    }
    assert s[i..] == [] && out + [] == out;
    r := if IsUtf8(out) then Ok(out) else Err(Encoding);
  }

  lemma PrefixedNothing(rest: Result<Bytes>)
    ensures Prefixed([], rest) == rest
  {
    if rest.Ok? { assert [] + rest.value == rest.value; }
  }

  lemma PrefixedTwice(a: Bytes, b: Bytes, rest: Result<Bytes>)
    ensures Prefixed(a, Prefixed(b, rest)) == Prefixed(a + b, rest)
  {
    if rest.Ok? { assert a + (b + rest.value) == a + b + rest.value; }
  }

  // ---- the whole text ----

  function Field(key: Bytes, value: Bytes): Bytes { key + [EQUALS] + PctEncode(value) }

  function AddrFields(addrs: seq<Bytes>): Bytes {
    if addrs == [] then [] else [AMPERSAND] + (Field(KEY_A, addrs[0]) + AddrFields(addrs[1..]))
  }

  function Query(s: GroupSeed): Bytes {
    KEY_V + [EQUALS] + VERSION + [AMPERSAND] + (Field(KEY_G, s.group) + AddrFields(s.addrs))
  }

  /** `GroupSeed::encode`. */
  function Encode(s: GroupSeed): Bytes { PREFIX + Query(s) }

  /** The fields read so far. */
  datatype Draft = Draft(version: Option<Bytes>, group: Option<Bytes>, addrs: seq<Bytes>)

  const BLANK: Draft := Draft(None, None, [])

  /** One `key=value` pair. */
  function ReadField(d: Draft, pair: Bytes): Result<Draft> {
    var (k, v) := KeyValue(pair);
    if k == KEY_V then
      match PctDecode(v) case Ok(x) => Ok(d.(version := Some(x))) case Err(e) => Err(e)
    else if k == KEY_G then
      if d.group.Some? then Err(Group)
      else match PctDecode(v) case Ok(x) => Ok(d.(group := Some(x))) case Err(e) => Err(e)
    else if k == KEY_A then
      if |d.addrs| >= MAX_SEED_ADDRS then Err(AddrCount)
      else match PctDecode(v) case Ok(x) => Ok(d.(addrs := d.addrs + [x])) case Err(e) => Err(e)
    else Ok(d)
  }

  function ReadFields(d: Draft, pairs: seq<Bytes>): Result<Draft>
    decreases |pairs|
  {
    if pairs == [] then Ok(d)
    else
      match ReadField(d, pairs[0])
      case Ok(next) => ReadFields(next, pairs[1..])
      case Err(e) => Err(e)
  }

  /** The checks after the last field. */
  function Finish(d: Draft): Result<GroupSeed> {
    if d.version != Some(VERSION) then Err(Version)
    else if d.group.None? then Err(Group)
    else
      var s := GroupSeed(d.group.value, d.addrs);
      match Validate(s) case None => Ok(s) case Some(e) => Err(e)
  }

  function DecodeQuery(query: Bytes): Result<GroupSeed> {
    match ReadFields(BLANK, NonEmpty(Split(query, AMPERSAND)))
    case Ok(d) => Finish(d)
    case Err(e) => Err(e)
  }

  /** `GroupSeed::decode`. */
  function Decode(input: Bytes): Result<GroupSeed> {
    var t := Trim(input);
    if |t| > MAX_SEED_LEN then Err(TooLong)
    else if |t| < |PREFIX| || t[..|PREFIX|] != PREFIX then Err(NotASeed)
    else DecodeQuery(t[|PREFIX|..])
  }

  method EncodeSeed(s: GroupSeed) returns (out: Bytes)
    ensures out == Encode(s)
  {
    var g := EncodeValue(s.group);
    out := PREFIX + (KEY_V + [EQUALS] + VERSION + [AMPERSAND] + (KEY_G + [EQUALS] + g));
    for i := 0 to |s.addrs|
      invariant out + AddrFields(s.addrs[i..]) == Encode(s)
    {
      assert s.addrs[i..][1..] == s.addrs[i + 1..];
      var a := EncodeValue(s.addrs[i]);
      out := out + ([AMPERSAND] + (KEY_A + [EQUALS] + a));
    }
  }

  method DecodeSeed(input: Bytes) returns (r: Result<GroupSeed>)
    ensures r == Decode(input)
  {
    var t := Trim(input);
    if |t| > MAX_SEED_LEN {
      return Err(TooLong);
    }
    if |t| < |PREFIX| || t[..|PREFIX|] != PREFIX {
      return Err(NotASeed);
    }
    var pairs := NonEmpty(Split(t[|PREFIX|..], AMPERSAND));
    var d := BLANK;
    for i := 0 to |pairs|
      invariant ReadFields(d, pairs[i..]) == ReadFields(BLANK, pairs)
    {
      assert pairs[i..][1..] == pairs[i + 1..];
      var (k, v) := KeyValue(pairs[i]);
      if k == KEY_V {
        var x := DecodeValue(v);
        if x.Err? { return Err(x.error); }
        d := d.(version := Some(x.value));
      } else if k == KEY_G {
        if d.group.Some? { return Err(Group); }
        var x := DecodeValue(v);
        if x.Err? { return Err(x.error); }
        d := d.(group := Some(x.value));
      } else if k == KEY_A {
        if |d.addrs| >= MAX_SEED_ADDRS { return Err(AddrCount); }
        var x := DecodeValue(v);
        if x.Err? { return Err(x.error); }
        d := d.(addrs := d.addrs + [x.value]);
      }
    }
    r := Finish(d);
  }
}
