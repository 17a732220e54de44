/** What fields a build does not know, and blanks around a text, do to what is read. */
module SeedFieldLaws {
  import opened Wrappers
  import opened Seed
  import opened SeedLaws

  // ---- texts as lists of fields ----

  function Join(parts: seq<Bytes>): Bytes {
    if parts == [] then []
    else if |parts| == 1 then parts[0]
    else parts[0] + [AMPERSAND] + Join(parts[1..])
  }

  /** A field whose key is none of the three. */
  predicate Unknown(field: Bytes) {
    && (forall i :: 0 <= i < |field| ==> field[i] != AMPERSAND)
    && KeyValue(field).0 != KEY_A && KeyValue(field).0 != KEY_G && KeyValue(field).0 != KEY_V
  }

  predicate NoSeparators(parts: seq<Bytes>) {
    forall i, j :: 0 <= i < |parts| && 0 <= j < |parts[i]| ==> parts[i][j] != AMPERSAND
  }

  lemma {:induction false} SplitJoin(parts: seq<Bytes>)
    requires parts != [] && NoSeparators(parts)
    ensures Split(Join(parts), AMPERSAND) == parts
  {
    if |parts| == 1 {
      SplitPlain(parts[0], [], AMPERSAND);
    } else {
      assert NoSeparators(parts[1..]);
      SplitJoin(parts[1..]);
      SplitPlain(parts[0], Join(parts[1..]), AMPERSAND);
    }
  }

  lemma {:induction false} JoinSplit(s: Bytes)
    ensures Join(Split(s, AMPERSAND)) == s && NoSeparators(Split(s, AMPERSAND))
  {
    if s != [] {
      var rest := Split(s[1..], AMPERSAND);
      JoinSplit(s[1..]);
      if s[0] == AMPERSAND {
        assert ([[]] + rest)[1..] == rest;
        assert [] + [AMPERSAND] + s[1..] == s;
      } else {
        var parts := [[s[0]] + rest[0]] + rest[1..];
        assert parts[1..] == rest[1..];
        assert [s[0]] + s[1..] == s;
        assert |parts| > 1 ==> Join(rest) == rest[0] + [AMPERSAND] + Join(rest[1..]);
        assert Join(parts) == [s[0]] + Join(rest);
      }
    }
  }

  lemma {:induction false} UnknownSkipped(d: Draft, parts: seq<Bytes>, at: nat, field: Bytes)
    requires at <= |parts| && Unknown(field)
    ensures ReadFields(d, NonEmpty(parts[..at] + [field] + parts[at..])) == ReadFields(d, NonEmpty(parts))
    decreases at
  {
    var more := parts[..at] + [field] + parts[at..];
    if at == 0 {
      assert more[0] == field && more[1..] == parts;
      if field != [] {
        var pairs := NonEmpty(more);
        assert pairs[0] == field && pairs[1..] == NonEmpty(parts);
      }
    } else {
      assert more[0] == parts[0] && more[1..] == parts[1..][..at - 1] + [field] + parts[1..][at - 1..];
      if parts[0] == [] {
        UnknownSkipped(d, parts[1..], at - 1, field);
      } else {
        var p, q := NonEmpty(parts), NonEmpty(more);
        assert p[1..] == NonEmpty(parts[1..]) && q[1..] == NonEmpty(more[1..]);
        match ReadField(d, parts[0]) {
          case Ok(next) => UnknownSkipped(next, parts[1..], at - 1, field);
          case Err(e) =>
        }
      }
    }
  }

  lemma {:induction false} JoinLast(parts: seq<Bytes>, field: Bytes)
    requires parts != []
    ensures Join(parts + [field]) == Join(parts) + [AMPERSAND] + field
  {
    var more := parts + [field];
    assert more[1..] == parts[1..] + [field];
    if |parts| > 1 { JoinLast(parts[1..], field); }
  }

  lemma {:induction false} ReadLast(d: Draft, parts: seq<Bytes>, field: Bytes)
    requires field != []
    ensures var before := ReadFields(d, NonEmpty(parts));
            ReadFields(d, NonEmpty(parts + [field]))
            == if before.Ok? then ReadField(before.value, field) else before
    decreases |parts|
  {
    var more := parts + [field];
    if parts == [] {
      assert more[1..] == [];
    } else {
      assert more[0] == parts[0] && more[1..] == parts[1..] + [field];
      if parts[0] == [] {
        ReadLast(d, parts[1..], field);
      } else {
        var p, q := NonEmpty(parts), NonEmpty(more);
        assert p[1..] == NonEmpty(parts[1..]) && q[1..] == NonEmpty(more[1..]);
        match ReadField(d, parts[0]) {
          case Ok(next) => ReadLast(next, parts[1..], field);
          case Err(e) =>
        }
      }
    }
  }

  // ---- blanks ----

  /** Nothing but white space. */
  predicate Blank(s: Bytes) { TrimStart(s) == [] }

  lemma {:induction false} LeadingBlanks(lead: Bytes, x: Bytes)
    requires Blank(lead)
    ensures TrimStart(lead + x) == TrimStart(x)
    decreases |lead|
  {
    hide SpaceAtStart;
    var t, k := lead + x, SpaceAtStart(lead);
    if lead == [] {
      assert t == x;
    } else {
      assert t[..|lead|] == lead;
      SpaceStartsSame(t, |lead|);
      assert t[k..] == lead[k..] + x;
      LeadingBlanks(lead[k..], x);
    }
  }

  lemma StartOfStart(s: Bytes, n: nat, k: nat)
    requires n <= |s|
    ensures StartsInSpace(s[..n], k) <==> k <= n && StartsInSpace(s, k)
  {
    hide IsSpace;
    if k <= n { assert s[..n][..k] == s[..k]; }
  }

  /** A white-space character at the start of a beginning is one at the start of the whole. */
  lemma SpaceStartsSame(s: Bytes, n: nat)
    requires n <= |s| && SpaceAtStart(s[..n]) > 0
    ensures SpaceAtStart(s) == SpaceAtStart(s[..n])
  {
    hide StartsInSpace;
    StartOfStart(s, n, 1);
    StartOfStart(s, n, 2);
    StartOfStart(s, n, 3);
    StartsWithin(s[..n]);
  }

  lemma StartsWithin(s: Bytes)
    ensures forall k: nat :: StartsInSpace(s, k) ==> k <= |s|
  {
    hide IsSpace;
  }

  /** A beginning starts with no white-space character if the whole does not. */
  lemma NoSpaceStartsSame(s: Bytes, n: nat)
    requires n <= |s| && SpaceAtStart(s) == 0
    ensures SpaceAtStart(s[..n]) == 0
  {
    hide StartsInSpace;
    StartOfStart(s, n, 1);
    StartOfStart(s, n, 2);
    StartOfStart(s, n, 3);
  }

  /** What is trimmed from the start is blank. */
  lemma {:induction false} TrimStartSplits(t: Bytes) returns (n: nat)
    ensures n <= |t| && TrimStart(t) == t[n..] && Blank(t[..n]) && SpaceAtStart(t[n..]) == 0
    decreases |t|
  {
    hide SpaceAtStart, Blank;
    var k := SpaceAtStart(t);
    if k == 0 {
      n := 0;
      NothingIsBlank();
      assert t[..0] == [] && t[0..] == t;
    } else {
      var rest := t[k..];
      var m := TrimStartSplits(rest);
      n := k + m;
      assert t[n..] == rest[m..] && t[..n] == t[..k] + rest[..m];
      FirstSpaceIsBlank(t);
      BlankAppends(t[..k], rest[..m]);
    }
  }

  lemma BlankAppends(a: Bytes, b: Bytes)
    requires Blank(a) && Blank(b)
    ensures Blank(a + b)
  {
    LeadingBlanks(a, b);
  }

  lemma CutAt(t: Bytes, n: nat)
    requires n <= |t|
    ensures t == t[..n] + t[n..]
  {
  }

  lemma NothingIsBlank()
    ensures Blank([])
  {
  }

  lemma FirstSpaceIsBlank(t: Bytes)
    requires SpaceAtStart(t) > 0
    ensures Blank(t[..SpaceAtStart(t)])
  {
    hide StartsInSpace;
    var k := SpaceAtStart(t);
    StartOfStart(t, k, 1);
    StartOfStart(t, k, 2);
    StartOfStart(t, k, 3);
    assert SpaceAtStart(t[..k]) == k;
    assert t[..k][k..] == [];
    NothingIsBlank();
  }

  /** No white-space character holds a percent sign or an equals sign. */
  lemma SpaceBytes(w: Bytes)
    requires IsSpace(w)
    ensures PERCENT !in w && EQUALS !in w
  {
  }

  /** What is trimmed from the end is the end, and holds neither a percent nor an equals sign. */
  lemma {:induction false} TrimmedTail(f: Bytes) returns (n: nat)
    ensures n <= |f| && TrimEnd(f) == f[..n] && SpaceAtEnd(f[..n]) == 0
    ensures PERCENT !in f[n..] && EQUALS !in f[n..]
    decreases |f|
  {
    hide SpaceAtEnd;
    var k := SpaceAtEnd(f);
    if k == 0 {
      n := |f|;
      assert f[..n] == f;
    } else {
      var m := |f| - k;
      var front := f[..m];
      n := TrimmedTail(front);
      assert front[..n] == f[..n];
      LastSpace(f);
      SpaceBytes(f[m..]);
      assert f[n..] == front[n..] + f[m..];
    }
  }

  lemma LastSpace(f: Bytes)
    requires SpaceAtEnd(f) > 0
    ensures IsSpace(f[|f| - SpaceAtEnd(f)..])
  {
    hide IsSpace;
  }

  lemma TrimTwice(t: Bytes)
    ensures Trim(Trim(t)) == Trim(t)
  {
    hide SpaceAtStart, SpaceAtEnd;
    var m := TrimStartSplits(t);
    var u := t[m..];
    var n := TrimmedTail(u);
    NoSpaceStartsSame(u, n);
  }

  /** Blanks before and after a text never matter. */
  lemma OuterBlanksIgnored(lead: Bytes, t: Bytes)
    requires Blank(lead)
    ensures Decode(t) == Decode(Trim(t)) == Decode(lead + t)
  {
    hide TrimStart, TrimEnd, DecodeQuery, Blank;
    TrimTwice(t);
    LeadingBlanks(lead, t);
  }

  /** Trimming the end of a text stops at a graphic byte. */
  lemma {:induction false} TrimEndStops(h: Bytes, f: Bytes)
    requires h != [] && IsGraphic(h[|h| - 1])
    ensures TrimEnd(h + f) == h + TrimEnd(f)
    decreases |f|
  {
    hide SpaceAtEnd;
    if f == [] {
      assert h + f == h;
      NoTrimEnd(h);
    } else {
      SameSpaceAtEnd(h, f);
      var k := SpaceAtEnd(f);
      if k > 0 {
        TrimEndStops(h, f[..|f| - k]);
        assert (h + f)[..|h + f| - k] == h + f[..|f| - k];
      }
    }
  }

  lemma SameSpaceAtEnd(h: Bytes, f: Bytes)
    requires h != [] && IsGraphic(h[|h| - 1]) && f != []
    ensures SpaceAtEnd(h + f) == SpaceAtEnd(f)
  {
    hide EndsInSpace;
    EndAgrees(h, f, 1);
    EndAgrees(h, f, 2);
    EndAgrees(h, f, 3);
  }

  /** No white-space character reaches across a graphic byte. */
  lemma EndAgrees(h: Bytes, f: Bytes, k: nat)
    requires h != [] && IsGraphic(h[|h| - 1]) && f != [] && 1 <= k <= 3
    ensures EndsInSpace(h + f, k) <==> EndsInSpace(f, k)
  {
    hide IsSpace;
    var c := h + f;
    if k <= |f| {
      assert c[|c| - k..] == f[|f| - k..];
    } else if k <= |c| {
      var w := c[|c| - k..];
      assert w[k - |f| - 1] == h[|h| - 1];
      GraphicSplitsNoSpace(w, k - |f| - 1);
    }
  }

  /** The text a list of fields makes. */
  function Text(parts: seq<Bytes>): Bytes { PREFIX + Join(parts) }

  /** Trimming a text trims its last field only. */
  lemma TrimText(front: seq<Bytes>, last: Bytes)
    ensures Trim(Text(front + [last])) == Text(front + [TrimEnd(last)])
  {
    hide TrimStart, TrimEnd;
    var h := Before(front);
    TextEndsIn(front, last);
    TextEndsIn(front, TrimEnd(last));
    TrimEndStops(h, last);
    NoTrimStart(h + last);
  }

  /** Everything up to where the last field begins. */
  function Before(front: seq<Bytes>): (h: Bytes)
    ensures h != [] && IsGraphic(h[0]) && IsGraphic(h[|h| - 1])
  {
    if front == [] then PREFIX else PREFIX + (Join(front) + [AMPERSAND])
  }

  lemma TextEndsIn(front: seq<Bytes>, last: Bytes)
    ensures Text(front + [last]) == Before(front) + last
  {
    if front == [] {
      assert front + [last] == [last];
    } else {
      JoinLast(front, last);
    }
  }

  /** What a list of fields is read as. */
  function Read(parts: seq<Bytes>): Result<GroupSeed> {
    match ReadFields(BLANK, NonEmpty(parts))
    case Ok(d) => Finish(d)
    case Err(e) => Err(e)
  }

  /** A text within the limit, blanks around it or not, is read as its fields with the last one trimmed. */
  lemma DecodeFields(lead: Bytes, front: seq<Bytes>, last: Bytes)
    requires Blank(lead) && NoSeparators(front + [last]) && |Text(front + [TrimEnd(last)])| <= MAX_SEED_LEN
    ensures Decode(lead + Text(front + [last])) == Read(front + [TrimEnd(last)])
  {
    hide Trim, TrimEnd, ReadFields, NonEmpty, Finish, Join, Blank;
    OuterBlanksIgnored(lead, Text(front + [last]));
    TrimText(front, last);
    var parts := front + [TrimEnd(last)];
    TrimmedKeepsFields(front, last);
    SplitJoin(parts);
    assert Text(parts)[|PREFIX|..] == Join(parts) && Text(parts)[..|PREFIX|] == PREFIX;
  }

  lemma TrimmedKeepsFields(front: seq<Bytes>, last: Bytes)
    requires NoSeparators(front + [last])
    ensures NoSeparators(front + [TrimEnd(last)])
  {
    hide TrimEnd;
    var n := TrimmedTail(last);
    var whole, parts := front + [last], front + [TrimEnd(last)];
    forall i, j | 0 <= i < |parts| && 0 <= j < |parts[i]| ensures parts[i][j] != AMPERSAND {
      assert whole[i][j] == parts[i][j];
    }
  }

  /** Every text that decodes is a list of fields after the prefix, with blanks perhaps before it. */
  lemma EveryTextHasFields(t: Bytes) returns (lead: Bytes, parts: seq<Bytes>)
    requires Decode(t).Ok?
    ensures t == lead + Text(parts) && Blank(lead) && parts != [] && NoSeparators(parts)
  {
    hide TrimStart, TrimEnd, DecodeQuery, Blank, NoSeparators, SpaceAtStart, SpaceAtEnd;
    var m := TrimStartSplits(t);
    lead := t[..m];
    var u := t[m..];
    CutAt(t, m);
    var n := TrimmedTail(u);
    assert u[..n][..|PREFIX|] == u[..|PREFIX|];
    var rest := u[|PREFIX|..];
    parts := Split(rest, AMPERSAND);
    JoinSplit(rest);
    CutAt(u, |PREFIX|);
  }

  // ---- keys and values ----

  const KEYS: set<Bytes> := {KEY_V, KEY_G, KEY_A}

  lemma {:induction false} NoEquals(p: Bytes)
    requires EQUALS !in p
    ensures KeyValue(p) == (p, [])
  {
    if p != [] {
      NoEquals(p[1..]);
      var (k, v) := KeyValue(p[1..]);
      assert [p[0]] + k == p;
    }
  }

  lemma {:induction false} KeyValueAppend(p: Bytes, w: Bytes)
    requires EQUALS in p
    ensures KeyValue(p + w).0 == KeyValue(p).0 && KeyValue(p + w).1 == KeyValue(p).1 + w
  {
    var t := p + w;
    assert t[1..] == p[1..] + w;
    if p[0] != EQUALS {
      assert EQUALS in p[1..];
      KeyValueAppend(p[1..], w);
    }
  }

  lemma {:induction false} UnescapePlain(w: Bytes)
    requires PERCENT !in w
    ensures Unescape(w) == Ok(w)
  {
    if w != [] {
      UnescapePlain(w[1..]);
      assert [w[0]] + w[1..] == w;
    }
  }

  lemma {:induction false} UnescapePlainTail(v: Bytes, w: Bytes)
    requires Unescape(v).Ok? && PERCENT !in w
    ensures Unescape(v + w) == Ok(Unescape(v).value + w)
    decreases |v|
  {
    hide FromHex;
    var t := v + w;
    if v == [] {
      assert t == w;
      UnescapePlain(w);
    } else {
      var n := if v[0] == PERCENT then 3 else 1;
      var head := if v[0] == PERCENT then [FromHex(v[1], v[2]).value] else [v[0]];
      assert t[n..] == v[n..] + w;
      UnescapePlainTail(v[n..], w);
      ResultAppends(head, Unescape(v[n..]).value, w);
    }
  }

  lemma ResultAppends(a: Bytes, b: Bytes, c: Bytes)
    ensures Prefixed(a, Ok(b + c)) == Ok(Prefixed(a, Ok(b)).value + c)
  {
    assert a + (b + c) == a + b + c;
  }

  /** Blanks left on a known field make it another field. */
  lemma BlankedFieldDiffers(d: Draft, p: Bytes, w: Bytes)
    requires KeyValue(p).0 in KEYS && EQUALS in p && w != [] && PERCENT !in w && ReadField(d, p).Ok?
    ensures ReadField(d, p + w).Ok? ==> ReadField(d, p + w).value != ReadField(d, p).value
  {
    hide Unescape, IsUtf8, KeyValue;
    KeyValueAppend(p, w);
    var v := KeyValue(p).1;
    UnescapePlainTail(v, w);
    if PctDecode(v).Ok? && PctDecode(v + w).Ok? {
      assert |PctDecode(v + w).value| == |PctDecode(v).value| + |w|;
      if KeyValue(p).0 == KEY_A {
        assert (d.addrs + [PctDecode(v).value])[|d.addrs|] != (d.addrs + [PctDecode(v + w).value])[|d.addrs|];
      }
    }
  }

  /** The seed read says what the fields were. */
  lemma FinishDetermines(d: Draft, e: Draft)
    requires Finish(d).Ok? && Finish(d) == Finish(e)
    ensures d == e
  {
    hide Validate;
  }

  /** A bare `v`, `g` or `a` has an empty value, which none of the three may have. */
  lemma BareKeyFails(d: Draft, key: Bytes)
    requires key in KEYS
    ensures ReadField(d, key).Ok? ==> Finish(ReadField(d, key).value).Err?
  {
    hide Unescape, KeyValue;
    NoEquals(key);
    UnescapePlain([]);
    var empty: Bytes := [];
    assert PctDecode(empty) == Ok(empty);
    assert !ValidAddr(empty);
    EmptyGroupRefused();
    hide ValidAddr, ValidGroup, PctDecode;
    if key == KEY_A {
      assert (d.addrs + [empty])[|d.addrs|] == empty;
    }
  }

  lemma EmptyGroupRefused()
    ensures !ValidGroup([])
  {
  }

  /** So at the end it makes any text refused. */
  lemma BareKeyRefused(parts: seq<Bytes>, key: Bytes)
    requires key in KEYS
    ensures Read(parts + [key]).Err?
  {
    hide NonEmpty, ReadFields, ReadField, Finish;
    ReadLast(BLANK, parts, key);
    var before := ReadFields(BLANK, NonEmpty(parts));
    if before.Ok? { BareKeyFails(before.value, key); }
  }

  // ---- unknown fields ----

  function Inserted(parts: seq<Bytes>, at: nat, field: Bytes): seq<Bytes>
    requires at <= |parts|
  {
    parts[..at] + [field] + parts[at..]
  }

  lemma InsertedKeepsFields(parts: seq<Bytes>, at: nat, field: Bytes)
    requires NoSeparators(parts) && at <= |parts| && Unknown(field)
    ensures NoSeparators(Inserted(parts, at, field))
  {
    var more := Inserted(parts, at, field);
    forall i, j | 0 <= i < |more| && 0 <= j < |more[i]| ensures more[i][j] != AMPERSAND {
      if i < at { assert more[i] == parts[i]; }
      else if i > at { assert more[i] == parts[i - 1]; }
    }
  }

  lemma UnknownLastSkipped(parts: seq<Bytes>, field: Bytes)
    requires Unknown(field)
    ensures Read(parts + [field]) == Read(parts)
  {
    hide ReadFields, NonEmpty, Finish;
    UnknownSkipped(BLANK, parts, |parts|, field);
    assert parts[..|parts|] + [field] + parts[|parts|..] == parts + [field];
  }

  /** Both texts as they are read: putting a field last leaves the old last field as it stands, where it
      was trimmed before. */
  lemma BothRead(lead: Bytes, parts: seq<Bytes>, at: nat, field: Bytes)
    requires Blank(lead) && parts != [] && NoSeparators(parts) && at <= |parts| && Unknown(field)
    requires |Trim(Text(parts))| <= MAX_SEED_LEN && |Trim(Text(Inserted(parts, at, field)))| <= MAX_SEED_LEN
    ensures var front, last := parts[..|parts| - 1], parts[|parts| - 1];
            && Decode(lead + Text(parts)) == Read(front + [TrimEnd(last)])
            && Decode(lead + Text(Inserted(parts, at, field)))
               == (if at < |parts| then Read(front + [TrimEnd(last)]) else Read(parts + [TrimEnd(field)]))
  {
    hide Trim, TrimEnd, ReadFields, NonEmpty, Finish, Text, Decode, Blank, NoSeparators, Unknown;
    var front, last := parts[..|parts| - 1], parts[|parts| - 1];
    var more := Inserted(parts, at, field);
    assert parts == front + [last];
    TrimText(front, last);
    DecodeFields(lead, front, last);
    InsertedKeepsFields(parts, at, field);
    if at < |parts| {
      var front2 := Inserted(front, at, field);
      assert more == front2 + [last];
      TrimText(front2, last);
      DecodeFields(lead, front2, last);
      var read := front + [TrimEnd(last)];
      assert front2 + [TrimEnd(last)] == read[..at] + [field] + read[at..];
      UnknownSkipped(BLANK, read, at, field);
    } else {
      assert more == parts + [field];
      TrimText(parts, field);
      DecodeFields(lead, parts, field);
    }
  }

  /** In any text, readable or not, an unknown field changes nothing before the last field, nor after it if
      trimming the text touches neither, or makes neither a known one. */
  lemma UnknownFieldsPass(lead: Bytes, parts: seq<Bytes>, at: nat, field: Bytes)
    requires Blank(lead) && parts != [] && NoSeparators(parts) && at <= |parts| && Unknown(field)
    requires |Trim(Text(parts))| <= MAX_SEED_LEN && |Trim(Text(Inserted(parts, at, field)))| <= MAX_SEED_LEN
    requires var last := parts[|parts| - 1];
             at < |parts| || (Unknown(TrimEnd(field))
                              && (TrimEnd(last) == last || (Unknown(last) && Unknown(TrimEnd(last)))))
    ensures Decode(lead + Text(Inserted(parts, at, field))) == Decode(lead + Text(parts))
  {
    hide Trim, TrimEnd, Read, Text, Decode, Blank, NoSeparators, Unknown;
    var front, last := parts[..|parts| - 1], parts[|parts| - 1];
    BothRead(lead, parts, at, field);
    if at == |parts| {
      assert parts == front + [last];
      UnknownLastSkipped(parts, TrimEnd(field));
      if TrimEnd(last) != last {
        UnknownLastSkipped(front, last);
        UnknownLastSkipped(front, TrimEnd(last));
      }
    }
  }

  /** A field is its trimmed beginning and a tail; the beginning has the same key if it has an equals sign,
      and else is all key, as is the field. */
  lemma TrimmedParts(f: Bytes) returns (p: Bytes, w: Bytes)
    ensures p == TrimEnd(f) && f == p + w && PERCENT !in w
    ensures EQUALS in p ==> KeyValue(p).0 == KeyValue(f).0
    ensures EQUALS !in p ==> KeyValue(p) == (p, []) && KeyValue(f) == (f, [])
  {
    hide TrimEnd, KeyValue;
    var n := TrimmedTail(f);
    p, w := f[..n], f[n..];
    CutAt(f, n);
    if EQUALS in p {
      KeyValueAppend(p, w);
    } else {
      assert EQUALS !in p + w;
      NoEquals(p);
      NoEquals(p + w);
    }
  }

  /** Trimming turns a field into a known one only by baring a key. */
  lemma TrimmedUnknown(f: Bytes)
    requires Unknown(f) && !Unknown(TrimEnd(f))
    ensures TrimEnd(f) in KEYS
  {
    hide TrimEnd, KeyValue;
    var p, w := TrimmedParts(f);
    assert forall i :: 0 <= i < |p| ==> p[i] == f[i];
  }

  /** A known field that trimming shortens has a value, and stays known. */
  lemma TrimmedKnown(f: Bytes)
    requires KeyValue(f).0 in KEYS && TrimEnd(f) != f
    ensures KeyValue(TrimEnd(f)).0 in KEYS && EQUALS in TrimEnd(f)
  {
    hide TrimEnd, KeyValue;
    var p, w := TrimmedParts(f);
    if EQUALS !in p {
      NoSpaceAtEnd(f);
      BareIsTrimmed(f);
    }
  }

  lemma BareIsTrimmed(f: Bytes)
    requires SpaceAtEnd(f) == 0
    ensures TrimEnd(f) == f
  {
  }

  /** A known last field left with its blanks is read as another field, so the text as another seed. */
  lemma BlanksChangeWhatIsRead(front: seq<Bytes>, last: Bytes)
    requires Read(front + [TrimEnd(last)]).Ok? && TrimEnd(last) != last && KeyValue(last).0 in KEYS
    ensures Read(front + [last]) != Read(front + [TrimEnd(last)])
  {
    hide TrimEnd, KeyValue, ReadFields, ReadField, NonEmpty, Finish;
    TrimmedKnown(last);
    var p, w := TrimmedParts(last);
    assert w != [];
    ReadLast(BLANK, front, p);
    ReadLast(BLANK, front, last);
    var d := ReadFields(BLANK, NonEmpty(front)).value;
    BlankedFieldDiffers(d, p, w);
    if Read(front + [last]) == Read(front + [p]) {
      FinishDetermines(ReadField(d, p).value, ReadField(d, last).value);
    }
  }

  /** A field this build does not know, put anywhere into a text that decodes, leaves what is read as it was
      exactly if it does not come last; or if it does not become a known key once its own trailing blanks
      go, and the field that was last either ended in no blanks or is not a known one. For a text that is
      read is trimmed first, and what is appended decides which field that trimming reaches. */
  lemma UnknownFieldsIgnored(lead: Bytes, parts: seq<Bytes>, at: nat, field: Bytes)
    requires Blank(lead) && parts != [] && NoSeparators(parts) && at <= |parts| && Unknown(field)
    requires Decode(lead + Text(parts)).Ok? && |Trim(Text(Inserted(parts, at, field)))| <= MAX_SEED_LEN
    ensures var last := parts[|parts| - 1];
            Decode(lead + Text(Inserted(parts, at, field))) == Decode(lead + Text(parts))
            <==> at < |parts| || (Unknown(TrimEnd(field)) && (TrimEnd(last) == last || Unknown(last)))
  {
    hide TrimEnd, Read, Text, NoSeparators, KeyValue, Decode, Blank, Trim;
    var front, last := parts[..|parts| - 1], parts[|parts| - 1];
    ReadableIsShort(lead, Text(parts));
    BothRead(lead, parts, at, field);
    LastHasNone(parts);
    if at < |parts| {
      UnknownFieldsPass(lead, parts, at, field);
    } else if !Unknown(TrimEnd(field)) {
      TrimmedUnknown(field);
      BareKeyRefused(parts, TrimEnd(field));
    } else if TrimEnd(last) != last && !Unknown(last) {
      assert parts == front + [last];
      UnknownLastSkipped(parts, TrimEnd(field));
      BlanksChangeWhatIsRead(front, last);
    } else {
      if Unknown(last) && !Unknown(TrimEnd(last)) {
        TrimmedUnknown(last);
        BareKeyRefused(front, TrimEnd(last));
      }
      UnknownFieldsPass(lead, parts, at, field);
    }
  }

  lemma LastHasNone(parts: seq<Bytes>)
    requires NoSeparators(parts) && parts != []
    ensures var last := parts[|parts| - 1]; forall i :: 0 <= i < |last| ==> last[i] != AMPERSAND
  {
  }

  lemma ReadableIsShort(lead: Bytes, t: Bytes)
    requires Blank(lead) && Decode(lead + t).Ok?
    ensures |Trim(t)| <= MAX_SEED_LEN
  {
    hide Trim, DecodeQuery, Blank;
    OuterBlanksIgnored(lead, t);
    TrimTwice(t);
  }

  /** The first exception is real: `v` and a blank is unknown where it stands, the version key once trimmed. */
  lemma BlankMakesAKey()
    ensures Unknown([118, 32]) && TrimEnd([118, 32]) == KEY_V && !Unknown(KEY_V)
  {
    var f: Bytes := [118, 32];
    assert f[1..] == [32] && f[..1] == KEY_V;
    NoEquals(f);
    NoEquals(KEY_V);
    NoSpaceAtEnd(KEY_V);
  }

  lemma ShorterText(front: seq<Bytes>, last: Bytes, shorter: Bytes)
    requires |shorter| <= |last|
    ensures |Text(front + [shorter])| <= |Text(front + [last])|
  {
    TextEndsIn(front, last);
    TextEndsIn(front, shorter);
  }

  /** A seed's fields with the group last, and something after the group. */
  function GroupLast(g: Bytes, a: Bytes, w: Bytes): seq<Bytes> {
    [Field(KEY_V, VERSION), Field(KEY_A, a)] + [Field(KEY_G, g) + w]
  }

  lemma GroupLastReads(g: Bytes, a: Bytes, w: Bytes)
    requires ValidSeed(GroupSeed(g + w, [a])) && IsUtf8(g) && PERCENT !in w
    ensures Read(GroupLast(g, a, w)) == Ok(GroupSeed(g + w, [a]))
  {
    hide ValidGroup, ValidAddr, IsUtf8, Field, PctEncode, KeyValue, PctDecode, Unescape;
    AsciiIsUtf8(VERSION);
    var s := GroupSeed(g + w, [a]);
    AddrsAreUtf8(s);
    assert IsUtf8(s.addrs[0]);
    FieldReads(KEY_V, VERSION);
    ValueRoundTrip(VERSION);
    GroupFieldReads(g, w);
    var d := Draft(Some(VERSION), None, []);
    var e := d.(addrs := d.addrs + [a]);
    ReadAddr(d, a);
    FieldReads(KEY_A, a);
    var parts := GroupLast(g, a, w);
    ThreeAreThere(parts[0], parts[1], parts[2]);
    ReadsThree(parts[0], parts[1], parts[2], d, e);
    assert e.addrs == [a];
  }

  lemma ThreeAreThere(x: Bytes, y: Bytes, z: Bytes)
    requires x != [] && y != [] && z != []
    ensures NonEmpty([x, y] + [z]) == [x] + ([y] + [z])
  {
    var all := [x, y] + [z];
    var two := all[1..];
    var one := two[1..];
    assert one == [z] && NonEmpty(one[1..]) == [];
    assert NonEmpty(one) == [z];
    assert two[0] == y && NonEmpty(two) == [y] + [z];
  }

  lemma ReadsThree(x: Bytes, y: Bytes, z: Bytes, d: Draft, e: Draft)
    requires ReadField(BLANK, x) == Ok(d) && ReadField(d, y) == Ok(e)
    ensures ReadFields(BLANK, [x] + ([y] + [z])) == ReadField(e, z)
  {
    hide ReadField;
    var all := [x] + ([y] + [z]);
    var two := all[1..];
    var one := two[1..];
    assert two == [y] + [z] && one == [z];
    assert ReadFields(BLANK, all) == ReadFields(d, two);
    assert ReadFields(d, two) == ReadFields(e, one);
    match ReadField(e, z) {
      case Ok(f) => assert ReadFields(f, one[1..]) == Ok(f);
      case Err(_) =>
    }
  }

  lemma GroupFieldReads(g: Bytes, w: Bytes)
    requires IsUtf8(g) && IsUtf8(g + w) && PERCENT !in w
    ensures KeyValue(Field(KEY_G, g) + w).0 == KEY_G && PctDecode(KeyValue(Field(KEY_G, g) + w).1) == Ok(g + w)
    ensures Field(KEY_G, g) + w != []
  {
    hide IsUtf8, PctEncode, Unescape;
    FieldReads(KEY_G, g);
    assert EQUALS in Field(KEY_G, g) by { assert Field(KEY_G, g)[1] == EQUALS; }
    hide Field, KeyValue;
    KeyValueAppend(Field(KEY_G, g), w);
    UnescapeEscaped(g);
    UnescapePlainTail(PctEncode(g), w);
  }

  lemma GroupLastTrims(g: Bytes)
    ensures TrimEnd(Field(KEY_G, g) + [32]) == Field(KEY_G, g)
  {
    hide PctEncode;
    EncodedIsPlain(g);
    var f := Field(KEY_G, g);
    assert IsGraphic(f[|f| - 1]);
    var blank: Bytes := [32];
    assert blank[..0] == [] && blank[0..] == blank;
    assert SpaceAtEnd(blank) == 1;
    assert TrimEnd([]) == [];
    assert TrimEnd(blank) == [];
    hide Field, TrimEnd;
    TrimEndStops(f, blank);
    assert f + [] == f;
  }

  lemma GroupLastFields(g: Bytes, a: Bytes)
    ensures NoSeparators(GroupLast(g, a, [32]))
  {
    hide Field;
    FieldReads(KEY_V, VERSION);
    FieldReads(KEY_A, a);
    FieldReads(KEY_G, g);
    var parts := GroupLast(g, a, [32]);
    forall i, j | 0 <= i < |parts| && 0 <= j < |parts[i]| ensures parts[i][j] != AMPERSAND {
      if i == 2 && j < |Field(KEY_G, g)| { assert parts[i][j] == Field(KEY_G, g)[j]; }
    }
  }

  /** So is the second: a group field with a blank after it reads as the group; with the field `x` appended,
      as the group and the blank. Both texts are accepted and name different groups. */
  lemma BlankJoinsTheGroup(g: Bytes, a: Bytes)
    requires ValidSeed(GroupSeed(g, [a])) && ValidSeed(GroupSeed(g + [32], [a]))
    requires |Text(GroupLast(g, a, [32]) + [[120]])| <= MAX_SEED_LEN
    ensures Decode(Text(GroupLast(g, a, [32]))) == Ok(GroupSeed(g, [a]))
    ensures Unknown([120]) && Decode(Text(GroupLast(g, a, [32]) + [[120]])) == Ok(GroupSeed(g + [32], [a]))
  {
    hide TrimEnd, Read, Field, Text, Decode, Validate, IsUtf8, Blank, NoSeparators;
    var parts, x := GroupLast(g, a, [32]), [120];
    var front, last := [Field(KEY_V, VERSION), Field(KEY_A, a)], Field(KEY_G, g) + [32];
    NothingIsBlank();
    GroupLastTrims(g);
    GroupLastFields(g, a);
    UnknownX();
    InsertedKeepsFields(parts, 3, x);
    assert Inserted(parts, 3, x) == parts + [x];
    ShorterText(front, last, TrimEnd(last));
    LongerText(parts, x);
    DecodeFields([], front, last);
    DecodeFields([], parts, x);
    assert [] + Text(parts) == Text(parts) && [] + Text(parts + [x]) == Text(parts + [x]);
    UnknownLastSkipped(parts, x);
    assert Field(KEY_G, g) + [] == Field(KEY_G, g) && g + [] == g;
    GroupLastReads(g, a, []);
    GroupLastReads(g, a, [32]);
  }

  lemma UnknownX()
    ensures Unknown([120]) && TrimEnd([120]) == [120]
  {
    var x: Bytes := [120];
    NoEquals(x);
    NoSpaceAtEnd(x);
  }

  lemma LongerText(parts: seq<Bytes>, x: Bytes)
    requires parts != []
    ensures |Text(parts)| <= |Text(parts + [x])|
  {
    JoinLast(parts, x);
  }
}
