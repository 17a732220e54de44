/** What a seed text must be to be read, and what is then read from it, said of the text and not of the loops
    that read it. */
module SeedReadLaws {
  import opened Wrappers
  import opened Seed
  import opened SeedLaws

  // ---- one value ----

  /** A byte of a value stands for itself, or is escaped; `FromHex` says how (`EscapesAccepted`). */
  predicate Piece(p: Bytes, b: Byte) {
    (p == [b] && b != PERCENT) || (|p| == 3 && p[0] == PERCENT && FromHex(p[1], p[2]) == Some(b))
  }

  function Concat(pieces: seq<Bytes>): Bytes {
    if pieces == [] then [] else pieces[0] + Concat(pieces[1..])
  }

  predicate Spelled(pieces: seq<Bytes>, out: Bytes) {
    |pieces| == |out| && forall i :: 0 <= i < |out| ==> Piece(pieces[i], out[i])
  }

  /** The first piece of what can be read, and what it reads. */
  lemma FirstPiece(s: Bytes) returns (n: nat, b: Byte)
    requires Unescape(s).Ok? && s != []
    ensures 1 <= n <= |s| && Piece(s[..n], b) && s == s[..n] + s[n..]
    ensures Unescape(s[n..]).Ok? && Unescape(s).value == [b] + Unescape(s[n..]).value
  {
    hide FromHex;
    n := if s[0] == PERCENT then 3 else 1;
    b := if s[0] == PERCENT then FromHex(s[1], s[2]).value else s[0];
  }

  lemma SpelledMore(p: Bytes, b: Byte, pieces: seq<Bytes>, out: Bytes)
    requires Piece(p, b) && Spelled(pieces, out)
    ensures Spelled([p] + pieces, [b] + out) && Concat([p] + pieces) == p + Concat(pieces)
  {
    hide Piece;
    var all := [p] + pieces;
    assert all[1..] == pieces;
  }

  lemma {:induction false} UnescapeCuts(s: Bytes) returns (pieces: seq<Bytes>)
    requires Unescape(s).Ok?
    ensures Concat(pieces) == s && Spelled(pieces, Unescape(s).value)
  {
    if s == [] {
      pieces := [];
    } else {
      hide Unescape, Piece, Spelled, Concat;
      var n, b := FirstPiece(s);
      var more := UnescapeCuts(s[n..]);
      pieces := [s[..n]] + more;
      SpelledMore(s[..n], b, more, Unescape(s[n..]).value);
    }
  }

  lemma PieceReads(p: Bytes, b: Byte, rest: Bytes)
    requires Piece(p, b)
    ensures Unescape(p + rest) == Prefixed([b], Unescape(rest))
  {
    hide FromHex;
    var s := p + rest;
    assert s[|p|..] == rest && forall i :: 0 <= i < |p| ==> s[i] == p[i];
  }

  lemma SpelledRest(pieces: seq<Bytes>, out: Bytes)
    requires Spelled(pieces, out) && pieces != []
    ensures Piece(pieces[0], out[0]) && Spelled(pieces[1..], out[1..]) && [out[0]] + out[1..] == out
  {
    hide Piece;
    forall i | 0 <= i < |out| - 1 ensures Piece(pieces[1..][i], out[1..][i]) { assert Piece(pieces[i + 1], out[i + 1]); }
  }

  lemma {:induction false} SpelledReads(pieces: seq<Bytes>, out: Bytes)
    requires Spelled(pieces, out)
    ensures Unescape(Concat(pieces)) == Ok(out)
  {
    if pieces != [] {
      hide Spelled, Piece, Unescape;
      SpelledRest(pieces, out);
      SpelledReads(pieces[1..], out[1..]);
      PieceReads(pieces[0], out[0], Concat(pieces[1..]));
    }
  }

  /** A value is read as `out` exactly if it spells `out` byte for byte and `out` is text; anything else is a bad
      escape. */
  lemma ValueExactly(s: Bytes, out: Bytes)
    ensures PctDecode(s) == Ok(out) <==> IsUtf8(out) && exists pieces :: Concat(pieces) == s && Spelled(pieces, out)
    ensures PctDecode(s).Err? ==> PctDecode(s).error == Encoding
  {
    hide Unescape, Concat, Spelled, IsUtf8;
    OnlyEncoding(s);
    if Unescape(s).Ok? { var pieces := UnescapeCuts(s); }
    if pieces :| Concat(pieces) == s && Spelled(pieces, out) { SpelledReads(pieces, out); }
  }

  lemma {:induction false} OnlyEncoding(s: Bytes)
    ensures Unescape(s).Err? ==> Unescape(s).error == Encoding
  {
    hide FromHex;
    if s != [] {
      OnlyEncoding(s[1..]);
      if |s| >= 3 { OnlyEncoding(s[3..]); }
    }
  }

  /** What the printer writes for a byte: itself if it is graphic and none of `%`, `&`, `=`, `#`, `+`; otherwise a
      percent sign and two digits, capital if letters. */
  lemma EscapeShape(b: Byte)
    ensures Escape(b) == [b] <==> 33 <= b <= 126 && b !in {37, 38, 61, 35, 43}
    ensures Escape(b) != [b] ==>
              && |Escape(b)| == 3 && Escape(b)[0] == 37
              && (forall i :: 1 <= i < 3 ==> 48 <= Escape(b)[i] <= 57 || 65 <= Escape(b)[i] <= 70)
              && HexValue(Escape(b)[1]) == Some(b / 16) && HexValue(Escape(b)[2]) == Some(b % 16)
  {
  }

  // ---- one field ----

  /** A field is its key and value around its first equals sign, or all key. */
  lemma {:induction false} KeyValueExactly(s: Bytes)
    ensures var (k, v) := KeyValue(s); EQUALS !in k && (s == k + [EQUALS] + v || (s == k && v == []))
  {
    if s != [] && s[0] != EQUALS {
      KeyValueExactly(s[1..]);
      var (k, v) := KeyValue(s[1..]);
      assert s == [s[0]] + s[1..];
      assert [s[0]] + (k + [EQUALS] + v) == ([s[0]] + k) + [EQUALS] + v;
    } else if s != [] {
      assert s == [] + [EQUALS] + s[1..];
    }
  }

  // ---- all fields ----

  /** The values of the fields with a key, in order. */
  function Values(pairs: seq<Bytes>, key: Bytes): seq<Bytes> {
    if pairs == [] then []
    else
      var rest := Values(pairs[..|pairs| - 1], key);
      var (k, v) := KeyValue(pairs[|pairs| - 1]);
      if k == key then rest + [v] else rest
  }

  predicate AllRead(values: seq<Bytes>) { forall i :: 0 <= i < |values| ==> PctDecode(values[i]).Ok? }

  predicate ReadAs(values: seq<Bytes>, out: seq<Bytes>) {
    |values| == |out| && forall i :: 0 <= i < |values| ==> PctDecode(values[i]) == Ok(out[i])
  }

  predicate LastReadAs(values: seq<Bytes>, out: Option<Bytes>) {
    && AllRead(values)
    && (values == [] ==> out == None)
    && (values != [] ==> out.Some? && PctDecode(values[|values| - 1]) == Ok(out.value))
  }

  /** `d` is what some fields say: the last version, the one group, the addresses in order. */
  predicate Says(pairs: seq<Bytes>, d: Draft) {
    && LastReadAs(Values(pairs, KEY_V), d.version)
    && |Values(pairs, KEY_G)| <= 1 && LastReadAs(Values(pairs, KEY_G), d.group)
    && |Values(pairs, KEY_A)| <= MAX_SEED_ADDRS && ReadAs(Values(pairs, KEY_A), d.addrs)
  }

  lemma {:induction false} ReadFieldsLast(d: Draft, pairs: seq<Bytes>, p: Bytes)
    ensures ReadFields(d, pairs + [p])
            == match ReadFields(d, pairs) case Ok(next) => ReadField(next, p) case Err(e) => Err(e)
    decreases |pairs|
  {
    hide ReadField;
    var all := pairs + [p];
    if pairs == [] {
      assert all[1..] == [];
      assert ReadFields(d, all) == match ReadField(d, p) case Ok(next) => ReadFields(next, []) case Err(e) => Err(e) by {
        assert all[0] == p;
      }
    } else {
      assert all[1..] == pairs[1..] + [p] && all[0] == pairs[0];
      match ReadField(d, pairs[0]) {
        case Ok(next) => ReadFieldsLast(next, pairs[1..], p);
        case Err(e) =>
      }
    }
  }

  lemma ReadAsLast(values: seq<Bytes>, out: seq<Bytes>, v: Bytes)
    ensures ReadAs(values + [v], out) <==> out != [] && ReadAs(values, out[..|out| - 1]) && PctDecode(v) == Ok(out[|out| - 1])
  {
    hide PctDecode;
    var all := values + [v];
    if ReadAs(all, out) {
      assert forall i :: 0 <= i < |values| ==> values[i] == all[i];
      assert PctDecode(all[|values|]) == Ok(out[|values|]);
    }
  }

  lemma AllReadLast(values: seq<Bytes>, v: Bytes)
    ensures AllRead(values + [v]) <==> AllRead(values) && PctDecode(v).Ok?
  {
    hide PctDecode;
    var all := values + [v];
    if AllRead(all) {
      assert forall i :: 0 <= i < |values| ==> values[i] == all[i];
      assert PctDecode(all[|values|]).Ok?;
    }
  }

  lemma ValuesLast(front: seq<Bytes>, p: Bytes, key: Bytes)
    ensures Values(front + [p], key) == if KeyValue(p).0 == key then Values(front, key) + [KeyValue(p).1] else Values(front, key)
  {
    var pairs := front + [p];
    assert pairs[..|pairs| - 1] == front && pairs[|pairs| - 1] == p;
  }

  lemma FieldSays(front: seq<Bytes>, p: Bytes, before: Draft)
    requires Says(front, before) && ReadField(before, p).Ok?
    ensures Says(front + [p], ReadField(before, p).value)
  {
    hide PctDecode, KeyValue, AllRead, ReadAs, Values;
    ValuesLast(front, p, KEY_V);
    ValuesLast(front, p, KEY_G);
    ValuesLast(front, p, KEY_A);
    var (k, v) := KeyValue(p);
    AllReadLast(Values(front, KEY_V), v);
    AllReadLast(Values(front, KEY_G), v);
    if k == KEY_A {
      var d := ReadField(before, p).value;
      assert d.addrs[..|d.addrs| - 1] == before.addrs;
      ReadAsLast(Values(front, KEY_A), d.addrs, v);
      ReadAsLength(Values(front, KEY_A), before.addrs);
    }
  }

  lemma ReadAsLength(values: seq<Bytes>, out: seq<Bytes>)
    requires ReadAs(values, out)
    ensures |values| == |out| && AllRead(values)
  {
  }

  lemma {:induction false} ReadSays(pairs: seq<Bytes>)
    requires ReadFields(BLANK, pairs).Ok?
    ensures Says(pairs, ReadFields(BLANK, pairs).value)
  {
    hide PctDecode, KeyValue, ReadField;
    if pairs != [] {
      hide Says;
      var front, p := pairs[..|pairs| - 1], pairs[|pairs| - 1];
      assert pairs == front + [p];
      ReadFieldsLast(BLANK, front, p);
      ReadSays(front);
      FieldSays(front, p, ReadFields(BLANK, front).value);
    }
  }

  /** Every known value can be read, and there are not too many. */
  predicate Readable(pairs: seq<Bytes>) {
    && AllRead(Values(pairs, KEY_V)) && AllRead(Values(pairs, KEY_G)) && AllRead(Values(pairs, KEY_A))
    && |Values(pairs, KEY_G)| <= 1 && |Values(pairs, KEY_A)| <= MAX_SEED_ADDRS
  }

  lemma {:induction false} ReadableReads(pairs: seq<Bytes>)
    requires Readable(pairs)
    ensures ReadFields(BLANK, pairs).Ok?
  {
    hide PctDecode, KeyValue, AllRead, ReadAs, Values;
    if pairs != [] {
      var front, p := pairs[..|pairs| - 1], pairs[|pairs| - 1];
      assert pairs == front + [p];
      ValuesLast(front, p, KEY_V);
      ValuesLast(front, p, KEY_G);
      ValuesLast(front, p, KEY_A);
      var v := KeyValue(p).1;
      AllReadLast(Values(front, KEY_V), v);
      AllReadLast(Values(front, KEY_G), v);
      AllReadLast(Values(front, KEY_A), v);
      ReadableReads(front);
      ReadFieldsLast(BLANK, front, p);
      ReadSays(front);
      ReadAsLength(Values(front, KEY_A), ReadFields(BLANK, front).value.addrs);
    }
  }

  lemma SaysOne(pairs: seq<Bytes>, d: Draft, e: Draft)
    requires Says(pairs, d) && Says(pairs, e)
    ensures d == e && Readable(pairs)
  {
    hide PctDecode, Values;
    assert d.addrs == e.addrs;
  }

  /** Fields can be read exactly if every known value can, with at most one group and eight addresses; what is
      read is the last version, the group, and the addresses in order. */
  lemma ReadsExactly(pairs: seq<Bytes>, d: Draft)
    ensures ReadFields(BLANK, pairs) == Ok(d) <==> Says(pairs, d)
  {
    hide Says, Readable, ReadFields;
    if ReadFields(BLANK, pairs).Ok? { ReadSays(pairs); }
    if Says(pairs, d) {
      SaysOne(pairs, d, d);
      ReadableReads(pairs);
      ReadSays(pairs);
      SaysOne(pairs, d, ReadFields(BLANK, pairs).value);
    }
  }

  // ---- the whole text ----

  /** The fields of a text: what stands between ampersands after the prefix, empty pieces left out. */
  function FieldsOf(t: Bytes): seq<Bytes>
    requires PREFIX <= t
  {
    NonEmpty(Split(t[|PREFIX|..], AMPERSAND))
  }

  /** A text is read as a seed exactly if, trimmed, it is at most 2048 bytes and has the prefix, and its fields say
      version 1 last, one group, and addresses that with it make a valid seed. */
  lemma DecodedExactly(input: Bytes, s: GroupSeed)
    ensures Decode(input) == Ok(s)
            <==> var t := Trim(input);
                 && |t| <= 2048 && PREFIX <= t && Validate(s).None?
                 && Says(FieldsOf(t), Draft(Some(VERSION), Some(s.group), s.addrs))
  {
    hide Trim, Split, NonEmpty, Validate, Says, ReadFields, PREFIX;
    var t := Trim(input);
    if PREFIX <= t {
      var d := Draft(Some(VERSION), Some(s.group), s.addrs);
      ReadsExactly(FieldsOf(t), d);
      if ReadFields(BLANK, FieldsOf(t)).Ok? {
        var e := ReadFields(BLANK, FieldsOf(t)).value;
        assert Decode(input) == Ok(s) ==> e == d;
      }
    }
  }

  /** And what is read is a seed as the constructor would make it: text, valid in every field. */
  lemma DecodedIsValid(input: Bytes)
    ensures Decode(input).Ok? ==> ValidSeed(Decode(input).value)
  {
    hide Trim, Split, NonEmpty, Validate, ReadFields, PREFIX, IsUtf8, Unescape;
    if Decode(input).Ok? { DecodedExactly(input, Decode(input).value); }
  }

  /** Otherwise the refusal is the length's, the prefix's, the first field's that cannot be read, or, after all of
      them, the version's, the missing group's, or the validation's, in that order. */
  lemma RefusedExactly(input: Bytes, e: SeedError)
    ensures Decode(input) == Err(e)
            <==> var t := Trim(input);
                 if |t| > 2048 then e == TooLong
                 else if !(PREFIX <= t) then e == NotASeed
                 else
                   var fields := FieldsOf(t);
                   || (exists k, d :: 0 <= k < |fields| && Says(fields[..k], d) && ReadField(d, fields[k]) == Err(e))
                   || (exists d :: Says(fields, d) && Finish(d) == Err(e))
  {
    hide Trim, Split, NonEmpty, Validate, Says, ReadFields, PREFIX, Finish, ReadField;
    var t := Trim(input);
    if |t| <= 2048 && PREFIX <= t {
      var fields := FieldsOf(t);
      FirstRefusal(fields, e);
      if ReadFields(BLANK, fields).Ok? { ReadsExactly(fields, ReadFields(BLANK, fields).value); }
      forall d | Says(fields, d) ensures ReadFields(BLANK, fields) == Ok(d) { ReadsExactly(fields, d); }
    }
  }

  lemma {:induction false} FirstRefusal(pairs: seq<Bytes>, e: SeedError)
    ensures ReadFields(BLANK, pairs) == Err(e)
            <==> exists k, d :: 0 <= k < |pairs| && Says(pairs[..k], d) && ReadField(d, pairs[k]) == Err(e)
  {
    hide Says, ReadField;
    if pairs != [] {
      var n := |pairs| - 1;
      var front, p := pairs[..n], pairs[n];
      assert pairs == front + [p];
      ReadFieldsLast(BLANK, front, p);
      FirstRefusal(front, e);
      assert forall k :: 0 <= k < n ==> front[..k] == pairs[..k] && front[k] == pairs[k];
      if ReadFields(BLANK, front).Ok? { ReadsExactly(front, ReadFields(BLANK, front).value); }
      if k, d :| 0 <= k < |pairs| && Says(pairs[..k], d) && ReadField(d, pairs[k]) == Err(e) {
        if k < n {
          assert Says(front[..k], d) && ReadField(d, front[k]) == Err(e);
        } else {
          ReadsExactly(front, d);
        }
      }
    }
  }

  /** A field is refused exactly if it repeats the group, brings a ninth address, or, neither being so, has a known
      key and a value that cannot be read. */
  lemma FieldRefusedExactly(d: Draft, p: Bytes, e: SeedError)
    ensures ReadField(d, p) == Err(e)
            <==> var (k, v) := KeyValue(p);
                 if k == KEY_G && d.group.Some? then e == Group
                 else if k == KEY_A && |d.addrs| >= 8 then e == AddrCount
                 else (k == KEY_V || k == KEY_G || k == KEY_A) && PctDecode(v).Err? && e == Encoding
  {
    hide PctDecode, KeyValue;
    ValueExactly(KeyValue(p).1, []);
    assert KEY_V[0] != KEY_G[0] && KEY_V[0] != KEY_A[0] && KEY_G[0] != KEY_A[0];
  }

  /** After the fields: the version, then the group, then the number of addresses, then each of them. */
  lemma FinishRefusedExactly(d: Draft, e: SeedError)
    ensures Finish(d) == Err(e)
            <==> if d.version != Some([49]) then e == Version
                 else if d.group == None || !ValidGroup(d.group.value) then e == Group
                 else if |d.addrs| == 0 || |d.addrs| > 8 then e == AddrCount
                 else e == Addr && exists i :: 0 <= i < |d.addrs| && !ValidAddr(d.addrs[i])
  {
    hide ValidGroup, ValidAddr;
  }

  // ---- one address ----

  /** Slash-separated parts, each after a slash. */
  function Path(parts: seq<Bytes>): Bytes {
    if parts == [] then [] else [SLASH] + parts[0] + Path(parts[1..])
  }

  predicate PartsOf(parts: seq<Bytes>) { forall i :: 0 <= i < |parts| ==> SLASH !in parts[i] }

  lemma Regrouped(b: Byte, s: Bytes, first: Bytes, more: Bytes)
    requires [SLASH] + first + more == [SLASH] + s
    ensures [SLASH] + ([b] + first) + more == [SLASH] + ([b] + s)
  {
    var one: Bytes := [SLASH];
    assert (one + first + more)[1..] == first + more && (one + s)[1..] == s;
    assert one + ([b] + first) + more == one + ([b] + (first + more));
  }

  lemma PathPrepends(b: Byte, s: Bytes, rest: seq<Bytes>)
    requires rest != [] && Path(rest) == [SLASH] + s
    ensures Path([[b] + rest[0]] + rest[1..]) == [SLASH] + ([b] + s)
  {
    var parts := [[b] + rest[0]] + rest[1..];
    assert parts[1..] == rest[1..] && parts[0] == [b] + rest[0];
    Regrouped(b, s, rest[0], Path(rest[1..]));
  }

  lemma PathOfNext(rest: seq<Bytes>)
    ensures Path([[]] + rest) == [SLASH] + Path(rest)
  {
    var none: Bytes := [];
    var parts := [none] + rest;
    assert parts[1..] == rest;
    assert [SLASH] + none + Path(rest) == [SLASH] + Path(rest);
  }

  lemma {:induction false} PathOfSplit(s: Bytes)
    ensures Path(Split(s, SLASH)) == [SLASH] + s && PartsOf(Split(s, SLASH))
  {
    if s == [] {
      PathOfNext([]);
      assert [[]] + [] == Split(s, SLASH);
    } else {
      hide Path;
      var rest := Split(s[1..], SLASH);
      PathOfSplit(s[1..]);
      assert s == [s[0]] + s[1..];
      if s[0] == SLASH { PathOfNext(rest); } else { PathPrepends(s[0], s[1..], rest); }
    }
  }

  lemma {:induction false} SplitOfPath(parts: seq<Bytes>)
    requires parts != [] && PartsOf(parts)
    ensures Split(Path(parts)[1..], SLASH) == parts
  {
    var p, rest := parts[0], Path(parts[1..]);
    assert Path(parts)[1..] == p + rest;
    if |parts| == 1 {
      assert p + rest == p;
      SplitPlain(p, [], SLASH);
      assert [p] == parts;
    } else {
      SplitOfPath(parts[1..]);
      assert rest == [SLASH] + rest[1..];
      assert p + rest == p + [SLASH] + rest[1..];
      SplitPlain(p, rest[1..], SLASH);
      assert parts == [p] + parts[1..];
    }
  }

  /** `a` is a path of non-empty parts, one of them `p2p` and followed by letters and digits. */
  predicate NamesPeer(parts: seq<Bytes>, at: nat) {
    && PartsOf(parts) && (forall i :: 0 <= i < |parts| ==> parts[i] != [])
    && at + 1 < |parts| && parts[at] == [112, 50, 112] && forall b :: b in parts[at + 1] ==> IsAlphanumeric(b)
  }

  /** An address is accepted exactly if it is at most 256 graphic bytes that make such a path. */
  lemma AddrExactly(a: Bytes)
    ensures ValidAddr(a) <==> && |a| <= 256 && (forall b :: b in a ==> IsGraphic(b))
                              && exists parts, at :: Path(parts) == a && NamesPeer(parts, at)
  {
    hide IsGraphic, IsAlphanumeric;
    if ValidAddr(a) {
      var parts := Split(a[1..], SLASH);
      PathOfSplit(a[1..]);
      assert [SLASH] + a[1..] == a;
      var i :| 0 <= i < |parts| - 1 && parts[i] == P2P && AllAlphanumeric(parts[i + 1]);
      assert NamesPeer(parts, i);
    }
    if parts, at :| Path(parts) == a && NamesPeer(parts, at) && |a| <= 256 && (forall b :: b in a ==> IsGraphic(b)) {
      SplitOfPath(parts);
      assert AllAlphanumeric(parts[at + 1]) && parts[at] == P2P;
      assert a[0] == SLASH;
      assert Split(a[1..], SLASH) == parts;
    }
  }
}
