/** The bytes of a seed text read as characters: the byte tables of `Seed` are UTF-8 (section 3 of RFC 3629) and
    its notions of blank and control character are those of the characters encoded. */
module Utf8Laws {
  import opened Wrappers
  import opened Seed
  import Addresses

  // ---- one character ----

  predicate Scalar(c: nat) { c < 0xD800 || 0xE000 <= c < 0x11_0000 }

  function Encoded(c: nat): (r: Bytes)
    requires Scalar(c)
    ensures 1 <= |r| <= 4
  {
    if c < 0x80 then [c]
    else if c < 0x800 then [0xC0 + c / 64, 0x80 + c % 64]
    else if c < 0x1_0000 then [0xE0 + c / 64 / 64, 0x80 + c / 64 % 64, 0x80 + c % 64]
    else [0xF0 + c / 64 / 64 / 64, 0x80 + c / 64 / 64 % 64, 0x80 + c / 64 % 64, 0x80 + c % 64]
  }

  /** Six more bits. */
  function Shifted(high: nat, b: Byte): nat
    requires IsContinuation(b)
  {
    var low: int := b;
    high * 64 + (low - 0x80)
  }

  lemma ShiftedBack(high: nat, b: Byte)
    requires IsContinuation(b)
    ensures Shifted(high, b) / 64 == high && 0x80 + Shifted(high, b) % 64 == b
  {
  }

  lemma ShiftedThere(c: nat)
    ensures c % 64 < 64 && IsContinuation(0x80 + c % 64) && Shifted(c / 64, 0x80 + c % 64) == c
  {
  }

  function Above(b: Byte, base: nat): nat
    requires base <= b
  {
    var n: int := b;
    n - base
  }

  /** The code point a text starts with. */
  function Code(s: Bytes): nat
    requires CharLength(s) > 0
  {
    match CharLength(s)
    case 1 => s[0]
    case 2 => Shifted(Above(s[0], 0xC0), s[1])
    case 3 => Shifted(Shifted(Above(s[0], 0xE0), s[1]), s[2])
    case _ => Shifted(Shifted(Shifted(Above(s[0], 0xF0), s[1]), s[2]), s[3])
  }

  lemma CodeIsEncoded(s: Bytes)
    requires CharLength(s) > 0
    ensures Scalar(Code(s)) && Encoded(Code(s)) == s[..CharLength(s)]
  {
    match CharLength(s) {
      case 1 =>
      case 2 =>
        ShiftedBack(Above(s[0], 0xC0), s[1]);
      case 3 =>
        var x := Above(s[0], 0xE0);
        ShiftedBack(x, s[1]);
        ShiftedBack(Shifted(x, s[1]), s[2]);
      case _ =>
        var x := Above(s[0], 0xF0);
        ShiftedBack(x, s[1]);
        ShiftedBack(Shifted(x, s[1]), s[2]);
        ShiftedBack(Shifted(Shifted(x, s[1]), s[2]), s[3]);
    }
  }

  lemma EncodedIsChar(c: nat, rest: Bytes)
    requires Scalar(c)
    ensures CharLength(Encoded(c) + rest) == |Encoded(c)| && Code(Encoded(c) + rest) == c
  {
    hide Shifted;
    ShiftedThere(c);
    ShiftedThere(c / 64);
    ShiftedThere(c / 64 / 64);
    var s := Encoded(c) + rest;
    assert forall i :: 0 <= i < |Encoded(c)| ==> s[i] == Encoded(c)[i];
  }

  /** A text starts with a character of `n` bytes exactly if its first `n` encode some code point, which no
      other character's bytes do. */
  lemma CharLengthExactly(s: Bytes, n: nat)
    ensures n > 0 ==> (CharLength(s) == n <==> exists c :: Scalar(c) && n <= |s| && Encoded(c) == s[..n])
  {
    hide CharLength, Code, Encoded;
    if CharLength(s) > 0 { CodeIsEncoded(s); }
    if c :| Scalar(c) && n <= |s| && Encoded(c) == s[..n] {
      EncodedIsChar(c, s[n..]);
      assert s == s[..n] + s[n..];
    }
  }

  // ---- texts ----

  function CharBytes(c: char): (r: Bytes)
    ensures 1 <= |r| <= 4
  {
    Encoded(c as nat)
  }

  /** The bytes of a text. */
  function Utf8(t: string): Bytes {
    if t == "" then [] else CharBytes(t[0]) + Utf8(t[1..])
  }

  lemma {:induction false} TextIsUtf8(t: string)
    ensures IsUtf8(Utf8(t))
  {
    hide CharLength, Encoded, Code;
    if t != "" {
      EncodedIsChar(t[0] as nat, Utf8(t[1..]));
      TextIsUtf8(t[1..]);
      assert Utf8(t)[|CharBytes(t[0])|..] == Utf8(t[1..]);
    }
  }

  lemma {:induction false} TextOf(s: Bytes) returns (t: string)
    requires IsUtf8(s)
    ensures Utf8(t) == s
    decreases |s|
  {
    hide CharLength, Encoded, Code;
    if s == [] {
      t := "";
    } else {
      CodeIsEncoded(s);
      var c, rest := Code(s) as char, s[CharLength(s)..];
      var more := TextOf(rest);
      t := [c] + more;
      assert t[1..] == more;
      assert s == s[..CharLength(s)] + rest;
    }
  }

  /** Bytes are well formed exactly if they are those of some text. */
  lemma Utf8Exactly(s: Bytes)
    ensures IsUtf8(s) <==> exists t :: Utf8(t) == s
  {
    hide Utf8, IsUtf8;
    if IsUtf8(s) { var t := TextOf(s); }
    if t :| Utf8(t) == s { TextIsUtf8(t); }
  }

  lemma {:induction false} Utf8Appends(t: string, u: string)
    ensures Utf8(t + u) == Utf8(t) + Utf8(u)
  {
    hide CharBytes;
    if t == "" {
      assert t + u == u;
    } else {
      assert (t + u)[1..] == t[1..] + u;
      Utf8Appends(t[1..], u);
    }
  }

  // ---- blanks ----

  lemma SpaceIsChar(s: Bytes)
    requires Seed.IsSpace(s)
    ensures CharLength(s) == |s| > 0 && Addresses.IsSpace(Code(s) as char)
  {
  }

  lemma BlankIsSpace(c: char)
    ensures Addresses.IsSpace(c) ==> Seed.IsSpace(CharBytes(c))
  {
  }

  /** The bytes that count as one blank are exactly those of the blank characters. */
  lemma SpaceExactly(s: Bytes)
    ensures Seed.IsSpace(s) <==> exists c :: Addresses.IsSpace(c) && CharBytes(c) == s
  {
    hide CharLength, Encoded, Code, Addresses.IsSpace, Seed.IsSpace;
    if Seed.IsSpace(s) {
      SpaceIsChar(s);
      CodeIsEncoded(s);
      assert CharBytes(Code(s) as char) == s;
    }
    if c :| Addresses.IsSpace(c) && CharBytes(c) == s { BlankIsSpace(c); }
  }

  lemma SpaceStarts(s: Bytes, k: nat, c: char, rest: Bytes)
    requires s == CharBytes(c) + rest && StartsInSpace(s, k)
    ensures k == |CharBytes(c)| && Addresses.IsSpace(c)
  {
    hide CharLength, Encoded, Code, Addresses.IsSpace, Seed.IsSpace;
    var w := s[..k];
    SpaceIsChar(w);
    CodeIsEncoded(w);
    assert w[..k] == w && w + s[k..] == s;
    EncodedIsChar(Code(w), s[k..]);
    EncodedIsChar(c as nat, rest);
  }

  lemma StartsBlank(c: char, rest: Bytes)
    ensures SpaceAtStart(CharBytes(c) + rest) == if Addresses.IsSpace(c) then |CharBytes(c)| else 0
  {
    hide CharBytes, Addresses.IsSpace, Seed.IsSpace;
    var s := CharBytes(c) + rest;
    forall k | StartsInSpace(s, k) ensures k == |CharBytes(c)| && Addresses.IsSpace(c) { SpaceStarts(s, k, c, rest); }
    if Addresses.IsSpace(c) {
      BlankIsSpace(c);
      assert s[..|CharBytes(c)|] == CharBytes(c);
      AtMostThree(CharBytes(c));
      assert StartsInSpace(s, |CharBytes(c)|);
    }
  }

  lemma AtMostThree(s: Bytes)
    ensures Seed.IsSpace(s) ==> 1 <= |s| <= 3
  {
  }

  lemma {:induction false} TrimStartAgrees(t: string)
    ensures Seed.TrimStart(Utf8(t)) == Utf8(Addresses.TrimStart(t))
  {
    hide CharBytes, Addresses.IsSpace, Seed.IsSpace;
    if t != "" {
      StartsBlank(t[0], Utf8(t[1..]));
      TrimStartAgrees(t[1..]);
      assert Utf8(t)[|CharBytes(t[0])|..] == Utf8(t[1..]);
    }
  }

  /** A character's first byte continues nothing, and the others do. */
  lemma LeadThenTail(c: char)
    ensures !IsContinuation(CharBytes(c)[0]) && forall i :: 0 < i < |CharBytes(c)| ==> IsContinuation(CharBytes(c)[i])
  {
  }

  lemma LeadIsLast(s: Bytes, a: nat, b: nat)
    requires a < |s| && !IsContinuation(s[a]) && forall i :: a < i < |s| ==> IsContinuation(s[i])
    requires b < |s| && !IsContinuation(s[b]) && forall i :: b < i < |s| ==> IsContinuation(s[i])
    ensures a == b
  {
  }

  lemma SpaceEnds(front: Bytes, k: nat, c: char)
    requires EndsInSpace(front + CharBytes(c), k)
    ensures k == |CharBytes(c)| && Addresses.IsSpace(c)
  {
    hide CharLength, Encoded, Code, Addresses.IsSpace, Seed.IsSpace, IsContinuation;
    var s, own := front + CharBytes(c), CharBytes(c);
    var w := s[|s| - k..];
    SpaceIsChar(w);
    CodeIsEncoded(w);
    var d := Code(w) as char;
    assert w[..|w|] == w == CharBytes(d);
    LeadThenTail(c);
    LeadThenTail(d);
    LeadIsLast(s, |front|, |s| - k) by {
      assert forall i :: |front| <= i < |s| ==> s[i] == own[i - |front|];
      assert forall i :: |s| - k <= i < |s| ==> s[i] == w[i - (|s| - k)];
    }
    assert w == own;
    EncodedIsChar(c as nat, []);
    EncodedIsChar(d as nat, []);
    assert own + [] == own;
  }

  lemma EndsBlank(front: Bytes, c: char)
    ensures SpaceAtEnd(front + CharBytes(c)) == if Addresses.IsSpace(c) then |CharBytes(c)| else 0
  {
    hide CharBytes, Addresses.IsSpace, Seed.IsSpace;
    var s := front + CharBytes(c);
    forall k | EndsInSpace(s, k) ensures k == |CharBytes(c)| && Addresses.IsSpace(c) { SpaceEnds(front, k, c); }
    if Addresses.IsSpace(c) {
      BlankIsSpace(c);
      assert s[|s| - |CharBytes(c)|..] == CharBytes(c);
      AtMostThree(CharBytes(c));
      assert EndsInSpace(s, |CharBytes(c)|);
    }
  }

  lemma TrimOff(front: Bytes, own: Bytes)
    ensures SpaceAtEnd(front + own) == |own| && own != [] ==> Seed.TrimEnd(front + own) == Seed.TrimEnd(front)
    ensures SpaceAtEnd(front + own) == 0 ==> Seed.TrimEnd(front + own) == front + own
  {
    hide SpaceAtEnd;
    var s := front + own;
    assert s[..|s| - |own|] == front;
  }

  lemma {:induction false} TrimEndAgrees(t: string)
    ensures Seed.TrimEnd(Utf8(t)) == Utf8(Addresses.TrimEnd(t))
  {
    hide CharBytes, Addresses.IsSpace, Seed.IsSpace;
    if t != "" {
      var front, last := t[..|t| - 1], t[|t| - 1];
      assert t == front + [last];
      Utf8Appends(front, [last]);
      OneChar(last);
      EndsBlank(Utf8(front), last);
      TrimEndAgrees(front);
      TrimOff(Utf8(front), CharBytes(last));
    } else {
      AtMostThree([]);
    }
  }

  lemma OneChar(c: char)
    ensures Utf8([c]) == CharBytes(c)
  {
    hide CharBytes;
    var one := [c];
    assert one[1..] == "";
    assert CharBytes(c) + [] == CharBytes(c);
  }

  /** Trimming the bytes of a text is trimming the text. */
  lemma TrimAgrees(t: string)
    ensures Seed.Trim(Utf8(t)) == Utf8(Addresses.Trim(t))
  {
    hide Utf8, Addresses.TrimStart, Addresses.TrimEnd, Seed.TrimStart, Seed.TrimEnd;
    TrimStartAgrees(t);
    TrimEndAgrees(Addresses.TrimStart(t));
  }

  // ---- control characters ----

  predicate IsControl(c: char) { c as nat < 32 || 0x7F <= c as nat <= 0x9F }

  /** A control character of one byte at `i`, or of two from there on. */
  predicate ControlAt(s: Bytes, i: nat)
    requires i < |s|
  {
    s[i] < 32 || s[i] == 127 || (i + 1 < |s| && s[i] == 0xC2 && 0x80 <= s[i + 1] <= 0x9F)
  }

  lemma HasControlAt(s: Bytes)
    ensures HasControl(s) <==> exists i :: 0 <= i < |s| && ControlAt(s, i)
  {
    if i :| 0 <= i < |s| && (s[i] < 32 || s[i] == 127) { assert ControlAt(s, i); }
    if i :| 0 <= i < |s| - 1 && s[i] == 0xC2 && 0x80 <= s[i + 1] <= 0x9F { assert ControlAt(s, i); }
  }

  lemma CharControls(c: char, rest: Bytes)
    ensures var s := CharBytes(c) + rest;
            && (ControlAt(s, 0) <==> IsControl(c))
            && (forall i :: 0 < i < |CharBytes(c)| ==> !ControlAt(s, i))
  {
    var n, own, s := c as nat, CharBytes(c), CharBytes(c) + rest;
    LeadThenTail(c);
    assert forall i :: 0 <= i < |own| ==> s[i] == own[i];
    if 0x80 <= n < 0x800 {
      assert s[0] == 0xC0 + n / 64 && s[1] == 0x80 + n % 64;
    }
  }

  lemma {:induction false} ControlExactly(t: string)
    ensures HasControl(Utf8(t)) <==> exists i :: 0 <= i < |t| && IsControl(t[i])
  {
    hide CharBytes, IsControl, ControlAt, HasControl;
    HasControlAt(Utf8(t));
    if t != "" {
      var own, rest := CharBytes(t[0]), Utf8(t[1..]);
      var s := own + rest;
      ControlExactly(t[1..]);
      HasControlAt(rest);
      CharControls(t[0], rest);
      forall i | 0 <= i < |rest| ensures ControlAt(s, |own| + i) <==> ControlAt(rest, i) { ControlShifts(own, rest, i); }
      if i :| 0 <= i < |s| && ControlAt(s, i) {
        if i >= |own| { assert ControlAt(rest, i - |own|); }
      }
      if HasControl(rest) {
        var i :| 0 <= i < |rest| && ControlAt(rest, i);
        assert ControlAt(s, |own| + i);
      }
      assert (exists i :: 0 <= i < |t| && IsControl(t[i])) <==> IsControl(t[0]) || exists i :: 0 <= i < |t[1..]| && IsControl(t[1..][i]) by {
        if i :| 0 <= i < |t| && IsControl(t[i]) { if i > 0 { assert t[1..][i - 1] == t[i]; } }
        if i :| 0 <= i < |t[1..]| && IsControl(t[1..][i]) { assert t[i + 1] == t[1..][i]; }
      }
    }
  }

  lemma ControlShifts(own: Bytes, rest: Bytes, i: nat)
    requires i < |rest|
    ensures ControlAt(own + rest, |own| + i) <==> ControlAt(rest, i)
  {
  }

  lemma NoText(t: string)
    ensures Utf8(t) == [] <==> t == ""
  {
    hide CharBytes;
  }

  /** So a group id is accepted exactly if, as a text, it is not blank, has no control character, and takes at
      most 256 bytes. */
  lemma GroupExactly(t: string)
    ensures ValidGroup(Utf8(t)) <==> Addresses.Trim(t) != "" && |Utf8(t)| <= 256 && forall i :: 0 <= i < |t| ==> !IsControl(t[i])
  {
    hide IsControl, HasControl, Addresses.Trim, Seed.Trim, CharBytes;
    TrimAgrees(t);
    ControlExactly(t);
    NoText(Addresses.Trim(t));
  }
}
