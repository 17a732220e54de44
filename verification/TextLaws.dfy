/** What the reading of addresses, roles and labels amounts to, said of the text itself. */
module TextLaws {
  import opened Wrappers
  import opened Addresses

  predicate AllBlank(s: string) { forall i :: 0 <= i < |s| ==> IsSpace(s[i]) }

  /** "0x", `n` times. */
  function Prefixes(n: nat): string { if n == 0 then "" else "0x" + Prefixes(n - 1) }

  // ---- trimming ----

  lemma {:induction false} TrimStartCuts(s: string) returns (n: nat)
    ensures n <= |s| && TrimStart(s) == s[n..] && AllBlank(s[..n])
    ensures n < |s| ==> !IsSpace(s[n])
  {
    hide IsSpace;
    if s != "" && IsSpace(s[0]) {
      var k := TrimStartCuts(s[1..]);
      n := k + 1;
      assert s[..n] == [s[0]] + s[1..][..k];
    } else {
      n := 0;
    }
  }

  lemma {:induction false} TrimEndCuts(s: string) returns (n: nat)
    ensures n <= |s| && TrimEnd(s) == s[..n] && AllBlank(s[n..])
    ensures n > 0 ==> !IsSpace(s[n - 1])
  {
    hide IsSpace;
    if s != "" && IsSpace(s[|s| - 1]) {
      var front := s[..|s| - 1];
      n := TrimEndCuts(front);
      assert front[..n] == s[..n];
      assert s[n..] == front[n..] + [s[|s| - 1]];
    } else {
      n := |s|;
      assert s[..n] == s;
    }
  }

  lemma {:induction false} TrimStartPast(blank: string, s: string)
    requires AllBlank(blank) && (s != "" ==> !IsSpace(s[0]))
    ensures TrimStart(blank + s) == s
  {
    hide IsSpace;
    if blank == "" {
      assert blank + s == s;
    } else {
      assert (blank + s)[1..] == blank[1..] + s;
      TrimStartPast(blank[1..], s);
    }
  }

  lemma {:induction false} TrimEndPast(s: string, blank: string)
    requires AllBlank(blank) && (s != "" ==> !IsSpace(s[|s| - 1]))
    ensures TrimEnd(s + blank) == s
  {
    hide IsSpace;
    if blank == "" {
      assert s + blank == s;
    } else {
      assert (s + blank)[..|s + blank| - 1] == s + blank[..|blank| - 1];
      TrimEndPast(s, blank[..|blank| - 1]);
    }
  }

  /** Trimming takes off the blanks before and after, and nothing else. */
  lemma TrimCuts(raw: string) returns (lead: string, trail: string)
    ensures raw == lead + Trim(raw) + trail && AllBlank(lead) && AllBlank(trail)
    ensures Trim(raw) != "" ==> !IsSpace(Trim(raw)[0]) && !IsSpace(Trim(raw)[|Trim(raw)| - 1])
  {
    hide IsSpace;
    var n := TrimStartCuts(raw);
    var t := raw[n..];
    var k := TrimEndCuts(t);
    lead, trail := raw[..n], t[k..];
    assert raw == raw[..n] + (t[..k] + t[k..]);
    assert t[..k] != "" ==> t[..k][0] == raw[n];
  }

  lemma TrimPast(lead: string, s: string, trail: string)
    requires AllBlank(lead) && AllBlank(trail) && s != "" && !IsSpace(s[0]) && !IsSpace(s[|s| - 1])
    ensures Trim(lead + s + trail) == s
  {
    hide IsSpace, AllBlank;
    assert lead + s + trail == lead + (s + trail);
    TrimStartPast(lead, s + trail);
    TrimEndPast(s, trail);
  }

  // ---- addresses ----

  lemma {:induction false} PrefixCuts(s: string) returns (n: nat)
    ensures s == Prefixes(n) + StripHexPrefix(s)
  {
    if |s| >= 2 && s[..2] == "0x" {
      var k := PrefixCuts(s[2..]);
      n := k + 1;
      assert s == s[..2] + s[2..];
      assert s == "0x" + (Prefixes(k) + StripHexPrefix(s));
    } else {
      n := 0;
    }
  }

  lemma {:induction false} PrefixesStrip(n: nat, h: string)
    requires |h| >= 2 ==> h[1] != 'x'
    ensures StripHexPrefix(Prefixes(n) + h) == h
    ensures n > 0 ==> (Prefixes(n) + h)[0] == '0'
  {
    var s := Prefixes(n) + h;
    if n == 0 {
      assert s == h;
    } else {
      PrefixesStrip(n - 1, h);
      assert s == "0x" + (Prefixes(n - 1) + h);
      assert s[2..] == Prefixes(n - 1) + h;
    }
  }

  /** `raw` spells `a`: forty hexadecimal digits in either case, after any number of `0x`, between blanks. */
  ghost predicate Spells(raw: string, lead: string, n: nat, h: string, trail: string, a: string) {
    && raw == lead + (Prefixes(n) + h) + trail && AllBlank(lead) && AllBlank(trail)
    && |h| == |a| == 40 && forall i :: 0 <= i < 40 ==> IsHexDigit(h[i]) && a[i] == LowerChar(h[i])
  }

  /** A text has a canonical address exactly if it spells it so. */
  lemma CanonicalExactly(raw: string, a: string)
    ensures CanonicalAddress(raw) == Some(a) <==> exists lead, n, h, trail :: Spells(raw, lead, n, h, trail, a)
  {
    hide IsSpace, LowerChar, IsHexDigit, AllBlank, Spells, Trim, StripHexPrefix;
    if CanonicalAddress(raw) == Some(a) {
      var lead, trail := TrimCuts(raw);
      var n := PrefixCuts(Trim(raw));
      CanonicalSpells(raw, lead, n, StripHexPrefix(Trim(raw)), trail, a);
    }
    if lead, n, h, trail :| Spells(raw, lead, n, h, trail, a) {
      SpelledIsCanonical(raw, lead, n, h, trail, a);
    }
  }

  lemma CanonicalSpells(raw: string, lead: string, n: nat, h: string, trail: string, a: string)
    requires raw == lead + (Prefixes(n) + h) + trail && AllBlank(lead) && AllBlank(trail)
    requires h == StripHexPrefix(Trim(raw)) && CanonicalAddress(raw) == Some(a)
    ensures Spells(raw, lead, n, h, trail, a)
  {
    hide IsSpace, AllBlank, StripHexPrefix, Trim;
    forall i | 0 <= i < 40 ensures IsHexDigit(h[i]) && a[i] == LowerChar(h[i]) {
      assert IsHexDigit(a[i]);
    }
  }

  lemma SpelledIsCanonical(raw: string, lead: string, n: nat, h: string, trail: string, a: string)
    requires Spells(raw, lead, n, h, trail, a)
    ensures CanonicalAddress(raw) == Some(a)
  {
    hide AllBlank, StripHexPrefix, Trim;
    assert IsHexDigit(h[0]) && IsHexDigit(h[1]) && IsHexDigit(h[39]);
    var body := Prefixes(n) + h;
    PrefixesStrip(n, h);
    assert body[0] == '0' || body[0] == h[0] by { if n == 0 { assert body == h; } }
    assert body[|body| - 1] == h[39];
    TrimPast(lead, body, trail);
    assert Lower(h) == a;
    forall i | 0 <= i < |a| ensures IsHexDigit(a[i]) { assert IsHexDigit(h[i]); }
  }

  // ---- roles and labels ----

  /** The roles that may mesh, and how the roles rank; any other text ranks below them all. */
  lemma RolesRank(role: string)
    ensures RoleRank(role) >= MIN_CLUSTER_RANK <==> role in {"owner", "admin", "partner", "member"}
    ensures RoleRank("owner") > RoleRank("admin") > RoleRank("partner") > RoleRank("member") > RoleRank("agent") > 0
    ensures role !in {"owner", "admin", "partner", "member", "agent"} ==> RoleRank(role) == 0
  {
    assert "owner" != "admin" && "owner" != "partner" && "admin" != "partner";
  }

  /** A label is 1 to 48 characters, each a letter, a digit, a space or one of `.`, `_`, `-`, `'`, with no space at
      either end. */
  lemma LabelExactly(text: string)
    ensures LabelIsValid(text)
            <==> && 1 <= |text| <= 48 && text[0] != ' ' && text[|text| - 1] != ' '
                 && forall i :: 0 <= i < |text| ==> IsLabelChar(text[i])
  {
    hide IsLabelChar, Trim;
    if text != "" {
      if (forall i :: 0 <= i < |text| ==> IsLabelChar(text[i])) {
        LabelBlank(text[0]);
        LabelBlank(text[|text| - 1]);
        if text[0] != ' ' && text[|text| - 1] != ' ' {
          assert "" + text + "" == text;
          TrimPast("", text, "");
        } else {
          var lead, trail := TrimCuts(text);
        }
      } else {
        assert forall c :: c in text <==> exists i :: 0 <= i < |text| && text[i] == c;
      }
    }
  }

  lemma LabelBlank(c: char)
    requires IsLabelChar(c)
    ensures IsSpace(c) <==> c == ' '
  {
  }

  // ---- content ids ----

  /** A content id is `Qm` and 44 characters of base 58, or `ba`, one of `e` to `h`, and 5 to 125 more characters of
      base 32; nothing else. */
  lemma CidExactly(s: string)
    ensures IsValidCid(s)
            <==> || (|s| == 46 && "Qm" <= s && forall i :: 2 <= i < 46 ==> IsBase58(s[i]))
                 || (8 <= |s| <= 128 && "ba" <= s && 'e' <= s[2] <= 'h'
                     && forall i :: 1 <= i < |s| ==> 'a' <= s[i] <= 'z' || '2' <= s[i] <= '7')
  {
    hide IsBase58;
    if |s| >= 2 {
      assert forall i :: 2 <= i < |s| ==> s[i] == s[2..][i - 2] && s[i] in s[2..];
      assert forall i :: 1 <= i < |s| ==> s[i] == s[1..][i - 1] && s[i] in s[1..];
    }
  }
}
