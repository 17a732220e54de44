/** The signed text is unambiguous: canonical bodies with the same text are the same body, and a link is
    never the same text as a revocation. This is what lets a signature stand for one exact body. */
module SigningLaws {
  import opened Wrappers
  import opened Addresses
  import opened Links

  /** A body in the form the constructors produce, the only form a signature is checked against. */
  predicate Canonical(m: Message) {
    match m
    case OfLink(l) => NewLink(l) == Some(l)
    case OfRevocation(r) => NewRevocation(r) == Some(r)
  }

  lemma Cut(a: string, x: string, b: string, y: string)
    requires a + x == b + y && |a| == |b|
    ensures a == b && x == y
  {
    assert a == (a + x)[..|a|] && b == (b + y)[..|b|];
    assert x == (a + x)[|a|..] && y == (b + y)[|b|..];
  }

  predicate OneLine(s: string) { forall i :: 0 <= i < |s| ==> s[i] != '\n' }

  lemma CutAtNewline(a: string, x: string, b: string, y: string)
    requires a + x == b + y
    requires OneLine(a) && OneLine(b) && x != "" && y != "" && x[0] == '\n' && y[0] == '\n'
    ensures a == b && x == y
  {
    var s, t := a + x, b + y;
    assert s[|a|] == '\n' && t[|b|] == '\n';
    assert forall i :: 0 <= i < |a| ==> s[i] == a[i];
    assert forall i :: 0 <= i < |b| ==> t[i] == b[i];
    Cut(a, x, b, y);
  }

  /** The number some decimal digits stand for. */
  function ValueOf(s: string): nat {
    if s == "" then 0
    else
      var c := s[|s| - 1];
      10 * ValueOf(s[..|s| - 1]) + if '0' <= c <= '9' then c as nat - '0' as nat else 0
  }

  /** A number is written in decimal digits, most significant first, with no leading zero. */
  lemma {:induction false} DecimalReadsBack(n: nat)
    ensures ValueOf(Decimal(n)) == n && (n > 0 ==> Decimal(n)[0] != '0') && (n == 0 ==> Decimal(n) == "0")
  {
    var s := Decimal(n);
    if n < 10 {
      assert s[..0] == "";
    } else {
      DecimalReadsBack(n / 10);
      assert s[..|s| - 1] == Decimal(n / 10);
    }
  }

  lemma {:induction false} DecimalInjective(n: nat, k: nat)
    requires Decimal(n) == Decimal(k)
    ensures n == k
  {
    var s, t := Decimal(n), Decimal(k);
    assert s[|s| - 1] == ('0' as int + n % 10) as char;
    assert t[|t| - 1] == ('0' as int + k % 10) as char;
    assert |s| == (if n < 10 then 1 else 1 + |Decimal(n / 10)|);
    assert |t| == (if k < 10 then 1 else 1 + |Decimal(k / 10)|);
    if n >= 10 && k >= 10 {
      assert s[..|s| - 1] == Decimal(n / 10) && t[..|t| - 1] == Decimal(k / 10);
      DecimalInjective(n / 10, k / 10);
    }
  }

  /** A field between fixed text: `head + value + tail` determines the value and the tail. */
  lemma CutField(h: string, a: string, x: string, b: string, y: string)
    requires h + (a + x) == h + (b + y)
    requires |a| == |b| || (OneLine(a) && OneLine(b) && x != "" && y != "" && x[0] == '\n' && y[0] == '\n')
    ensures a == b && x == y
  {
    Cut(h, a + x, h, b + y);
    if |a| == |b| { Cut(a, x, b, y); } else { CutAtNewline(a, x, b, y); }
  }

  lemma CanonicalLengths(l: DeviceLink)
    requires NewLink(l) == Some(l)
    ensures |l.member| == |l.device| == |l.wallet| == 40 && OneLine(l.name)
  {
    CanonicalFixpoint(l.member);
    CanonicalFixpoint(l.device);
    CanonicalFixpoint(l.wallet);
    forall i | 0 <= i < |l.name| ensures l.name[i] != '\n' {
      assert l.name[i] in l.name;
    }
  }

  lemma LinkTextInjective(l: DeviceLink, k: DeviceLink)
    requires NewLink(l) == Some(l) && NewLink(k) == Some(k) && LinkText(l) == LinkText(k)
    ensures l == k
  {
    CanonicalLengths(l);
    CanonicalLengths(k);
    var t1, t2 := "\nissued_at: " + Decimal(l.issuedAt), "\nissued_at: " + Decimal(k.issuedAt);
    var n1, n2 := "\nlabel: " + (l.name + t1), "\nlabel: " + (k.name + t2);
    var i1, i2 := "\nindex: " + (Decimal(l.index) + n1), "\nindex: " + (Decimal(k.index) + n2);
    var w1, w2 := "\nwallet: 0x" + (l.wallet + i1), "\nwallet: 0x" + (k.wallet + i2);
    var d1, d2 := "\ndevice: 0x" + (l.device + w1), "\ndevice: 0x" + (k.device + w2);
    Cut("Citrate DeviceLink v1", LinkFields(l), "Citrate DeviceLink v1", LinkFields(k));
    CutField("\nLink this device to my Citrate member identity.\nmember: 0x", l.member, d1, k.member, d2);
    CutField("\ndevice: 0x", l.device, w1, k.device, w2);
    CutField("\nwallet: 0x", l.wallet, i1, k.wallet, i2);
    CutField("\nindex: ", Decimal(l.index), n1, Decimal(k.index), n2);
    CutField("\nlabel: ", l.name, t1, k.name, t2);
    Cut("\nissued_at: ", Decimal(l.issuedAt), "\nissued_at: ", Decimal(k.issuedAt));
    DecimalInjective(l.index, k.index);
    DecimalInjective(l.issuedAt, k.issuedAt);
  }

  lemma RevocationTextInjective(r: DeviceRevocation, q: DeviceRevocation)
    requires NewRevocation(r) == Some(r) && NewRevocation(q) == Some(q) && RevocationText(r) == RevocationText(q)
    ensures r == q
  {
    CanonicalFixpoint(r.member);
    CanonicalFixpoint(q.member);
    CanonicalFixpoint(r.device);
    CanonicalFixpoint(q.device);
    var t1, t2 := "\nrevoked_at: " + Decimal(r.revokedAt), "\nrevoked_at: " + Decimal(q.revokedAt);
    var d1, d2 := "\ndevice: 0x" + (r.device + t1), "\ndevice: 0x" + (q.device + t2);
    Cut("Citrate DeviceRevocation v1", RevocationFields(r), "Citrate DeviceRevocation v1", RevocationFields(q));
    CutField("\nRemove this device from my Citrate member identity.\nmember: 0x", r.member, d1, q.member, d2);
    CutField("\ndevice: 0x", r.device, t1, q.device, t2);
    Cut("\nrevoked_at: ", Decimal(r.revokedAt), "\nrevoked_at: ", Decimal(q.revokedAt));
    DecimalInjective(r.revokedAt, q.revokedAt);
  }

  lemma KindsDiffer(l: DeviceLink, r: DeviceRevocation)
    ensures LinkText(l) != RevocationText(r)
  {
    var h, g := "Citrate DeviceLink v1", "Citrate DeviceRevocation v1";
    assert h[14] == 'L' && g[14] == 'R';
    assert (h + LinkFields(l))[14] == h[14] && (g + RevocationFields(r))[14] == g[14];
  }

  lemma RenderInjective(m: Message, k: Message)
    requires Canonical(m) && Canonical(k) && Render(m) == Render(k)
    ensures m == k
  {
    if m.OfLink? && k.OfLink? {
      LinkTextInjective(m.link, k.link);
    } else if m.OfRevocation? && k.OfRevocation? {
      RevocationTextInjective(m.revocation, k.revocation);
    } else if m.OfLink? {
      KindsDiffer(m.link, k.revocation);
    } else {
      KindsDiffer(k.link, m.revocation);
    }
  }
}
