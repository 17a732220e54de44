/** Addresses, roles, labels and content ids as strings (`cluster-core/src/lib.rs`, `device.rs`).
    Rust `str` is modelled as `seq<char>`; every length the source measures in bytes is measured here
    on text the same test also forces to be ASCII, where the two lengths agree. */
module Addresses {
  import opened Wrappers

  /** Unicode `White_Space`, what `str::trim` strips. */
  predicate IsSpace(c: char) {
    var n := c as int;
    || 0x09 <= n <= 0x0D || n == 0x20 || n == 0x85 || n == 0xA0 || n == 0x1680
    || 0x2000 <= n <= 0x200A || n == 0x2028 || n == 0x2029 || n == 0x202F || n == 0x205F || n == 0x3000
  }

  function TrimStart(s: string): string {
    if s != "" && IsSpace(s[0]) then TrimStart(s[1..]) else s
  }

  function TrimEnd(s: string): string {
    if s != "" && IsSpace(s[|s| - 1]) then TrimEnd(s[..|s| - 1]) else s
  }

  function Trim(s: string): string { TrimEnd(TrimStart(s)) }

  /** `trim_start_matches("0x")`: every leading repetition goes. */
  function StripHexPrefix(s: string): string {
    if |s| >= 2 && s[..2] == "0x" then StripHexPrefix(s[2..]) else s
  }

  function LowerChar(c: char): char {
    if 'A' <= c <= 'Z' then ((c as int) + 32) as char else c
  }

  function Lower(s: string): (r: string)
    ensures |r| == |s|
    ensures forall i :: 0 <= i < |s| ==> r[i] == LowerChar(s[i])
  {
    seq(|s|, i requires 0 <= i < |s| => LowerChar(s[i]))
  }

  predicate IsHexDigit(c: char) {
    '0' <= c <= '9' || 'a' <= c <= 'f' || 'A' <= c <= 'F'
  }

  /** `canonical_address`: trimmed, `0x` stripped, lowercased, exactly 40 hex digits. */
  function CanonicalAddress(raw: string): Option<string> {
    var h := Lower(StripHexPrefix(Trim(raw)));
    if |h| == 40 && forall i :: 0 <= i < |h| ==> IsHexDigit(h[i]) then Some(h) else None
  }

  /** What a canonical address looks like, independent of how it was obtained. */
  predicate IsCanonical(a: string) {
    |a| == 40 && forall i :: 0 <= i < 40 ==> '0' <= a[i] <= '9' || 'a' <= a[i] <= 'f'
  }

  /** Canonicalising lands exactly on the canonical addresses and moves none of them, so an address
      that crosses several layers (link, registry, roster, allowed set, transport) keeps its name. */
  lemma CanonicalFixpoint(raw: string)
    ensures CanonicalAddress(raw).Some? ==> IsCanonical(CanonicalAddress(raw).value)
    ensures IsCanonical(raw) <==> CanonicalAddress(raw) == Some(raw)
  {
    if IsCanonical(raw) {
      assert TrimStart(raw) == raw && TrimEnd(raw) == raw;
      assert raw[1] != 'x';
      assert StripHexPrefix(raw) == raw;
      assert Lower(raw) == raw;
    }
    var h := Lower(StripHexPrefix(Trim(raw)));
    if CanonicalAddress(raw).Some? {
      forall i | 0 <= i < 40 ensures '0' <= h[i] <= '9' || 'a' <= h[i] <= 'f' {
        assert IsHexDigit(h[i]);
        assert h[i] == LowerChar(StripHexPrefix(Trim(raw))[i]);
      }
    }
  }

  const MIN_CLUSTER_RANK: nat := 2

  function RoleRank(role: string): nat {
    if role == "owner" then 5
    else if role == "admin" then 4
    else if role == "partner" then 3
    else if role == "member" then 2
    else if role == "agent" then 1
    else 0
  }

  const MAX_LABEL_LEN: nat := 48

  predicate IsLabelChar(c: char) {
    '0' <= c <= '9' || 'a' <= c <= 'z' || 'A' <= c <= 'Z' || c in {' ', '.', '_', '-', '\''}
  }

  predicate LabelIsValid(text: string) {
    text != "" && |text| <= MAX_LABEL_LEN && Trim(text) == text && forall c :: c in text ==> IsLabelChar(c)
  }

  const MAX_CID_LEN: nat := 128

  predicate IsBase58(c: char) {
    ('1' <= c <= '9' || 'A' <= c <= 'Z' || 'a' <= c <= 'z') && c !in {'I', 'O', 'l'}
  }

  /** `is_valid_cid`. */
  predicate IsValidCid(s: string) {
    if |s| == 46 && s[..2] == "Qm" then forall c :: c in s[2..] ==> IsBase58(c)
    else
      && 8 <= |s| <= MAX_CID_LEN && s[0] == 'b'
      && (forall c :: c in s[1..] ==> 'a' <= c <= 'z' || '2' <= c <= '7')
      && s[1] == 'a' && 'e' <= s[2] <= 'h'
  }
}
