/** Device links and revocations one at a time (`cluster-core/src/device.rs`): validated bodies, the
    text a signer signs, and what it takes for one signed item to be accepted. */
module Links {
  import opened Wrappers
  import opened Addresses

  const MAX_DEVICE_INDEX: nat := 1023

  type U32 = n: nat | n < 0x1_0000_0000
  type U64 = n: nat | n < 0x1_0000_0000_0000_0000

  /** `name` is the source's `label`. */
  datatype DeviceLink = DeviceLink(member: string, device: string, wallet: string, index: U32, name: string, issuedAt: U64)

  datatype SignedDeviceLink = SignedDeviceLink(link: DeviceLink, memberSig: string, deviceSig: string, walletSig: string)

  datatype DeviceRevocation = DeviceRevocation(member: string, device: string, revokedAt: U64)

  datatype SignedRevocation = SignedRevocation(revocation: DeviceRevocation, memberSig: string)

  datatype LinkRejection =
    | Malformed(device: string)
    | BadSignature(device: string, which: string)
    | Conflict(device: string)
    | Revoked(device: string)
    | BadRevocation(device: string)
    | TooMany

  /** What a signature is made over: a canonical body, of one of the two kinds. */
  datatype Message = OfLink(link: DeviceLink) | OfRevocation(revocation: DeviceRevocation)

  /** The injected `LinkVerifier::recover`: the address that signed the message, if the signature
      recovers. The source's verifier sees only the message's text; `OnText` is that special case, and
      `Render` loses nothing (`RenderInjective`), so every result below covers it. */
  type Verifier = (Message, string) -> Option<string>

  function OnText(recover: (string, string) -> Option<string>): Verifier {
    (m: Message, sig: string) => recover(Render(m), sig)
  }

  // ---- bodies and the text they sign ----

  /** `DeviceLink::new`, run on a received body. */
  function NewLink(b: DeviceLink): Option<DeviceLink> {
    match (CanonicalAddress(b.member), CanonicalAddress(b.device), CanonicalAddress(b.wallet))
    case (Some(m), Some(d), Some(w)) =>
      if d == m || d == w then None
      else if b.index > MAX_DEVICE_INDEX || !LabelIsValid(b.name) then None
      else Some(DeviceLink(m, d, w, b.index, b.name, b.issuedAt))
    case _ => None
  }

  /** `DeviceRevocation::new`. */
  function NewRevocation(b: DeviceRevocation): Option<DeviceRevocation> {
    match (CanonicalAddress(b.member), CanonicalAddress(b.device))
    case (Some(m), Some(d)) => Some(DeviceRevocation(m, d, b.revokedAt))
    case _ => None
  }

  function Decimal(n: nat): (r: string)
    ensures r != "" && forall i :: 0 <= i < |r| ==> '0' <= r[i] <= '9'
  {
    var digit := ('0' as int + n % 10) as char;
    if n < 10 then [digit] else Decimal(n / 10) + [digit]
  }

  function LinkText(l: DeviceLink): string {
    "Citrate DeviceLink v1" + LinkFields(l)
  }

  function LinkFields(l: DeviceLink): string {
    "\nLink this device to my Citrate member identity.\nmember: 0x" + (l.member
    + ("\ndevice: 0x" + (l.device + ("\nwallet: 0x" + (l.wallet + ("\nindex: " + (Decimal(l.index)
    + ("\nlabel: " + (l.name + ("\nissued_at: " + Decimal(l.issuedAt)))))))))))
  }

  function RevocationText(r: DeviceRevocation): string {
    "Citrate DeviceRevocation v1" + RevocationFields(r)
  }

  function RevocationFields(r: DeviceRevocation): string {
    "\nRemove this device from my Citrate member identity.\nmember: 0x" + (r.member
    + ("\ndevice: 0x" + (r.device + ("\nrevoked_at: " + Decimal(r.revokedAt)))))
  }

  /** `signing_message` of either kind. */
  function Render(m: Message): string {
    match m
    case OfLink(l) => LinkText(l)
    case OfRevocation(r) => RevocationText(r)
  }

  // ---- verification of one item ----

  datatype Outcome<+E> = Pass | Fail(error: E)

  /** `verify_link`: the body first, then the member, device and wallet signatures in that order. */
  function VerifyLink(s: SignedDeviceLink, recover: Verifier): Outcome<LinkRejection> {
    match NewLink(s.link)
    case None => Fail(Malformed(s.link.device))
    case Some(c) =>
      var msg := OfLink(c);
      if recover(msg, s.memberSig) != Some(c.member) then Fail(BadSignature(c.device, "member"))
      else if recover(msg, s.deviceSig) != Some(c.device) then Fail(BadSignature(c.device, "device"))
      else if recover(msg, s.walletSig) != Some(c.wallet) then Fail(BadSignature(c.device, "wallet"))
      else Pass
  }

  /** `l` is what a submitted body stands for: its three addresses in canonical form, the device different from
      the member and the wallet, and the rest as submitted and within the limits. */
  predicate Canonicalises(b: DeviceLink, l: DeviceLink) {
    && CanonicalAddress(b.member) == Some(l.member) && CanonicalAddress(b.device) == Some(l.device)
    && CanonicalAddress(b.wallet) == Some(l.wallet)
    && l.device != l.member && l.device != l.wallet
    && l.index == b.index <= MAX_DEVICE_INDEX && l.name == b.name && LabelIsValid(b.name) && l.issuedAt == b.issuedAt
  }

  /** `l` is the canonical body of `s`, and all three keys it names signed exactly that body. */
  predicate Attests(s: SignedDeviceLink, l: DeviceLink, recover: Verifier) {
    && Canonicalises(s.link, l)
    && recover(OfLink(l), s.memberSig) == Some(l.member)
    && recover(OfLink(l), s.deviceSig) == Some(l.device)
    && recover(OfLink(l), s.walletSig) == Some(l.wallet)
  }

  /** `r` retires the pair `p` of member and device: it names them, and the member it names signed exactly
      that. */
  predicate Revokes(r: SignedRevocation, p: (string, string), recover: Verifier) {
    && CanonicalAddress(r.revocation.member) == Some(p.0) && CanonicalAddress(r.revocation.device) == Some(p.1)
    && recover(OfRevocation(DeviceRevocation(p.0, p.1, r.revocation.revokedAt)), r.memberSig) == Some(p.0)
  }

  /** The (member, device) pair a revocation retires, if the member itself signed it. */
  function AcceptedPair(r: SignedRevocation, recover: Verifier): Option<(string, string)> {
    match NewRevocation(r.revocation)
    case None => None
    case Some(c) =>
      if recover(OfRevocation(c), r.memberSig) == Some(c.member) then Some((c.member, c.device)) else None
  }

  /** The reason reported for a revocation that is not accepted. */
  function RevocationRefusal(r: SignedRevocation): LinkRejection {
    match NewRevocation(r.revocation)
    case None => BadRevocation(r.revocation.device)
    case Some(c) => BadRevocation(c.device)
  }
}
