/** Peer addresses and ban prefixes, canonicalised as gawk-server/moderation/moderation.go does. */
module Addresses {
  import opened Outcomes

  /** An address as bits, most significant first; NoAddr is the invalid zero value. */
  datatype Addr = NoAddr | V4(bits: seq<bool>) | V6(bits: seq<bool>, zone: string) {
    predicate Valid() {
      match this
      case NoAddr => true
      case V4(bits) => |bits| == 32
      case V6(bits, _) => |bits| == 128
    }

    predicate Is4In6() {
      V6? && |bits| == 128 && bits[..96] == MappedMarker()
    }
  }

  /** ::ffff:0:0/96, the first 96 bits of a v4-mapped address. */
  function MappedMarker(): (m: seq<bool>)
    ensures |m| == 96
  {
    seq(96, (i: nat) => i >= 80)
  }

  function BitLen(v4: bool): nat {
    if v4 then 32 else 128
  }

  /** A masked network: the bits past `len` are zero. */
  datatype Prefix = Prefix(v4: bool, addr: seq<bool>, len: nat) {
    predicate Valid() {
      && |addr| == BitLen(v4)
      && len <= |addr|
      && forall i | len <= i < |addr| :: !addr[i]
    }

    predicate Contains(bits: seq<bool>)
      requires Valid() && |bits| == |addr|
    {
      addr[..len] == bits[..len]
    }
  }

  function Mask(bits: seq<bool>, len: nat): (m: seq<bool>)
    requires len <= |bits|
    ensures |m| == |bits| && m[..len] == bits[..len]
  {
    seq(|bits|, (i: nat) requires i < |bits| => i < len && bits[i])
  }

  function WithoutZone(a: Addr): Addr {
    if a.V6? then V6(a.bits, "") else a
  }

  function Unmap(a: Addr): Addr {
    if a.Is4In6() then V4(a.bits[96..]) else a
  }

  /** CanonicalAddr: zone stripped, v4-mapped v6 collapsed to v4. */
  function CanonicalAddr(a: Addr): (c: Addr)
    requires a.Valid()
    ensures c.Valid() && !c.Is4In6() && (c.NoAddr? <==> a.NoAddr?)
    ensures Unmap(WithoutZone(c)) == c
  {
    Unmap(WithoutZone(a))
  }

  function MappedForm(bits: seq<bool>, zone: string): Addr {
    V6(MappedMarker() + bits, zone)
  }

  /** A v4-mapped address, whatever its zone, is looked up as the v4 address it carries. */
  lemma MappedIsV4(bits: seq<bool>, zone: string)
    requires |bits| == 32
    ensures CanonicalAddr(MappedForm(bits, zone)) == V4(bits)
  {
    assert (MappedMarker() + bits)[..96] == MappedMarker();
  }

  /** An IP ban value after the text has been read by the address library. */
  datatype IpText = Malformed | Bare(addr: Addr) | Cidr(addr: Addr, len: nat) {
    predicate Valid() {
      match this
      case Malformed => true
      case Bare(a) => a.Valid() && !a.NoAddr?
      case Cidr(a, len) => a.Valid() && !a.NoAddr? && len <= |a.bits|
    }
  }

  /** A mask shorter than /96 would have cleared the ::ffff: marker. */
  lemma MappedMaskIsLong(bits: seq<bool>, len: nat)
    requires |bits| == 128 && len <= 128 && V6(Mask(bits, len), "").Is4In6()
    ensures len >= 96
  {
    assert Mask(bits, len)[..96][95] == MappedMarker()[95];
  }

  /** ParsePrefix: host prefix for a bare address, otherwise the masked network, v4-mapped networks as v4. */
  function ParsePrefix(text: IpText): (r: Option<Prefix>)
    requires text.Valid()
    ensures r.None? <==> text.Malformed?
    ensures r.Some? ==> r.value.Valid()
  {
    match text
    case Malformed => None
    case Bare(a) =>
      var c := CanonicalAddr(a);
      Some(Prefix(c.V4?, c.bits, |c.bits|))
    case Cidr(a, len) =>
      var m := Mask(a.bits, len);
      if a.V4? then Some(Prefix(true, m, len))
      else if V6(m, "").Is4In6() then
        MappedMaskIsLong(a.bits, len);
        Some(Prefix(true, m[96..], len - 96))
      else Some(Prefix(false, m, len))
  }

  /** The text of a prefix, read back. */
  function Print(p: Prefix): IpText {
    Cidr(if p.v4 then V4(p.addr) else V6(p.addr, ""), p.len)
  }

  lemma MaskOfMasked(p: Prefix)
    requires p.Valid()
    ensures Mask(p.addr, p.len) == p.addr
  {}

  /** No prefix comes out v4-mapped, so a canonical prefix parses back to itself. */
  lemma ParsePrintRoundTrip(text: IpText)
    requires text.Valid() && !text.Malformed?
    ensures var p := ParsePrefix(text).value; Print(p).Valid() && ParsePrefix(Print(p)) == Some(p)
  {
    var p := ParsePrefix(text).value;
    MaskOfMasked(p);
  }

  /** A network contains exactly the peers whose canonical address starts with its bits. */
  ghost predicate Covers(p: Prefix, a: Addr)
    requires p.Valid() && a.Valid()
  {
    var c := CanonicalAddr(a);
    !c.NoAddr? && p.v4 == c.V4? && p.Contains(c.bits)
  }

  /** A host ban written for an address covers that address and its v4-mapped form. */
  lemma HostBanCovers(a: Addr, b: Addr)
    requires a.Valid() && b.Valid() && !a.NoAddr?
    ensures Covers(ParsePrefix(Bare(a)).value, b) <==> CanonicalAddr(a) == CanonicalAddr(b)
  {
    var c, d := CanonicalAddr(a), CanonicalAddr(b);
    assert c.bits[..|c.bits|] == c.bits;
    if !d.NoAddr? {
      assert d.bits[..|d.bits|] == d.bits;
      assert c.V6? ==> c.zone == "";
      assert d.V6? ==> d.zone == "";
    }
  }

  /** Eighty zeros and sixteen ones at the front. */
  predicate CarriesV4(bits: seq<bool>) {
    |bits| == 128 && forall i | 0 <= i < 96 :: bits[i] == (i >= 80)
  }

  lemma MaskedIsMapped(bits: seq<bool>, len: nat)
    requires |bits| == 128 && len <= 128
    ensures V6(Mask(bits, len), "").Is4In6() <==> len >= 96 && CarriesV4(bits)
  {
    var m := Mask(bits, len);
    if V6(m, "").Is4In6() {
      MappedMaskIsLong(bits, len);
      forall i | 0 <= i < 96 ensures bits[i] == (i >= 80) {
        assert m[..96][i] == MappedMarker()[i];
      }
    }
    if len >= 96 && CarriesV4(bits) {
      assert m[..96] == MappedMarker();
    }
  }

  /** Two addresses agree in their first len bits. */
  predicate Agree(x: seq<bool>, y: seq<bool>, len: nat) {
    len <= |x| && len <= |y| && forall i | 0 <= i < len :: x[i] == y[i]
  }

  /**
   * A network ban covers the peers of its own family that agree with it in that many bits; one written over at least 96
   * bits of a v4-mapped address covers v4 peers that agree in the rest.
   */
  lemma NetworkBanCovers(a: Addr, len: nat, b: Addr)
    requires a.Valid() && !a.NoAddr? && b.Valid() && len <= |a.bits|
    ensures var peer := CanonicalAddr(b);
            Covers(ParsePrefix(Cidr(a, len)).value, b) <==>
            if a.V4? then peer.V4? && Agree(a.bits, peer.bits, len)
            else if len >= 96 && CarriesV4(a.bits) then peer.V4? && Agree(a.bits[96..], peer.bits, len - 96)
            else peer.V6? && Agree(a.bits, peer.bits, len)
  {
    var p, peer := ParsePrefix(Cidr(a, len)).value, CanonicalAddr(b);
    if a.V6? {
      MaskedIsMapped(a.bits, len);
    }
    if !peer.NoAddr? && p.v4 == peer.V4? {
      ContainsIff(p, peer.bits);
    }
  }

  lemma ContainsIff(p: Prefix, bits: seq<bool>)
    requires p.Valid() && |bits| == |p.addr|
    ensures p.Contains(bits) <==> Agree(p.addr, bits, p.len)
  {
    forall i | 0 <= i < p.len ensures p.addr[..p.len][i] == p.addr[i] && bits[..p.len][i] == bits[i] {}
    if Agree(p.addr, bits, p.len) {
      assert p.addr[..p.len] == bits[..p.len];
    }
  }
}
