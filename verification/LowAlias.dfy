/** Guest addresses and the host addresses their bytes live at: three lanes, one
    translation of two operations. */
module LowAlias {
  import opened Bits

  const LOW_LIMIT := 0x2_0000_0000
  const ALIAS_BASE := 0x78_0000_0000
  const ALIAS_END := ALIAS_BASE + LOW_LIMIT
  const HIGH_BASE := ALIAS_END
  const HIGH_END := 0x7F_8000_0000
  const TOP_BASE := 0x7FFF_8000_0000
  const TOP_END := 0x7FFF_FFFF_0000
  const TOP_CLEAR_MASK := 0x7F80_0000_0000
  /** The arena's base with the mask cleared. */
  const TOP_HOST_BASE := TOP_BASE - TOP_CLEAR_MASK
  const TOP_HOST_END := TOP_HOST_BASE + (TOP_END - TOP_BASE)

  function GuestToHost(guest: Uint64): nat {
    And(Or(guest, ALIAS_BASE), UINT64_MAX - TOP_CLEAR_MASK)
  }

  predicate TopArenaHost(host: Uint64) {
    TOP_HOST_BASE <= host < TOP_HOST_END
  }

  function HostToGuest(host: Uint64): nat {
    if ALIAS_BASE <= host < ALIAS_END then host - ALIAS_BASE
    else if TopArenaHost(host) then Or(host, TOP_CLEAR_MASK)
    else host
  }

  predicate RangeHostable(address: Uint64, length: Uint64) {
    if length == 0 || address > UINT64_MAX - length then false
    else
      var end := address + length;
      if end <= LOW_LIMIT then true
      else if address >= HIGH_BASE && end <= HIGH_END then true
      else address >= TOP_BASE && end <= TOP_END
  }

  predicate Hostable(address: Uint64) {
    RangeHostable(address, 1)
  }

  // ----- The two operations, lane by lane -----

  lemma {:induction false} Powers()
    ensures Pow2(35) == 0x8_0000_0000 && Pow2(39) == 0x80_0000_0000
  {
    assert Pow2(8) == 0x100;
    PowAdds(8, 8);
    PowAdds(16, 16);
    PowAdds(3, 32);
    PowAdds(7, 32);
  }

  /** OR with the base adds it below the low limit and changes nothing where all
      of its bits are set. */
  lemma {:induction false} OrBase(g: Uint64)
    requires Hostable(g)
    ensures Or(g, ALIAS_BASE) == if g < LOW_LIMIT then g + ALIAS_BASE else g
  {
    Powers();
    OrIsSum(g, ALIAS_BASE);
    var x := if g < LOW_LIMIT then 0 else if g < HIGH_END then 15 else 0xFFF;
    var a := g - x * Pow2(35);
    AndSplits(x, a, 15, 0, 35);
    assert x * Pow2(35) + a == g && 15 * Pow2(35) == ALIAS_BASE;
    assert And(15, 15) == 15 && And(0xFFF, 15) == 15 && And(0, 15) == 0;
  }

  /** Clearing the mask keeps the bits below it and drops eight bits at it. */
  lemma {:induction false} ClearMask(x: nat, h: nat)
    requires x < 0x100 && h < 0x80_0000_0000
    ensures And(x * 0x80_0000_0000 + h, UINT64_MAX - TOP_CLEAR_MASK) == h
  {
    Powers();
    AndSplits(x, h, 0x1FF_FF00, 0x7F_FFFF_FFFF, 39);
    AndAllOnes(h, 39);
    MaskAbsent(x);
  }

  lemma {:induction false} MaskAbsent(x: nat)
    requires x < 0x100
    ensures And(x, 0x1FF_FF00) == 0
  {
    assert Pow2(8) == 0x100;
    AndSplits(0, x, 0x1_FFFF, 0, 8);
  }

  lemma {:induction false} HostIs(g: Uint64)
    requires Hostable(g)
    ensures GuestToHost(g) ==
      if g < LOW_LIMIT then g + ALIAS_BASE else if g < HIGH_END then g else g - TOP_CLEAR_MASK
  {
    Powers();
    OrBase(g);
    if g < HIGH_END {
      ClearMask(0, Or(g, ALIAS_BASE));
    } else {
      ClearMask(0xFF, g - TOP_CLEAR_MASK);
    }
  }

  lemma {:induction false} SetMask(host: Uint64)
    requires TopArenaHost(host)
    ensures Or(host, TOP_CLEAR_MASK) == host + TOP_CLEAR_MASK
  {
    Powers();
    OrIsSum(host, TOP_CLEAR_MASK);
    AndSplits(0, host, 0xFF, 0, 39);
  }

  // ----- What the translation is for -----

  /** Going to the host and back returns the same guest address. */
  lemma {:induction false} RoundTrip(g: Uint64)
    requires Hostable(g)
    ensures ALIAS_BASE <= GuestToHost(g) < TOP_HOST_END
    ensures HostToGuest(GuestToHost(g)) == g
  {
    HostIs(g);
    if TOP_BASE <= g { SetMask(GuestToHost(g)); }
  }

  /** No two hostable addresses share a host byte. */
  lemma {:induction false} Injective(g: Uint64, h: Uint64)
    requires Hostable(g) && Hostable(h) && GuestToHost(g) == GuestToHost(h)
    ensures g == h
  {
    RoundTrip(g);
    RoundTrip(h);
  }

  /** The lanes fill the host block from the alias base to the end of the arena's
      image, leaving no host byte unused. */
  lemma {:induction false} Onto(host: Uint64)
    requires ALIAS_BASE <= host < TOP_HOST_END
    ensures HostToGuest(host) <= UINT64_MAX
    ensures Hostable(HostToGuest(host)) && GuestToHost(HostToGuest(host)) == host
  {
    if TopArenaHost(host) { SetMask(host); }
    HostIs(HostToGuest(host));
  }

  /** A hostable range lands on one host range, byte after byte. */
  lemma {:induction false} Contiguous(address: Uint64, length: Uint64, k: nat)
    requires RangeHostable(address, length) && k < length
    ensures Hostable(address + k)
    ensures GuestToHost(address + k) == GuestToHost(address) + k
  {
    HostIs(address);
    HostIs(address + k);
  }

  /** What the way back does to any host address: one window is moved down to zero, one up
      to the arena, and everything else is left alone. */
  lemma {:induction false} GuestIs(host: Uint64)
    ensures HostToGuest(host) ==
      if 0x78_0000_0000 <= host < 0x7A_0000_0000 then host - 0x78_0000_0000
      else if 0x7F_8000_0000 <= host < 0x7F_FFFF_0000 then host + 0x7F80_0000_0000
      else host
  {
    if TopArenaHost(host) { SetMask(host); }
  }

  /** A range is hostable exactly when it is not empty and lies in one of three windows. */
  lemma {:induction false} RangeExactly(address: Uint64, length: Uint64)
    ensures RangeHostable(address, length) <==>
      0 < length && (address + length <= 0x2_0000_0000
        || (0x7A_0000_0000 <= address && address + length <= 0x7F_8000_0000)
        || (0x7FFF_8000_0000 <= address && address + length <= 0x7FFF_FFFF_0000))
  {
  }

  predicate HostableAt(address: Uint64, k: nat) {
    address + k <= UINT64_MAX && Hostable(address + k)
  }

  /** A range is hostable exactly when each of its bytes is: the lanes never
      touch, so no range of hostable bytes straddles two. */
  lemma {:induction false} HostableBytes(address: Uint64, length: Uint64)
    requires 0 < length
    ensures RangeHostable(address, length) <==> forall k :: 0 <= k < length ==> HostableAt(address, k)
  {
    if !RangeHostable(address, length) {
      var limit := if address < LOW_LIMIT then LOW_LIMIT else if address < HIGH_END then HIGH_END else TOP_END;
      var k := if HostableAt(address, 0) then limit - address else 0;
      assert k < length && !HostableAt(address, k);
    }
  }
}
