/** The 1-Wire bus and the driver that searches it (components/protocols/onewire/onewire.cpp). */
module OneWire {
  import opened RomSearch
  import opened Words

  const SEARCH_ROM: bv8 := 0xF0

  // ----- the ids as the driver stores them: 8 bytes, bit 0 of byte 0 first -----

  type Rom = s: seq<bv8> | |s| == 8 witness [0, 0, 0, 0, 0, 0, 0, 0]

  function Bits(rom: Rom): Id {
    seq(64, i requires 0 <= i < 64 => BitOf(rom[i / 8], i % 8))
  }

  lemma StoresBit(rom: Rom, n: nat, b: bv8, v: bool)
    requires n < 64
    requires b == if v then rom[n / 8] | Mask(n % 8) else rom[n / 8] & !Mask(n % 8)
    ensures Bits(rom[n / 8 := b]) == Bits(rom)[n := v]
  {
    forall j | 0 <= j < 8 ensures BitOf(b, j) == if j == n % 8 then v else BitOf(rom[n / 8], j) {
      SetsAndClears(rom[n / 8], n % 8, j);
    }
    ReplacesByte(rom, n, b, v);
  }

  lemma ReplacesByte(rom: Rom, n: nat, b: bv8, v: bool)
    requires n < 64
    requires forall j :: 0 <= j < 8 ==> BitOf(b, j) == if j == n % 8 then v else BitOf(rom[n / 8], j)
    ensures Bits(rom[n / 8 := b]) == Bits(rom)[n := v]
  {
    var after := Bits(rom[n / 8 := b]);
    forall i | 0 <= i < 64 ensures after[i] == Bits(rom)[n := v][i] {
      if i / 8 == n / 8 {
        assert BitOf(b, i % 8) == if i % 8 == n % 8 then v else BitOf(rom[n / 8], i % 8);
      }
    }
  }

  lemma FamilyByte(rom: Rom)
    ensures rom[0] == 0 <==> FamilyZero(Bits(rom))
    ensures Bits(rom)[..8] == ByteBits(rom[0])
  {
    ZeroByte(rom[0]);
    assert forall k :: 0 <= k < 8 ==> Bits(rom)[k] == BitOf(rom[0], k);
  }

  /** Shifts the mask one place up and goes on with the next byte when it falls out. */
  method NextPosition(romByteNumber: nat, romByteMask: bv8, ghost n: nat)
    returns (byteNumber: nat, byteMask: bv8)
    requires romByteNumber == n / 8 && romByteMask == Mask(n % 8)
    ensures byteNumber == (n + 1) / 8 && byteMask == Mask((n + 1) % 8)
  {
    byteNumber, byteMask := romByteNumber, romByteMask << 1;
    if byteMask == 0 {
      byteNumber, byteMask := byteNumber + 1, 1;
    }
  }

  // ----- the bus -----

  /** The wire and the devices on it.  In a search every device still taking part sends its bit in
      one read slot and the complement in the next; the wire carries the AND.  The write slot that
      follows silences every device whose bit differs from the one written. */
  class Bus {
    const devices: set<Id>
    var selected: set<Id>
    var slot: nat
    var complementNext: bool

    constructor (devices: set<Id>)
      ensures this.devices == devices
    {
      this.devices := devices;
      selected, slot, complementNext := {}, 0, false;
    }

    /** Presence pulse: somebody answers exactly when there is somebody. */
    method Reset() returns (presence: bool)
      modifies this
      ensures presence <==> devices != {}
      ensures selected == {}
    {
      selected := {};
      presence := devices != {};
    }

    method Write(command: bv8)
      modifies this
      ensures command == SEARCH_ROM ==> selected == devices && slot == 0 && !complementNext
      ensures command != SEARCH_ROM ==> selected == {}
    {
      selected := if command == SEARCH_ROM then devices else {};
      slot, complementNext := 0, false;
    }

    method ReadBit() returns (level: bool)
      requires slot < 64
      modifies `complementNext
      ensures complementNext == !old(complementNext)
      ensures level <==> AllSend(selected, slot, !old(complementNext))
    {
      level := forall d :: d in selected ==> d[slot] == !complementNext;
      complementNext := !complementNext;
    }

    method WriteBit(v: bool)
      requires slot < 64
      modifies this
      ensures selected == set d | d in old(selected) && d[old(slot)] == v
      ensures slot == old(slot) + 1 && !complementNext
    {
      selected := set d | d in selected && d[slot] == v;
      slot, complementNext := slot + 1, false;
    }
  }

  /** The devices that agree with the first n bits of r. */
  ghost function Following(devices: set<Id>, r: Id, n: nat): set<Id>
    requires n <= 64
  {
    set d | d in devices && r[..n] <= d
  }

  ghost predicate AllSend(ds: set<Id>, n: nat, b: bool)
    requires n < 64
  {
    forall d :: d in ds ==> d[n] == b
  }

  /** What the two read slots say about the devices still taking part. */
  lemma ReadsTell(devices: set<Id>, r: Id, n: nat, idBit: bool, cmpIdBit: bool)
    requires r in devices && n < 64
    requires idBit <==> AllSend(Following(devices, r, n), n, true)
    requires cmpIdBit <==> AllSend(Following(devices, r, n), n, false)
    ensures !(idBit && cmpIdBit)
    ensures idBit != cmpIdBit ==> idBit == r[n] && !Fork(devices, r[..n])
    ensures idBit == cmpIdBit ==> Fork(devices, r[..n])
  {
    assert r in Following(devices, r, n);
    forall b | HasBranch(devices, r[..n], b)
      ensures exists d :: d in Following(devices, r, n) && d[n] == b
    {
      var d :| d in devices && r[..n] + [b] <= d;
      assert d in Following(devices, r, n) && d[n] == b;
    }
    forall d | d in Following(devices, r, n) ensures HasBranch(devices, r[..n], d[n]) {
      assert r[..n] + [d[n]] <= d;
    }
  }

  lemma NarrowsTo(devices: set<Id>, r: Id, n: nat)
    requires n < 64
    ensures (set d | d in Following(devices, r, n) && d[n] == r[n]) == Following(devices, r, n + 1)
  {
    assert r[..n + 1] == r[..n] + [r[n]];
  }

  function OrElse(z: nat, otherwise: nat): nat {
    if z == 0 then otherwise else z
  }

  lemma StartsWalking(devices: set<Id>, s: State)
    requires devices != {}
    ensures Descend(devices, s.rom, s.lastDiscrepancy, []) in devices
    ensures forall r: Id :: Following(devices, r, 0) == devices && r[..0] + s.rom[0..] == s.rom
  {
    var d :| d in devices;
    assert [] <= d;
    DescendFinds(devices, s.rom, s.lastDiscrepancy, []);
  }

  // ----- the driver -----

  class Driver {
    const bus: Bus
    const romNo: array<bv8>
    var lastDiscrepancy: nat
    var lastFamilyDiscrepancy: nat
    var lastDeviceFlag: bool

    ghost predicate Valid()
      reads this
    {
      romNo.Length == 8 && lastDiscrepancy <= 64 && lastFamilyDiscrepancy <= 8
    }

    ghost function Remembered(): State
      requires Valid()
      reads this, romNo
    {
      State(Bits(romNo[..]), lastDiscrepancy, lastDeviceFlag)
    }

    constructor (bus: Bus)
      ensures Valid() && this.bus == bus && fresh(romNo)
      ensures Remembered() == RESET_STATE
    {
      this.bus := bus;
      romNo := new bv8[8];
      lastDiscrepancy, lastFamilyDiscrepancy, lastDeviceFlag := 0, 0, false;
      new;
      ResetSearch();
    }

    method ResetSearch()
      requires Valid()
      modifies this, romNo
      ensures Valid() && Remembered() == RESET_STATE && lastFamilyDiscrepancy == 0
    {
      lastDiscrepancy, lastDeviceFlag, lastFamilyDiscrepancy := 0, false, 0;
      var i := 7;
      while true
        invariant 0 <= i < 8
        invariant forall k :: i < k < 8 ==> romNo[k] == 0
        invariant lastDiscrepancy == 0 && !lastDeviceFlag && lastFamilyDiscrepancy == 0
        decreases i
      {
        romNo[i] := 0;
        if i == 0 {
          break;
        }
        i := i - 1;
      }
      assert Bits(romNo[..]) == ZERO_ID;
    }

    method TargetSearch(familyCode: bv8)
      requires Valid()
      modifies this, romNo
      ensures Valid() && Remembered() == TargetState(ByteBits(familyCode))
    {
      romNo[0] := familyCode;
      for i := 1 to 8
        invariant romNo[0] == familyCode
        invariant forall k :: 1 <= k < i ==> romNo[k] == 0
      {
        romNo[i] := 0;
      }
      lastDiscrepancy, lastFamilyDiscrepancy, lastDeviceFlag := 64, 0, false;
      assert Bits(romNo[..]) == TargetState(ByteBits(familyCode)).rom by {
        FamilyByte(romNo[..]);
        assert forall i :: 8 <= i < 64 ==> romNo[i / 8] == 0;
      }
    }

    method LoadBit(romByteNumber: nat, romByteMask: bv8, ghost n: nat) returns (v: bool)
      requires Valid() && n < 64 && romByteNumber == n / 8 && romByteMask == Mask(n % 8)
      ensures v == Bits(romNo[..])[n]
    {
      v := romNo[romByteNumber] & romByteMask > 0;
      assert v == BitOf(romNo[n / 8], n % 8);
    }

    method StoreBit(romByteNumber: nat, romByteMask: bv8, v: bool, ghost n: nat)
      requires Valid() && n < 64 && romByteNumber == n / 8 && romByteMask == Mask(n % 8)
      modifies romNo
      ensures Bits(romNo[..]) == old(Bits(romNo[..]))[n := v]
    {
      var b := romNo[romByteNumber];
      if v {
        b := b | romByteMask;
      } else {
        b := b & !romByteMask;
      }
      StoresBit(romNo[..], n, b, v);
      ghost var rom := romNo[..];
      romNo[romByteNumber] := b;
      assert romNo[..] == rom[n / 8 := b];
    }

    method CopyRom(newAddr: array<bv8>)
      requires Valid() && newAddr.Length >= 8 && newAddr != romNo
      modifies newAddr
      ensures newAddr[..8] == romNo[..]
    {
      for i := 0 to 8
        invariant newAddr[..i] == romNo[..i]
      {
        newAddr[i] := romNo[i];
      }
      assert romNo[..8] == romNo[..];
    }

    /** In the middle of a search for r, started in state s: the first n bits are settled. */
    ghost predicate Walking(s: State, r: Id, n: nat)
      requires n <= 64
      reads this, romNo, bus
    {
      && Valid()
      && r in bus.devices
      && Bits(romNo[..]) == r[..n] + s.rom[n..]
      && bus.slot == n && !bus.complementNext
      && bus.selected == Following(bus.devices, r, n)
      && lastDiscrepancy == s.lastDiscrepancy && !lastDeviceFlag
    }

    /** The choice of a direction where both kinds of devices answered (onewire.cpp:251-271). */
    method Choose(idBitNumber: nat, romByteNumber: nat, romByteMask: bv8, zeroSoFar: nat, ghost n: nat)
      returns (searchDirection: bool, lastZero: nat)
      requires Valid() && n < 64 && idBitNumber == n + 1
      requires romByteNumber == n / 8 && romByteMask == Mask(n % 8)
      modifies `lastFamilyDiscrepancy
      ensures searchDirection == if idBitNumber < lastDiscrepancy then Bits(romNo[..])[n]
                                 else idBitNumber == lastDiscrepancy
      ensures lastZero == if !searchDirection then idBitNumber else zeroSoFar
      ensures lastFamilyDiscrepancy == if !searchDirection && idBitNumber < 9 then idBitNumber
                                       else old(lastFamilyDiscrepancy)
    {
      lastZero := zeroSoFar;
      if idBitNumber < lastDiscrepancy {
        searchDirection := LoadBit(romByteNumber, romByteMask, n);
      } else {
        searchDirection := idBitNumber == lastDiscrepancy;
      }
      if !searchDirection {
        lastZero := idBitNumber;
        if lastZero < 9 {
          lastFamilyDiscrepancy := lastZero;
        }
      }
    }

    /** One round of the search loop: two reads, the choice, one write (onewire.cpp:239-277).
        `answered` is false when nobody pulled the wire down in either read slot. */
    method SearchBit(idBitNumber: nat, romByteNumber: nat, romByteMask: bv8, zeroSoFar: nat,
                     ghost s: State, ghost r: Id)
      returns (answered: bool, lastZero: nat)
      requires 1 <= idBitNumber <= 64 && Walking(s, r, idBitNumber - 1)
      requires r[idBitNumber - 1] == Direction(bus.devices, s.rom, s.lastDiscrepancy, r[..idBitNumber - 1])
      requires romByteNumber == (idBitNumber - 1) / 8 && romByteMask == Mask((idBitNumber - 1) % 8)
      modifies `lastFamilyDiscrepancy, romNo, bus
      ensures answered && Walking(s, r, idBitNumber)
      ensures var zero := !r[idBitNumber - 1] && Fork(bus.devices, r[..idBitNumber - 1]);
              && lastZero == (if zero then idBitNumber else zeroSoFar)
              && lastFamilyDiscrepancy == (if zero && idBitNumber < 9 then idBitNumber
                                           else old(lastFamilyDiscrepancy))
    {
      ghost var n := idBitNumber - 1;
      lastZero := zeroSoFar;
      var idBit := bus.ReadBit();
      var cmpIdBit := bus.ReadBit();
      ReadsTell(bus.devices, r, n, idBit, cmpIdBit);
      if idBit && cmpIdBit {
        return false, lastZero;
      }
      var searchDirection := idBit;
      if idBit == cmpIdBit {
        searchDirection, lastZero := Choose(idBitNumber, romByteNumber, romByteMask, zeroSoFar, n);
      }
      StoreBit(romByteNumber, romByteMask, searchDirection, n);
      bus.WriteBit(searchDirection);
      NarrowsTo(bus.devices, r, n);
      return true, lastZero;
    }

    /** The search loop (onewire.cpp:217-290). */
    method Walk(ghost s: State, ghost r: Id) returns (idBitNumber: nat, lastZero: nat)
      requires Walking(s, r, 0) && r == Descend(bus.devices, s.rom, s.lastDiscrepancy, [])
      modifies `lastFamilyDiscrepancy, romNo, bus
      ensures idBitNumber == 65 && Valid() && Bits(romNo[..]) == r
      ensures lastDiscrepancy == s.lastDiscrepancy && !lastDeviceFlag
      ensures lastZero == LastZero(bus.devices, r, 64)
      ensures lastFamilyDiscrepancy == OrElse(LastZero(bus.devices, r, 8), old(lastFamilyDiscrepancy))
    {
      var romByteNumber := 0;
      var romByteMask: bv8 := 1;
      var answered;
      idBitNumber, lastZero := 1, 0;
      while romByteNumber < 8
        invariant 1 <= idBitNumber <= 65 && romByteNumber == (idBitNumber - 1) / 8
        invariant romByteMask == Mask((idBitNumber - 1) % 8)
        invariant Walking(s, r, idBitNumber - 1)
        invariant lastZero == LastZero(bus.devices, r, idBitNumber - 1)
        invariant var n := if idBitNumber <= 9 then idBitNumber - 1 else 8;
                  lastFamilyDiscrepancy == OrElse(LastZero(bus.devices, r, n), old(lastFamilyDiscrepancy))
        decreases 65 - idBitNumber
      {
        DescendStep(bus.devices, s.rom, s.lastDiscrepancy, [], idBitNumber - 1);
        answered, lastZero := SearchBit(idBitNumber, romByteNumber, romByteMask, lastZero, s, r);
        if !answered {
          break;
        }
        romByteNumber, romByteMask := NextPosition(romByteNumber, romByteMask, idBitNumber - 1);
        idBitNumber := idBitNumber + 1;
      }
      assert r[..64] + s.rom[64..] == r;
    }

    /** One search call returns what RomSearch.Search says and keeps what it says. */
    method Search(newAddr: array<bv8>) returns (found: bool)
      requires Valid() && newAddr.Length >= 8 && newAddr != romNo
      modifies this, romNo, bus, newAddr
      ensures Valid()
      ensures RomSearch.Search(bus.devices, old(Remembered())) == Outcome(Remembered(), found)
      ensures old(lastDeviceFlag) || bus.devices != {} ==> newAddr[..8] == romNo[..]
      ensures found ==> Bits(newAddr[..8]) == Remembered().rom
      ensures !found ==> lastFamilyDiscrepancy == 0
      ensures found ==> lastFamilyDiscrepancy == OrElse(LastZero(bus.devices, Remembered().rom, 8),
                                                        old(lastFamilyDiscrepancy))
    {
      var idBitNumber, lastZero := 1, 0;
      var searchResult := false;

      if !lastDeviceFlag {
        var presence := bus.Reset();
        if !presence {
          lastDiscrepancy, lastDeviceFlag, lastFamilyDiscrepancy := 0, false, 0;
          return false;
        }
        bus.Write(SEARCH_ROM);
        ghost var s := Remembered();
        ghost var r := Descend(bus.devices, s.rom, s.lastDiscrepancy, []);
        StartsWalking(bus.devices, s);
        idBitNumber, lastZero := Walk(s, r);
        if !(idBitNumber < 65) {
          lastDiscrepancy := lastZero;
          if lastDiscrepancy == 0 {
            lastDeviceFlag := true;
          }
          searchResult := true;
        }
      }
      FamilyByte(romNo[..]);
      if !searchResult || romNo[0] == 0 {
        lastDiscrepancy, lastDeviceFlag, lastFamilyDiscrepancy := 0, false, 0;
        searchResult := false;
      }
      CopyRom(newAddr);
      return searchResult;
    }
  }
}
