/** The configuration store of a node as it runs: loops over EEPROM bytes and over the list of modules. */
module EEConf {
  import opened Crc16
  import opened ConfigLayout

  datatype Handed = RainCheck | Given(block: seq<bv8>)

  /** What each module is given at start-up: its block if the store checks, otherwise nothing. */
  function HandedOut(img: seq<bv8>, mods: seq<Module>): seq<Handed>
    requires Fits(img, mods)
  {
    SizeFits(img, mods);
    seq(|mods|, i requires 0 <= i < |mods| =>
      if Checks(img, StoreSize(mods)) then Given(Block(img, mods, i)) else RainCheck)
  }

  class Store {
    const eeprom: array<bv8>
    var configs: seq<Module>
    var configCnt: nat
    var configSz: nat

    /** The list of modules is set up and fits; before that there are no modules at all. */
    ghost predicate Valid()
      reads this, eeprom
    {
      && configCnt == |configs|
      && Fits(eeprom[..], configs)
      && (configs != [] ==> configSz == StoreSize(configs))
    }

    ghost predicate Registered(cf: seq<Module>)
      reads this
    {
      configs == cf && configCnt == |cf| && configSz == StoreSize(cf)
    }

    constructor (memory: array<bv8>)
      requires EEPROM_ADDR + 2 <= memory.Length
      ensures Valid() && eeprom == memory && configs == []
    {
      eeprom := memory;
      configs, configCnt, configSz := [], 0, 0;
    }

    method CheckCrc() returns (ok: bool)
      requires EEPROM_ADDR + configSz <= eeprom.Length
      ensures ok == Checks(eeprom[..], configSz)
    {
      hide Update;
      var crc := START;
      for i := 0 to configSz
        invariant crc == Fold(START, eeprom[EEPROM_ADDR..EEPROM_ADDR+i])
      {
        assert eeprom[EEPROM_ADDR..EEPROM_ADDR+i+1][..i] == eeprom[EEPROM_ADDR..EEPROM_ADDR+i];
        crc := Update(crc, eeprom[EEPROM_ADDR+i]);
      }
      assert eeprom[..][EEPROM_ADDR..EEPROM_ADDR+configSz] == eeprom[EEPROM_ADDR..EEPROM_ADDR+configSz];
      ok := crc == 0;
    }

    method WriteCrc()
      requires 2 <= configSz && EEPROM_ADDR + configSz <= eeprom.Length
      modifies eeprom
      ensures eeprom[..] == WithCrc(old(eeprom[..]), configSz)
    {
      hide Update, Lo, Hi;
      var crc := START;
      for i := 0 to configSz - 2
        invariant crc == Fold(START, eeprom[EEPROM_ADDR..EEPROM_ADDR+i])
        invariant eeprom[..] == old(eeprom[..])
      {
        assert eeprom[EEPROM_ADDR..EEPROM_ADDR+i+1][..i] == eeprom[EEPROM_ADDR..EEPROM_ADDR+i];
        crc := Update(crc, eeprom[EEPROM_ADDR+i]);
      }
      assert eeprom[..][EEPROM_ADDR..EEPROM_ADDR+configSz-2] == eeprom[EEPROM_ADDR..EEPROM_ADDR+configSz-2];
      WriteWord(EEPROM_ADDR + configSz - 2, crc);
    }

    /** The low byte goes first. */
    method WriteWord(at: nat, w: bv16)
      requires at + 2 <= eeprom.Length
      modifies eeprom
      ensures eeprom[..] == WriteAt(old(eeprom[..]), at, [Lo(w), Hi(w)])
    {
      hide Lo, Hi;
      eeprom[at] := Lo(w);
      eeprom[at+1] := Hi(w);
    }

    method WriteBlock(at: nat, data: seq<bv8>)
      requires at + |data| <= eeprom.Length
      modifies eeprom
      ensures eeprom[..] == WriteAt(old(eeprom[..]), at, data)
    {
      for i := 0 to |data|
        invariant forall k :: 0 <= k < eeprom.Length ==>
                    eeprom[k] == if at <= k < at + i then data[k-at] else old(eeprom[k])
      {
        eeprom[at+i] := data[i];
      }
    }

    /** Take over the list of modules and add up their sizes, passing over the oversized ones. */
    method Register(cf: seq<Module>)
      requires |cf| < 256
      modifies this
      ensures Registered(cf)
    {
      configCnt, configs := |cf|, cf;
      configSz := 0;
      for i := 0 to configCnt
        invariant configCnt == |cf| && configs == cf && configSz == SizeUpTo(cf, i)
      {
        if cf[i].size <= EEPROM_MAX {
          configSz := configSz + cf[i].size;
        }
      }
      configSz := configSz + 2;
    }

    /** Take over the list of modules, and give every module its block or a rain-check. */
    method Init(cf: seq<Module>) returns (handed: seq<Handed>)
      requires |cf| < 256 && Fits(eeprom[..], cf)
      modifies this
      ensures Valid() && configs == cf && configSz == StoreSize(cf)
      ensures handed == HandedOut(eeprom[..], cf)
    {
      hide Checks, Block, Offset, StoreSize, SizeUpTo;
      SizeFits(eeprom[..], cf);
      Register(cf);
      var ok := CheckCrc();
      handed := [];
      if !ok {
        for i := 0 to configCnt
          invariant Registered(cf)
          invariant |handed| == i && forall k :: 0 <= k < i ==> handed[k] == RainCheck
        {
          handed := handed + [RainCheck];
        }
        return;
      }
      var addr := EEPROM_ADDR;
      OffsetStart(cf);
      for i := 0 to configCnt
        invariant Registered(cf)
        invariant addr == EEPROM_ADDR + Offset(cf, i) && |handed| == i
        invariant forall k :: 0 <= k < i ==> handed[k] == Given(Block(eeprom[..], cf, k))
      {
        BlockIs(eeprom[..], cf, i);
        handed := handed + [Given(eeprom[addr..addr+cf[i].size])];
        addr := addr + cf[i].size;
      }
    }

    /** Write the block of a module and bring the checksum up to date. */
    method Write(id: bv8, data: seq<bv8>)
      requires Valid()
      requires IndexOf(configs, id) < |configs| ==> |data| == configs[IndexOf(configs, id)].size
      modifies eeprom
      ensures Valid() && eeprom[..] == Written(old(eeprom[..]), configs, id, data)
    {
      hide WithCrc;
      var addr := EEPROM_ADDR;
      for i := 0 to configCnt
        invariant addr == EEPROM_ADDR + Offset(configs, i)
        invariant i <= IndexOf(configs, id)
        invariant eeprom[..] == old(eeprom[..])
      {
        if configs[i].id == id {
          OffsetIsMonotone(configs, i, |configs|);
          SizeIsLess(configs, |configs|);
          WriteBlock(addr, data);
          WriteCrc();
          return;
        } else {
          addr := addr + configs[i].size;
        }
      }
    }

    /** Read the block of a module. */
    method Read(id: bv8) returns (found: bool, data: seq<bv8>)
      requires Valid()
      ensures found <==> IndexOf(configs, id) < |configs|
      ensures found ==> data == Block(eeprom[..], configs, IndexOf(configs, id))
    {
      var addr := EEPROM_ADDR;
      for i := 0 to configCnt
        invariant addr == EEPROM_ADDR + Offset(configs, i)
        invariant i <= IndexOf(configs, id)
      {
        if configs[i].id == id {
          OffsetIsMonotone(configs, i, |configs|);
          BlockIs(eeprom[..], configs, i);
          return true, eeprom[addr..addr+configs[i].size];
        } else {
          addr := addr + configs[i].size;
        }
      }
      return false, [];
    }

    method Reset()
      requires EEPROM_ADDR + 2 <= eeprom.Length
      modifies eeprom
      ensures eeprom[..] == ResetImage(old(eeprom[..]))
    {
      ResetWord();
      WriteWord(EEPROM_ADDR, 0xF00D);
    }
  }

  lemma ResetWord()
    ensures Lo(0xF00D) == 0x0D && Hi(0xF00D) == 0xF0
  {
  }

  lemma BlockIs(img: seq<bv8>, mods: seq<Module>, i: nat)
    requires i < |mods| && Fits(img, mods)
    ensures EEPROM_ADDR + Offset(mods, i) + mods[i].size <= |img|
    ensures Block(img, mods, i) == img[EEPROM_ADDR+Offset(mods, i)..EEPROM_ADDR+Offset(mods, i)+mods[i].size]
    ensures Offset(mods, i + 1) == Offset(mods, i) + mods[i].size
  {
    OffsetIsMonotone(mods, i, |mods|);
  }

  lemma {:induction false} OffsetStart(mods: seq<Module>)
    ensures Offset(mods, 0) == 0
  {
  }

  lemma SizeFits(img: seq<bv8>, mods: seq<Module>)
    requires Fits(img, mods)
    ensures EEPROM_ADDR + StoreSize(mods) <= |img|
  {
    SizeIsLess(mods, |mods|);
  }

  // ----- From one start-up to the next -----

  /** Whatever is written after a start-up on which the store checked, the next start-up over the same list
      hands every module exactly the block written last, or the one it was handed before. */
  lemma {:induction false} NextStartHandsOut(img: seq<bv8>, mods: seq<Module>, writes: seq<Write>, i: nat)
    requires Fits(img, mods) && AllSmall(mods) && Proper(mods, writes) && i < |mods|
    requires HandedOut(img, mods)[i].Given?
    ensures HandedOut(AfterWrites(img, mods, writes), mods)[i]
         == Given(LastWritten(mods, writes, i, HandedOut(img, mods)[i].block))
  {
    hide Checks, Block, AfterWrites, LastWritten;
    LastWriteWins(img, mods, writes, i);
  }

  /** A reset between two start-ups: the second hands out rain-checks only, unless the store began with the
      reset word anyway. */
  lemma ResetMeansRainChecksIff(img: seq<bv8>, mods: seq<Module>, i: nat)
    requires Fits(img, mods) && i < |mods| && HandedOut(img, mods)[i].Given?
    ensures HandedOut(ResetImage(img), mods)[i] == RainCheck
       <==> !(img[EEPROM_ADDR] == 0x0D && img[EEPROM_ADDR+1] == 0xF0)
  {
    hide Checks, Block, ResetImage;
    SizeFits(img, mods);
    ResetIsDetectedIff(img, StoreSize(mods));
  }

  /** The store as it is found on a fresh node checks after the first write of any module, and from then on. */
  lemma {:induction false} FirstWriteInitialises(img: seq<bv8>, mods: seq<Module>, writes: seq<Write>, i: nat)
    requires Fits(img, mods) && AllSmall(mods) && Proper(mods, writes) && i < |mods|
    requires exists k :: 0 <= k < |writes| && IndexOf(mods, writes[k].id) < |mods|
    ensures HandedOut(AfterWrites(img, mods, writes), mods)[i]
         == Given(LastWritten(mods, writes, i, Block(img, mods, i)))
  {
    hide Checks, Block, AfterWrites, LastWritten;
    LastWriteWins(img, mods, writes, i);
  }

  /** Writes for unknown modules change nothing. */
  lemma {:induction false} StrangersChangeNothing(img: seq<bv8>, mods: seq<Module>, writes: seq<Write>)
    requires Fits(img, mods) && Proper(mods, writes)
    requires forall k :: 0 <= k < |writes| ==> IndexOf(mods, writes[k].id) == |mods|
    ensures AfterWrites(img, mods, writes) == img
  {
    if writes == [] {
    } else {
      var n := |writes| - 1;
      StrangersChangeNothing(img, mods, writes[..n]);
      NotFound(img, mods, writes[n]);
    }
  }

  /** A reset, then any writes, then a start-up over the same list: the modules get their rain-check if and only
      if no write was for a known module and the store did not begin with the reset word anyway.  Otherwise the
      reset goes unnoticed: each gets the block written last, and if there is none the one before the reset, with
      the reset word over its first bytes. */
  lemma {:induction false} ResetIsNoticedIff(img: seq<bv8>, mods: seq<Module>, writes: seq<Write>, i: nat)
    requires Fits(img, mods) && AllSmall(mods) && Proper(mods, writes) && i < |mods|
    requires HandedOut(img, mods)[i].Given?
    ensures var noticed := && (forall k :: 0 <= k < |writes| ==> IndexOf(mods, writes[k].id) == |mods|)
                           && !(img[EEPROM_ADDR] == 0x0D && img[EEPROM_ADDR+1] == 0xF0);
            HandedOut(AfterWrites(ResetImage(img), mods, writes), mods)[i]
              == if noticed then RainCheck
                 else Given(LastWritten(mods, writes, i, Block(ResetImage(img), mods, i)))
  {
    hide Checks, Block, ResetImage, AfterWrites, LastWritten;
    var reset := ResetImage(img);
    ResetMeansRainChecksIff(img, mods, i);
    if forall k :: 0 <= k < |writes| ==> IndexOf(mods, writes[k].id) == |mods| {
      StrangersChangeNothing(reset, mods, writes);
      LastWriteWins(reset, mods, writes, i);
    } else {
      FirstWriteInitialises(reset, mods, writes, i);
    }
  }
}
