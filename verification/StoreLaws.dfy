/** The configuration store byte by byte: where the blocks and the checksum lie, and what a write, a reset and a start
    do to the EEPROM. */
module StoreLaws {
  import opened Crc16
  import opened ConfigLayout
  import EEConf

  /** The store fits if all its blocks and two bytes do. */
  lemma {:induction false} FitsIff(img: seq<bv8>, mods: seq<Module>)
    ensures Fits(img, mods) <==> 0x20 + Offset(mods, |mods|) + 2 <= |img|
  {
  }

  /** Blocks lie one behind the other from address 0x20 on. */
  lemma {:induction false} BlocksInNumbers(img: seq<bv8>, mods: seq<Module>, i: nat)
    requires Fits(img, mods) && i < |mods|
    ensures Offset(mods, 0) == 0 && Offset(mods, i + 1) == Offset(mods, i) + mods[i].size
    ensures 0x20 + Offset(mods, |mods|) + 2 <= |img| && Offset(mods, i + 1) <= Offset(mods, |mods|)
    ensures Block(img, mods, i) == img[0x20+Offset(mods, i)..0x20+Offset(mods, i+1)]
  {
    OffsetIsMonotone(mods, i + 1, |mods|);
  }

  /** The counted size: what the modules of at most 64 bytes take, and two bytes. */
  lemma {:induction false} SizeInNumbers(mods: seq<Module>, m: Module)
    ensures StoreSize([]) == 2
    ensures StoreSize(mods + [m]) == StoreSize(mods) + if m.size <= 64 then m.size else 0
  {
    SizeOfPrefix(mods, m, |mods|);
    hide SizeUpTo;
    assert SizeUpTo(mods + [m], |mods| + 1) == SizeUpTo(mods, |mods|) + if m.size <= 64 then m.size else 0 by {
      OneMoreSize(mods + [m], |mods|);
    }
    NoSize();
  }

  lemma OneMoreSize(mods: seq<Module>, i: nat)
    requires i < |mods|
    ensures SizeUpTo(mods, i + 1) == SizeUpTo(mods, i) + if mods[i].size <= 64 then mods[i].size else 0
  {
  }

  lemma NoSize()
    ensures SizeUpTo([], 0) == 0
  {
  }

  lemma {:induction false} SizeOfPrefix(mods: seq<Module>, m: Module, i: nat)
    requires i <= |mods|
    ensures SizeUpTo(mods + [m], i) == SizeUpTo(mods, i)
  {
    if i == 0 {
    } else {
      SizeOfPrefix(mods, m, i - 1);
    }
  }

  /** The checksum of all bytes of a store but its last two lies in those, low byte first, and the store then checks. */
  lemma ChecksumInNumbers(img: seq<bv8>, sz: nat)
    requires 2 <= sz && 0x20 + sz <= |img|
    ensures Checks(img, sz) <==> Crc(img[0x20..0x20+sz]) == 0
    ensures var (out, crc) := (WithCrc(img, sz), Crc(img[0x20..0x20+sz-2]));
            && |out| == |img| && out[0x20+sz-2] == (crc & 0xFF) as bv8 && out[0x20+sz-1] == (crc >> 8) as bv8
            && forall k :: 0 <= k < |img| && k != 0x20 + sz - 2 && k != 0x20 + sz - 1 ==> out[k] == img[k]
  {
    hide Crc;
  }

  /** A write puts the data at the block of the first module with that number, and the checksum behind the last;
      without such a module nothing is written. */
  lemma {:induction false} WriteInNumbers(img: seq<bv8>, mods: seq<Module>, id: bv8, data: seq<bv8>, i: nat)
    requires Fits(img, mods) && i < |mods| && mods[i].id == id && |data| == mods[i].size
    requires forall k :: 0 <= k < i ==> mods[k].id != id
    ensures IndexOf(mods, id) == i && 0x20 + Offset(mods, i) + |data| + 2 <= |img| && 0x20 + StoreSize(mods) <= |img|
    ensures Written(img, mods, id, data)
         == WithCrc(img[..0x20+Offset(mods, i)] + data + img[0x20+Offset(mods, i)+|data|..], StoreSize(mods))
  {
    hide WithCrc;
    assert IndexOf(mods, id) >= i;
    SizeIsLess(mods, |mods|);
    OffsetIsMonotone(mods, i, |mods|);
  }

  lemma {:induction false} UnknownIsNotWritten(img: seq<bv8>, mods: seq<Module>, id: bv8, data: seq<bv8>)
    requires Fits(img, mods) && forall k :: 0 <= k < |mods| ==> mods[k].id != id
    ensures IndexOf(mods, id) == |mods| && Written(img, mods, id, data) == img
  {
    assert IndexOf(mods, id) == |mods|;
  }

  /** Any number of writes is one after the other. */
  lemma {:induction false} WritesInOrder(img: seq<bv8>, mods: seq<Module>, writes: seq<Write>, w: Write)
    requires Fits(img, mods) && Proper(mods, writes) && Proper(mods, writes + [w])
    requires IndexOf(mods, w.id) < |mods| ==> |w.data| == mods[IndexOf(mods, w.id)].size
    ensures AfterWrites(img, mods, []) == img
    ensures AfterWrites(img, mods, writes + [w]) == Written(AfterWrites(img, mods, writes), mods, w.id, w.data)
  {
    hide Written;
    assert (writes + [w])[..|writes|] == writes;
  }

  /** A reset puts 0x0D, 0xF0 at 0x20; at a start every module is given its block if the store checks, and nothing
      otherwise. */
  lemma {:induction false} ResetAndStart(img: seq<bv8>, mods: seq<Module>, i: nat)
    requires Fits(img, mods) && i < |mods| && 0x20 + StoreSize(mods) <= |img|
    ensures ResetImage(img) == img[..0x20] + [0x0D, 0xF0] + img[0x22..]
    ensures |EEConf.HandedOut(img, mods)| == |mods|
    ensures EEConf.HandedOut(img, mods)[i]
         == if Crc(img[0x20..0x20+StoreSize(mods)]) == 0 then EEConf.Given(Block(img, mods, i)) else EEConf.RainCheck
  {
    hide Crc, Block, StoreSize;
  }
}
