/** The layout of module configurations in EEPROM: packed blocks from address 0x20 on, then a CRC. */
module ConfigLayout {
  import opened Crc16

  const EEPROM_ADDR := 0x20
  const EEPROM_MAX := 64

  datatype Module = Module(id: bv8, size: nat)

  /** Where the block of module i starts, counted from the start of the store. */
  function Offset(mods: seq<Module>, i: nat): nat
    requires i <= |mods|
  {
    if i == 0 then 0 else Offset(mods, i - 1) + mods[i-1].size
  }

  /** The size of the store as it is counted: oversized modules are passed over; two bytes of CRC. */
  function SizeUpTo(mods: seq<Module>, i: nat): nat
    requires i <= |mods|
  {
    if i == 0 then 0 else SizeUpTo(mods, i - 1) + (if mods[i-1].size > EEPROM_MAX then 0 else mods[i-1].size)
  }

  function StoreSize(mods: seq<Module>): nat { SizeUpTo(mods, |mods|) + 2 }

  predicate AllSmall(mods: seq<Module>) { forall k :: 0 <= k < |mods| ==> mods[k].size <= EEPROM_MAX }

  predicate UniqueIds(mods: seq<Module>) {
    forall j, k :: 0 <= j < k < |mods| ==> mods[j].id != mods[k].id
  }

  /** The first module with this number. */
  function IndexOf(mods: seq<Module>, id: bv8): (i: nat)
    ensures i <= |mods| && (i < |mods| ==> mods[i].id == id)
    ensures forall k :: 0 <= k < i ==> mods[k].id != id
  {
    if mods == [] || mods[0].id == id then 0
    else
      var i := IndexOf(mods[1..], id);
      assert forall k :: 1 <= k <= i ==> mods[k] == mods[1..][k-1];
      i + 1
  }

  /** Every module is found under its own number exactly when no two share one. */
  lemma {:induction false} UniqueIdsIff(mods: seq<Module>)
    ensures UniqueIds(mods) <==> forall i :: 0 <= i < |mods| ==> IndexOf(mods, mods[i].id) == i
  {
    if !UniqueIds(mods) {
      var j, k :| 0 <= j < k < |mods| && mods[j].id == mods[k].id;
      assert IndexOf(mods, mods[k].id) <= j;
    }
  }

  /** The store fits in the EEPROM. */
  predicate Fits(img: seq<bv8>, mods: seq<Module>) {
    EEPROM_ADDR + Offset(mods, |mods|) + 2 <= |img|
  }

  lemma {:induction false} OffsetIsMonotone(mods: seq<Module>, i: nat, j: nat)
    requires i <= j <= |mods|
    ensures Offset(mods, i) <= Offset(mods, j)
    ensures i < j ==> Offset(mods, i) + mods[i].size <= Offset(mods, j)
  {
    if i == j {
    } else {
      OffsetIsMonotone(mods, i, j - 1);
    }
  }

  lemma {:induction false} SizeIsLess(mods: seq<Module>, i: nat)
    requires i <= |mods|
    ensures SizeUpTo(mods, i) <= Offset(mods, i)
    ensures SizeUpTo(mods, i) == Offset(mods, i) <==> forall k :: 0 <= k < i ==> mods[k].size <= EEPROM_MAX
  {
    if i == 0 {
    } else {
      SizeIsLess(mods, i - 1);
    }
  }

  /** The counted size covers all blocks exactly when no module is oversized. */
  lemma {:induction false} SizeCoversLayoutIff(mods: seq<Module>)
    ensures StoreSize(mods) == Offset(mods, |mods|) + 2 <==> AllSmall(mods)
  {
    SizeIsLess(mods, |mods|);
  }

  // ----- Reading and writing the image -----

  function WriteAt(img: seq<bv8>, at: nat, data: seq<bv8>): (r: seq<bv8>)
    requires at + |data| <= |img|
    ensures |r| == |img|
  {
    img[..at] + data + img[at+|data|..]
  }

  lemma WriteAtReads(img: seq<bv8>, at: nat, data: seq<bv8>, lo: nat, hi: nat)
    requires at + |data| <= |img| && lo <= hi <= |img|
    ensures WriteAt(img, at, data)[at..at+|data|] == data
    ensures hi <= at || at + |data| <= lo ==> WriteAt(img, at, data)[lo..hi] == img[lo..hi]
  {
    var out := WriteAt(img, at, data);
    assert forall k :: 0 <= k < at ==> out[k] == img[k];
    assert forall k :: at + |data| <= k < |img| ==> out[k] == img[k];
  }

  function Block(img: seq<bv8>, mods: seq<Module>, i: nat): (r: seq<bv8>)
    requires i < |mods| && Fits(img, mods)
    ensures |r| == mods[i].size
  {
    OffsetIsMonotone(mods, i + 1, |mods|);
    var at := EEPROM_ADDR + Offset(mods, i);
    img[at..at+mods[i].size]
  }

  /** The store reads as intact. */
  predicate Checks(img: seq<bv8>, sz: nat)
    requires EEPROM_ADDR + sz <= |img|
  {
    Crc(img[EEPROM_ADDR..EEPROM_ADDR+sz]) == 0
  }

  /** The image with the checksum of the store brought up to date. */
  function WithCrc(img: seq<bv8>, sz: nat): (r: seq<bv8>)
    requires 2 <= sz && EEPROM_ADDR + sz <= |img|
    ensures |r| == |img|
  {
    var crc := Crc(img[EEPROM_ADDR..EEPROM_ADDR+sz-2]);
    WriteAt(img, EEPROM_ADDR + sz - 2, [Lo(crc), Hi(crc)])
  }

  /** The image after module id has written its block. */
  function Written(img: seq<bv8>, mods: seq<Module>, id: bv8, data: seq<bv8>): (r: seq<bv8>)
    requires Fits(img, mods)
    requires IndexOf(mods, id) < |mods| ==> |data| == mods[IndexOf(mods, id)].size
    ensures |r| == |img|
  {
    var i := IndexOf(mods, id);
    if i == |mods| then img
    else
      SizeIsLess(mods, |mods|);
      OffsetIsMonotone(mods, i, |mods|);
      WithCrc(WriteAt(img, EEPROM_ADDR + Offset(mods, i), data), StoreSize(mods))
  }

  /** The image after a reset: 0xF00D over the first two bytes, low byte first. */
  function ResetImage(img: seq<bv8>): (r: seq<bv8>)
    requires EEPROM_ADDR + 2 <= |img|
    ensures |r| == |img|
  {
    WriteAt(img, EEPROM_ADDR, [0x0D, 0xF0])
  }

  // ----- What writing does -----

  /** Bringing the checksum up to date makes the store check, and changes nothing else. */
  lemma WithCrcChecks(img: seq<bv8>, sz: nat)
    requires 2 <= sz && EEPROM_ADDR + sz <= |img|
    ensures Checks(WithCrc(img, sz), sz)
    ensures forall lo, hi :: 0 <= lo <= hi <= EEPROM_ADDR + sz - 2 ==> WithCrc(img, sz)[lo..hi] == img[lo..hi]
    ensures WithCrc(img, sz)[EEPROM_ADDR+sz..] == img[EEPROM_ADDR+sz..]
  {
    hide Crc, Lo, Hi;
    var data := img[EEPROM_ADDR..EEPROM_ADDR+sz-2];
    var crc := Crc(data);
    var out := WithCrc(img, sz);
    assert out[EEPROM_ADDR..EEPROM_ADDR+sz] == data + [Lo(crc), Hi(crc)];
    ChecksIff(data, Lo(crc), Hi(crc));
    forall lo, hi | 0 <= lo <= hi <= EEPROM_ADDR + sz - 2 ensures out[lo..hi] == img[lo..hi] {
      WriteAtReads(img, EEPROM_ADDR + sz - 2, [Lo(crc), Hi(crc)], lo, hi);
    }
  }

  /** A written module reads back its data, every other module reads what it read before, and the store
      checks. */
  lemma {:induction false} WriteThenRead(img: seq<bv8>, mods: seq<Module>, id: bv8, data: seq<bv8>)
    requires Fits(img, mods) && AllSmall(mods) && IndexOf(mods, id) < |mods| && |data| == mods[IndexOf(mods, id)].size
    ensures var out := Written(img, mods, id, data);
            && Block(out, mods, IndexOf(mods, id)) == data
            && (forall k :: 0 <= k < |mods| && k != IndexOf(mods, id) ==> Block(out, mods, k) == Block(img, mods, k))
            && EEPROM_ADDR + StoreSize(mods) <= |img| && Checks(out, StoreSize(mods))
            && out[..EEPROM_ADDR] == img[..EEPROM_ADDR]
            && out[EEPROM_ADDR+StoreSize(mods)..] == img[EEPROM_ADDR+StoreSize(mods)..]
  {
    hide Checks, WithCrc;
    var i, n, sz := IndexOf(mods, id), |mods|, StoreSize(mods);
    SizeCoversLayoutIff(mods);
    OffsetIsMonotone(mods, i, n);
    var at := EEPROM_ADDR + Offset(mods, i);
    var mid := WriteAt(img, at, data);
    var out := Written(img, mods, id, data);
    WithCrcChecks(mid, sz);
    assert out[at..at+|data|] == mid[at..at+|data|];
    WriteAtReads(img, at, data, 0, EEPROM_ADDR);
    WriteAtReads(img, at, data, EEPROM_ADDR + sz, |img|);
    forall k | 0 <= k < n && k != i ensures Block(out, mods, k) == Block(img, mods, k) {
      var lo := EEPROM_ADDR + Offset(mods, k);
      var hi := lo + mods[k].size;
      OffsetIsMonotone(mods, k, n);
      if k < i {
        OffsetIsMonotone(mods, k, i);
      } else {
        OffsetIsMonotone(mods, i, k);
      }
      assert out[lo..hi] == mid[lo..hi];
      WriteAtReads(img, at, data, lo, hi);
    }
    assert out[0..EEPROM_ADDR] == mid[0..EEPROM_ADDR];
  }

  // ----- What any number of writes does -----

  datatype Write = Write(id: bv8, data: seq<bv8>)

  /** Every write brings as many bytes as its module, if there is one, is large. */
  ghost predicate Proper(mods: seq<Module>, writes: seq<Write>) {
    forall k :: 0 <= k < |writes| ==>
      var i := IndexOf(mods, writes[k].id);
      i < |mods| ==> |writes[k].data| == mods[i].size
  }

  function AfterWrites(img: seq<bv8>, mods: seq<Module>, writes: seq<Write>): (r: seq<bv8>)
    requires Fits(img, mods) && Proper(mods, writes)
    ensures |r| == |img|
  {
    if writes == [] then img
    else
      var n := |writes| - 1;
      Written(AfterWrites(img, mods, writes[..n]), mods, writes[n].id, writes[n].data)
  }

  /** The data last written to module i, or what it held before. */
  function LastWritten(mods: seq<Module>, writes: seq<Write>, i: nat, before: seq<bv8>): seq<bv8> {
    if writes == [] then before
    else
      var last := writes[|writes|-1];
      if IndexOf(mods, last.id) == i then last.data else LastWritten(mods, writes[..|writes|-1], i, before)
  }

  /** After any writes, each module reads back its last write, and the store checks if it did before or if
      anything was written. */
  lemma {:induction false} LastWriteWins(img: seq<bv8>, mods: seq<Module>, writes: seq<Write>, i: nat)
    requires Fits(img, mods) && AllSmall(mods) && Proper(mods, writes) && i < |mods|
    ensures var out := AfterWrites(img, mods, writes);
            && Block(out, mods, i) == LastWritten(mods, writes, i, Block(img, mods, i))
            && EEPROM_ADDR + StoreSize(mods) <= |img|
            && ((exists k :: 0 <= k < |writes| && IndexOf(mods, writes[k].id) < |mods|) ==>
                  Checks(out, StoreSize(mods)))
            && (Checks(img, StoreSize(mods)) ==> Checks(out, StoreSize(mods)))
  {
    hide Checks, Block, Written;
    SizeCoversLayoutIff(mods);
    if writes == [] {
    } else {
      var n := |writes| - 1;
      var rest, last := writes[..n], writes[n];
      LastWriteWins(img, mods, rest, i);
      var mid := AfterWrites(img, mods, rest);
      if IndexOf(mods, last.id) < |mods| {
        WriteThenRead(mid, mods, last.id, last.data);
      } else {
        NotFound(mid, mods, last);
        if k :| 0 <= k < |writes| && IndexOf(mods, writes[k].id) < |mods| {
          assert k < n && rest[k] == writes[k];
        }
      }
    }
  }

  lemma {:induction false} NotFound(img: seq<bv8>, mods: seq<Module>, w: Write)
    requires Fits(img, mods) && IndexOf(mods, w.id) == |mods|
    ensures Written(img, mods, w.id, w.data) == img
  {
  }

  // ----- What a reset does -----

  /** A reset store fails to check, whatever its size, unless it already began with 0xF00D. */
  lemma ResetIsDetectedIff(img: seq<bv8>, sz: nat)
    requires 2 <= sz && EEPROM_ADDR + sz <= |img| && Checks(img, sz)
    ensures Checks(ResetImage(img), sz) <==> img[EEPROM_ADDR] == 0x0D && img[EEPROM_ADDR+1] == 0xF0
  {
    var s := img[EEPROM_ADDR..EEPROM_ADDR+sz];
    var t := ResetImage(img)[EEPROM_ADDR..EEPROM_ADDR+sz];
    var rest := img[EEPROM_ADDR+2..EEPROM_ADDR+sz];
    assert s == [s[0], s[1]] + rest;
    assert t == [0x0D, 0xF0] + rest;
    hide Crc;
    if Crc(t) == 0 {
      FirstTwoBytesMatter(s[0], s[1], 0x0D, 0xF0, rest);
    } else {
      assert s != t;
    }
  }

  lemma {:induction false} NeverWritten(mods: seq<Module>, writes: seq<Write>, i: nat, before: seq<bv8>)
    requires forall k :: 0 <= k < |writes| ==> IndexOf(mods, writes[k].id) != i
    ensures LastWritten(mods, writes, i, before) == before
  {
    if writes == [] {
    } else {
      NeverWritten(mods, writes[..|writes|-1], i, before);
    }
  }

  lemma ResetFirstBlock(img: seq<bv8>, mods: seq<Module>)
    requires Fits(img, mods) && mods != [] && mods[0].size >= 2
    ensures Block(ResetImage(img), mods, 0) == [0x0D, 0xF0] + Block(img, mods, 0)[2..]
  {
    OffsetIsMonotone(mods, 0, |mods|);
  }

  /** But as soon as any module has been written the store checks again, reset bytes and all: a first module of
      at least two bytes that was not written itself then reads the reset word and the rest of its old block. */
  lemma {:induction false} WriteHidesReset(img: seq<bv8>, mods: seq<Module>, writes: seq<Write>)
    requires Fits(img, mods) && AllSmall(mods) && Proper(mods, writes) && mods != [] && mods[0].size >= 2
    requires exists k :: 0 <= k < |writes| && IndexOf(mods, writes[k].id) < |mods|
    ensures var out := AfterWrites(ResetImage(img), mods, writes);
            && EEPROM_ADDR + StoreSize(mods) <= |img| && Checks(out, StoreSize(mods))
            && ((forall k :: 0 <= k < |writes| ==> IndexOf(mods, writes[k].id) != 0) ==>
                  Block(out, mods, 0) == [0x0D, 0xF0] + Block(img, mods, 0)[2..])
  {
    var reset := ResetImage(img);
    LastWriteWins(reset, mods, writes, 0);
    ResetFirstBlock(img, mods);
    hide Checks, AfterWrites, LastWritten, StoreSize, Block, ResetImage;
    if forall k :: 0 <= k < |writes| ==> IndexOf(mods, writes[k].id) != 0 {
      NeverWritten(mods, writes, 0, Block(reset, mods, 0));
    }
  }
}
