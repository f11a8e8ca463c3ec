/** The firmware path in the bytes that travel: the checksum bit by bit, the records of a HEX file, and the replies of
    the boot server. */
module FirmwareLaws {
  import opened Crc16
  import opened Wrappers
  import opened IntelHex
  import Boot
  import HexFiles

  // ----- The checksum -----

  /** From 0xFFFF; each byte is added to the low half, then eight bits are shifted out, low bit first, and for every
      one that falls out 0xA001 is added. */
  lemma {:induction false} CrcBitByBit(s: seq<bv8>, b: bv8) returns (c: seq<bv16>)
    ensures Crc([]) == 0xFFFF
    ensures |c| == 9 && c[0] == Crc(s) ^ (b as bv16) && c[8] == Crc(s + [b])
    ensures forall k :: 0 <= k < 8 ==> c[k+1] == if c[k] & 1 == 1 then (c[k] >> 1) ^ 0xA001 else c[k] >> 1
  {
    assert (s + [b])[..|s|] == s;
    c := Shifts(Xor(Crc(s), b as bv16), 8);
    EightShifts(c);
    forall k | 0 <= k < 8 ensures c[k+1] == if c[k] & 1 == 1 then (c[k] >> 1) ^ 0xA001 else c[k] >> 1 {
      OneBit(c[k]);
    }
    hide Shift8, Shift, Shifts;
  }

  function Shifts(c: bv16, n: nat): (r: seq<bv16>)
    ensures |r| == n + 1 && r[0] == c
    ensures forall k :: 0 <= k < n ==> r[k+1] == Shift(r[k])
  {
    if n == 0 then [c] else Shifts(c, n - 1) + [Shift(Shifts(c, n - 1)[n-1])]
  }

  lemma EightShifts(c: seq<bv16>)
    requires |c| == 9 && forall k :: 0 <= k < 8 ==> c[k+1] == Shift(c[k])
    ensures c[8] == Shift8(c[0])
  {
    hide Shift;
    assert c[4] == Shift4(c[0]) by { assert c[0+1] == Shift(c[0]) && c[1+1] == Shift(c[1]) && c[2+1] == Shift(c[2]); }
    assert c[8] == Shift4(c[4]) by { assert c[4+1] == Shift(c[4]) && c[5+1] == Shift(c[5]) && c[6+1] == Shift(c[6]); }
  }

  lemma OneBit(c: bv16)
    ensures Shift(c) == if c & 1 == 1 then (c >> 1) ^ 0xA001 else c >> 1
  {
    assert c & 1 != 0 <==> c & 1 == 1;
  }

  /** A checksum is stored low byte first. */
  lemma StoredLowByteFirst(data: seq<bv8>)
    ensures Crc(data + [(Crc(data) & 0xFF) as bv8, (Crc(data) >> 8) as bv8]) == 0
  {
    hide Crc;
    ChecksIff(data, Lo(Crc(data)), Hi(Crc(data)));
  }

  // ----- The records of a HEX file -----

  /** The digits of either case, and nothing else. */
  lemma HexDigits(c: char, d: nat)
    ensures HexVal(c) == Some(d) <==> d < 16 && (c == "0123456789abcdef"[d] || c == "0123456789ABCDEF"[d])
  {
  }

  lemma {:induction false} SumMore(b: seq<byte>, x: byte)
    ensures Sum([]) == 0 && Sum(b + [x]) == Sum(b) + x as nat
  {
    assert (b + [x])[..|b|] == b;
  }

  /** A record that spells the bytes b: its length, two of address, its type, the data and a byte that makes the sum
      a multiple of 256; what is wrong with it is found in this order. */
  lemma {:induction false} RecordInNumbers(l: string, b: seq<byte>, i: nat)
    requires |l| == 1 + 2 * |b| && l[0] == ':'
    requires forall k :: 0 <= k < |b| ==>
               HexVal(l[1..][2*k]) == Some(b[k] as nat / 16) && HexVal(l[1..][2*k+1]) == Some(b[k] as nat % 16)
    ensures var r := ParseLine(l, i);
            && (|b| < 5 ==> r == Err(TooFewBytes(i, |b|)))
            && (|b| >= 5 && Sum(b) % 256 != 0 ==>
                  r.Err? && r.error.BadChecksum? && r.error.line == i
                  && -128 <= r.error.sum < 128 && r.error.sum % 256 == Sum(b) % 256)
            && (|b| >= 5 && Sum(b) % 256 == 0 ==>
                  var (n, at) := (b[0] as nat, 256 * b[1] as nat + b[2] as nat);
                  && (|b| < 5 + n ==> r == Err(CutShort(|b|, 5 + n)))
                  && (|b| >= 5 + n && b[3] != 0 ==> r == Ok(None))
                  && (|b| >= 5 + n && b[3] == 0 && at + n > 65536 ==> r == Err(Overrun(i)))
                  && (|b| >= 5 + n && b[3] == 0 && at + n <= 65536 ==> r == Ok(Some(Record(at, b[4..4+n])))))
  {
    HexFiles.SpelledDecodes(l[1..], b);
    hide HexVal, DecodeHex, HexFiles.Spells, Sum;
  }

  /** A line without a colon is passed over; one with a colon that spells no bytes is turned down. */
  lemma OtherLines(l: string, i: nat)
    ensures l == [] || l[0] != ':' ==> ParseLine(l, i) == Ok(None)
    ensures l != [] && l[0] == ':' && |l| % 2 == 0 ==> ParseLine(l, i) == Err(BadHex(i))
    ensures l != [] && l[0] == ':' && (exists k :: 1 <= k < |l| && HexVal(l[k]).None?) ==>
              ParseLine(l, i) == Err(BadHex(i))
  {
    hide HexVal, ParseBytes;
    if l != [] && l[0] == ':' {
      if k :| 1 <= k < |l| && HexVal(l[k]).None? {
        assert l[1..][k-1] == l[k];
      }
    }
  }

  /** Lines are read in order and numbered from 1; the first error ends it, and every data record counts. */
  lemma {:induction false} RecordsLineByLine(lines: seq<string>, l: string)
    ensures Records([]) == Ok([])
    ensures var (before, line, after) := (Records(lines), ParseLine(l, |lines| + 1), Records(lines + [l]));
            && (before.Err? ==> after == before)
            && (before.Ok? && line.Err? ==> after == Err(line.error))
            && (before.Ok? && line == Ok(None) ==> after == before)
            && (before.Ok? && line.Ok? && line.value.Some? ==> after == Ok(before.value + [line.value.value]))
  {
    assert (lines + [l])[..|lines|] == lines;
    hide ParseLine;
  }

  /** The image ends with the longest record, except that one which ends one past it does not make it longer; then
      it is filled up with zeros to a multiple of 16. */
  lemma {:induction false} ImageInNumbers(rs: seq<Record>, r: Record)
    ensures var (n, end) := (LengthOf(rs), r.addr + |r.data|);
            LengthOf([]) == 0 && LengthOf(rs + [r]) == if end > n + 1 then end else n
    ensures forall k :: 0 <= k < |Image(rs)| ==> Image(rs)[k] == if k < LengthOf(rs) then At(rs, k) else 0
    ensures |Image(rs)| == (LengthOf(rs) + 15) / 16 * 16
    ensures forall k: nat :: At(rs + [r], k) == if r.addr <= k < r.addr + |r.data| then r.data[k-r.addr] else At(rs, k)
    ensures forall k: nat :: At([], k) == 0
  {
    assert (rs + [r])[..|rs|] == rs;
    hide LengthOf, At;
    Sixteens(|Image(rs)|, LengthOf(rs));
  }

  lemma Sixteens(m: nat, n: nat)
    requires n <= m < n + 16 && m % 16 == 0
    ensures m == (n + 15) / 16 * 16
  {
  }

  lemma {:induction false} LoadedIsImage(lines: seq<string>)
    ensures Records(lines).Err? ==> Loaded(lines) == Err(Records(lines).error)
    ensures Records(lines).Ok? ==> Loaded(lines) == Ok(Image(Records(lines).value))
  {
  }

  // ----- The replies of the boot server -----

  /** An upgrade reply: the node type asked for, twice, the size in units of 16 bytes and the checksum. */
  lemma UpgradeInNumbers(images: Boot.Images, t: bv16)
    ensures t !in images ==> Boot.UpgradeOf(images, t) == None
    ensures t in images ==>
              Boot.UpgradeOf(images, t) == Some(Boot.UpgradeReply(t, t, |images[t]| / 16 % 65536, Crc(images[t])))
  {
  }

  /** A download reply: the name mixed with the index, and 64 bytes from 64 times the index on, each mixed with 211
      times its position; past the end of the program they are plain zeros. */
  lemma DownloadInNumbers(images: Boot.Images, id: bv16, ix: Boot.Index)
    ensures Boot.DownloadOf(images, id, ix).Some? <==> id in images && ix * 64 % 65536 < |images[id]| % 65536
    ensures Boot.DownloadOf(images, id, ix).Some? ==>
              var (r, sw, at) := (Boot.DownloadOf(images, id, ix).value, images[id], ix * 64 % 65536);
              && r.swIdXorIx == id ^ (ix as bv16) && |r.data| == 64
              && (forall i :: 0 <= i < 64 && at + i < |sw| ==> r.data[i] == sw[at+i] ^ ((211 * i % 256) as bv8))
              && (forall i :: 0 <= i < 64 && at + i >= |sw| ==> r.data[i] == 0)
  {
    if Boot.DownloadOf(images, id, ix).Some? {
      var (r, sw, at) := (Boot.DownloadOf(images, id, ix).value, images[id], ix * 64 % 65536);
      var piece := Boot.Piece(sw, at);
      forall i | 0 <= i < 64 && at + i < |sw| ensures r.data[i] == sw[at+i] ^ ((211 * i % 256) as bv8) {
        assert piece[i] == sw[at+i];
      }
    }
  }

  // ----- The node that fetches -----

  /** Piece by piece: a reply with the right name adds its bytes, each mixed with 211 times its position. */
  lemma PieceAdded(images: Boot.Images, id: bv16, n: nat, before: seq<bv8>, r: Boot.DownloadReply)
    requires n + 1 < 65536
    requires Boot.Fetched(images, id, n) == Some(before) && Boot.DownloadOf(images, id, n) == Some(r)
    requires r.swIdXorIx ^ (n as bv16) == id
    ensures var after := Boot.Fetched(images, id, n + 1);
            && after.Some? && |after.value| == |before| + |r.data| && after.value[..|before|] == before
            && forall i :: 0 <= i < |r.data| ==> after.value[|before|+i] == r.data[i] ^ ((211 * i % 256) as bv8)
  {
    var more := Boot.Whitened(r.data);
    assert Boot.Fetched(images, id, n + 1) == Some(before + more);
    hide Boot.DownloadOf, Boot.Fetched, Boot.Whitened;
    forall i | 0 <= i < |r.data| ensures (before + more)[|before|+i] == r.data[i] ^ ((211 * i % 256) as bv8) {
      assert (before + more)[|before|+i] == more[i];
    }
  }

  /** A missing reply, or one whose name is wrong, ends the download. */
  lemma PieceMissing(images: Boot.Images, id: bv16, n: nat)
    requires n + 1 < 65536
    requires Boot.Fetched(images, id, n) == None || Boot.DownloadOf(images, id, n) == None
             || Boot.DownloadOf(images, id, n).value.swIdXorIx ^ (n as bv16) != id
    ensures Boot.Fetched(images, id, 0) == Some([]) && Boot.Fetched(images, id, n + 1) == None
  {
    hide Boot.DownloadOf;
  }

  /** A node keeps the size in units of what it fetched, if there is that much and the checksum is right. */
  lemma {:induction false} KeptIff(images: Boot.Images, t: bv16, up: Boot.UpgradeReply, p: seq<bv8>)
    requires Boot.UpgradeOf(images, t) == Some(up)
    ensures (up.swSize * 16 + 63) / 64 < 65536
    ensures Boot.Downloaded(images, t) == Some(p) <==>
              var all := Boot.Fetched(images, up.swId, (up.swSize * 16 + 63) / 64);
              all.Some? && |all.value| >= up.swSize * 16 && p == all.value[..up.swSize*16] && Crc(p) == up.swCheck
  {
    hide Crc, Boot.Fetched;
  }
}
