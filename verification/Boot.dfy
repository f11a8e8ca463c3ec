/** The boot server: it tells a node how large its program is, and hands it out in whitened 64-byte pieces. */
module Boot {
  import opened Crc16
  import opened Wrappers

  const DATA_MAX := 64
  const UNIT := 16
  const WORD := 0x1_0000

  type Index = n: nat | n < WORD

  /** The program to be found for each node type. */
  type Images = map<bv16, seq<bv8>>

  datatype UpgradeReply = UpgradeReply(nodeType: bv16, swId: bv16, swSize: nat, swCheck: bv16)

  datatype DownloadReply = DownloadReply(swIdXorIx: bv16, data: seq<bv8>)

  // ----- Whitening -----

  function Mix(x: bv8, y: bv8): bv8 { x ^ y }

  function Mask(i: nat): bv8 { (211 * i % 256) as bv8 }

  function Whitened(s: seq<bv8>): (r: seq<bv8>)
    ensures |r| == |s|
    ensures forall i :: 0 <= i < |s| ==> r[i] == Mix(s[i], Mask(i))
  {
    seq(|s|, i requires 0 <= i < |s| => Mix(s[i], Mask(i)))
  }

  lemma MixTwice(x: bv8, y: bv8)
    ensures Mix(Mix(x, y), y) == x
  {
  }

  /** Whitening is undone by whitening again, also when what was whitened has been padded. */
  lemma WhiteningTwice(s: seq<bv8>, padding: seq<bv8>)
    ensures Whitened(Whitened(s) + padding)[..|s|] == s
  {
    hide Mix, Mask;
    forall i | 0 <= i < |s| ensures Mix(Mix(s[i], Mask(i)), Mask(i)) == s[i] {
      MixTwice(s[i], Mask(i));
    }
  }

  method DeWhiten(inBuf: seq<bv8>, outBuf: array<bv8>)
    requires |inBuf| <= outBuf.Length
    modifies outBuf
    ensures outBuf[..] == Whitened(inBuf) + old(outBuf[|inBuf|..])
  {
    hide Mix, Mask;
    for i := 0 to |inBuf|
      invariant forall k :: 0 <= k < outBuf.Length ==>
                  outBuf[k] == if k < i then Mix(inBuf[k], Mask(k)) else old(outBuf[k])
    {
      outBuf[i] := Mix(inBuf[i], Mask(i));
    }
  }

  // ----- Replies -----

  function UpgradeOf(images: Images, nodeType: bv16): Option<UpgradeReply> {
    if nodeType !in images then None
    else
      var sw := images[nodeType];
      Some(UpgradeReply(nodeType, nodeType, |sw| / UNIT % WORD, Crc(sw)))
  }

  /** Where a piece starts, in 16 bits. */
  function Start(ix: nat): nat { ix * DATA_MAX % WORD }

  /** The bytes of a piece, and how many of the 64 they leave unused. */
  function Piece(sw: seq<bv8>, at: nat): (r: seq<bv8>)
    ensures |r| <= DATA_MAX
  {
    if at >= |sw| then [] else if |sw| - at > DATA_MAX then sw[at..at+DATA_MAX] else sw[at..]
  }

  function Padding(n: nat): seq<bv8>
    requires n <= DATA_MAX
  {
    seq(DATA_MAX - n, i => 0)
  }

  function Payload(sw: seq<bv8>, at: nat): seq<bv8> {
    var piece := Piece(sw, at);
    Whitened(piece) + Padding(|piece|)
  }

  function Mix16(x: bv16, y: bv16): bv16 { x ^ y }

  function Word(n: Index): bv16 { n as bv16 }

  function DownloadOf(images: Images, id: bv16, ix: Index): Option<DownloadReply> {
    if id !in images then None
    else
      var sw := images[id];
      if Start(ix) >= |sw| % WORD then None
      else Some(DownloadReply(Mix16(id, Word(ix)), Payload(sw, Start(ix))))
  }

  /** The reply to an upgrade request; the checksum comes from the table form. */
  method Upgrade(images: Images, nodeType: bv16) returns (r: Option<UpgradeReply>)
    ensures r == UpgradeOf(images, nodeType)
  {
    if nodeType !in images {
      return None;
    }
    var sw := images[nodeType];
    var crc := TableCrc(sw);
    return Some(UpgradeReply(nodeType, nodeType, |sw| / UNIT % WORD, crc));
  }

  /** The reply to a download request. */
  method Download(images: Images, id: bv16, ix: Index) returns (r: Option<DownloadReply>)
    ensures r == DownloadOf(images, id, ix)
  {
    if id !in images {
      return None;
    }
    var sw := images[id];
    var offset := ix * DATA_MAX % WORD;
    if offset >= |sw| % WORD {
      return None;
    }
    ShortOfWord(|sw|);
    var data := sw[offset..];
    if |data| > DATA_MAX {
      data := data[..DATA_MAX];
    }
    var buf := new bv8[DATA_MAX](_ => 0);
    DeWhiten(data, buf);
    assert data == Piece(sw, offset);
    assert buf[..] == Whitened(data) + Padding(|data|);
    return Some(DownloadReply(Mix16(id, Word(ix)), buf[..]));
  }

  lemma ShortOfWord(n: nat)
    ensures n % WORD <= n
  {
  }

  // ----- Which requests are answered -----

  lemma StartWraps(ix: nat)
    ensures Start(ix) == ix % 1024 * DATA_MAX
  {
  }

  /** A piece is handed out exactly when it starts, with indices taken modulo 1024, inside the program as
      measured in 16 bits. */
  lemma AnsweredIff(images: Images, id: bv16, ix: Index)
    ensures DownloadOf(images, id, ix).Some? <==>
            id in images && ix % 1024 * 64 < |images[id]| % 65536
  {
    StartWraps(ix);
  }

  /** Indices 1024 apart get the same payload: there is no index past the end of a long enough program. */
  lemma IndicesWrap(images: Images, id: bv16, ix: Index, jx: Index)
    requires ix % 1024 == jx % 1024
    ensures DownloadOf(images, id, ix).Some? <==> DownloadOf(images, id, jx).Some?
    ensures DownloadOf(images, id, ix).Some? ==>
              DownloadOf(images, id, ix).value.data == DownloadOf(images, id, jx).value.data
  {
    hide Payload;
    StartWraps(ix);
    StartWraps(jx);
  }

  lemma Mix16Twice(x: bv16, y: bv16)
    ensures Mix16(Mix16(x, y), y) == x
  {
  }

  /** The reply names the program and the index together: knowing one gives the other. */
  lemma ReplyNamesItsRequest(images: Images, id: bv16, ix: Index)
    requires DownloadOf(images, id, ix).Some?
    ensures Mix16(DownloadOf(images, id, ix).value.swIdXorIx, Word(ix)) == id
  {
    hide Mix16, Word;
    Mix16Twice(id, Word(ix));
  }

  // ----- A whole download -----

  function Pieces(n: nat): nat { (n + DATA_MAX - 1) / DATA_MAX }

  /** What a node has after fetching the first n pieces: any missing or misnamed reply ends it. */
  function Fetched(images: Images, id: bv16, n: Index): Option<seq<bv8>> {
    if n == 0 then Some([])
    else
      var ix: Index := n - 1;
      var (before, reply) := (Fetched(images, id, n - 1), DownloadOf(images, id, ix));
      if before.None? || reply.None? || Mix16(reply.value.swIdXorIx, Word(ix)) != id then None
      else Some(before.value + Whitened(reply.value.data))
  }

  /** A node that asks for its upgrade, fetches as many pieces as that says, cuts the result to size, and
      keeps it if the checksum agrees. */
  function Downloaded(images: Images, nodeType: bv16): Option<seq<bv8>> {
    var up := UpgradeOf(images, nodeType);
    if up.None? then None
    else
      var size := up.value.swSize * UNIT;
      PiecesFit(up.value.swSize);
      var all := Fetched(images, up.value.swId, Pieces(size));
      if all.None? || |all.value| < size || Crc(all.value[..size]) != up.value.swCheck then None
      else Some(all.value[..size])
  }

  lemma PiecesFit(n: Index)
    ensures Pieces(n * UNIT) < WORD
  {
  }

  /** Whitening a payload again gives the piece, and something after it. */
  lemma PayloadGivesPiece(sw: seq<bv8>, at: nat)
    ensures Whitened(Payload(sw, at))[..|Piece(sw, at)|] == Piece(sw, at)
  {
    hide Piece, Mix, Mask, Padding;
    var piece := Piece(sw, at);
    WhiteningTwice(piece, Padding(|piece|));
  }

  /** Every index below the number of pieces gets its piece, which lies where it belongs in the program. */
  lemma PieceArrives(images: Images, id: bv16, ix: Index)
    requires id in images && |images[id]| < WORD && ix < Pieces(|images[id]|)
    ensures ix < 1024
    ensures DownloadOf(images, id, ix) == Some(DownloadReply(Mix16(id, Word(ix)), Payload(images[id], ix * DATA_MAX)))
    ensures Piece(images[id], ix * DATA_MAX)
         == images[id][ix*DATA_MAX..if (ix + 1) * DATA_MAX < |images[id]| then (ix + 1) * DATA_MAX else |images[id]|]
  {
    StartWraps(ix);
    hide Payload, Mix16, Word;
  }

  /** One more reply with the right name adds its payload. */
  lemma OneMore(images: Images, id: bv16, n: Index, before: seq<bv8>, data: seq<bv8>)
    requires 0 < n && Fetched(images, id, n - 1) == Some(before)
    requires DownloadOf(images, id, n - 1) == Some(DownloadReply(Mix16(id, Word(n - 1)), data))
    ensures Fetched(images, id, n) == Some(before + Whitened(data))
  {
    Mix16Twice(id, Word(n - 1));
    hide DownloadOf, Whitened, Mix16, Word;
  }

  function Upto(sw: seq<bv8>, n: nat): nat { if n * DATA_MAX < |sw| then n * DATA_MAX else |sw| }

  lemma Extends(sw: seq<bv8>, n: nat, before: seq<bv8>, last: seq<bv8>)
    requires 0 < n <= Pieces(|sw|) && |before| == (n - 1) * DATA_MAX && |last| == DATA_MAX
    requires before[..Upto(sw, n - 1)] == sw[..Upto(sw, n - 1)]
    requires last[..Upto(sw, n)-(n-1)*DATA_MAX] == sw[(n-1)*DATA_MAX..Upto(sw, n)]
    ensures (before + last)[..Upto(sw, n)] == sw[..Upto(sw, n)]
  {
    var at, to := (n - 1) * DATA_MAX, Upto(sw, n);
    assert Upto(sw, n - 1) == at;
    assert (before + last)[..to] == before + last[..to-at];
  }

  /** The pieces so far, laid end to end, are the program so far. */
  lemma {:induction false} FetchedSoFar(images: Images, id: bv16, n: Index)
    requires id in images && |images[id]| < WORD && n <= Pieces(|images[id]|)
    ensures n <= 1024
    ensures var got := Fetched(images, id, n);
            got.Some? && |got.value| == n * DATA_MAX
            && got.value[..Upto(images[id], n)] == images[id][..Upto(images[id], n)]
  {
    if n == 0 {
    } else {
      var sw := images[id];
      var at := (n - 1) * DATA_MAX;
      FetchedSoFar(images, id, n - 1);
      PieceArrives(images, id, n - 1);
      PayloadGivesPiece(sw, at);
      hide Payload, Whitened, Mix16, Word, DownloadOf, Piece;
      var before, data := Fetched(images, id, n - 1).value, Payload(sw, at);
      OneMore(images, id, n, before, data);
      Extends(sw, n, before, Whitened(data));
    }
  }

  /** Of all programs of at most 64 KB that come in whole units of 16 bytes, a node gets exactly those below
      64 KB: it then ends up with the program, checksum and all. A program of 64 KB is never handed out. */
  lemma DownloadedIff(images: Images, id: bv16)
    requires id in images && |images[id]| % 16 == 0 && |images[id]| <= 65536
    ensures Downloaded(images, id) == if |images[id]| < 65536 then Some(images[id]) else None
  {
    hide Crc, DownloadOf, Whitened, Mix16, Word;
    var sw := images[id];
    var n := Pieces(|sw|);
    assert UpgradeOf(images, id).value.swSize * UNIT == |sw|;
    if |sw| < WORD {
      FetchedSoFar(images, id, n);
      var all := Fetched(images, id, n).value;
      assert all[..|sw|] == sw;
    } else {
      NothingFetched(images, id, n);
    }
  }

  lemma {:induction false} NothingFetched(images: Images, id: bv16, n: Index)
    requires id in images && |images[id]| % WORD == 0 && 0 < n
    ensures Fetched(images, id, n) == None
  {
    AnsweredIff(images, id, n - 1);
    hide DownloadOf;
  }

  /** Past its last piece a program gets no reply, up to index 1023. */
  lemma NoReplyPastTheEnd(images: Images, id: bv16, ix: Index)
    requires id in images && |images[id]| < 65536 && (|images[id]| + 63) / 64 <= ix < 1024
    ensures DownloadOf(images, id, ix) == None
  {
    StartWraps(ix);
  }
}
