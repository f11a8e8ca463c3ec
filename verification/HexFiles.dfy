/** Which HEX files are accepted, what image they give, and when writing a program out and loading it gives the
    program back. */
module HexFiles {
  import opened Wrappers
  import opened IntelHex

  // ----- Acceptance -----

  /** The text spells the bytes, two hexadecimal digits each. */
  ghost predicate Spells(s: string, b: seq<byte>) {
    && |s| == 2 * |b|
    && forall k :: 0 <= k < |b| ==>
         && HexVal(s[2*k]) == Some(b[k] as nat / 16)
         && HexVal(s[2*k+1]) == Some(b[k] as nat % 16)
  }

  ghost predicate GoodBytes(b: seq<byte>) {
    && |b| >= 5 && |b| >= 5 + b[0] as nat
    && Sum(b) % 256 == 0
    && (b[3] == 0 ==> Address(b) + b[0] as nat <= CAPACITY)
  }

  /** A line without a colon in front may be anything. */
  ghost predicate GoodLine(l: string) {
    l != [] && l[0] == ':' ==> exists b :: Spells(l[1..], b) && GoodBytes(b)
  }

  lemma DigitsApart(h: Nibble, l: Nibble)
    ensures (16 * h + l) / 16 == h && (16 * h + l) % 16 == l
  {
  }

  lemma DecodedSpells(s: string)
    requires DecodeHex(s).Some?
    ensures Spells(s, DecodeHex(s).value)
  {
    hide HexVal;
    var b := DecodeHex(s).value;
    forall k | 0 <= k < |b|
      ensures HexVal(s[2*k]) == Some(b[k] as nat / 16) && HexVal(s[2*k+1]) == Some(b[k] as nat % 16)
    {
      DigitsApart(HexVal(s[2*k]).value, HexVal(s[2*k+1]).value);
    }
  }

  lemma SpelledDecodes(s: string, b: seq<byte>)
    requires Spells(s, b)
    ensures DecodeHex(s) == Some(b)
  {
    hide HexVal;
    forall j | 0 <= j < |s| ensures HexVal(s[j]).Some? {
      var k := j / 2;
      assert HexVal(s[2*k]).Some? && HexVal(s[2*k+1]).Some?;
      assert j == 2 * k || j == 2 * k + 1;
    }
    var d := DecodeHex(s).value;
    forall k | 0 <= k < |b| ensures d[k] == b[k] {
      assert HexVal(s[2*k]) == Some(b[k] as nat / 16);
    }
    assert d == b;
  }

  lemma GoodLineIff(l: string, i: nat)
    ensures ParseLine(l, i).Ok? <==> GoodLine(l)
  {
    hide DecodeHex, Sum, Spells;
    if l != [] && l[0] == ':' {
      if DecodeHex(l[1..]).Some? {
        DecodedSpells(l[1..]);
      }
      forall b: seq<byte> | Spells(l[1..], b) ensures DecodeHex(l[1..]) == Some(b) {
        SpelledDecodes(l[1..], b);
      }
    }
  }

  /** A file is accepted exactly when all its lines are good, and otherwise the error is that of the first
      line that is not. */
  lemma {:induction false} AcceptedIff(lines: seq<string>)
    ensures Loaded(lines).Ok? <==> forall i :: 0 <= i < |lines| ==> GoodLine(lines[i])
    ensures Loaded(lines).Err? ==>
              exists i :: 0 <= i < |lines| && ParseLine(lines[i], i + 1) == Err(Loaded(lines).error)
                       && forall j :: 0 <= j < i ==> GoodLine(lines[j])
  {
    hide ParseLine, GoodLine, Image;
    if lines == [] {
    } else {
      var n := |lines| - 1;
      AcceptedIff(lines[..n]);
      GoodLineIff(lines[n], n + 1);
      if Records(lines[..n]).Err? {
        var i :| 0 <= i < n && ParseLine(lines[..n][i], i + 1) == Err(Loaded(lines[..n]).error)
                 && forall j :: 0 <= j < i ==> GoodLine(lines[..n][j]);
        assert lines[i] == lines[..n][i];
        assert forall j :: 0 <= j < i ==> lines[j] == lines[..n][j];
        GoodLineIff(lines[i], i + 1);
      } else {
        assert forall j :: 0 <= j < n ==> lines[j] == lines[..n][j];
      }
    }
  }

  // ----- The image -----

  /** Where the last data record ends. */
  function EndOf(rs: seq<Record>): nat {
    if rs == [] then 0
    else
      var (before, end) := (EndOf(rs[..|rs|-1]), End(rs[|rs|-1]));
      if end > before then end else before
  }

  lemma {:induction false} EndOfIsMaximum(rs: seq<Record>)
    ensures forall k :: 0 <= k < |rs| ==> End(rs[k]) <= EndOf(rs)
    ensures EndOf(rs) == 0 || exists k :: 0 <= k < |rs| && End(rs[k]) == EndOf(rs)
  {
    if rs == [] {
    } else {
      var rest := rs[..|rs|-1];
      EndOfIsMaximum(rest);
      if EndOf(rs) > 0 && EndOf(rs) == EndOf(rest) {
        var k :| 0 <= k < |rest| && End(rest[k]) == EndOf(rest);
        assert rs[k] == rest[k];
      }
      forall k | 0 <= k < |rs| ensures End(rs[k]) <= EndOf(rs) {
        assert k < |rest| ==> rs[k] == rest[k];
      }
    }
  }

  /** Beyond all records memory is zero. */
  lemma {:induction false} NothingBeyond(rs: seq<Record>, k: nat)
    requires k >= EndOf(rs)
    ensures At(rs, k) == 0
  {
    if rs == [] {
    } else {
      NothingBeyond(rs[..|rs|-1], k);
    }
  }

  /** Memory holds what the last record over an address says: the reading of At that does not follow its body. */
  lemma {:induction false} LastWriterWins(rs: seq<Record>, i: nat, k: nat)
    requires i < |rs| && rs[i].addr <= k < End(rs[i])
    requires forall j :: i < j < |rs| ==> !(rs[j].addr <= k < End(rs[j]))
    ensures At(rs, k) == rs[i].data[k-rs[i].addr]
  {
    if i == |rs| - 1 {
    } else {
      LastWriterWins(rs[..|rs|-1], i, k);
    }
  }

  lemma {:induction false} UntouchedIsZero(rs: seq<Record>, k: nat)
    requires forall j :: 0 <= j < |rs| ==> !(rs[j].addr <= k < End(rs[j]))
    ensures At(rs, k) == 0
  {
    if rs == [] {
    } else {
      UntouchedIsZero(rs[..|rs|-1], k);
    }
  }

  /** The data records laid over zeroed memory in order, up to the last address and on to a multiple of 16. */
  function Overlay(rs: seq<Record>): seq<byte> { seq(RoundedUp(EndOf(rs)), k requires k >= 0 => At(rs, k)) }

  /** Record k ends exactly one past the length of the image so far. */
  predicate OnePast(rs: seq<Record>, k: nat)
    requires k < |rs|
  {
    End(rs[k]) == LengthOf(rs[..k]) + 1
  }

  predicate NoneFurther(rs: seq<Record>, k: nat)
    requires k < |rs|
  {
    forall j :: k < j < |rs| ==> End(rs[j]) <= End(rs[k])
  }

  lemma {:induction false} ByteShortFrom(rs: seq<Record>, k: nat)
    requires k < |rs| && OnePast(rs, k) && NoneFurther(rs, k)
    ensures EndOf(rs) == End(rs[k]) == LengthOf(rs) + 1
  {
    var n := |rs| - 1;
    LengthAndEnd(rs[..k]);
    if k == n {
    } else {
      assert rs[..n][..k] == rs[..k];
      ByteShortFrom(rs[..n], k);
    }
  }

  lemma {:induction false} LengthAndEnd(rs: seq<Record>)
    ensures LengthOf(rs) <= EndOf(rs) <= LengthOf(rs) + 1
  {
    if rs == [] {
    } else {
      LengthAndEnd(rs[..|rs|-1]);
    }
  }

  lemma {:induction false} WhereByteShort(rs: seq<Record>) returns (k: nat)
    requires EndOf(rs) == LengthOf(rs) + 1
    ensures k < |rs| && OnePast(rs, k) && NoneFurther(rs, k)
  {
    var n := |rs| - 1;
    var rest := rs[..n];
    LengthAndEnd(rest);
    if End(rs[n]) == LengthOf(rest) + 1 {
      k := n;
    } else {
      k := WhereByteShort(rest);
      assert rest[..k] == rs[..k];
      ByteShortFrom(rest, k);
    }
  }

  /** The image comes up a byte short exactly when a record ended one past it and none reached further since;
      otherwise it reaches to the end of the last record. */
  lemma {:induction false} ByteShortIff(rs: seq<Record>)
    ensures LengthOf(rs) != EndOf(rs) <==> exists k :: 0 <= k < |rs| && OnePast(rs, k) && NoneFurther(rs, k)
    ensures LengthOf(rs) != EndOf(rs) ==> EndOf(rs) == LengthOf(rs) + 1
  {
    LengthAndEnd(rs);
    if LengthOf(rs) != EndOf(rs) {
      var k := WhereByteShort(rs);
    }
    if k :| 0 <= k < |rs| && OnePast(rs, k) && NoneFurther(rs, k) {
      ByteShortFrom(rs, k);
    }
  }

  /** The image is the overlay of the data records exactly when it is not a byte short, or that byte is a zero
      that the padding puts back. */
  lemma {:induction false} ImageIsOverlayIff(rs: seq<Record>)
    ensures Image(rs) == Overlay(rs) <==>
            LengthOf(rs) == EndOf(rs) || (LengthOf(rs) % SIZE_ROUND != 0 && At(rs, LengthOf(rs)) == 0)
  {
    LengthAndEnd(rs);
    hide At, LengthOf, EndOf, OnePast;
    var n := LengthOf(rs);
    if EndOf(rs) == n {
      forall k | n <= k < RoundedUp(n) ensures At(rs, k) == 0 {
        NothingBeyond(rs, k);
      }
      assert Image(rs) == Overlay(rs);
    } else if n % SIZE_ROUND == 0 {
      assert |Overlay(rs)| == n + SIZE_ROUND;
    } else {
      assert RoundedUp(EndOf(rs)) == RoundedUp(n);
      forall k | n < k < RoundedUp(n) ensures At(rs, k) == 0 {
        NothingBeyond(rs, k);
      }
      assert Image(rs)[n] == 0 && Overlay(rs)[n] == At(rs, n);
      if At(rs, n) == 0 {
        assert Image(rs) == Overlay(rs);
      }
    }
  }

  /** In particular, an accepted file none of whose data records ends one past the image so far gives the
      overlay of its data records. */
  lemma {:induction false} AcceptedGivesOverlay(lines: seq<string>)
    requires Records(lines).Ok?
    requires forall k :: 0 <= k < |Records(lines).value| ==> !OnePast(Records(lines).value, k)
    ensures Loaded(lines) == Ok(Overlay(Records(lines).value))
  {
    var rs := Records(lines).value;
    ByteShortIff(rs);
    ImageIsOverlayIff(rs);
    hide Image, Overlay, OnePast, Records;
  }

  // ----- Writing a program out and loading it -----

  /** A program of up to 64 KB. */
  type Program = p: seq<byte> | |p| <= CAPACITY

  type Nibble = n: nat | n < 16

  function HexChar(n: Nibble): char {
    "0123456789ABCDEF"[n]
  }

  lemma HexCharReads(n: Nibble)
    ensures HexVal(HexChar(n)) == Some(n)
  {
  }

  /** The j-th digit of the bytes. */
  function DigitAt(b: seq<byte>, j: nat): char
    requires j < 2 * |b|
  {
    HexChar(if j % 2 == 0 then b[j/2] as nat / 16 else b[j/2] as nat % 16)
  }

  function Spelled(b: seq<byte>): string { seq(2 * |b|, j requires 0 <= j < 2 * |b| => DigitAt(b, j)) }

  /** The byte that completes a sum to a multiple of 256. */
  function Complement(n: nat): byte { (256 - n % 256) % 256 }

  function DataBytes(addr: nat, data: seq<byte>): seq<byte>
    requires addr < CAPACITY && |data| < 256
  {
    [|data|, addr / 256, addr % 256, 0] + data
  }

  /** A data record, as the Hexadecimal Object File Format Specification (Intel, Revision A, 1988) has it. */
  function DataLine(addr: nat, data: seq<byte>): string
    requires addr < CAPACITY && |data| < 256
  {
    var b := DataBytes(addr, data);
    ":" + Spelled(b + [Complement(Sum(b))])
  }

  /** The end of file record. */
  function EndLine(): string { ":" + Spelled(EndBytes()) }

  function EndBytes(): seq<byte> { [0, 0, 0, 1, 255] }

  /** Where the last of the records of 16 bytes starts. */
  function LastStart(n: nat): (at: nat)
    requires n > 0
    ensures at < n <= at + 16 && at % 16 == 0
    ensures n - at == 1 <==> n % 16 == 1
  {
    (n - 1) / 16 * 16
  }

  /** A program as data records of 16 bytes, the last one possibly shorter. */
  function WriteHex(image: Program): seq<string>
    decreases |image|
  {
    if image == [] then []
    else
      var at := LastStart(|image|);
      WriteHex(image[..at]) + [DataLine(at, image[at..])]
  }

  function RecordsFor(image: Program): seq<Record>
    decreases |image|
  {
    if image == [] then []
    else
      var at := LastStart(|image|);
      RecordsFor(image[..at]) + [Record(at, image[at..])]
  }

  lemma PairOfDigits(b: seq<byte>, k: nat)
    requires k < |b|
    ensures HexVal(DigitAt(b, 2 * k)) == Some(b[k] as nat / 16)
    ensures HexVal(DigitAt(b, 2 * k + 1)) == Some(b[k] as nat % 16)
  {
    HexCharReads(b[k] as nat / 16);
    HexCharReads(b[k] as nat % 16);
    hide HexVal, HexChar;
  }

  lemma SpelledSpells(b: seq<byte>)
    ensures Spells(Spelled(b), b)
  {
    hide HexVal, DigitAt;
    forall k | 0 <= k < |b|
      ensures HexVal(Spelled(b)[2*k]) == Some(b[k] as nat / 16)
      ensures HexVal(Spelled(b)[2*k+1]) == Some(b[k] as nat % 16)
    {
      PairOfDigits(b, k);
    }
  }

  lemma {:induction false} SumMore(b: seq<byte>, c: byte)
    ensures Sum(b + [c]) == Sum(b) + c as nat
  {
    assert (b + [c])[..|b|] == b;
  }

  lemma ComplementCompletes(n: nat)
    ensures (n + Complement(n) as nat) % 256 == 0
  {
  }

  lemma TwoByteAddress(addr: nat)
    requires addr < CAPACITY
    ensures addr / 256 < 256 && addr % 256 + 256 * (addr / 256) == addr
  {
  }

  lemma DataBytesParse(addr: nat, data: seq<byte>, c: byte, i: nat)
    requires addr + |data| <= CAPACITY && addr < CAPACITY && |data| < 256
    requires Sum(DataBytes(addr, data) + [c]) % 256 == 0
    ensures ParseBytes(DataBytes(addr, data) + [c], i) == Ok(Some(Record(addr, data)))
  {
    hide Sum;
    var all := DataBytes(addr, data) + [c];
    TwoByteAddress(addr);
    assert all[4..4+|data|] == data;
    assert Address(all) == addr;
  }

  /** A data line reads back as its record. */
  lemma DataLineReads(addr: nat, data: seq<byte>, i: nat)
    requires addr + |data| <= CAPACITY && addr < CAPACITY && |data| < 256
    ensures ParseLine(DataLine(addr, data), i) == Ok(Some(Record(addr, data)))
  {
    hide DecodeHex, Spelled, Spells, Sum, Complement, DataBytes, ParseBytes;
    var b := DataBytes(addr, data);
    var all := b + [Complement(Sum(b))];
    var l := DataLine(addr, data);
    assert l[1..] == Spelled(all);
    SpelledSpells(all);
    SpelledDecodes(l[1..], all);
    SumMore(b, Complement(Sum(b)));
    ComplementCompletes(Sum(b));
    DataBytesParse(addr, data, Complement(Sum(b)), i);
  }

  lemma {:induction false} WrittenReads(image: Program)
    ensures Records(WriteHex(image)) == Ok(RecordsFor(image))
    decreases |image|
  {
    if image == [] {
    } else {
      var at := LastStart(|image|);
      WrittenReads(image[..at]);
      hide DataLine, ParseLine, LastStart;
      var before, l := WriteHex(image[..at]), DataLine(at, image[at..]);
      DataLineReads(at, image[at..], |before| + 1);
      assert (before + [l])[..|before|] == before;
    }
  }

  /** The records of a program hold it byte for byte. */
  lemma {:induction false} RecordsHold(image: Program, k: nat)
    ensures At(RecordsFor(image), k) == if k < |image| then image[k] else 0
    decreases |image|
  {
    hide LastStart;
    if image == [] {
    } else {
      var at := LastStart(|image|);
      RecordsHold(image[..at], k);
      var before, r := RecordsFor(image[..at]), Record(at, image[at..]);
      assert (before + [r])[..|before|] == before;
    }
  }

  /** They end where the program ends, but the image does not grow for a last record of one byte. */
  lemma {:induction false} RecordsReach(image: Program)
    ensures EndOf(RecordsFor(image)) == |image|
    ensures LengthOf(RecordsFor(image)) == if |image| % 16 == 1 then |image| - 1 else |image|
    decreases |image|
  {
    hide LastStart;
    if image == [] {
    } else {
      var at := LastStart(|image|);
      RecordsReach(image[..at]);
      var before, r := RecordsFor(image[..at]), Record(at, image[at..]);
      assert (before + [r])[..|before|] == before;
    }
  }

  function Padded(image: seq<byte>): seq<byte> { image + seq(RoundedUp(|image|) - |image|, i => 0) }

  lemma {:induction false} ImageIs(rs: seq<Record>, s: seq<byte>)
    requires LengthOf(rs) == |s|
    requires forall k :: 0 <= k < |s| ==> At(rs, k) == s[k]
    ensures Image(rs) == Padded(s)
  {
    hide LengthOf, At, RoundedUp;
  }

  /** What of a program survives: all of it, unless one byte stands alone in the last record. */
  function Surviving(image: Program): Program {
    if |image| % 16 == 1 then image[..|image|-1] else image
  }

  lemma EndBytesSum()
    ensures Sum(EndBytes()) == 256
  {
    var s1: seq<byte> := [0];
    var s2, s3 := s1 + [0], s1 + [0] + [0];
    var s4 := s3 + [1];
    assert EndBytes() == s4 + [255] && s1 == [] + [0];
    SumMore([], 0);
    SumMore(s1, 0);
    SumMore(s2, 0);
    SumMore(s3, 1);
    SumMore(s4, 255);
  }

  /** The end of file record is passed over; lines after it would still count. */
  lemma {:induction false} EndLineIsPassedOver(lines: seq<string>)
    ensures Records(lines + [EndLine()]) == Records(lines)
  {
    var l, b := EndLine(), EndBytes();
    assert l[1..] == Spelled(b);
    assert (lines + [l])[..|lines|] == lines;
    SpelledSpells(b);
    SpelledDecodes(l[1..], b);
    EndBytesSum();
    assert ParseBytes(b, |lines| + 1) == Ok(None) by { hide Sum; }
    hide DecodeHex, Spelled, Spells, ParseBytes;
    assert ParseLine(l, |lines| + 1) == Ok(None);
    hide ParseLine;
  }

  /** A program as a whole file. */
  function WholeFile(image: Program): seq<string> {
    WriteHex(image) + [EndLine()]
  }

  /** Writing a program of up to 64 KB as a standard file and loading it gives the program back, padded to a
      multiple of 16 bytes, except that a byte standing alone in the last record is lost. */
  lemma RoundTrip(image: Program)
    ensures Loaded(WholeFile(image)) == Ok(Padded(Surviving(image)))
  {
    WrittenReads(image);
    EndLineIsPassedOver(WriteHex(image));
    RecordsReach(image);
    var rs := RecordsFor(image);
    forall k: nat | k < |image| ensures At(rs, k) == image[k] {
      RecordsHold(image, k);
    }
    hide WriteHex, EndLine, Records, RecordsFor, At, LengthOf, EndOf, Padded, Image;
    ImageIs(rs, Surviving(image));
  }

  /** Loading gives back exactly the program that was written just when that comes in whole units of 16 bytes. */
  lemma WholeUnitsRoundTripIff(image: Program)
    ensures var r := Loaded(WholeFile(image)); r.Ok? && (r.value == image <==> |image| % SIZE_ROUND == 0)
  {
    RoundTrip(image);
    hide Loaded, WholeFile, RoundedUp;
    assert |Padded(Surviving(image))| == RoundedUp(|Surviving(image)|);
    if |image| % SIZE_ROUND == 0 {
      RoundIsRound(|image|);
      assert Padded(image) == image;
    }
  }

  lemma RoundIsRound(n: nat)
    requires n % SIZE_ROUND == 0
    ensures RoundedUp(n) == n
  {
  }

  /** A program of a single byte loads as an empty image. */
  lemma SingleByteIsLost(x: byte)
    ensures Loaded(WholeFile([x])) == Ok([])
  {
    RoundTrip([x]);
    RoundIsRound(0);
    hide Loaded, WholeFile, RoundedUp;
  }
}
