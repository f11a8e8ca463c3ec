/** Loading a program from an Intel HEX file, as lines of text.  A data record is a colon, then in hexadecimal its
    length, address, type and data, and a byte that makes the sum of all bytes a multiple of 256. */
module IntelHex {
  import opened Wrappers

  type byte = n: nat | n < 256

  const CAPACITY := 0x1_0000
  const SIZE_ROUND := 16

  datatype Record = Record(addr: nat, data: seq<byte>)

  /** Why a file is turned down.  A record cut short is reported without its line number; a record that runs
      past 64 KB makes the program crash. */
  datatype Error =
    | BadHex(line: nat)
    | TooFewBytes(line: nat, have: nat)
    | BadChecksum(line: nat, sum: int)
    | CutShort(have: nat, want: nat)
    | Overrun(line: nat)

  // ----- One line -----

  function HexVal(c: char): (r: Option<nat>)
    ensures r.Some? ==> r.value < 16
  {
    if '0' <= c <= '9' then Some(c as nat - '0' as nat)
    else if 'a' <= c <= 'f' then Some(c as nat - 'a' as nat + 10)
    else if 'A' <= c <= 'F' then Some(c as nat - 'A' as nat + 10)
    else None
  }

  predicate AllHex(s: string) { forall k :: 0 <= k < |s| ==> HexVal(s[k]).Some? }

  function DecodeHex(s: string): (r: Option<seq<byte>>)
    ensures r.Some? ==> |s| == 2 * |r.value|
  {
    if |s| % 2 == 1 || !AllHex(s) then None
    else Some(seq(|s| / 2, k requires 0 <= k < |s| / 2 => 16 * HexVal(s[2*k]).value + HexVal(s[2*k+1]).value))
  }

  function Sum(b: seq<byte>): nat { if b == [] then 0 else Sum(b[..|b|-1]) + b[|b|-1] as nat }

  /** Eight bits read as a signed number. */
  function Signed(n: int): (r: int)
    ensures -128 <= r < 128 && r % 256 == n % 256
  {
    if n % 256 < 128 then n % 256 else n % 256 - 256
  }

  lemma Residue(n: int)
    ensures exists q :: Signed(n) == n + 256 * q
  {
    assert n == n / 256 * 256 + n % 256;
    if n % 256 < 128 {
      assert Signed(n) == n + 256 * (-(n / 256));
    } else {
      assert Signed(n) == n + 256 * (-(n / 256) - 1);
    }
  }

  lemma SignedShifted(n: int, q: int)
    ensures Signed(n + 256 * q) == Signed(n)
  {
    assert (n + 256 * q) % 256 == n % 256;
  }

  /** Adding up in eight bits loses nothing but multiples of 256. */
  lemma SignedSum(m: int, n: int)
    ensures Signed(Signed(m) + Signed(n)) == Signed(m + n)
  {
    Residue(m);
    Residue(n);
    hide Signed;
    var p :| Signed(m) == m + 256 * p;
    var q :| Signed(n) == n + 256 * q;
    SignedShifted(m + n, p + q);
    assert Signed(m) + Signed(n) == m + n + 256 * (p + q);
  }

  function Address(b: seq<byte>): nat
    requires |b| >= 3
  {
    b[2] as nat + 256 * b[1] as nat
  }

  /** The data record in the bytes of a line, if it is one. */
  function ParseBytes(b: seq<byte>, i: nat): (r: Result<Option<Record>, Error>)
    ensures r.Ok? && r.value.Some? ==> Fits(r.value.value)
  {
    if |b| < 5 then Err(TooFewBytes(i, |b|))
    else if Sum(b) % 256 != 0 then Err(BadChecksum(i, Signed(Sum(b))))
    else if |b| < 5 + b[0] as nat then Err(CutShort(|b|, 5 + b[0] as nat))
    else if b[3] != 0 then Ok(None)
    else if Address(b) + b[0] as nat > CAPACITY then Err(Overrun(i))
    else Ok(Some(Record(Address(b), b[4..4+b[0] as nat])))
  }

  /** The data record on a line, if there is one. */
  function ParseLine(l: string, i: nat): (r: Result<Option<Record>, Error>)
    ensures r.Ok? && r.value.Some? ==> Fits(r.value.value)
  {
    if l == [] || l[0] != ':' then Ok(None)
    else
      match DecodeHex(l[1..])
      case None => Err(BadHex(i))
      case Some(b) => ParseBytes(b, i)
  }

  // ----- All lines -----

  function End(r: Record): nat { r.addr + |r.data| }

  predicate Fits(r: Record) { End(r) <= CAPACITY }

  predicate AllFit(rs: seq<Record>) { forall k :: 0 <= k < |rs| ==> Fits(rs[k]) }

  /** The data records of a file, in order, or its first error. */
  function Records(lines: seq<string>): (r: Result<seq<Record>, Error>)
    ensures r.Ok? ==> AllFit(r.value)
  {
    if lines == [] then Ok([])
    else
      var n := |lines|;
      var before := Records(lines[..n-1]);
      if before.Err? then before
      else
        match ParseLine(lines[n-1], n)
        case Err(e) => Err(e)
        case Ok(None) => before
        case Ok(Some(r)) => Ok(before.value + [r])
  }

  /** The length the image grows to: a record that ends one past it does not make it grow. */
  function LengthOf(rs: seq<Record>): nat {
    if rs == [] then 0
    else
      var (before, end) := (LengthOf(rs[..|rs|-1]), End(rs[|rs|-1]));
      if end as int - 1 > before then end else before
  }

  /** The byte at an address: the last record to write it wins, and zero if there is none. */
  function At(rs: seq<Record>, k: nat): byte {
    if rs == [] then 0
    else
      var r := rs[|rs|-1];
      if r.addr <= k < End(r) then r.data[k-r.addr] else At(rs[..|rs|-1], k)
  }

  function RoundedUp(n: nat): (r: nat)
    ensures n <= r < n + SIZE_ROUND && r % SIZE_ROUND == 0
  {
    if n % SIZE_ROUND == 0 then n else n + SIZE_ROUND - n % SIZE_ROUND
  }

  function Image(rs: seq<Record>): (r: seq<byte>)
    ensures |r| == RoundedUp(LengthOf(rs))
  {
    seq(RoundedUp(LengthOf(rs)), k requires k >= 0 => if k < LengthOf(rs) then At(rs, k) else 0)
  }

  function Loaded(lines: seq<string>): Result<seq<byte>, Error> {
    match Records(lines)
    case Err(e) => Err(e)
    case Ok(rs) => Ok(Image(rs))
  }

  lemma {:induction false} LengthFits(rs: seq<Record>)
    requires AllFit(rs)
    ensures LengthOf(rs) <= CAPACITY
  {
    if rs == [] {
    } else {
      LengthFits(rs[..|rs|-1]);
    }
  }

  /** Once a line is in error, so is the file, whatever follows. */
  lemma {:induction false} ErrorStays(lines: seq<string>, i: nat)
    requires i <= |lines| && Records(lines[..i]).Err?
    ensures Records(lines) == Records(lines[..i])
  {
    hide ParseLine;
    if i < |lines| {
      assert lines[..|lines|-1][..i] == lines[..i];
      ErrorStays(lines[..|lines|-1], i);
    } else {
      assert lines[..i] == lines;
    }
  }

  // ----- The loader as it runs -----

  method CheckSum(b: seq<byte>) returns (sum: int)
    ensures sum == Signed(Sum(b))
  {
    sum := 0;
    for i := 0 to |b|
      invariant sum == Signed(Sum(b[..i]))
    {
      assert b[..i+1][..i] == b[..i];
      SignedSum(Sum(b[..i]), b[i]);
      hide Signed;
      sum := Signed(sum + Signed(b[i]));
    }
    assert b[..|b|] == b;
  }

  method CopyIn(mem: array<byte>, addr: nat, data: seq<byte>)
    requires addr + |data| <= mem.Length
    modifies mem
    ensures forall k :: 0 <= k < mem.Length ==>
              mem[k] == if addr <= k < addr + |data| then data[k-addr] else old(mem[k])
  {
    for i := 0 to |data|
      invariant forall k :: 0 <= k < mem.Length ==>
                  mem[k] == if addr <= k < addr + i then data[k-addr] else old(mem[k])
    {
      mem[addr+i] := data[i];
    }
  }

  method ReadLine(l: string, i: nat) returns (r: Result<Option<Record>, Error>)
    ensures r == ParseLine(l, i)
  {
    if l == [] || l[0] != ':' {
      return Ok(None);
    }
    var d := DecodeHex(l[1..]);
    if d.None? {
      return Err(BadHex(i));
    }
    var b := d.value;
    if |b| < 5 {
      return Err(TooFewBytes(i, |b|));
    }
    var sum := CheckSum(b);
    if sum != 0 {
      return Err(BadChecksum(i, sum));
    }
    if |b| < 5 + b[0] as nat {
      return Err(CutShort(|b|, 5 + b[0] as nat));
    }
    if b[3] != 0 {
      return Ok(None);
    }
    if Address(b) + b[0] as nat > CAPACITY {
      return Err(Overrun(i));
    }
    return Ok(Some(Record(Address(b), b[4..4+b[0] as nat])));
  }

  method ReadHex(lines: seq<string>) returns (r: Result<seq<byte>, Error>)
    ensures r == Loaded(lines)
  {
    hide ParseLine, Image;
    var mem := new byte[CAPACITY](_ => 0);
    var len := 0;
    ghost var rs := [];
    for i := 0 to |lines|
      invariant Records(lines[..i]) == Ok(rs) && AllFit(rs)
      invariant len == LengthOf(rs)
      invariant forall k :: 0 <= k < CAPACITY ==> mem[k] == At(rs, k)
    {
      assert lines[..i+1][..i] == lines[..i];
      var p := ReadLine(lines[i], i + 1);
      match p {
        case Err(e) =>
          ErrorStays(lines, i + 1);
          return Err(e);
        case Ok(None) =>
        case Ok(Some(rec)) =>
          if End(rec) - 1 > len {
            len := End(rec);
          }
          CopyIn(mem, rec.addr, rec.data);
          assert (rs + [rec])[..|rs|] == rs;
          rs := rs + [rec];
      }
    }
    assert lines[..|lines|] == lines;
    LengthFits(rs);
    var image := TakeImage(mem, len, rs);
    r := Ok(image);
  }

  /** The image is copied out of memory up to its length, and padded with zeros. */
  method TakeImage(mem: array<byte>, len: nat, ghost rs: seq<Record>) returns (image: seq<byte>)
    requires mem.Length == CAPACITY && len <= CAPACITY && len == LengthOf(rs)
    requires forall k :: 0 <= k < len ==> mem[k] == At(rs, k)
    ensures image == Image(rs)
  {
    var size := len;
    if size % SIZE_ROUND != 0 {
      size := size + SIZE_ROUND - size % SIZE_ROUND;
    }
    var sw2 := new byte[size](_ => 0);
    CopyIn(sw2, 0, mem[..len]);
    image := sw2[..];
  }
}
