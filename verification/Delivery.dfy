/** From a HEX file to a node: what the loader makes of a file, and what a node has after downloading it. */
module Delivery {
  import opened Wrappers
  import IntelHex
  import HexFiles
  import opened Boot

  /** The bytes of an image as the boot server sends them. */
  function Bytes(image: seq<IntelHex.byte>): seq<bv8> {
    seq(|image|, i requires 0 <= i < |image| => image[i] as bv8)
  }

  lemma LoadedSize(lines: seq<string>)
    requires IntelHex.Loaded(lines).Ok?
    ensures |IntelHex.Loaded(lines).value| <= WORD && |IntelHex.Loaded(lines).value| % UNIT == 0
  {
    hide IntelHex.Records, IntelHex.LengthOf, IntelHex.RoundedUp;
    IntelHex.LengthFits(IntelHex.Records(lines).value);
    assert |IntelHex.Loaded(lines).value| == IntelHex.RoundedUp(IntelHex.LengthOf(IntelHex.Records(lines).value));
  }

  /** Whatever file is accepted, a node that downloads it ends up with exactly the loaded image, unless that
      fills 64 KB. */
  lemma LoadedImageArrivesIff(lines: seq<string>, images: Images, id: bv16)
    requires IntelHex.Loaded(lines).Ok?
    requires id in images && images[id] == Bytes(IntelHex.Loaded(lines).value)
    ensures Downloaded(images, id) == if |images[id]| < 65536 then Some(images[id]) else None
  {
    LoadedSize(lines);
    hide Downloaded, IntelHex.Loaded;
    DownloadedIff(images, id);
  }

  /** A program of up to 64 KB written as a standard HEX file, loaded and downloaded arrives as it was exactly
      when it comes in whole units of 16 bytes and is smaller than 64 KB. */
  lemma WrittenProgramArrivesIff(image: seq<IntelHex.byte>, images: Images, id: bv16)
    requires |image| <= 65536 && IntelHex.Loaded(HexFiles.WholeFile(image)).Ok?
    requires id in images && images[id] == Bytes(IntelHex.Loaded(HexFiles.WholeFile(image)).value)
    ensures Downloaded(images, id) == Some(Bytes(image)) <==> |image| % 16 == 0 && |image| < 65536
  {
    var lines := HexFiles.WholeFile(image);
    LoadedSize(lines);
    LoadedImageArrivesIff(lines, images, id);
    HexFiles.WholeUnitsRoundTripIff(image);
    hide Downloaded, IntelHex.Loaded, HexFiles.WholeFile;
  }
}
