/** The firmware update container: scrambled payload behind a small header. */
module UpdateTool {
  import opened LittleEndian

  // ---- Byte scrambling ----

  function SwapNibbles(b: bv8): bv8 { (b >> 4) | (b << 4) }

  function Descrambled(b: bv8): bv8 { SwapNibbles(b ^ 0x7A) }

  function Scrambled(b: bv8): bv8 { SwapNibbles(b) ^ 0x7A }

  lemma {:induction false} ScrambleInverts(b: bv8)
    ensures Descrambled(Scrambled(b)) == b && Scrambled(Descrambled(b)) == b
  {}

  function DescrambledAll(s: seq<bv8>): seq<bv8> {
    seq(|s|, i requires 0 <= i < |s| => Descrambled(s[i]))
  }

  function ScrambledAll(s: seq<bv8>): seq<bv8> {
    seq(|s|, i requires 0 <= i < |s| => Scrambled(s[i]))
  }

  /** The two scramblings undo each other on byte strings of any length. */
  lemma {:induction false} ScramblingsInvert(s: seq<bv8>)
    ensures DescrambledAll(ScrambledAll(s)) == s && ScrambledAll(DescrambledAll(s)) == s
  {
    forall i | 0 <= i < |s|
      ensures DescrambledAll(ScrambledAll(s))[i] == s[i] && ScrambledAll(DescrambledAll(s))[i] == s[i]
    {
      ScrambleInverts(s[i]);
    }
  }

  // dm: in place on a byte array.
  method Dm(arr: array<bv8>)
    modifies arr
    ensures arr[..] == DescrambledAll(old(arr[..]))
  {
    var i := 0;
    while i < arr.Length
      invariant 0 <= i <= arr.Length
      invariant forall j :: 0 <= j < i ==> arr[j] == Descrambled(old(arr[j]))
      invariant forall j :: i <= j < arr.Length ==> arr[j] == old(arr[j])
    {
      var b := arr[i] ^ 0x7A;
      arr[i] := (b >> 4) | (b << 4);
      i := i + 1;
    }
  }

  // md: in place on a byte array.
  method Md(arr: array<bv8>)
    modifies arr
    ensures arr[..] == ScrambledAll(old(arr[..]))
  {
    var i := 0;
    while i < arr.Length
      invariant 0 <= i <= arr.Length
      invariant forall j :: 0 <= j < i ==> arr[j] == Scrambled(old(arr[j]))
      invariant forall j :: i <= j < arr.Length ==> arr[j] == old(arr[j])
    {
      var b := arr[i];
      b := (b >> 4) | (b << 4);
      arr[i] := b ^ 0x7A;
      i := i + 1;
    }
  }

  method ScrambleBytes(s: seq<bv8>) returns (r: seq<bv8>)
    ensures r == ScrambledAll(s)
  {
    var arr := new bv8[|s|](i requires 0 <= i < |s| => s[i]);
    assert arr[..] == s;
    Md(arr);
    r := arr[..];
  }

  method DescrambleBytes(s: seq<bv8>) returns (r: seq<bv8>)
    ensures r == DescrambledAll(s)
  {
    var arr := new bv8[|s|](i requires 0 <= i < |s| => s[i]);
    assert arr[..] == s;
    Dm(arr);
    r := arr[..];
  }

  // ---- The container ----

  // "FD03", "FC02", "FB01".
  const FD03: seq<bv8> := [0x46, 0x44, 0x30, 0x33]
  const FC02: seq<bv8> := [0x46, 0x43, 0x30, 0x32]
  const FB01: seq<bv8> := [0x46, 0x42, 0x30, 0x31]

  const HEADER_SIZE: nat := 16
  const DIGEST_SIZE: nat := 32

  function Signature(kind: int): seq<bv8> {
    if kind == 3 then FD03 else if kind == 2 then FC02 else FB01
  }

  function BlockSize(kind: int): nat {
    if kind == 3 || kind == 2 then 64 else 131072
  }

  // The digest in hexadecimal, as an abstract function.
  type Digest = seq<bv8> -> seq<bv8>

  function Header(kind: int, device: nat): seq<bv8> {
    Signature(kind) + Bytes(4, 0) + Bytes(4, 0x7FFF_FFFF) + Bytes(2, device) + [0] + [0x13]
  }

  function Zeros(n: nat): seq<bv8> { seq(n, i => 0) }

  function Container(digest: seq<bv8>, payload: seq<bv8>, kind: int, device: nat): seq<bv8> {
    Header(kind, device) + ScrambledAll(digest) + Zeros(BlockSize(kind) - HEADER_SIZE - DIGEST_SIZE)
    + ScrambledAll(payload)
  }

  // What convert_bin writes.
  method ConvertBin(digest: Digest, payload: seq<bv8>, kind: int, device: nat) returns (file: seq<bv8>)
    requires device < 0x1_0000 && |digest(payload)| == DIGEST_SIZE
    ensures file == Container(digest(payload), payload, kind, device)
  {
    var blockSize := if kind == 3 then 64 else if kind == 2 then 64 else 131072;
    var sig := if kind == 3 then FD03 else if kind == 2 then FC02 else FB01;
    file := sig + Bytes(4, 0) + Bytes(4, 0x7FFF_FFFF) + Bytes(2, device) + [0] + [0x13];
    var scrambled := ScrambleBytes(digest(payload));
    file := file + scrambled;
    file := file + Zeros(blockSize - |file|);
    var body := ScrambleBytes(payload);
    file := file + body;
  }

  // TooShort stands for the exception that unpacking a short header raises.
  datatype Extraction =
    | TooShort
    | NotAnUpdate
    | Update(signature: seq<bv8>, minVersion: nat, maxVersion: nat, device: nat, isOptional: bool,
             digest: seq<bv8>, payload: seq<bv8>)

  // What extract_bin prints and writes.
  method ExtractBin(file: seq<bv8>) returns (r: Extraction)
    ensures r == Extracted(file)
  {
    if |file| < HEADER_SIZE {
      return TooShort;
    }
    var sig := file[..4];
    if sig != FC02 && sig != FD03 && sig != FB01 {
      return NotAnUpdate;
    }
    var md5 := DescrambleBytes(Read(file, HEADER_SIZE, DIGEST_SIZE));
    var position := if sig == FC02 || sig == FD03 then 64 else 131072;
    var payload := DescrambleBytes(ReadAll(file, position));
    return Update(sig, Value(file[4..8]), Value(file[8..12]), Value(file[12..14]), file[14] != 0, md5, payload);
  }

  // Reading past the end of a file reads less, or nothing.
  function Read(file: seq<bv8>, position: nat, n: nat): seq<bv8> {
    var rest := ReadAll(file, position);
    if |rest| <= n then rest else rest[..n]
  }

  function ReadAll(file: seq<bv8>, position: nat): seq<bv8> {
    if position <= |file| then file[position..] else []
  }

  function Extracted(file: seq<bv8>): Extraction {
    if |file| < HEADER_SIZE then TooShort
    else if file[..4] !in {FC02, FD03, FB01} then NotAnUpdate
    else Update(file[..4], Value(file[4..8]), Value(file[8..12]), Value(file[12..14]), file[14] != 0,
                DescrambledAll(Read(file, HEADER_SIZE, DIGEST_SIZE)),
                DescrambledAll(ReadAll(file, if file[..4] == FB01 then 131072 else 64)))
  }

  lemma {:induction false} SlicesOf(sig: seq<bv8>, a: seq<bv8>, b: seq<bv8>, c: seq<bv8>, rest: seq<bv8>)
    requires |sig| == |a| == |b| == 4 && |c| == 2
    ensures var file := sig + a + b + c + [0] + [0x13] + rest;
            file[..4] == sig && file[4..8] == a && file[8..12] == b && file[12..14] == c && file[14] == 0
  {}

  lemma {:induction false} FieldValues(device: nat)
    requires device < 0x1_0000
    ensures Value(Bytes(4, 0)) == 0 && Value(Bytes(4, 0x7FFF_FFFF)) == 0x7FFF_FFFF && Value(Bytes(2, device)) == device
  {
    assert Power256(1) == 256;
    assert Power256(3) == 0x100_0000;
    ValueOfBytes(4, 0);
    ValueOfBytes(4, 0x7FFF_FFFF);
    ValueOfBytes(2, device);
  }

  // The header fields of a file, as written for a type and a device.
  predicate HasHeader(file: seq<bv8>, kind: int, device: nat) {
    |file| >= HEADER_SIZE && file[..4] == Signature(kind) && Value(file[4..8]) == 0
    && Value(file[8..12]) == 0x7FFF_FFFF && Value(file[12..14]) == device && file[14] == 0
  }

  lemma {:induction false} HeaderFields(file: seq<bv8>, kind: int, device: nat, rest: seq<bv8>)
    requires device < 0x1_0000 && file == Header(kind, device) + rest
    ensures HasHeader(file, kind, device) && |Header(kind, device)| == HEADER_SIZE
  {
    SlicesOf(Signature(kind), Bytes(4, 0), Bytes(4, 0x7FFF_FFFF), Bytes(2, device), rest);
    FieldValues(device);
  }

  lemma {:induction false} Grouped(a: seq<bv8>, b: seq<bv8>, c: seq<bv8>, d: seq<bv8>)
    ensures a + b + c + d == a + (b + c + d)
  {}

  // The parts of a file behind its header.
  lemma {:induction false} PartsOf(file: seq<bv8>, header: seq<bv8>, d: seq<bv8>, gap: seq<bv8>, p: seq<bv8>,
                                   block: nat)
    requires file == header + d + gap + p && |header| == HEADER_SIZE && |d| == DIGEST_SIZE
    requires block == HEADER_SIZE + DIGEST_SIZE + |gap|
    ensures Read(file, HEADER_SIZE, DIGEST_SIZE) == d && ReadAll(file, block) == p
  {
    assert file[HEADER_SIZE..] == d + gap + p;
  }

  // What extraction makes of a file with such a header and these parts.
  lemma {:induction false} ExtractedParts(file: seq<bv8>, header: seq<bv8>, d: seq<bv8>, gap: seq<bv8>, p: seq<bv8>,
                                          kind: int, device: nat)
    requires HasHeader(file, kind, device) && file == header + d + gap + p && |header| == HEADER_SIZE
    requires |d| == DIGEST_SIZE && |gap| == BlockSize(kind) - HEADER_SIZE - DIGEST_SIZE
    ensures Extracted(file) ==
            Update(Signature(kind), 0, 0x7FFF_FFFF, device, false, DescrambledAll(d), DescrambledAll(p))
  {
    PartsOf(file, header, d, gap, p, BlockSize(kind));
  }

  /** Extracting a built update gives back the payload, its digest and every header field, whatever the
      payload and the type. */
  lemma {:induction false} UpdateRoundTrip(digest: seq<bv8>, payload: seq<bv8>, kind: int, device: nat)
    requires device < 0x1_0000 && |digest| == DIGEST_SIZE
    ensures Extracted(Container(digest, payload, kind, device)) ==
            Update(Signature(kind), 0, 0x7FFF_FFFF, device, false, digest, payload)
  {
    var gap := Zeros(BlockSize(kind) - HEADER_SIZE - DIGEST_SIZE);
    var header, d, p := Header(kind, device), ScrambledAll(digest), ScrambledAll(payload);
    var file := Container(digest, payload, kind, device);
    Grouped(header, d, gap, p);
    HeaderFields(file, kind, device, d + gap + p);
    ExtractedParts(file, header, d, gap, p, kind, device);
    ScramblingsInvert(digest);
    ScramblingsInvert(payload);
  }

  /** The layout of a built update, in numbers: FD03, FC02 or FB01 in letters; the versions 0 and 2^31 - 1 and the
      device code; a zero and the byte 0x13; the scrambled digest; zeros up to byte 64 or 131072; and the
      scrambled payload. */
  lemma {:induction false} LayoutInNumbers(digest: seq<bv8>, payload: seq<bv8>, kind: int, device: nat)
    requires device < 0x1_0000 && |digest| == 32
    ensures var file := Container(digest, payload, kind, device);
            var block := if kind == 2 || kind == 3 then 64 else 131072;
            && |file| == block + |payload|
            && file[..4] == (if kind == 3 then [0x46, 0x44, 0x30, 0x33]
                             else if kind == 2 then [0x46, 0x43, 0x30, 0x32] else [0x46, 0x42, 0x30, 0x31])
            && Value(file[4..8]) == 0 && Value(file[8..12]) == 2147483647 && Value(file[12..14]) == device
            && file[14] == 0 && file[15] == 0x13
            && file[16..48] == ScrambledAll(digest)
            && (forall k :: 48 <= k < block ==> file[k] == 0)
            && file[block..] == ScrambledAll(payload)
  {
    var gap := Zeros(BlockSize(kind) - HEADER_SIZE - DIGEST_SIZE);
    var header, d, p := Header(kind, device), ScrambledAll(digest), ScrambledAll(payload);
    var file := Container(digest, payload, kind, device);
    Grouped(header, d, gap, p);
    HeaderFields(file, kind, device, d + gap + p);
    assert header[15] == 0x13;
    Sections(header, d, gap, p);
  }

  lemma {:induction false} Sections(header: seq<bv8>, d: seq<bv8>, gap: seq<bv8>, p: seq<bv8>)
    requires |header| == 16 && |d| == 32
    ensures var file := header + d + gap + p;
            && file[15] == header[15] && file[16..48] == d && file[48 + |gap|..] == p
            && forall k :: 48 <= k < 48 + |gap| ==> file[k] == gap[k - 48]
  {}

  /** The scrambling in numbers: it is fixed by these nine values and by how it treats a bitwise sum. */
  lemma {:induction false} ScramblingInNumbers(a: bv8, b: bv8)
    ensures Scrambled(a ^ b) == Scrambled(a) ^ Scrambled(b) ^ 0x7A
    ensures Scrambled(0) == 0x7A
    ensures Scrambled(0x01) == 0x6A && Scrambled(0x02) == 0x5A && Scrambled(0x04) == 0x3A && Scrambled(0x08) == 0xFA
    ensures Scrambled(0x10) == 0x7B && Scrambled(0x20) == 0x78 && Scrambled(0x40) == 0x7E && Scrambled(0x80) == 0x72
  {}

  /** What is made of any file, in numbers: too short below 16 bytes; no update without one of the three
      signatures; and else the fields at their places, with the digest and the payload as far as they reach. */
  lemma {:induction false} ExtractionInNumbers(file: seq<bv8>)
    ensures Extracted(file).TooShort? <==> |file| < 16
    ensures |file| >= 16 ==>
              var known := file[..4] in {[0x46, 0x44, 0x30, 0x33], [0x46, 0x43, 0x30, 0x32], [0x46, 0x42, 0x30, 0x31]};
              (Extracted(file).Update? <==> known) && (Extracted(file).NotAnUpdate? <==> !known)
    ensures Extracted(file).Update? ==>
              var u := Extracted(file);
              var start := if file[..4] == [0x46, 0x42, 0x30, 0x31] then 131072 else 64;
              && u.signature == file[..4]
              && u.minVersion == Value(file[4..8]) && u.maxVersion == Value(file[8..12])
              && u.device == file[12] as int + 256 * file[13] as int && (u.isOptional <==> file[14] != 0)
              && u.digest == DescrambledAll(file[16..if |file| < 48 then |file| else 48])
              && u.payload == DescrambledAll(if start <= |file| then file[start..] else [])
  {
    if Extracted(file).Update? {
      TwoBytes(file[12..14]);
      DigestPart(file);
    }
  }

  lemma {:induction false} TwoBytes(b: seq<bv8>)
    requires |b| == 2
    ensures Value(b) == b[0] as int + 256 * b[1] as int
  {
    assert b[1..] == [b[1]] && [b[1]][1..] == [];
    assert Value([b[1]]) == b[1] as int + 256 * Value([]);
  }

  lemma {:induction false} DigestPart(file: seq<bv8>)
    requires |file| >= 16
    ensures Read(file, 16, 32) == file[16..if |file| < 48 then |file| else 48]
  {
    if |file| < 48 {
      assert file[16..] == file[16..|file|];
    } else {
      assert file[16..][..32] == file[16..48];
    }
  }
}
