/** The recording parser: a file of timed records, each holding an audio packet whose numbers are
    written in a prefix code. */
module Recording {
  import opened Bytes

  /** A byte of a buffer; beyond the end, what JavaScript's bitwise operators make of undefined. */
  function At(buffer: seq<byte>, i: nat): byte { if i < |buffer| then buffer[i] else 0 }

  /** Bitwise or. */
  function Or(a: nat, b: nat): nat {
    if a == 0 then b
    else if b == 0 then a
    else 2 * Or(a / 2, b / 2) + if a % 2 == 1 || b % 2 == 1 then 1 else 0
  }

  function Bit(n: nat, k: nat): bool {
    if k == 0 then n % 2 == 1 else Bit(n / 2, k - 1)
  }

  /** Bit by bit. */
  lemma {:induction false} OrIsBitwise(a: nat, b: nat, k: nat)
    ensures Bit(Or(a, b), k) <==> Bit(a, k) || Bit(b, k)
    decreases k
  {
    NoBits(k);
    if a != 0 && b != 0 {
      var low := if a % 2 == 1 || b % 2 == 1 then 1 else 0;
      assert Or(a, b) / 2 == Or(a / 2, b / 2) && Or(a, b) % 2 == low;
      if k > 0 { OrIsBitwise(a / 2, b / 2, k - 1); }
    }
  }

  lemma {:induction false} NoBits(k: nat)
    ensures !Bit(0, k)
  {
    if k > 0 { NoBits(k - 1); }
  }

  /** The word of four bytes, most significant first. */
  function Word(a: byte, b: byte, c: byte, d: byte): uint32 {
    (((a as int) * 256 + b) * 256 + c) * 256 + d
  }

  /** readVarInt: the value computed, and the number of bytes taken. The shift counts of the 9-byte
      form are taken modulo 32, and in the 3- and 4-byte forms the mask applies to shifted bits only. */
  function ReadVarInt(buffer: seq<byte>, position: nat): (int, nat) {
    var head := At(buffer, position);
    var (b1, b2, b3, b4) := (At(buffer, position + 1), At(buffer, position + 2), At(buffer, position + 3), At(buffer, position + 4));
    var (b5, b6, b7, b8) := (At(buffer, position + 5), At(buffer, position + 6), At(buffer, position + 7), At(buffer, position + 8));
    if head < 0x80 then (head, 1)
    else if head < 0xC0 then (head % 64 * 256 + b1, 2)
    else if 0xF0 <= head < 0xF4 then (Signed(Word(b1, b2, b3, b4)), 5)
    else if 0xF4 <= head < 0xF8 then (Signed(Wrap(Or(Word(b1, b2, b3, b4), Word(b5, b6, b7, b8)))), 9)
    else if 0xFC <= head then (-1 - head % 4, 1)
    else if 0xE0 <= head < 0xF0 then (Word(0, b1, b2, b3), 4)
    else if 0xC0 <= head < 0xE0 then (Word(0, 0, b1, b2), 3)
    else (0, 0)
  }

  datatype Extracted = Skipped | Data(payload: seq<byte>) | Raised

  /** extractOpusData: the payload behind a sequence number and a length; bytes missing at the end of
      the buffer are zero, and a length beyond the whole buffer means an end-of-transmission packet. */
  function ExtractOpusData(buffer: seq<byte>): Extracted {
    var (_, seqBytes) := ReadVarInt(buffer, 1);
    var (length, lenBytes) := ReadVarInt(buffer, 1 + seqBytes);
    if length < 0 then Raised
    else if length > |buffer| then Skipped
    else Data(Copied(buffer, 1 + seqBytes + lenBytes, length))
  }

  /** A zeroed buffer into which the bytes from start on have been copied, as far as there are any. */
  function Copied(buffer: seq<byte>, start: nat, length: nat): (data: seq<byte>)
    ensures |data| == length && forall i :: 0 <= i < length ==> data[i] == At(buffer, start + i)
  {
    seq<byte>(length, i requires 0 <= i < length => At(buffer, start + i))
  }

  /** The steps of extractOpusData: the pointer moves on, and the buffer is filled. */
  method FillOpusData(buffer: seq<byte>) returns (data: Extracted)
    ensures data == ExtractOpusData(buffer)
  {
    var bufferPointer := 1;
    var (_, seqBytes) := ReadVarInt(buffer, bufferPointer);
    bufferPointer := bufferPointer + seqBytes;
    var (length, lenBytes) := ReadVarInt(buffer, bufferPointer);
    bufferPointer := bufferPointer + lenBytes;
    if length < 0 {
      return Raised;
    }
    var dataBuffer := new byte[length](_ => 0);
    for i := 0 to Min(length, Max(0, |buffer| - bufferPointer))
      invariant forall j :: 0 <= j < length ==> dataBuffer[j] == if j < i then At(buffer, bufferPointer + j) else 0
    {
      dataBuffer[i] := buffer[bufferPointer + i];
    }
    if length > |buffer| {
      return Skipped;
    }
    assert forall j :: 0 <= j < length ==> dataBuffer[j] == At(buffer, bufferPointer + j);
    assert dataBuffer[..] == Copied(buffer, bufferPointer, length);
    data := Data(dataBuffer[..]);
  }

  function ExtractData(buffer: seq<byte>): Extracted {
    if At(buffer, 0) >= 128 then ExtractOpusData(buffer) else Skipped
  }

  /** Reading n bytes into a zeroed buffer from what is left of the file. */
  function Read(file: seq<byte>, n: nat): (data: seq<byte>)
    ensures |data| == n
  {
    Copied(file, 0, n)
  }

  const RECORD_HEADER := 12

  /** The payloads found, and whether the parser stopped with an exception. */
  datatype Parsed = Parsed(payloads: seq<seq<byte>>, raised: bool)

  /** One record off the front of the file. */
  function RecordLength(file: seq<byte>): int { Signed(U32(Read(file, RECORD_HEADER)[8..12])) }

  function Drop(file: seq<byte>, n: nat): (rest: seq<byte>)
    ensures |rest| == Max(0, |file| - n)
  {
    if n <= |file| then file[n..] else []
  }

  function Parse(file: seq<byte>): Parsed
    decreases |file|
  {
    if file == [] then Parsed([], false)
    else
      var len := RecordLength(file);
      if len < 0 then Parsed([], true)
      else
        var behind := Drop(file, RECORD_HEADER);
        match ExtractData(Read(behind, len))
        case Raised => Parsed([], true)
        case Skipped => Parse(Drop(behind, len))
        case Data(payload) =>
          var rest := Parse(Drop(behind, len));
          Parsed([payload] + rest.payloads, rest.raised)
  }

  /** The record loop, reading on from a position of the file. */
  method ParseFile(file: seq<byte>) returns (parsed: Parsed)
    ensures parsed == Parse(file)
  {
    var payloads: seq<seq<byte>> := [];
    var running := true;
    var left := file;
    while running
      invariant running || left == []
      invariant Parse(file) == Parsed(payloads + Parse(left).payloads, Parse(left).raised)
      decreases running, |left|
    {
      var header := Read(left, RECORD_HEADER);
      var bytesRead := Min(RECORD_HEADER, |left|);
      if bytesRead == 0 {
        running := false;
        continue;
      }
      var len := Signed(U32(header[8..12]));
      left := Drop(left, RECORD_HEADER);
      if len < 0 {
        return Parsed(payloads, true);
      }
      var chunk := Read(left, len);
      left := Drop(left, len);
      var data := ExtractData(chunk);
      match data {
        case Raised => return Parsed(payloads, true);
        case Skipped =>
        case Data(payload) => payloads := payloads + [payload];
      }
    }
    parsed := Parsed(payloads, false);
  }

  // The prefix code that the numbers are written in.

  /** How many bytes a number has whose first byte is head; 0 for the unsupported forms. */
  function Width(head: byte): nat {
    if head / 128 == 0 then 1
    else if head / 64 == 2 then 2
    else if head / 32 == 6 then 3
    else if head / 16 == 14 then 4
    else if head / 4 == 60 then 5
    else if head / 4 == 61 then 9
    else if head / 4 == 63 then 1
    else 0
  }

  /** A number in one of the supported forms. */
  predicate IsVarInt(v: seq<byte>) { v != [] && |v| == Width(v[0]) }

  datatype Form = Bits7 | Bits14 | Bits21 | Bits28 | Bits32 | Bits64 | Negative2

  /** The numbers that the sender writes in a form. */
  predicate Writes(form: Form, n: int) {
    match form
    case Bits7 => 0 <= n < 0x80
    case Bits14 => 0 <= n < 0x4000
    case Bits21 => 0 <= n < 0x20_0000
    case Bits28 => 0 <= n < 0x1000_0000
    case Bits32 => 0 <= n < TWO32
    case Bits64 => 0 <= n < TWO64
    case Negative2 => -4 <= n < 0
  }

  /** The sender's side: big-endian digits behind the bits that mark the form. */
  function WriteVarInt(form: Form, n: int): (v: seq<byte>)
    requires Writes(form, n)
  {
    match form
    case Bits7 => [n]
    case Bits14 => [0x80 + n / 256, n % 256]
    case Bits21 => [0xC0 + n / 0x1_0000, n / 256 % 256, n % 256]
    case Bits28 => [0xE0 + n / 0x100_0000, n / 0x1_0000 % 256, n / 256 % 256, n % 256]
    case Bits32 => [0xF0] + BE32(n)
    case Bits64 => [0xF4] + BE32(n / TWO32) + BE32(n % TWO32)
    case Negative2 => [0xFC + (-1 - n)]
  }

  function BE32(n: uint32): (s: seq<byte>)
    ensures |s| == 4
  {
    [n / 256 / 256 / 256, n / 256 / 256 % 256, n / 256 % 256, n % 256]
  }

  lemma BE32Word(n: uint32)
    ensures var s := BE32(n); Word(s[0], s[1], s[2], s[3]) == n
  {
    assert n / 256 * 256 + n % 256 == n;
    assert n / 256 / 256 * 256 + n / 256 % 256 == n / 256;
    assert n / 256 / 256 / 256 * 256 + n / 256 / 256 % 256 == n / 256 / 256;
  }

  /** The number of bytes taken is that of the form, anywhere in a buffer; numbers in other forms are
      read as 0, and not taken at all. */
  lemma WidthOfForm(buffer: seq<byte>, position: nat)
    ensures var (n, taken) := ReadVarInt(buffer, position);
            taken == Width(At(buffer, position)) && (taken == 0 ==> n == 0)
  {
    hide Word, Or;
  }

  /** Every supported form is read with its proper width, whatever stands before and behind it. */
  lemma WidthsAreRight(before: seq<byte>, v: seq<byte>, behind: seq<byte>)
    requires IsVarInt(v)
    ensures ReadVarInt(before + v + behind, |before|).1 == |v|
  {
    hide Word, Or;
    assert (before + v + behind)[|before|] == v[0];
  }

  lemma WrittenIsVarInt(form: Form, n: int)
    requires Writes(form, n)
    ensures IsVarInt(WriteVarInt(form, n))
  {
  }

  /** The largest numbers that survive reading: the forms of 7 and 14 bits and the negative form are
      read exactly; the others only where the bits that the shifts lose are zero. */
  function Survives(form: Form): int {
    match form
    case Bits7 => 0x80
    case Bits14 => 0x4000
    case Bits21 => 0x1_0000
    case Bits28 => 0x100_0000
    case Bits32 => TWO31
    case Bits64 => TWO31
    case Negative2 => 0
  }

  lemma ValueExactIff(form: Form, n: int, before: seq<byte>, behind: seq<byte>)
    requires Writes(form, n)
    ensures ReadVarInt(before + WriteVarInt(form, n) + behind, |before|).0 == n <==> n < Survives(form)
  {
    hide Word, BE32, Wrap, Or;
    if form in {Bits32, Bits64} {
      BigValueExactIff(form, n, before, behind);
    } else if form in {Bits21, Bits28} {
      MiddleValueExactIff(form, n, before, behind);
    } else {
      var v := WriteVarInt(form, n);
      var buffer := before + v + behind;
      assert forall i :: 0 <= i < |v| ==> buffer[|before| + i] == v[i];
    }
  }

  lemma MiddleValueExactIff(form: Form, n: int, before: seq<byte>, behind: seq<byte>)
    requires Writes(form, n) && form in {Bits21, Bits28}
    ensures ReadVarInt(before + WriteVarInt(form, n) + behind, |before|).0 == n <==> n < Survives(form)
  {
    hide Word, Wrap, Or;
    var v := WriteVarInt(form, n);
    var buffer := before + v + behind;
    assert forall i :: 0 <= i < |v| ==> buffer[|before| + i] == v[i];
    if form == Bits28 {
      SmallWord(0, v[1], v[2], v[3]);
      ThreeBytesIff(n);
    } else {
      SmallWord(0, 0, v[1], v[2]);
      TwoBytesIff(n);
    }
  }

  lemma ThreeBytesIff(n: nat)
    requires n < 0x1000_0000
    ensures (n / 0x1_0000 % 256 * 256 + n / 256 % 256) * 256 + n % 256 == n <==> n < 0x100_0000
  {
  }

  lemma TwoBytesIff(n: nat)
    requires n < 0x20_0000
    ensures n / 256 % 256 * 256 + n % 256 == n <==> n < 0x1_0000
  {
  }

  lemma BigValueExactIff(form: Form, n: int, before: seq<byte>, behind: seq<byte>)
    requires Writes(form, n) && form in {Bits32, Bits64}
    ensures ReadVarInt(before + WriteVarInt(form, n) + behind, |before|).0 == n <==> n < Survives(form)
  {
    hide Word, BE32, Wrap, Or;
    var v := WriteVarInt(form, n);
    var buffer := before + v + behind;
    assert forall i :: 0 <= i < |v| ==> buffer[|before| + i] == v[i];
    if form == Bits32 {
      BE32Word(n);
    } else {
      BE32Word(n / TWO32);
      BE32Word(n % TWO32);
      LowWordIff(n);
    }
  }

  lemma SmallWord(a: byte, b: byte, c: byte, d: byte)
    requires a == 0
    ensures Signed(Word(a, b, c, d)) == ((b as int) * 256 + c) * 256 + d
  {
  }

  /** Or-ing the two halves of a 64-bit number gives the number exactly below 2^31. */
  lemma LowWordIff(n: nat)
    requires n < TWO64
    ensures Signed(Wrap(Or(n / TWO32, n % TWO32))) == n <==> n < TWO31
  {
    if n < TWO32 {
      assert n / TWO32 == 0 && n % TWO32 == n;
    } else {
      SignedIsSmall(Wrap(Or(n / TWO32, n % TWO32)));
    }
  }

  lemma SignedIsSmall(u: uint32)
    ensures Signed(u) < TWO31
  {
  }

  // Packets and records.

  /** An audio packet with the opus flag: any sequence number, the length in a form of 7 or 14 bits,
      the payload, and anything behind it; one that ends a transmission, whose length field carries
      the termination bit and so reads more than the whole packet has; or a packet without the flag. */
  datatype Packet =
    | Opus(head: byte, sequence: seq<byte>, wide: bool, payload: seq<byte>, trailing: seq<byte>)
    | Ending(head: byte, sequence: seq<byte>, wide: bool, length: nat, behind: seq<byte>)
    | Other(bytes: seq<byte>)

  /** The numbers that a length field of 7 or 14 bits holds. */
  function LengthForm(wide: bool): Form { if wide then Bits14 else Bits7 }

  predicate LegalPacket(p: Packet) {
    match p
    case Opus(head, sequence, wide, payload, _) =>
      head >= 128 && IsVarInt(sequence) && Writes(LengthForm(wide), |payload|)
    case Ending(head, sequence, wide, length, behind) =>
      head >= 128 && IsVarInt(sequence) && Writes(LengthForm(wide), length) &&
      length > 1 + |sequence| + (if wide then 2 else 1) + |behind|
    case Other(bytes) => bytes == [] || bytes[0] < 128
  }

  /** A packet with the flag, as the sender writes it. */
  function FlaggedBytes(head: byte, sequence: seq<byte>, wide: bool, length: nat, behind: seq<byte>): seq<byte>
    requires Writes(LengthForm(wide), length)
  {
    [head] + sequence + WriteVarInt(LengthForm(wide), length) + behind
  }

  function PacketBytes(p: Packet): seq<byte>
    requires LegalPacket(p)
  {
    match p
    case Opus(head, sequence, wide, payload, trailing) =>
      FlaggedBytes(head, sequence, wide, |payload|, payload + trailing)
    case Ending(head, sequence, wide, length, behind) => FlaggedBytes(head, sequence, wide, length, behind)
    case Other(bytes) => bytes
  }

  /** The numbers in front of the payload are read as they were written. */
  lemma FlaggedFields(head: byte, sequence: seq<byte>, wide: bool, n: nat, behind: seq<byte>)
    requires IsVarInt(sequence) && Writes(LengthForm(wide), n)
    ensures var buffer := FlaggedBytes(head, sequence, wide, n, behind);
            ReadVarInt(buffer, 1).1 == |sequence| &&
            ReadVarInt(buffer, 1 + |sequence|) == (n, if wide then 2 else 1)
  {
    hide ReadVarInt, Width;
    var form := LengthForm(wide);
    var length := WriteVarInt(form, n);
    assert |length| == if wide then 2 else 1;
    hide WriteVarInt;
    assert [head] + sequence + (length + behind) == [head] + sequence + length + behind;
    WidthsAreRight([head], sequence, length + behind);
    WrittenIsVarInt(form, n);
    WidthsAreRight([head] + sequence, length, behind);
    ValueExactIff(form, n, [head] + sequence, behind);
  }

  /** The first n bytes of what there is; those missing are zero. */
  function Padded(behind: seq<byte>, n: nat): (data: seq<byte>)
    ensures |data| == n
  {
    if n <= |behind| then behind[..n] else behind + seq(n - |behind|, _ => 0)
  }

  /** Whatever a flagged packet holds, and whatever length it claims: it is passed over exactly when
      the length claimed is more than the whole packet; otherwise that many bytes behind the length
      are extracted, with zeros for those that are missing. */
  lemma FlaggedExactly(head: byte, sequence: seq<byte>, wide: bool, n: nat, behind: seq<byte>)
    requires head >= 128 && IsVarInt(sequence) && Writes(LengthForm(wide), n)
    ensures ExtractData(FlaggedBytes(head, sequence, wide, n, behind)) ==
            if n > 1 + |sequence| + (if wide then 2 else 1) + |behind| then Skipped else Data(Padded(behind, n))
  {
    hide ReadVarInt, Width;
    var buffer := FlaggedBytes(head, sequence, wide, n, behind);
    var at := |buffer| - |behind|;
    assert at == 1 + |sequence| + if wide then 2 else 1;
    FlaggedFields(head, sequence, wide, n, behind);
    hide WriteVarInt;
    assert buffer[at..] == behind;
    assert Copied(buffer, at, n) == Padded(behind, n) by {
      forall i | 0 <= i < n ensures Copied(buffer, at, n)[i] == Padded(behind, n)[i] {
        if i < |behind| {
          assert buffer[at + i] == buffer[at..][i];
        }
      }
    }
  }

  /** A length field in the negative form raises an exception. */
  lemma NegativeRaises(head: byte, sequence: seq<byte>, n: int, behind: seq<byte>)
    requires head >= 128 && IsVarInt(sequence) && Writes(Negative2, n)
    ensures ExtractData([head] + sequence + WriteVarInt(Negative2, n) + behind) == Raised
  {
    hide ReadVarInt, WriteVarInt, Width;
    var length := WriteVarInt(Negative2, n);
    assert [head] + sequence + (length + behind) == [head] + sequence + length + behind;
    WidthsAreRight([head], sequence, length + behind);
    ValueExactIff(Negative2, n, [head] + sequence, behind);
  }

  /** What the packet carries. */
  function Carried(p: Packet): Extracted {
    match p
    case Opus(_, _, _, payload, _) => Data(payload)
    case _ => Skipped
  }

  function Found(p: Packet): seq<seq<byte>> {
    match Carried(p)
    case Data(payload) => [payload]
    case _ => []
  }

  /** Exactly the payload is extracted, whatever the packet holds besides; the end of a transmission
      and packets without the flag are passed over. */
  lemma PacketRoundTrip(p: Packet)
    requires LegalPacket(p)
    ensures ExtractData(PacketBytes(p)) == Carried(p)
  {
    hide ExtractOpusData, Width, FlaggedBytes;
    match p
    case Other(_) =>
    case Ending(head, sequence, wide, length, behind) => FlaggedExactly(head, sequence, wide, length, behind);
    case Opus(head, sequence, wide, payload, trailing) =>
      FlaggedExactly(head, sequence, wide, |payload|, payload + trailing);
      assert Padded(payload + trailing, |payload|) == payload;
  }

  datatype Record = Record(timestamp: seq<byte>, packet: Packet)

  predicate LegalRecord(r: Record) {
    |r.timestamp| == 8 && LegalPacket(r.packet) && |PacketBytes(r.packet)| < TWO31
  }

  function RecordBytes(r: Record): seq<byte>
    requires LegalRecord(r)
  {
    r.timestamp + LE32(|PacketBytes(r.packet)|) + PacketBytes(r.packet)
  }

  predicate LegalRecords(rs: seq<Record>) { forall r :: r in rs ==> LegalRecord(r) }

  function FileBytes(rs: seq<Record>): seq<byte>
    requires LegalRecords(rs)
  {
    if rs == [] then []
    else
      assert rs[0] in rs && forall r :: r in rs[1..] ==> r in rs;
      RecordBytes(rs[0]) + FileBytes(rs[1..])
  }

  function Payloads(rs: seq<Record>): seq<seq<byte>> {
    if rs == [] then []
    else Found(rs[0].packet) + Payloads(rs[1..])
  }

  /** The framing of one record: its length is read, its chunk is cut out, and the rest begins with
      the next record. */
  lemma RecordCut(r: Record, rest: seq<byte>)
    requires LegalRecord(r)
    ensures var file := RecordBytes(r) + rest;
            var chunk := PacketBytes(r.packet);
            file != [] && RecordLength(file) == |chunk| &&
            Read(Drop(file, RECORD_HEADER), |chunk|) == chunk && Drop(Drop(file, RECORD_HEADER), |chunk|) == rest
  {
    hide PacketBytes, LegalPacket;
    var file, chunk := RecordBytes(r) + rest, PacketBytes(r.packet);
    assert Read(file, RECORD_HEADER)[8..12] == LE32(|chunk|);
    LE32U32(|chunk|);
    assert Drop(file, RECORD_HEADER) == chunk + rest;
    assert Read(chunk + rest, |chunk|) == chunk;
  }

  /** Behind any records the parser goes on with what follows them. */
  lemma {:induction false} ParseBehind(rs: seq<Record>, rest: seq<byte>)
    requires LegalRecords(rs)
    ensures Parse(FileBytes(rs) + rest) == Parsed(Payloads(rs) + Parse(rest).payloads, Parse(rest).raised)
  {
    hide RecordBytes, PacketBytes, LegalPacket, Parse, Carried;
    if rs == [] {
      assert FileBytes(rs) + rest == rest && Payloads(rs) == [];
    } else {
      assert rs[0] in rs && forall r :: r in rs[1..] ==> r in rs;
      var behind := FileBytes(rs[1..]) + rest;
      assert FileBytes(rs) + rest == RecordBytes(rs[0]) + behind;
      ParseRecord(rs[0], behind);
      ParseBehind(rs[1..], rest);
      assert Found(rs[0].packet) + (Payloads(rs[1..]) + Parse(rest).payloads) == Payloads(rs) + Parse(rest).payloads;
    }
  }

  lemma ParseRecord(r: Record, rest: seq<byte>)
    requires LegalRecord(r)
    ensures Parse(RecordBytes(r) + rest) == Parsed(Found(r.packet) + Parse(rest).payloads, Parse(rest).raised)
  {
    hide RecordBytes, PacketBytes, ExtractData, LegalPacket, Read, Drop, RecordLength;
    RecordCut(r, rest);
    PacketRoundTrip(r.packet);
    ParseNext(RecordBytes(r) + rest);
    assert [] + Parse(rest).payloads == Parse(rest).payloads;
  }

  /** One turn of the parser. */
  lemma ParseNext(file: seq<byte>)
    requires file != [] && RecordLength(file) >= 0
    ensures var (behind, len) := (Drop(file, RECORD_HEADER), RecordLength(file));
            var rest := Parse(Drop(behind, len));
            Parse(file) ==
            match ExtractData(Read(behind, len))
            case Raised => Parsed([], true)
            case Skipped => rest
            case Data(payload) => Parsed([payload] + rest.payloads, rest.raised)
  {
    hide ExtractData, Read, RecordLength;
  }

  /** Recording round trip: the parser yields exactly the payloads of the flagged packets, in order,
      and no packet, passed over or not, desynchronises the records behind it. */
  lemma RecordingRoundTrip(rs: seq<Record>)
    requires LegalRecords(rs)
    ensures Parse(FileBytes(rs)) == Parsed(Payloads(rs), false)
  {
    ParseBehind(rs, []);
    assert FileBytes(rs) + [] == FileBytes(rs);
  }

  /** A record whose length is negative stops the parser with an exception; what was found before it
      has been written. */
  lemma NegativeLengthStops(rs: seq<Record>, timestamp: seq<byte>, length: uint32, behind: seq<byte>)
    requires LegalRecords(rs) && |timestamp| == 8 && length >= TWO31
    ensures Parse(FileBytes(rs) + (timestamp + LE32(length) + behind)) == Parsed(Payloads(rs), true)
  {
    var rest := timestamp + LE32(length) + behind;
    ParseBehind(rs, rest);
    assert Read(rest, RECORD_HEADER)[8..12] == LE32(length);
    LE32U32(length);
  }

  /** So does a record with a packet whose length field is in the negative form. */
  lemma NegativeFieldStops(rs: seq<Record>, timestamp: seq<byte>, head: byte, sequence: seq<byte>, n: int, inside: seq<byte>, behind: seq<byte>)
    requires LegalRecords(rs) && |timestamp| == 8 && head >= 128 && IsVarInt(sequence) && Writes(Negative2, n)
    requires |[head] + sequence + WriteVarInt(Negative2, n) + inside| < TWO31
    ensures var chunk := [head] + sequence + WriteVarInt(Negative2, n) + inside;
            Parse(FileBytes(rs) + (timestamp + LE32(|chunk|) + chunk + behind)) == Parsed(Payloads(rs), true)
  {
    hide ExtractData, WriteVarInt, Width, LE32, U32;
    var chunk := [head] + sequence + WriteVarInt(Negative2, n) + inside;
    var rest := timestamp + LE32(|chunk|) + chunk + behind;
    ParseBehind(rs, rest);
    NegativeRaises(head, sequence, n, inside);
    assert Read(rest, RECORD_HEADER)[8..12] == LE32(|chunk|);
    LE32U32(|chunk|);
    assert Drop(rest, RECORD_HEADER) == chunk + behind;
    assert Read(chunk + behind, |chunk|) == chunk;
    ParseNext(rest);
  }
}
