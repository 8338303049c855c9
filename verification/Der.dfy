/** The DER encoder of the FFDHE table generator, and the strict decoder it has to satisfy. */
module Der {
  import opened Bytes
  import opened Options
  import opened Text
  import opened HexText

  const INTEGER: byte := 0x02
  const SEQUENCE: byte := 0x30

  /** The non-negative number with these base-256 digits, most significant first. */
  function Num(bs: seq<byte>): nat {
    if bs == [] then 0 else 256 * Num(bs[..|bs| - 1]) + bs[|bs| - 1]
  }

  function Pow256(k: nat): (p: nat)
    ensures p >= 1
  {
    if k == 0 then 1 else 256 * Pow256(k - 1)
  }

  /** An even number of digits. */
  function PadHex(s: string): string { if |s| % 2 != 0 then "0" + s else s }

  /** derLength, through hexadecimal text as in the program. */
  function DerLength(size: int): Result<seq<byte>> {
    if size > 127 then
      var hexString := PadHex(HexOf(size));
      var nbytes := |hexString| / 2;
      if nbytes > 127 then Raised
      else
        match Dehexify(hexString)
        case None => Raised
        case Some(buf) => Ok([128 + nbytes] + buf)
    else if size > 0 then Ok([size])
    else Raised
  }

  /** The content octets of an unsigned number: a zero octet in front where the sign bit is set. */
  function ContentOf(buf: seq<byte>): seq<byte>
    requires buf != []
  {
    if buf[0] >= 128 then [0] + buf else buf
  }

  /** derUnsignedInteger on the bytes of the hexadecimal text; there must be at least one. */
  function DerUnsigned(buf: seq<byte>): Result<seq<byte>> {
    if buf == [] then Raised
    else
      var content := ContentOf(buf);
      match DerLength(|content|)
      case Raised => Raised
      case Ok(length) => Ok([INTEGER] + length + content)
  }

  function DerUnsignedInteger(hexString: string): Result<seq<byte>> {
    match Dehexify(hexString)
    case None => Raised
    case Some(buf) => DerUnsigned(buf)
  }

  function Concat(parts: seq<seq<byte>>): seq<byte> {
    if parts == [] then [] else parts[0] + Concat(parts[1..])
  }

  function DerSequence(entries: seq<seq<byte>>): Result<seq<byte>> {
    var content := Concat(entries);
    match DerLength(|content|)
    case Raised => Raised
    case Ok(length) => Ok([SEQUENCE] + length + content)
  }

  /** The loop over the entries. */
  method EncodeSequence(entries: seq<seq<byte>>) returns (out: Result<seq<byte>>)
    ensures out == DerSequence(entries)
  {
    var content: seq<byte> := [];
    for i := 0 to |entries|
      invariant content + Concat(entries[i..]) == Concat(entries)
    {
      assert entries[i..][1..] == entries[i + 1..];
      content := content + entries[i];
    }
    assert content + [] == content;
    var length := DerLength(|content|);
    out := if length.Raised? then Raised else Ok([SEQUENCE] + length.value + content);
  }

  // The decoder: sections 8.1.3, 8.3, 8.9 and 10.1 of ITU-T X.690.

  /** A definite length, as lenient as can be: leading zero octets, and any number of octets. */
  function ReadLength(bs: seq<byte>): Option<(nat, seq<byte>)> {
    if bs == [] then None
    else if bs[0] < 128 then Some((bs[0], bs[1..]))
    else
      var k := bs[0] - 128;
      if k == 0 || |bs| < 1 + k then None else Some((Num(bs[1..1 + k]), bs[1 + k..]))
  }

  /** A length as DER demands it: in the fewest octets, and never with the reserved first octet 255. */
  function StrictLength(bs: seq<byte>): Option<(nat, seq<byte>)> {
    match ReadLength(bs)
    case None => None
    case Some((n, rest)) =>
      if bs[0] >= 128 && (bs[0] == 255 || n < 128 || bs[1] == 0) then None else Some((n, rest))
  }

  /** Contents of an INTEGER: at least one octet, whose first nine bits are neither all 0 nor all 1;
      the value is in two's complement. */
  function StrictContent(n: nat, rest: seq<byte>): Option<(int, seq<byte>)> {
    if n == 0 || |rest| < n then None
    else if n > 1 && ((rest[0] == 0 && rest[1] < 128) || (rest[0] == 255 && rest[1] >= 128)) then None
    else Some((if rest[0] < 128 then Num(rest[..n]) else Num(rest[..n]) - Pow256(n), rest[n..]))
  }

  function StrictInteger(bs: seq<byte>): Option<(int, seq<byte>)> {
    if bs == [] || bs[0] != INTEGER then None
    else
      match StrictLength(bs[1..])
      case None => None
      case Some((n, rest)) => StrictContent(n, rest)
  }

  lemma StrictIntegerShrinks(bs: seq<byte>)
    ensures StrictInteger(bs).Some? ==> |StrictInteger(bs).value.1| < |bs|
  {
  }

  /** INTEGERs up to the end. */
  function StrictIntegers(bs: seq<byte>): Option<seq<int>>
    decreases |bs|
  {
    if bs == [] then Some([])
    else
      match StrictInteger(bs)
      case None => None
      case Some((v, rest)) =>
        StrictIntegerShrinks(bs);
        match StrictIntegers(rest)
        case None => None
        case Some(vs) => Some([v] + vs)
  }

  /** A SEQUENCE of INTEGERs, with nothing behind it. */
  function StrictSequence(bs: seq<byte>): Option<seq<int>> {
    if bs == [] || bs[0] != SEQUENCE then None
    else
      match StrictLength(bs[1..])
      case None => None
      case Some((n, rest)) => if |rest| != n then None else StrictIntegers(rest)
  }

  // Numbers and their bytes.

  /** The shortest base-256 digits of n. */
  function BigEndian(n: nat): (bs: seq<byte>)
    ensures bs != []
  {
    if n < 256 then [n] else BigEndian(n / 256) + [n % 256]
  }

  lemma {:induction false} BigEndianNum(n: nat)
    ensures Num(BigEndian(n)) == n
    ensures n > 0 ==> BigEndian(n)[0] != 0
    ensures n > 0 ==> Pow256(|BigEndian(n)| - 1) <= n < Pow256(|BigEndian(n)|)
  {
    var bs := BigEndian(n);
    if n < 256 {
      assert bs[..0] == [];
      assert Pow256(1) == 256 * Pow256(0);
    } else {
      BigEndianNum(n / 256);
      assert bs[..|bs| - 1] == BigEndian(n / 256);
    }
  }

  lemma {:induction false} NumBelow(bs: seq<byte>)
    ensures Num(bs) < Pow256(|bs|)
  {
    if bs != [] {
      NumBelow(bs[..|bs| - 1]);
    }
  }

  /** The first digit weighs most. */
  lemma {:induction false} NumHead(bs: seq<byte>)
    requires bs != []
    ensures Num(bs) == bs[0] * Pow256(|bs| - 1) + Num(bs[1..])
  {
    if |bs| > 1 {
      var front := bs[..|bs| - 1];
      NumHead(front);
      assert bs[1..][..|bs| - 2] == front[1..];
      assert 256 * (bs[0] * Pow256(|bs| - 2)) == bs[0] * Pow256(|bs| - 1);
    } else {
      assert bs[..0] == [];
    }
  }

  lemma {:induction false} PowMono(j: nat, k: nat)
    ensures j <= k ==> Pow256(j) <= Pow256(k)
  {
    if j < k { PowMono(j, k - 1); }
  }

  lemma PowOne()
    ensures Pow256(1) == 256
  {
    assert Pow256(1) == 256 * Pow256(0);
  }

  // The length octets.

  lemma {:induction false} FromHexAppend(s: string, hi: nat, lo: nat)
    requires FromHex(s).Some? && hi < 16 && lo < 16 && forall i :: 0 <= i < |s| ==> !IsSpace(s[i])
    ensures FromHex(s + [HexDigit(hi), HexDigit(lo)]) == Some(FromHex(s).value + [16 * hi + lo])
    decreases |s|
  {
    HexDigits(hi);
    HexDigits(lo);
    hide HexDigit, HexValue, IsSpace;
    var t := s + [HexDigit(hi), HexDigit(lo)];
    if s == "" {
      assert t == [HexDigit(hi), HexDigit(lo)] && t[2..] == "";
      assert [16 * hi + lo] + [] == [] + [16 * hi + lo];
    } else {
      assert t[2..] == s[2..] + [HexDigit(hi), HexDigit(lo)];
      FromHexAppend(s[2..], hi, lo);
      assert t[0] == s[0] && t[1] == s[1];
      var d: byte := 16 * HexValue(s[0]) + HexValue(s[1]);
      assert [d] + (FromHex(s[2..]).value + [16 * hi + lo]) == [d] + FromHex(s[2..]).value + [16 * hi + lo];
    }
  }

  lemma HexSmall(n: nat)
    requires n < 256
    ensures PadHex(HexOf(n)) == [HexDigit(n / 16), HexDigit(n % 16)]
  {
    ZeroDigit();
    hide HexDigit;
    if n < 16 {
      assert HexOf(n) == [HexDigit(n)];
    } else {
      assert HexOf(n / 16) == [HexDigit(n / 16)];
    }
  }

  lemma PadAppend(s: string, x: char, y: char)
    ensures PadHex(s + [x, y]) == PadHex(s) + [x, y]
  {
    assert "0" + (s + [x, y]) == "0" + s + [x, y];
  }

  lemma HexStep(n: nat)
    requires n >= 256
    ensures PadHex(HexOf(n)) == PadHex(HexOf(n / 256)) + [HexDigit(n / 16 % 16), HexDigit(n % 16)]
  {
    hide HexDigit, PadHex;
    assert n / 16 / 16 == n / 256;
    var x, y := HexDigit(n / 16 % 16), HexDigit(n % 16);
    assert HexOf(n) == HexOf(n / 16) + [y] && HexOf(n / 16) == HexOf(n / 16 / 16) + [x];
    assert HexOf(n / 256) + [x] + [y] == HexOf(n / 256) + [x, y];
    PadAppend(HexOf(n / 256), x, y);
  }

  predicate Solid(s: string) { forall i :: 0 <= i < |s| ==> !IsSpace(s[i]) && !IsLineBreak(s[i]) }

  /** The hexadecimal text of a number, padded to whole bytes, reads as its shortest bytes. */
  lemma {:induction false} HexBytes(n: nat)
    ensures var s := PadHex(HexOf(n));
            FromHex(s) == Some(BigEndian(n)) && |s| == 2 * |BigEndian(n)| && Solid(s)
  {
    hide HexDigit, HexValue, IsSpace, IsLineBreak, HexOf, PadHex, FromHex, Solid;
    var hi, lo := n / 16 % 16, n % 16;
    assert 16 * hi + lo == n % 256;
    if n < 256 {
      HexSmall(n);
      assert hi == n / 16 && n % 256 == n && [] + [16 * hi + lo] == [n];
      HexPair("", hi, lo, []);
    } else {
      HexStep(n);
      HexBytes(n / 256);
      HexPair(PadHex(HexOf(n / 256)), hi, lo, BigEndian(n / 256));
    }
  }

  lemma HexPair(s: string, hi: nat, lo: nat, bytes: seq<byte>)
    requires hi < 16 && lo < 16
    requires if s == "" then bytes == [] else Solid(s) && FromHex(s) == Some(bytes)
    ensures var t := if s == "" then [HexDigit(hi), HexDigit(lo)] else s + [HexDigit(hi), HexDigit(lo)];
            FromHex(t) == Some(bytes + [16 * hi + lo]) && |t| == |s| + 2 && Solid(t)
  {
    hide HexDigit, HexValue, IsSpace, IsLineBreak;
    HexDigits(hi);
    HexDigits(lo);
    assert "" + [HexDigit(hi), HexDigit(lo)] == [HexDigit(hi), HexDigit(lo)];
    FromHexAppend(s, hi, lo);
  }

  lemma ZeroDigit()
    ensures HexDigit(0) == '0'
  {
  }

  /** What derLength computes: the shortest form, or an exception exactly outside 1 .. 256^127 - 1. */
  lemma DerLengthShape(size: int)
    ensures DerLength(size) ==
            if 0 < size < 128 then Ok([size])
            else if 128 <= size < Pow256(127) then Ok([128 + |BigEndian(size)|] + BigEndian(size))
            else Raised
    ensures 128 <= size < Pow256(127) ==> 1 <= |BigEndian(size)| <= 127
    ensures Pow256(127) > 128
  {
    hide Pow256, HexOf, PadHex, Dehexify, FromHex, BigEndian, Solid;
    PowOne();
    PowMono(1, 127);
    if size > 127 {
      HexBytes(size);
      BigEndianNum(size);
      PowMono(|BigEndian(size)|, 127);
      PowMono(127, |BigEndian(size)| - 1);
      ReadsSolid(PadHex(HexOf(size)));
    }
  }

  lemma ReadsSolid(s: string)
    requires Solid(s)
    ensures Dehexify(s) == FromHex(s)
  {
    DehexifyIsFromHex(s);
    assert Unbroken(s) == s;
  }

  /** Reading the length octets back, whatever follows. A strict reader accepts them exactly below
      256^126, because the first octet of the longest form is reserved. */
  lemma LengthRoundTrip(size: nat, suffix: seq<byte>)
    requires 1 <= size < Pow256(127)
    ensures DerLength(size).Ok? && ReadLength(DerLength(size).value + suffix) == Some((size, suffix))
    ensures StrictLength(DerLength(size).value + suffix) == Some((size, suffix)) <==> size < Pow256(126)
  {
    hide DerLength, Pow256;
    DerLengthShape(size);
    PowOne();
    PowMono(1, 126);
    var out := DerLength(size).value;
    if size >= 128 {
      var digits := BigEndian(size);
      var k := |digits|;
      BigEndianNum(size);
      PowMono(k, 126);
      PowMono(126, k - 1);
      var bs := out + suffix;
      assert bs[1..1 + k] == digits && bs[1 + k..] == suffix;
    } else {
      assert (out + suffix)[1..] == suffix;
    }
  }

  /** No way to write the length, not even a wasteful one, is shorter. */
  lemma LengthShortest(size: nat, other: seq<byte>)
    requires 1 <= size < Pow256(127) && ReadLength(other) == Some((size, []))
    ensures DerLength(size).Ok? && |DerLength(size).value| <= |other|
  {
    hide DerLength, Pow256, BigEndian, Num;
    DerLengthShape(size);
    if size >= 128 {
      var k := other[0] - 128;
      BigEndianNum(size);
      NumBelow(other[1..1 + k]);
      assert other[1 + k..] == [] ==> |other| == 1 + k;
      if k < |BigEndian(size)| {
        PowMono(k, |BigEndian(size)| - 1);
      }
    }
  }

  lemma {:induction false} NumPositive(d: seq<byte>)
    requires d != [] && d[0] != 0
    ensures Num(d) > 0
  {
    if |d| > 1 { NumPositive(d[..|d| - 1]); }
  }

  lemma {:induction false} BigEndianOfNum(d: seq<byte>)
    requires d != [] && d[0] != 0
    ensures BigEndian(Num(d)) == d
  {
    if |d| == 1 {
      assert d[..0] == [];
    } else {
      var front := d[..|d| - 1];
      NumPositive(front);
      BigEndianOfNum(front);
      assert d == front + [d[|d| - 1]];
    }
  }

  /** The encoder's octets are the only ones a strict reader accepts. */
  lemma StrictLengthUnique(bs: seq<byte>)
    requires StrictLength(bs).Some? && StrictLength(bs).value.0 > 0
    ensures var (n, rest) := StrictLength(bs).value;
            n < Pow256(126) && DerLength(n).Ok? && bs == DerLength(n).value + rest
  {
    hide DerLength, Pow256, Num, BigEndian;
    var (n, rest) := StrictLength(bs).value;
    DerLengthShape(n);
    PowOne();
    PowMono(1, 126);
    PowMono(126, 127);
    if bs[0] >= 128 {
      var k := bs[0] - 128;
      var d := bs[1..1 + k];
      assert d[0] == bs[1];
      BigEndianOfNum(d);
      NumBelow(d);
      PowMono(k, 126);
      assert bs == [128 + k] + d + rest;
    } else {
      assert bs == [bs[0]] + rest;
    }
  }

  // Integers and sequences.

  /** More zero bits in front than an unsigned number needs. */
  predicate Redundant(buf: seq<byte>) { |buf| > 1 && buf[0] == 0 && buf[1] < 128 }

  lemma ContentValue(buf: seq<byte>)
    requires buf != []
    ensures var c := ContentOf(buf);
            c[0] < 128 && Num(c) == Num(buf) && (Redundant(c) <==> Redundant(buf))
  {
    hide Num, Pow256;
    if buf[0] >= 128 {
      NumHead([0] + buf);
      assert ([0] + buf)[1..] == buf;
    }
  }

  /** An encoded number is read back strictly, with whatever follows left over, exactly when the
      bytes it was given as had no redundant zero in front; otherwise it is refused. */
  lemma IntegerRoundTripIff(buf: seq<byte>, suffix: seq<byte>)
    requires buf != [] && |ContentOf(buf)| < Pow256(126)
    ensures DerUnsigned(buf).Ok?
    ensures StrictInteger(DerUnsigned(buf).value + suffix) ==
            if Redundant(buf) then None else Some((Num(buf), suffix))
  {
    hide DerLength, Pow256, Num, StrictInteger;
    var c := ContentOf(buf);
    ContentValue(buf);
    ReadsContent(c, suffix);
  }

  lemma ReadsContent(c: seq<byte>, suffix: seq<byte>)
    requires c != [] && |c| < Pow256(126) && c[0] < 128
    ensures DerLength(|c|).Ok?
    ensures StrictInteger([INTEGER] + DerLength(|c|).value + c + suffix) ==
            if Redundant(c) then None else Some((Num(c), suffix))
  {
    hide DerLength, Pow256, Num, StrictLength, StrictContent, Redundant;
    PowMono(126, 127);
    LengthRoundTrip(|c|, c + suffix);
    var length := DerLength(|c|).value;
    var bs := [INTEGER] + length + c + suffix;
    TailOf(INTEGER, length, c, suffix);
    ReadsValue(c, suffix);
  }

  lemma TailOf(tag: byte, a: seq<byte>, b: seq<byte>, c: seq<byte>)
    ensures var s := [tag] + a + b + c; s != [] && s[0] == tag && s[1..] == a + (b + c)
  {
  }

  lemma ReadsValue(c: seq<byte>, suffix: seq<byte>)
    requires c != [] && c[0] < 128
    ensures StrictContent(|c|, c + suffix) == if Redundant(c) then None else Some((Num(c), suffix))
  {
    hide Pow256, Num;
    assert (c + suffix)[..|c|] == c && (c + suffix)[|c|..] == suffix;
  }

  /** Byte strings that can be encoded, and are without redundant zeros. */
  predicate Numbers(bufs: seq<seq<byte>>) {
    forall b :: b in bufs ==> b != [] && !Redundant(b) && |ContentOf(b)| < Pow256(126)
  }

  function Encodings(bufs: seq<seq<byte>>): (es: seq<seq<byte>>)
    ensures |es| == |bufs|
  {
    if bufs == [] then []
    else [match DerUnsigned(bufs[0]) case Ok(e) => e case Raised => []] + Encodings(bufs[1..])
  }

  function Values(bufs: seq<seq<byte>>): (vs: seq<int>)
    ensures |vs| == |bufs|
  {
    if bufs == [] then [] else [Num(bufs[0])] + Values(bufs[1..])
  }

  lemma {:induction false} IntegersRoundTrip(bufs: seq<seq<byte>>)
    requires Numbers(bufs)
    ensures StrictIntegers(Concat(Encodings(bufs))) == Some(Values(bufs))
    ensures |Concat(Encodings(bufs))| >= |bufs|
  {
    hide DerUnsigned, StrictInteger, Num, Pow256;
    if bufs != [] {
      var e, rest := Encodings(bufs)[0], Concat(Encodings(bufs[1..]));
      assert bufs[0] in bufs && forall b :: b in bufs[1..] ==> b in bufs;
      IntegerRoundTripIff(bufs[0], rest);
      IntegersRoundTrip(bufs[1..]);
      assert Encodings(bufs)[1..] == Encodings(bufs[1..]);
      assert Concat(Encodings(bufs)) == e + rest;
      StrictIntegerShrinks(e + rest);
    }
  }

  /** DER round trip: a sequence of encoded numbers is decoded by the strict decoder to exactly those
      numbers, with nothing left over. */
  lemma SequenceRoundTrip(bufs: seq<seq<byte>>)
    requires bufs != [] && Numbers(bufs) && |Concat(Encodings(bufs))| < Pow256(126)
    ensures DerSequence(Encodings(bufs)).Ok?
    ensures StrictSequence(DerSequence(Encodings(bufs)).value) == Some(Values(bufs))
  {
    hide DerLength, StrictLength, Pow256, StrictIntegers, Encodings, Concat, Values;
    var content := Concat(Encodings(bufs));
    IntegersRoundTrip(bufs);
    PowMono(126, 127);
    LengthRoundTrip(|content|, content);
    var out := DerSequence(Encodings(bufs)).value;
    assert out[1..] == DerLength(|content|).value + content;
  }

  /** So encoding is injective: equal encodings come from equal numbers. */
  lemma SequenceInjective(a: seq<seq<byte>>, b: seq<seq<byte>>)
    requires a != [] && Numbers(a) && |Concat(Encodings(a))| < Pow256(126)
    requires b != [] && Numbers(b) && |Concat(Encodings(b))| < Pow256(126)
    requires DerSequence(Encodings(a)) == DerSequence(Encodings(b))
    ensures Values(a) == Values(b)
  {
    SequenceRoundTrip(a);
    SequenceRoundTrip(b);
  }

  /** From the hexadecimal text of the parameters to their numbers: the Diffie-Hellman parameters
      (p, g), in whatever layout of lines and case of letters they are written. */
  lemma ParametersRoundTrip(pText: string, pGaps: seq<string>, p: seq<byte>, gText: string, gGaps: seq<string>, g: seq<byte>)
    requires |pGaps| == |p| && |gGaps| == |g| && Numbers([p, g]) && |Concat(Encodings([p, g]))| < Pow256(126)
    requires AllBlank(pGaps) && AllBlank(gGaps)
    requires InEitherCase(pText, Layout(pGaps, p)) && InEitherCase(gText, Layout(gGaps, g))
    ensures var (ep, eg) := (DerUnsignedInteger(pText), DerUnsignedInteger(gText));
            ep.Ok? && eg.Ok? && DerSequence([ep.value, eg.value]).Ok? &&
            StrictSequence(DerSequence([ep.value, eg.value]).value) == Some([Num(p), Num(g)])
  {
    hide DerSequence, StrictSequence, Num, Pow256, DerUnsigned, Dehexify, Concat;
    DehexifyReadsLayouts(pGaps, p, pText);
    DehexifyReadsLayouts(gGaps, g, gText);
    var bufs := [p, g];
    assert p in bufs && g in bufs;
    IntegerRoundTripIff(p, []);
    IntegerRoundTripIff(g, []);
    assert bufs[1..] == [g] && [g][1..] == [];
    assert Encodings([g]) == [DerUnsigned(g).value] && Values([g]) == [Num(g)];
    assert Encodings(bufs) == [DerUnsigned(p).value, DerUnsigned(g).value];
    assert Values(bufs) == [Num(p), Num(g)];
    SequenceRoundTrip(bufs);
  }
}
