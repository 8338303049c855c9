/** Reading big numbers written in hexadecimal, over several lines. */
module HexText {
  import opened Bytes
  import opened Options
  import opened Text

  predicate IsSpace(c: char) { c == ' ' || 9 as char <= c <= 13 as char }

  /** The characters at which str.splitlines ends a line. */
  predicate IsLineBreak(c: char) {
    10 as char <= c <= 13 as char || 28 as char <= c <= 30 as char || c == 0x85 as char || c == 0x2028 as char || c == 0x2029 as char
  }

  function HexValue(c: char): (v: int)
    ensures -1 <= v < 16
  {
    if '0' <= c <= '9' then c as int - '0' as int
    else if 'a' <= c <= 'f' then c as int - 'a' as int + 10
    else if 'A' <= c <= 'F' then c as int - 'A' as int + 10
    else -1
  }

  function HexDigit(v: nat): char
    requires v < 16
  {
    if v < 10 then ('0' as int + v) as char else ('a' as int + (v - 10)) as char
  }

  /** Lower-case hexadecimal, without a prefix. */
  function HexOf(n: nat): (s: string)
    ensures s != ""
  {
    if n < 16 then [HexDigit(n)] else HexOf(n / 16) + [HexDigit(n % 16)]
  }

  /** bytearray.fromhex: pairs of digits, with white space between them. */
  function FromHex(s: string): Option<seq<byte>> {
    if s == "" then Some([])
    else if IsSpace(s[0]) then FromHex(s[1..])
    else if |s| >= 2 && HexValue(s[0]) >= 0 && HexValue(s[1]) >= 0 then
      match FromHex(s[2..])
      case None => None
      case Some(rest) => Some([16 * HexValue(s[0]) + HexValue(s[1])] + rest)
    else None
  }

  function Unbroken(s: string): string {
    seq(|s|, i requires 0 <= i < |s| => if IsLineBreak(s[i]) then '\n' else s[i])
  }

  function StripLeft(s: string): string {
    if s != "" && IsSpace(s[0]) then StripLeft(s[1..]) else s
  }

  function Strip(s: string): string
    decreases |s|
  {
    if s != "" && IsSpace(s[|s| - 1]) then Strip(s[..|s| - 1]) else StripLeft(s)
  }

  function StripAll(lines: seq<string>): (r: seq<string>)
    ensures |r| == |lines| && forall i :: 0 <= i < |r| ==> r[i] == Strip(lines[i])
  {
    if lines == [] then [] else [Strip(lines[0])] + StripAll(lines[1..])
  }

  /** Split into lines, strip each, join with blanks, and read the digits. */
  function Dehexify(hexString: string): Option<seq<byte>> {
    FromHex(Join(StripAll(Split(Unbroken(hexString), '\n')), ' '))
  }

  function Both(a: Option<seq<byte>>, b: Option<seq<byte>>): Option<seq<byte>> {
    if a.Some? && b.Some? then Some(a.value + b.value) else None
  }

  /** White space separates: the digits on either side are read on their own. */
  lemma {:induction false} FromHexAtSpace(a: string, ws: char, b: string)
    requires IsSpace(ws)
    ensures FromHex(a + [ws] + b) == Both(FromHex(a), FromHex(b))
    decreases |a|
  {
    var s := a + [ws] + b;
    if a == "" {
      assert s == [ws] + b && s[1..] == b;
      if FromHex(b).Some? { assert [] + FromHex(b).value == FromHex(b).value; }
    } else if IsSpace(a[0]) {
      assert s[1..] == a[1..] + [ws] + b;
      FromHexAtSpace(a[1..], ws, b);
    } else if |a| >= 2 && HexValue(a[0]) >= 0 && HexValue(a[1]) >= 0 {
      assert s[2..] == a[2..] + [ws] + b;
      FromHexAtSpace(a[2..], ws, b);
      var (x, y) := (FromHex(a[2..]), FromHex(b));
      if x.Some? && y.Some? {
        var d: byte := 16 * HexValue(a[0]) + HexValue(a[1]);
        assert [d] + (x.value + y.value) == [d] + x.value + y.value;
      }
    } else if |a| == 1 {
      assert s[1] == ws;
    }
  }

  lemma {:induction false} FromHexStripLeft(s: string)
    ensures FromHex(StripLeft(s)) == FromHex(s)
  {
    if s != "" && IsSpace(s[0]) { FromHexStripLeft(s[1..]); }
  }

  lemma {:induction false} FromHexStrip(s: string)
    ensures FromHex(Strip(s)) == FromHex(s)
    decreases |s|
  {
    if s != "" && IsSpace(s[|s| - 1]) {
      var front := s[..|s| - 1];
      FromHexStrip(front);
      FromHexAtSpace(front, s[|s| - 1], "");
      assert front + [s[|s| - 1]] + "" == s;
      if FromHex(front).Some? { assert FromHex(front).value + [] == FromHex(front).value; }
    } else {
      FromHexStripLeft(s);
    }
  }

  lemma {:induction false} FromHexStripLines(lines: seq<string>)
    requires lines != []
    ensures FromHex(Join(StripAll(lines), ' ')) == FromHex(Join(lines, '\n'))
  {
    hide IsSpace;
    assert IsSpace(' ') && IsSpace('\n') by { Blanks(); }
    FromHexStrip(lines[0]);
    if |lines| > 1 {
      FromHexStripLines(lines[1..]);
      assert StripAll(lines)[1..] == StripAll(lines[1..]);
      FromHexAtSpace(Strip(lines[0]), ' ', Join(StripAll(lines[1..]), ' '));
      FromHexAtSpace(lines[0], '\n', Join(lines[1..], '\n'));
    }
  }

  lemma Blanks()
    ensures IsSpace(' ') && IsSpace('\n')
  {
  }

  /** The lines do not matter: only the pairs of digits, each kept together, between white space. */
  lemma DehexifyIsFromHex(hexString: string)
    ensures Dehexify(hexString) == FromHex(Unbroken(hexString))
  {
    SplitJoin(Unbroken(hexString), '\n');
    FromHexStripLines(Split(Unbroken(hexString), '\n'));
  }

  /** The byte as two digits. */
  function HexOfByte(b: byte): string { [HexDigit(b / 16), HexDigit(b % 16)] }

  /** Bytes written with any amount of blanks and line ends before each. */
  function Layout(gaps: seq<string>, bytes: seq<byte>): string
    requires |gaps| == |bytes|
  {
    if bytes == [] then "" else gaps[0] + HexOfByte(bytes[0]) + Layout(gaps[1..], bytes[1..])
  }

  /** ASCII white space. */
  predicate Blank(gap: string) {
    forall i :: 0 <= i < |gap| ==> gap[i] in {' ', '\t', '\n', '\r', 11 as char, 12 as char}
  }

  predicate AllBlank(gaps: seq<string>) { forall i :: 0 <= i < |gaps| ==> Blank(gaps[i]) }

  lemma {:induction false} FromHexGap(gap: string, s: string)
    requires Blank(gap)
    ensures FromHex(gap + s) == FromHex(s)
  {
    if gap == "" {
      assert gap + s == s;
    } else {
      assert (gap + s)[1..] == gap[1..] + s;
      FromHexGap(gap[1..], s);
    }
  }

  lemma HexDigits(v: nat)
    requires v < 16
    ensures HexValue(HexDigit(v)) == v && !IsSpace(HexDigit(v)) && !IsLineBreak(HexDigit(v))
  {
  }

  lemma {:induction false} FromHexLayout(gaps: seq<string>, bytes: seq<byte>)
    requires |gaps| == |bytes| && AllBlank(gaps)
    ensures FromHex(Layout(gaps, bytes)) == Some(bytes)
  {
    hide HexOfByte, FromHex, Blank;
    if bytes != [] {
      var b, rest := bytes[0], Layout(gaps[1..], bytes[1..]);
      FromHexLayout(gaps[1..], bytes[1..]);
      FromHexByte(b, rest);
      FromHexGap(gaps[0], HexOfByte(b) + rest);
      LayoutNext(gaps, bytes);
      assert bytes == [b] + bytes[1..];
    } else {
      NoHex();
    }
  }

  lemma LayoutNext(gaps: seq<string>, bytes: seq<byte>)
    requires |gaps| == |bytes| > 0
    ensures Layout(gaps, bytes) == gaps[0] + (HexOfByte(bytes[0]) + Layout(gaps[1..], bytes[1..]))
  {
    hide HexOfByte;
    var g, h, r := gaps[0], HexOfByte(bytes[0]), Layout(gaps[1..], bytes[1..]);
    assert g + h + r == g + (h + r);
  }

  lemma NoHex()
    ensures FromHex("") == Some([])
  {
  }

  lemma FromHexByte(b: byte, rest: string)
    requires FromHex(rest).Some?
    ensures FromHex(HexOfByte(b) + rest) == Some([b] + FromHex(rest).value)
  {
    hide HexValue, HexDigit, IsSpace;
    HexDigits(b / 16);
    HexDigits(b % 16);
    var s := HexOfByte(b) + rest;
    assert s[2..] == rest;
  }

  /** The same text, but for the kind of white space and the case of letters. */
  predicate Similar(s: string, t: string) {
    |s| == |t| && forall i :: 0 <= i < |s| ==> SimilarChar(s[i], t[i])
  }

  predicate SimilarChar(c: char, d: char) {
    if IsSpace(d) then IsSpace(c) else !IsSpace(c) && HexValue(c) == HexValue(d)
  }

  lemma {:induction false} FromHexSimilar(s: string, t: string)
    requires Similar(s, t)
    ensures FromHex(s) == FromHex(t)
    decreases |s|
  {
    hide IsSpace, HexValue;
    if s != "" {
      assert SimilarChar(s[0], t[0]);
      if IsSpace(t[0]) {
        FromHexSimilar(s[1..], t[1..]);
      } else if |s| >= 2 {
        assert SimilarChar(s[1], t[1]);
        SpaceIsNoDigit(s[1]);
        SpaceIsNoDigit(t[1]);
        FromHexSimilar(s[2..], t[2..]);
      }
    }
  }

  lemma SpaceIsNoDigit(c: char)
    ensures IsSpace(c) ==> HexValue(c) < 0
  {
  }

  /** Upper-case letters for some of the lower-case ones. */
  predicate InEitherCase(text: string, lower: string) {
    |text| == |lower| &&
    forall i :: 0 <= i < |text| ==>
      text[i] == lower[i] || ('a' <= lower[i] <= 'f' && text[i] as int == lower[i] as int - 'a' as int + 'A' as int)
  }

  /** Any layout of whole bytes, in letters of either case, is read back as those bytes. */
  lemma DehexifyReadsLayouts(gaps: seq<string>, bytes: seq<byte>, text: string)
    requires |gaps| == |bytes| && AllBlank(gaps) && InEitherCase(text, Layout(gaps, bytes))
    ensures Dehexify(text) == Some(bytes)
  {
    DehexifyIsFromHex(text);
    FromHexLayout(gaps, bytes);
    LayoutPlain(gaps, bytes);
    forall i | 0 <= i < |text| ensures SimilarChar(Unbroken(text)[i], Layout(gaps, bytes)[i]) {
      UnbrokenSimilar(text[i], Layout(gaps, bytes)[i]);
    }
    FromHexSimilar(Unbroken(text), Layout(gaps, bytes));
  }

  /** Line ends that are white space, and hexadecimal digits, keep their meaning. */
  predicate Plain(c: char) { IsSpace(c) || (HexValue(c) >= 0 && !IsLineBreak(c)) }

  lemma UnbrokenSimilar(c: char, d: char)
    requires Plain(d) && (c == d || ('a' <= d <= 'f' && c as int == d as int - 'a' as int + 'A' as int))
    ensures SimilarChar(if IsLineBreak(c) then '\n' else c, d)
  {
  }

  lemma {:induction false} LayoutPlain(gaps: seq<string>, bytes: seq<byte>)
    requires |gaps| == |bytes| && AllBlank(gaps)
    ensures forall i :: 0 <= i < |Layout(gaps, bytes)| ==> Plain(Layout(gaps, bytes)[i])
  {
    hide HexDigit, Plain, Blank;
    if bytes != [] {
      LayoutPlain(gaps[1..], bytes[1..]);
      DigitPlain(bytes[0] / 16);
      DigitPlain(bytes[0] % 16);
      BlankPlain(gaps[0]);
    }
  }

  lemma DigitPlain(v: nat)
    requires v < 16
    ensures Plain(HexDigit(v))
  {
    HexDigits(v);
  }

  lemma BlankPlain(gap: string)
    requires Blank(gap)
    ensures forall i :: 0 <= i < |gap| ==> Plain(gap[i])
  {
  }

  /** Neither white space nor a hexadecimal digit. */
  predicate Stray(c: char) {
    c !in {' ', '\t', '\n', '\r', 11 as char, 12 as char} && !('0' <= c <= '9') && !('a' <= c <= 'f') && !('A' <= c <= 'F')
  }

  /** Anything else in the text raises an exception. */
  lemma {:induction false} StrayRaises(s: string, k: nat)
    requires k < |s| && Stray(s[k])
    ensures FromHex(s) == None
    decreases |s|
  {
    if IsSpace(s[0]) {
      StrayRaises(s[1..], k - 1);
    } else if |s| >= 2 && HexValue(s[0]) >= 0 && HexValue(s[1]) >= 0 {
      StrayRaises(s[2..], k - 2);
    }
  }
}
