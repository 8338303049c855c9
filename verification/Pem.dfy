/** PEM text and C string literals around DER data: section 4 of RFC 4648 and section 2 of RFC 7468. */
module Pem {
  import opened Bytes
  import opened Options
  import opened Text

  // Base64.

  function Letter(v: nat): char
    requires v < 64
  {
    if v < 26 then ('A' as int + v) as char
    else if v < 52 then ('a' as int + (v - 26)) as char
    else if v < 62 then ('0' as int + (v - 52)) as char
    else if v == 62 then '+'
    else '/'
  }

  function LetterValue(c: char): (v: int)
    ensures -1 <= v < 64
  {
    if 'A' <= c <= 'Z' then c as int - 'A' as int
    else if 'a' <= c <= 'z' then c as int - 'a' as int + 26
    else if '0' <= c <= '9' then c as int - '0' as int + 52
    else if c == '+' then 62
    else if c == '/' then 63
    else -1
  }

  lemma LetterRoundTrip(v: nat)
    requires v < 64
    ensures LetterValue(Letter(v)) == v
    ensures Letter(v) !in {'=', '\n', '-', '"', '\\'}
  {
  }

  /** The four 6-bit groups of three bytes. */
  function Group(a: byte, b: byte, c: byte): (g: (nat, nat, nat, nat))
    ensures g.0 < 64 && g.1 < 64 && g.2 < 64 && g.3 < 64
  {
    (a / 4, a % 4 * 16 + b / 16, b % 16 * 4 + c / 64, c % 64)
  }

  /** base64.b64encode */
  function Encode64(bs: seq<byte>): string {
    if bs == [] then ""
    else if |bs| == 1 then
      var g := Group(bs[0], 0, 0);
      [Letter(g.0), Letter(g.1), '=', '=']
    else if |bs| == 2 then
      var g := Group(bs[0], bs[1], 0);
      [Letter(g.0), Letter(g.1), Letter(g.2), '=']
    else
      var g := Group(bs[0], bs[1], bs[2]);
      [Letter(g.0), Letter(g.1), Letter(g.2), Letter(g.3)] + Encode64(bs[3..])
  }

  /** The bytes behind four letters; padding letters count as zero bits, which they must be. */
  function Ungroup(w: int, x: int, y: int, z: int): seq<byte>
    requires 0 <= w < 64 && 0 <= x < 64 && 0 <= y < 64 && 0 <= z < 64
  {
    [w * 4 + x / 16, x % 16 * 16 + y / 4, y % 4 * 64 + z]
  }

  function Decode64(s: string): Option<seq<byte>> {
    if s == "" then Some([])
    else if |s| < 4 || LetterValue(s[0]) < 0 || LetterValue(s[1]) < 0 then None
    else
      var (w, x, y, z) := (LetterValue(s[0]), LetterValue(s[1]), LetterValue(s[2]), LetterValue(s[3]));
      if |s| == 4 && s[2] == '=' && s[3] == '=' then
        if x % 16 == 0 then Some(Ungroup(w, x, 0, 0)[..1]) else None
      else if |s| == 4 && y >= 0 && s[3] == '=' then
        if y % 4 == 0 then Some(Ungroup(w, x, y, 0)[..2]) else None
      else if y >= 0 && z >= 0 then
        match Decode64(s[4..])
        case None => None
        case Some(rest) => Some(Ungroup(w, x, y, z) + rest)
      else None
  }

  /** Splitting off the low part of a sum again. */
  lemma SplitSum(high: nat, low: nat)
    ensures low < 16 ==> (high * 16 + low) / 16 == high && (high * 16 + low) % 16 == low
    ensures low < 4 ==> (high * 4 + low) / 4 == high && (high * 4 + low) % 4 == low
  {
  }

  lemma UngroupGroup(a: byte, b: byte, c: byte)
    ensures var g := Group(a, b, c); Ungroup(g.0, g.1, g.2, g.3) == [a, b, c]
    ensures c == 0 ==> Group(a, b, c).2 % 4 == 0 && Group(a, b, c).3 == 0
    ensures b == 0 && c == 0 ==> Group(a, b, c).1 % 16 == 0 && Group(a, b, c).2 == 0
  {
    SplitSum(a % 4, b / 16);
    SplitSum(b % 16, c / 64);
  }

  predicate PlainText(s: string) { forall i :: 0 <= i < |s| ==> s[i] !in {'\n', '-', '"', '\\'} }

  lemma {:induction false} Base64RoundTrip(bs: seq<byte>)
    ensures Decode64(Encode64(bs)) == Some(bs)
    ensures PlainText(Encode64(bs))
  {
    hide Letter, LetterValue, Group, Ungroup;
    NoLetter();
    if bs != [] {
      var (a, b, c) := (bs[0], if |bs| > 1 then bs[1] else 0, if |bs| > 2 then bs[2] else 0);
      var g := Group(a, b, c);
      UngroupGroup(a, b, c);
      LetterRoundTrip(g.0);
      LetterRoundTrip(g.1);
      LetterRoundTrip(g.2);
      LetterRoundTrip(g.3);
      var s := Encode64(bs);
      if |bs| == 1 {
        assert s == [Letter(g.0), Letter(g.1), '=', '='] && [a, b, c][..1] == bs;
      } else if |bs| == 2 {
        assert s == [Letter(g.0), Letter(g.1), Letter(g.2), '='] && [a, b, c][..2] == bs;
      } else {
        Base64RoundTrip(bs[3..]);
        assert s == [Letter(g.0), Letter(g.1), Letter(g.2), Letter(g.3)] + Encode64(bs[3..]);
        assert s[4..] == Encode64(bs[3..]);
        assert bs == [a, b, c] + bs[3..];
      }
    }
  }

  lemma NoLetter()
    ensures LetterValue('=') == -1
  {
  }

  // PEM.

  const LINE := 64

  function Begin(kind: string): string { "-----BEGIN " + kind + "-----" }

  function End(kind: string): string { "-----END " + kind + "-----" }

  /** Full lines of 64 characters, and a shorter last one for what is left. */
  function LinesOf(enc: string): seq<string> {
    if enc == "" then []
    else if |enc| <= LINE then [enc]
    else [enc[..LINE]] + LinesOf(enc[LINE..])
  }

  /** Every line ended by a line feed. */
  function Unlines(lines: seq<string>): string {
    if lines == [] then "" else lines[0] + "\n" + Unlines(lines[1..])
  }

  function PemOf(der: seq<byte>, kind: string): string {
    Unlines([Begin(kind)] + LinesOf(Encode64(der)) + [End(kind)])
  }

  /** The text with a line feed behind every 64 characters. */
  function Flow(enc: string): string {
    if |enc| < LINE then enc else enc[..LINE] + "\n" + Flow(enc[LINE..])
  }

  lemma FlowMore(enc: string)
    requires |enc| >= LINE
    ensures Flow(enc) == enc[..LINE] + "\n" + Flow(enc[LINE..])
  {
  }

  lemma FlowFew(enc: string)
    requires |enc| < LINE
    ensures Flow(enc) == enc
  {
  }

  lemma ModLine(n: nat)
    requires n >= LINE
    ensures (n - LINE) % LINE == n % LINE
  {
  }

  function Feed(size: nat): string { if size % LINE == 0 then "\n" else "" }

  lemma {:induction false} FlowAppend(enc: string, c: char)
    ensures Flow(enc + [c]) == Flow(enc) + [c] + Feed(|enc| + 1)
  {
    hide Flow;
    var s := enc + [c];
    if |enc| >= LINE {
      var first, rest := enc[..LINE], enc[LINE..];
      assert s[LINE..] == rest + [c] && s[..LINE] == first;
      FlowAppend(rest, c);
      FlowMore(s);
      FlowMore(enc);
      ModLine(|s|);
      var head := first + "\n";
      assert head + (Flow(rest) + [c] + Feed(|rest| + 1)) == head + Flow(rest) + [c] + Feed(|s|);
    } else {
      FlowFew(enc);
      if |s| == LINE {
        FlowMore(s);
        FlowFew("");
        assert s[..LINE] == s && s[LINE..] == "";
        assert s + "\n" + "" == s + "\n";
      } else {
        FlowFew(s);
        assert s + "" == s;
      }
    }
  }

  lemma {:induction false} FlowIsLines(enc: string)
    ensures Unlines(LinesOf(enc)) == Flow(enc) + if |enc| % LINE == 0 then "" else "\n"
  {
    hide Flow;
    if |enc| > LINE {
      var first, rest := enc[..LINE], enc[LINE..];
      FlowIsLines(rest);
      LinesOfMore(enc);
      FlowMore(enc);
      ModLine(|enc|);
      hide LinesOf;
      assert ([first] + LinesOf(rest))[1..] == LinesOf(rest);
      var tail := if |rest| % LINE == 0 then "" else "\n";
      assert first + "\n" + (Flow(rest) + tail) == first + "\n" + Flow(rest) + tail;
    } else if enc != "" {
      UnlinesOne(enc);
      if |enc| == LINE {
        FlowMore(enc);
        FlowFew("");
        assert enc[..LINE] == enc && enc[LINE..] == "";
      } else {
        FlowFew(enc);
      }
    } else {
      FlowFew("");
    }
  }

  lemma {:induction false} UnlinesConcat(a: seq<string>, b: seq<string>)
    ensures Unlines(a + b) == Unlines(a) + Unlines(b)
  {
    if a == [] {
      assert a + b == b;
    } else {
      assert (a + b)[1..] == a[1..] + b;
      UnlinesConcat(a[1..], b);
    }
  }

  /** Flow does not end in a line feed unless the last line is full. */
  lemma {:induction false} FlowEnds(enc: string)
    requires PlainText(enc) && enc != ""
    ensures var f := Flow(enc); f != "" && (f[|f| - 1] == '\n' <==> |enc| % LINE == 0)
  {
    hide Flow;
    if |enc| > LINE {
      FlowMore(enc);
      ModLine(|enc|);
      FlowEnds(enc[LINE..]);
    } else if |enc| == LINE {
      FlowMore(enc);
      FlowFew("");
      assert enc[LINE..] == "";
    } else {
      FlowFew(enc);
    }
  }

  /** The loop over the characters, counting to 64. */
  method AppendFlow(head: string, enc: string) returns (out: string)
    ensures out == head + Flow(enc)
  {
    hide Flow;
    out := head;
    var n := 0;
    FlowEmpty();
    for i := 0 to |enc|
      invariant n == i % LINE && out == head + Flow(enc[..i])
    {
      FlowAppend(enc[..i], enc[i]);
      assert enc[..i] + [enc[i]] == enc[..i + 1] && |enc[..i]| + 1 == i + 1;
      out := out + [enc[i]];
      n := n + 1;
      if n == LINE {
        out := out + "\n";
        n := 0;
      }
    }
    assert enc[..|enc|] == enc;
  }

  method MakePem(der: seq<byte>, kind: string) returns (out: string)
    ensures out == PemOf(der, kind)
  {
    hide Encode64, Flow, Begin, End, LinesOf;
    var head := Begin(kind) + "\n";
    var enc := Encode64(der);
    out := AppendFlow(head, enc);
    Base64RoundTrip(der);
    FlowEmpty();
    if enc != "" { FlowEnds(enc); }
    assert out[|out| - 1] == if enc == "" then '\n' else Flow(enc)[|Flow(enc)| - 1];
    if out[|out| - 1] != '\n' {
      out := out + "\n";
    }
    FlowIsLines(enc);
    assert out == head + Unlines(LinesOf(enc));
    out := out + (End(kind) + "\n");
    PemParts(enc, kind);
  }

  lemma FlowEmpty()
    ensures Flow("") == ""
  {
  }

  lemma PemParts(enc: string, kind: string)
    ensures Unlines([Begin(kind)] + LinesOf(enc) + [End(kind)]) ==
            (Begin(kind) + "\n") + Unlines(LinesOf(enc)) + (End(kind) + "\n")
  {
    hide Begin, End, LinesOf;
    UnlinesConcat([Begin(kind)] + LinesOf(enc), [End(kind)]);
    UnlinesConcat([Begin(kind)], LinesOf(enc));
    UnlinesOne(Begin(kind));
    UnlinesOne(End(kind));
  }

  lemma UnlinesOne(line: string)
    ensures Unlines([line]) == line + "\n"
  {
    assert line + "\n" + "" == line + "\n";
  }

  /** Every line has 64 characters but the last, which has 1 to 64. */
  lemma {:induction false} LinesShape(enc: string)
    ensures var ls := LinesOf(enc);
            (forall i :: 0 <= i < |ls| - 1 ==> |ls[i]| == LINE) && (ls != [] ==> 1 <= |ls[|ls| - 1]| <= LINE)
  {
    if |enc| > LINE {
      var first, rest := enc[..LINE], LinesOf(enc[LINE..]);
      LinesShape(enc[LINE..]);
      LinesOfMore(enc);
      hide LinesOf;
      var ls := [first] + rest;
      assert forall i :: 1 <= i < |ls| ==> ls[i] == rest[i - 1];
    }
  }

  lemma LinesOfMore(enc: string)
    requires |enc| > LINE
    ensures LinesOf(enc) == [enc[..LINE]] + LinesOf(enc[LINE..]) && LinesOf(enc[LINE..]) != []
  {
  }

  /** Together the lines are the text. */
  lemma {:induction false} LinesGather(enc: string)
    ensures Gather(LinesOf(enc)) == enc
    ensures PlainText(enc) ==> forall l :: l in LinesOf(enc) ==> PlainText(l)
  {
    if |enc| > LINE {
      LinesGather(enc[LINE..]);
      LinesOfMore(enc);
      assert LinesOf(enc)[1..] == LinesOf(enc[LINE..]);
      hide LinesOf;
      assert enc == enc[..LINE] + enc[LINE..];
    } else if enc != "" {
      assert LinesOf(enc)[1..] == [] && enc + "" == enc;
    }
  }

  function Gather(lines: seq<string>): string {
    if lines == [] then "" else lines[0] + Gather(lines[1..])
  }

  /** Reading PEM: the lines between the two boundaries hold the base64 text. */
  function ReadPem(text: string, kind: string): Option<seq<byte>> {
    var lines := Split(text, '\n');
    if |lines| < 3 || lines[0] != Begin(kind) || lines[|lines| - 2] != End(kind) || lines[|lines| - 1] != "" then None
    else Decode64(Gather(lines[1..|lines| - 2]))
  }

  lemma {:induction false} SplitUnlines(lines: seq<string>)
    requires forall l :: l in lines ==> Lacks(l, '\n')
    ensures Split(Unlines(lines), '\n') == lines + [""]
  {
    if lines != [] {
      SplitUnlines(lines[1..]);
      SplitHead(lines[0], Unlines(lines[1..]), '\n');
    }
  }

  lemma FramesLack(kind: string)
    requires Lacks(kind, '\n')
    ensures Lacks(Begin(kind), '\n') && Lacks(End(kind), '\n')
    ensures forall l :: PlainText(l) ==> Lacks(l, '\n')
  {
  }

  /** The PEM text of DER data decodes to the data; it is laid out in lines of 64 characters. */
  lemma PemRoundTrip(der: seq<byte>, kind: string)
    requires Lacks(kind, '\n')
    ensures ReadPem(PemOf(der, kind), kind) == Some(der)
    ensures var body := LinesOf(Encode64(der));
            Split(PemOf(der, kind), '\n') == [Begin(kind)] + body + [End(kind), ""] &&
            (forall i :: 0 <= i < |body| - 1 ==> |body[i]| == LINE) && (body != [] ==> 1 <= |body[|body| - 1]| <= LINE)
  {
    hide Encode64, Decode64;
    var enc := Encode64(der);
    var body := LinesOf(enc);
    Base64RoundTrip(der);
    LinesShape(enc);
    LinesGather(enc);
    var lines := [Begin(kind)] + body + [End(kind)];
    hide LinesOf, Lacks;
    FramesLack(kind);
    forall l | l in lines ensures Lacks(l, '\n') {
      if l in body { assert PlainText(l); }
    }
    SplitUnlines(lines);
    assert lines + [""] == [Begin(kind)] + body + [End(kind), ""];
    assert (lines + [""])[1..|lines| - 1] == body;
  }

  // C string literals.

  function Quoted(line: string, terminator: string): string { "\"" + line + "\\n\"" + terminator }

  /** The literals for the lines: a semicolon behind each line that equals the last one, and nothing
      at all for an empty line. */
  function Literals(lines: seq<string>, last: string): seq<string> {
    if lines == [] then []
    else
      (if lines[0] == "" then [] else [Quoted(lines[0], if lines[0] == last then ";" else "")]) + Literals(lines[1..], last)
  }

  function Declaration(identifier: string): string { "static const char " + identifier + "[] = \\" }

  /** writeCStr: raises where there is no line at all. */
  function CStr(identifier: string, str: string): Result<seq<string>> {
    var splat := Split(str, '\n');
    var lines := splat[..|splat| - 1];
    if lines == [] then Raised else Ok([Declaration(identifier)] + Literals(lines, lines[|lines| - 1]))
  }

  /** The lines written to the file. */
  method WriteCStr(identifier: string, str: string) returns (written: Result<seq<string>>)
    ensures written == CStr(identifier, str)
  {
    var splat := Split(str, '\n');
    splat := splat[..|splat| - 1];
    if |splat| == 0 {
      return Raised;
    }
    var lastLine := splat[|splat| - 1];
    var out := [Declaration(identifier)];
    for i := 0 to |splat|
      invariant out + Literals(splat[i..], lastLine) == [Declaration(identifier)] + Literals(splat, lastLine)
    {
      assert splat[i..][1..] == splat[i + 1..];
      var line := splat[i];
      var terminator := "";
      if line == lastLine {
        terminator := ";";
      }
      if |line| > 0 {
        out := out + [Quoted(line, terminator)];
      }
    }
    assert splat[|splat|..] == [] && out + [] == out;
    written := Ok(out);
  }

  /** Reading one literal: its text without the escaped line feed, and whether a semicolon follows. */
  function ReadLiteral(l: string): Option<(string, bool)> {
    var ended := l != "" && l[|l| - 1] == ';';
    var literal := if ended then l[..|l| - 1] else l;
    if |literal| < 4 || literal[0] != '"' || literal[|literal| - 3..] != "\\n\"" then None
    else
      var text := literal[1..|literal| - 3];
      if Lacks(text, '"') && Lacks(text, '\\') then Some((text, ended)) else None
  }

  /** What a C compiler makes of the literals: they are concatenated up to the semicolon, which has to
      come once, at the end. */
  function ReadLiterals(ls: seq<string>): Option<string> {
    if ls == [] then None
    else
      match ReadLiteral(ls[0])
      case None => None
      case Some((text, ended)) =>
        if ended then if |ls| == 1 then Some(text + "\n") else None
        else
          match ReadLiterals(ls[1..])
          case None => None
          case Some(rest) => Some(text + "\n" + rest)
  }

  predicate Printable(line: string) { Lacks(line, '\n') && Lacks(line, '"') && Lacks(line, '\\') }

  lemma ReadsQuoted(line: string, ended: bool)
    requires Printable(line) && line != ""
    ensures ReadLiteral(Quoted(line, if ended then ";" else "")) == Some((line, ended))
  {
    var l := Quoted(line, if ended then ";" else "");
    var literal := "\"" + line + "\\n\"";
    if ended {
      assert l == literal + ";" && l[..|l| - 1] == literal;
    } else {
      assert l == literal && l[|l| - 1] == '"';
    }
    assert literal[1..|literal| - 3] == line && literal[|literal| - 3..] == "\\n\"";
  }

  function NonEmpty(lines: seq<string>): seq<string> {
    if lines == [] then [] else (if lines[0] == "" then [] else [lines[0]]) + NonEmpty(lines[1..])
  }

  lemma {:induction false} LiteralsSkip(lines: seq<string>, last: string)
    ensures Literals(lines, last) == Literals(NonEmpty(lines), last)
    ensures |Unlines(NonEmpty(lines))| <= |Unlines(lines)|
    ensures |Unlines(NonEmpty(lines))| == |Unlines(lines)| <==> "" !in lines
    ensures "" !in lines ==> NonEmpty(lines) == lines
    ensures forall l :: l in NonEmpty(lines) <==> l in lines && l != ""
  {
    hide Quoted;
    if lines != [] {
      LiteralsSkip(lines[1..], last);
      var rest := NonEmpty(lines[1..]);
      if lines[0] != "" {
        assert NonEmpty(lines)[1..] == rest && NonEmpty(lines)[0] == lines[0];
      } else {
        assert [] + rest == rest && NonEmpty(lines) == rest;
        assert [] + Literals(lines[1..], last) == Literals(lines[1..], last);
      }
    }
  }

  /** Of lines that are not empty, the literals read back exactly when the last line is the only one
      that equals the line taken for the last. */
  lemma {:induction false} ReadsLiterals(lines: seq<string>, last: string)
    requires "" !in lines && forall l :: l in lines ==> Printable(l)
    ensures ReadLiterals(Literals(lines, last)) ==
            if lines != [] && lines[|lines| - 1] == last && last !in lines[..|lines| - 1] then Some(Unlines(lines)) else None
    ensures |Literals(lines, last)| == |lines|
  {
    hide Quoted, ReadLiteral, Printable;
    if lines != [] {
      var first, rest := lines[0], lines[1..];
      assert first in lines && forall l :: l in rest ==> l in lines;
      ReadsLiterals(rest, last);
      ReadsQuoted(first, first == last);
      assert Literals(lines, last) == [Quoted(first, if first == last then ";" else "")] + Literals(rest, last);
      assert Literals(lines, last)[1..] == Literals(rest, last);
      hide Literals;
      if rest != [] {
        assert lines[..|lines| - 1] == [first] + rest[..|rest| - 1];
        assert lines[|lines| - 1] == rest[|rest| - 1];
      } else {
        assert lines[..0] == [] && first + "\n" + "" == first + "\n";
      }
    }
  }

  /** A text of whole lines, written as C literals, is the text a compiler reads exactly when it has
      no empty line and its last line does not occur before: empty lines are dropped, and a repeated
      last line ends the literal early. */
  lemma CStrRoundTripIff(identifier: string, lines: seq<string>)
    requires lines != [] && forall l :: l in lines ==> Printable(l)
    ensures var written := CStr(identifier, Unlines(lines));
            written.Ok? && |written.value| >= 1 && written.value[0] == Declaration(identifier) &&
            (ReadLiterals(written.value[1..]) == Some(Unlines(lines)) <==>
              "" !in lines && lines[|lines| - 1] !in lines[..|lines| - 1])
  {
    hide Literals, ReadLiterals, Quoted, Declaration;
    var last := lines[|lines| - 1];
    SplitUnlines(lines);
    assert (lines + [""])[..|lines|] == lines;
    var kept := NonEmpty(lines);
    LiteralsSkip(lines, last);
    ReadsLiterals(kept, last);
    var written := CStr(identifier, Unlines(lines)).value;
    assert written[1..] == Literals(kept, last);
  }

  /** PEM text is such a text: the literals written for it concatenate to it, and the only semicolon
      comes at the end. */
  lemma PemLiterals(identifier: string, der: seq<byte>, kind: string)
    requires Printable(kind)
    ensures var written := CStr(identifier, PemOf(der, kind));
            written.Ok? && ReadLiterals(written.value[1..]) == Some(PemOf(der, kind))
  {
    hide Encode64, Literals, ReadLiterals, Begin, End, LinesOf, Printable, CStr;
    var lines := [Begin(kind)] + LinesOf(Encode64(der)) + [End(kind)];
    Base64RoundTrip(der);
    BoundariesPlain(kind);
    BodyLinesPlain(Encode64(der));
    assert lines[..|lines| - 1] == [Begin(kind)] + LinesOf(Encode64(der));
    CStrRoundTripIff(identifier, lines);
  }

  lemma BoundariesPlain(kind: string)
    requires Printable(kind)
    ensures Printable(Begin(kind)) && Begin(kind) != "" && Printable(End(kind)) && End(kind) != ""
    ensures End(kind)[0] == '-' && End(kind) != Begin(kind)
  {
    assert |End(kind)| != |Begin(kind)|;
  }

  lemma {:induction false} BodyLinesPlain(enc: string)
    requires PlainText(enc)
    ensures forall l :: l in LinesOf(enc) ==> l != "" && l[0] != '-' && Printable(l)
  {
    if |enc| > LINE {
      BodyLinesPlain(enc[LINE..]);
    }
  }
}
