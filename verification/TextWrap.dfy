/** The line wrapper of the CHANGES generator. */
module TextWrap {
  import opened Bytes
  import opened Text

  /** The number of columns of a text, counting a tab as eight. */
  function TextWidth(text: string): nat {
    if text == "" then 0 else (if text[0] == '\t' then 8 else 1) + TextWidth(text[1..])
  }

  method CountWidth(text: string) returns (count: nat)
    ensures count == TextWidth(text)
  {
    count := 0;
    for i := 0 to |text|
      invariant count + TextWidth(text[i..]) == TextWidth(text)
    {
      assert text[i..][1..] == text[i + 1..];
      count := count + if text[i] == '\t' then 8 else 1;
    }
  }

  lemma {:induction false} WidthConcat(s: string, t: string)
    ensures TextWidth(s + t) == TextWidth(s) + TextWidth(t)
  {
    if s == "" {
      assert s + t == t;
    } else {
      assert (s + t)[1..] == s[1..] + t;
      WidthConcat(s[1..], t);
    }
  }

  lemma {:induction false} WidthVsLength(s: string)
    ensures |s| <= TextWidth(s)
    ensures TextWidth(s) == |s| <==> Lacks(s, '\t')
  {
    if s != "" {
      WidthVsLength(s[1..]);
      assert Lacks(s, '\t') <==> s[0] != '\t' && Lacks(s[1..], '\t') by {
        assert forall i :: 1 <= i < |s| ==> s[i] == s[1..][i - 1];
        assert forall i :: 0 <= i < |s[1..]| ==> s[1..][i] == s[i + 1];
      }
    }
  }

  /** The width available to a line, and the two indents. */
  datatype Style = Style(width: int, initial: string, subsequent: string) {
    function Indent(lines: seq<string>): string {
      if lines == [] then initial else subsequent
    }

    /** Every line has room for at least one column of text. */
    predicate Roomy() { TextWidth(initial) < width && TextWidth(subsequent) < width }
  }

  datatype State = State(queue: seq<string>, line: string, lines: seq<string>)

  /** word[0:size] and word[size:], where a negative size counts from the end. */
  function Cut(word: string, size: int): (pieces: (string, string))
    ensures pieces.0 + pieces.1 == word
  {
    var at := if size >= 0 then Min(size, |word|) else Max(0, |word| + size);
    (word[..at], word[at..])
  }

  /** One turn of the loop: the first word is put on the line, or cut, or the line is finished. */
  function Step(st: Style, s: State): State
    requires s.queue != []
  {
    var (word, rest) := (s.queue[0], s.queue[1..]);
    var indent := st.Indent(s.lines);
    var line := if s.line == "" then indent else s.line;
    var wordPrefix := if line == indent then line else line + " ";
    if TextWidth(wordPrefix + word) <= st.width then State(rest, wordPrefix + word, s.lines)
    else if line == indent then
      var (keep, putBack) := Cut(word, st.width - TextWidth(wordPrefix));
      State([putBack] + rest, wordPrefix + keep, s.lines)
    else State(s.queue, "", s.lines + [line])
  }

  function Chars(queue: seq<string>): nat {
    if queue == [] then 0 else |queue[0]| + Chars(queue[1..])
  }

  /** The line holds something besides its indent. */
  predicate Begun(st: Style, s: State) { s.line != "" && s.line != st.Indent(s.lines) }

  /** On a fresh line, the next word does not fit, and cutting it leaves it whole. */
  predicate Stuck(st: Style, s: State) {
    s.queue != [] && !Begun(st, s) && TextWidth(st.Indent(s.lines) + s.queue[0]) > st.width &&
    Cut(s.queue[0], st.width - TextWidth(st.Indent(s.lines))).0 == ""
  }

  /** Each turn that is not stuck uses up text or words, or finishes a line that holds text. */
  lemma StepProgress(st: Style, s: State)
    requires s.queue != [] && !Stuck(st, s)
    ensures var s' := Step(st, s);
            var (now, next) := (Chars(s.queue) + |s.queue|, Chars(s'.queue) + |s'.queue|);
            next < now || (next == now && Begun(st, s) && !Begun(st, s'))
  {
    var (word, rest) := (s.queue[0], s.queue[1..]);
    var s' := Step(st, s);
    if s'.queue != rest && !Begun(st, s) {
      var (keep, putBack) := Cut(word, st.width - TextWidth(st.Indent(s.lines)));
      assert |keep + putBack| == |word| && keep != "";
      assert s'.queue == [putBack] + rest && s'.queue[1..] == rest;
    }
  }

  lemma RoomyIsNotStuck(st: Style, s: State)
    requires st.Roomy()
    ensures !Stuck(st, s)
  {
    if s.queue != [] {
      WidthConcat(st.Indent(s.lines), s.queue[0]);
      if s.queue[0] == "" { NoWidth(); }
    }
  }

  /** All lines, the last one included. */
  function Closed(s: State): seq<string> { if s.line != "" then s.lines + [s.line] else s.lines }

  /** The lines the loop produces from a state. */
  function Wrap(st: Style, s: State): seq<string>
    requires st.Roomy()
    decreases Chars(s.queue) + |s.queue|, Begun(st, s)
  {
    if s.queue == [] then Closed(s)
    else
      RoomyIsNotStuck(st, s);
      StepProgress(st, s);
      Wrap(st, Step(st, s))
  }

  function Begin(text: string): State { State(Split(text, ' '), "", []) }

  /** The lines of a whole text. */
  function WrapText(st: Style, text: string): seq<string>
    requires st.Roomy()
  {
    Wrap(st, Begin(text))
  }

  /** The state after some turns, as long as there are words. */
  function After(st: Style, s: State, turns: nat): State
    decreases turns
  {
    if turns == 0 || s.queue == [] then s else After(st, Step(st, s), turns - 1)
  }

  predicate EndsWithin(st: Style, s: State, turns: nat) { After(st, s, turns).queue == [] }

  ghost predicate Ends(st: Style, s: State) { exists turns: nat :: EndsWithin(st, s, turns) }

  /** The loop as written, on any input on which it ends. */
  method PerlCompatibleTextWrap(text: string, columns: int, initialIndent: string, subsequentIndent: string)
    returns (out: string)
    requires Ends(Style(columns - 1, initialIndent, subsequentIndent), Begin(text))
    ensures var st := Style(columns - 1, initialIndent, subsequentIndent);
            forall turns: nat :: EndsWithin(st, Begin(text), turns) ==> out == Join(Closed(After(st, Begin(text), turns)), '\n')
    ensures var st := Style(columns - 1, initialIndent, subsequentIndent);
            st.Roomy() ==> out == Join(WrapText(st, text), '\n')
  {
    hide TextWidth, Split, Join, Chars, Begun, Step, After;
    var lines: seq<string> := [];
    var line := "";
    var width := columns - 1;
    ghost var st := Style(width, initialIndent, subsequentIndent);
    ghost var begin := Begin(text);
    var queue := Split(text, ' ');
    ghost var limit: nat :| EndsWithin(st, begin, limit);
    ghost var turns: nat := 0;
    NoTurns(st, begin);
    while |queue| > 0
      invariant turns <= limit && State(queue, line, lines) == After(st, begin, turns)
      decreases limit - turns
    {
      ghost var before := State(queue, line, lines);
      AfterMore(st, begin, turns, limit - turns);
      NoTurns(st, before);
      AfterMore(st, begin, turns, 1);
      OneTurn(st, before);
      var word := queue[0];
      queue := queue[1..];
      var indent := if |lines| == 0 then initialIndent else subsequentIndent;
      if line == "" {
        line := indent;
      }
      var wordPrefix := if line == indent then line else line + " ";
      var widthWithWordAdded := CountWidth(wordPrefix + word);
      turns := turns + 1;
      if widthWithWordAdded > width {
        if line == indent {
          var used := CountWidth(wordPrefix);
          var (keep, putBack) := Cut(word, width - used);
          queue := [putBack] + queue;
          word := keep;
        } else {
          queue := [word] + queue;
          lines := lines + [line];
          line := "";
          assert State(queue, line, lines) == Step(st, before) by { StepIs(st, before); }
          continue;
        }
      }
      line := wordPrefix + word;
      assert State(queue, line, lines) == Step(st, before) by { StepIs(st, before); }
    }
    if line != "" {
      lines := lines + [line];
    }
    out := Join(lines, '\n');
    forall n: nat | EndsWithin(st, begin, n) ensures out == Join(Closed(After(st, begin, n)), '\n') {
      SameEnd(st, begin, n, turns);
    }
    if st.Roomy() {
      WrapIsAfter(st, begin, turns);
    }
  }

  /** No line is empty, whatever the words and indents are. */
  lemma {:induction false} NoLineIsEmpty(st: Style, s: State, turns: nat)
    requires forall l :: l in s.lines ==> l != ""
    ensures forall l :: l in Closed(After(st, s, turns)) ==> l != ""
    decreases turns
  {
    hide TextWidth, Cut;
    if turns > 0 && s.queue != [] { NoLineIsEmpty(st, Step(st, s), turns - 1); }
  }

  lemma StepIs(st: Style, s: State)
    requires s.queue != []
    ensures Step(st, s) ==
      var (word, rest) := (s.queue[0], s.queue[1..]);
      var indent := st.Indent(s.lines);
      var line := if s.line == "" then indent else s.line;
      var wordPrefix := if line == indent then line else line + " ";
      if TextWidth(wordPrefix + word) <= st.width then State(rest, wordPrefix + word, s.lines)
      else if line == indent then
        State([Cut(word, st.width - TextWidth(wordPrefix)).1] + rest,
              wordPrefix + Cut(word, st.width - TextWidth(wordPrefix)).0, s.lines)
      else State([word] + rest, "", s.lines + [line])
  {
  }

  lemma NoTurns(st: Style, s: State)
    ensures After(st, s, 0) == s
  {
  }

  lemma OneTurn(st: Style, s: State)
    requires s.queue != []
    ensures After(st, s, 1) == Step(st, s)
  {
    assert After(st, Step(st, s), 0) == Step(st, s);
  }

  lemma {:induction false} AfterMore(st: Style, s: State, j: nat, k: nat)
    ensures After(st, s, j + k) == After(st, After(st, s, j), k)
    decreases j
  {
    if j > 0 && s.queue != [] { AfterMore(st, Step(st, s), j - 1, k); }
  }

  lemma SameEnd(st: Style, s: State, m: nat, n: nat)
    requires EndsWithin(st, s, m) && EndsWithin(st, s, n)
    ensures After(st, s, m) == After(st, s, n)
  {
    if m <= n { AfterMore(st, s, m, n - m); } else { AfterMore(st, s, n, m - n); }
  }

  /** With room, the lines are those of the loop's end. */
  lemma {:induction false} WrapIsAfter(st: Style, s: State, turns: nat)
    requires st.Roomy() && EndsWithin(st, s, turns)
    ensures Wrap(st, s) == Closed(After(st, s, turns))
    decreases turns
  {
    hide Step, TextWidth;
    if turns > 0 && s.queue != [] { WrapIsAfter(st, Step(st, s), turns - 1); }
  }

  lemma PutBackWhole(word: string, size: int)
    requires Cut(word, size).0 == ""
    ensures Cut(word, size).1 == word
  {
  }

  lemma StuckStays(st: Style, s: State)
    requires Stuck(st, s)
    ensures var s' := Step(st, s); Stuck(st, s') && s'.queue == s.queue
  {
    hide TextWidth, Cut, Step;
    var (word, rest, indent) := (s.queue[0], s.queue[1..], st.Indent(s.lines));
    PutBackWhole(word, st.width - TextWidth(indent));
    StepIs(st, s);
    assert indent + "" == indent && [word] + rest == s.queue;
  }

  lemma AfterNext(st: Style, s: State, n: nat)
    requires s.queue != []
    ensures After(st, s, 1 + n) == After(st, Step(st, s), n)
  {
  }

  /** A stuck loop goes on for ever without taking anything from the queue. */
  lemma {:induction false} StuckFor(st: Style, s: State, turns: nat)
    requires Stuck(st, s)
    ensures After(st, s, turns).queue == s.queue
    decreases turns
  {
    hide Stuck, After, Step;
    NoTurns(st, s);
    StuckHasWords(st, s);
    if turns > 0 {
      StuckStays(st, s);
      AfterNext(st, s, turns - 1);
      StuckFor(st, Step(st, s), turns - 1);
    }
  }

  ghost predicate NeverStuck(st: Style, s: State) { forall turns: nat :: !Stuck(st, After(st, s, turns)) }

  /** The loop ends exactly when it never comes to a fresh line with a word that does not fit and is
      put back whole. */
  lemma EndsIff(st: Style, s: State)
    ensures Ends(st, s) <==> NeverStuck(st, s)
  {
    hide Stuck, After, EndsWithin;
    if NeverStuck(st, s) {
      var turns := UnstuckEnds(st, s);
      assert EndsWithin(st, s, turns);
    } else {
      var turns: nat :| Stuck(st, After(st, s, turns));
      forall n: nat ensures !EndsWithin(st, s, n) { NotEnded(st, s, turns, n); }
    }
  }

  lemma NotEnded(st: Style, s: State, turns: nat, n: nat)
    requires Stuck(st, After(st, s, turns))
    ensures !EndsWithin(st, s, n)
  {
    hide Stuck;
    StuckHasWords(st, After(st, s, turns));
    if n <= turns {
      AfterMore(st, s, n, turns - n);
    } else {
      AfterMore(st, s, turns, n - turns);
      StuckFor(st, After(st, s, turns), n - turns);
    }
  }

  lemma StuckHasWords(st: Style, s: State)
    requires Stuck(st, s)
    ensures s.queue != []
  {
  }

  lemma StillNeverStuck(st: Style, s: State)
    requires NeverStuck(st, s) && s.queue != []
    ensures !Stuck(st, s) && NeverStuck(st, Step(st, s))
  {
    hide Stuck, Step, After;
    NoTurns(st, s);
    assert !Stuck(st, After(st, s, 0));
    forall n: nat ensures !Stuck(st, After(st, Step(st, s), n)) {
      AfterNext(st, s, n);
      assert !Stuck(st, After(st, s, 1 + n));
    }
  }

  lemma {:induction false} UnstuckEnds(st: Style, s: State) returns (turns: nat)
    requires NeverStuck(st, s)
    ensures EndsWithin(st, s, turns)
    decreases Chars(s.queue) + |s.queue|, Begun(st, s)
  {
    if s.queue == [] {
      turns := 0;
    } else {
      hide Stuck, Step, Begun, NeverStuck;
      StillNeverStuck(st, s);
      StepProgress(st, s);
      turns := UnstuckEnds(st, Step(st, s));
      AfterNext(st, s, turns);
      turns := turns + 1;
    }
  }

  /** Which words are put back whole: on a fresh line, one that does not fit is stuck exactly when the
      indent fills the line, or goes beyond it by at least the length of the word. */
  lemma StuckIff(st: Style, s: State)
    requires s.queue != [] && !Begun(st, s) && TextWidth(st.Indent(s.lines) + s.queue[0]) > st.width
    ensures (forall turns: nat :: After(st, s, turns).queue == s.queue) <==>
            (TextWidth(st.Indent(s.lines)) == st.width || TextWidth(st.Indent(s.lines)) - st.width >= |s.queue[0]|)
  {
    var (word, indent) := (s.queue[0], st.Indent(s.lines));
    WidthConcat(indent, word);
    hide TextWidth;
    if word == "" { NoWidth(); }
    assert Stuck(st, s) <==> (TextWidth(indent) == st.width || TextWidth(indent) - st.width >= |word|);
    if Stuck(st, s) {
      forall turns: nat ensures After(st, s, turns).queue == s.queue { StuckFor(st, s, turns); }
    } else {
      OneTurn(st, s);
      var (keep, putBack) := Cut(word, st.width - TextWidth(indent));
      assert |keep + putBack| == |word| && keep != "";
      assert After(st, s, 1).queue == [putBack] + s.queue[1..] && After(st, s, 1).queue[0] != word;
    }
  }

  /** With room for text on every line, the loop always ends. */
  lemma RoomyEnds(st: Style, s: State)
    requires st.Roomy()
    ensures Ends(st, s)
  {
    forall turns: nat ensures !Stuck(st, After(st, s, turns)) { RoomyIsNotStuck(st, After(st, s, turns)); }
    EndsIff(st, s);
  }

  /** A word is cut by characters but measured in columns: the piece kept fits exactly when it holds
      no tab; it then fills the line. */
  lemma CutFitsIff(st: Style, indent: string, word: string)
    requires TextWidth(indent) < st.width < TextWidth(indent + word)
    ensures var (keep, putBack) := Cut(word, st.width - TextWidth(indent));
            keep != "" && (TextWidth(indent + keep) <= st.width <==> Lacks(keep, '\t')) &&
            (Lacks(keep, '\t') ==> TextWidth(indent + keep) == st.width)
  {
    var (keep, putBack) := Cut(word, st.width - TextWidth(indent));
    WidthConcat(indent, word);
    WidthConcat(indent, keep);
    hide TextWidth, Lacks;
    WidthVsLength(keep);
    WidthVsLength(word);
    assert putBack == "" ==> keep == word;
    if word == "" { NoWidth(); }
  }

  lemma NoWidth()
    ensures TextWidth("") == 0
  {
  }

  lemma PiecesLack(a: string, b: string, c: char)
    requires Lacks(a + b, c)
    ensures Lacks(a, c) && Lacks(b, c)
  {
    assert forall i :: 0 <= i < |a| ==> a[i] == (a + b)[i];
    assert forall i :: 0 <= i < |b| ==> b[i] == (a + b)[|a| + i];
  }

  /** Which words are cut, and that no piece kept holds a tab. There are room columns for the next word
      on this line, and next columns on every later line; an empty line holds nothing yet. */
  predicate CutsWell(next: nat, empty: bool, room: int, words: seq<string>)
    requires next > 0 && (empty ==> room > 0)
    decreases Chars(words) + |words|, !empty
  {
    if words == [] then true
    else
      var (word, rest) := (words[0], words[1..]);
      if TextWidth(word) <= room then
        if empty && word == "" then CutsWell(next, true, room, rest)
        else CutsWell(next, false, room - TextWidth(word) - 1, rest)
      else if !empty then CutsWell(next, true, next, words)
      else
        var (keep, putBack) := Cut(word, room);
        CutShortens(word, room, rest);
        Lacks(keep, '\t') && CutsWell(next, false, -1, [putBack] + rest)
  }

  lemma CutShortens(word: string, room: nat, rest: seq<string>)
    requires 0 < room < TextWidth(word)
    ensures Cut(word, room).0 != "" && Chars([Cut(word, room).1] + rest) < Chars([word] + rest)
  {
    var (keep, putBack) := Cut(word, room);
    if word == "" { NoWidth(); }
    assert |keep + putBack| == |word|;
    assert ([putBack] + rest)[1..] == rest && ([word] + rest)[1..] == rest;
  }

  /** The columns left for the next word. */
  function Room(st: Style, s: State): int {
    if Begun(st, s) then st.width - TextWidth(s.line) - 1 else st.width - TextWidth(st.Indent(s.lines))
  }

  predicate LinesFitWithin(width: int, lines: seq<string>) { forall l :: l in lines ==> TextWidth(l) <= width }

  lemma {:induction false} LinesKept(st: Style, s: State)
    requires st.Roomy()
    ensures s.lines <= Wrap(st, s)
    decreases Chars(s.queue) + |s.queue|, Begun(st, s)
  {
    if s.queue != [] {
      RoomyIsNotStuck(st, s);
      StepProgress(st, s);
      var s' := Step(st, s);
      assert s.lines <= s'.lines;
      hide Step, Begun, Stuck;
      LinesKept(st, s');
    }
  }

  /** A line that has become too wide is put out as it is. */
  lemma TooWideStays(st: Style, s: State)
    requires st.Roomy() && Begun(st, s) && TextWidth(s.line) > st.width
    ensures !LinesFitWithin(st.width, Wrap(st, s))
  {
    if s.queue == [] {
      assert s.line in Wrap(st, s);
    } else {
      WidthConcat(s.line, " ");
      WidthConcat(s.line + " ", s.queue[0]);
      var s' := State(s.queue, "", s.lines + [s.line]);
      assert Step(st, s) == s';
      LinesKept(st, s');
      assert s'.lines[|s.lines|] == s.line;
      assert s.line in Wrap(st, s');
    }
  }

  lemma OneSpace(line: string, word: string)
    ensures TextWidth(line + " " + word) == TextWidth(line) + 1 + TextWidth(word)
  {
    WidthConcat(line, " ");
    WidthConcat(line + " ", word);
    assert " "[1..] == "";
  }

  /** What one turn does to the room, on an empty line and on one that holds text. */
  lemma EmptyRoom(st: Style, s: State)
    requires st.Roomy() && s.queue != [] && !Begun(st, s)
    ensures var (word, rest, s', room) := (s.queue[0], s.queue[1..], Step(st, s), Room(st, s));
            if TextWidth(word) <= room then
              s'.queue == rest && s'.lines == s.lines && TextWidth(s'.line) <= st.width && st.Indent(s.lines) <= s'.line &&
              (Begun(st, s') <==> word != "") && Room(st, s') == if word != "" then room - TextWidth(word) - 1 else room
            else
              s'.queue == [Cut(word, room).1] + rest && s'.lines == s.lines && Begun(st, s') && st.Indent(s.lines) <= s'.line &&
              (TextWidth(s'.line) <= st.width <==> Lacks(Cut(word, room).0, '\t')) &&
              (Lacks(Cut(word, room).0, '\t') ==> Room(st, s') == -1)
  {
    var (word, indent) := (s.queue[0], st.Indent(s.lines));
    NoWidth();
    WidthConcat(indent, word);
    hide TextWidth, Lacks, Cut, Step;
    StepIs(st, s);
    if TextWidth(word) > Room(st, s) { CutFitsIff(st, indent, word); }
  }

  lemma BegunRoom(st: Style, s: State)
    requires st.Roomy() && s.queue != [] && Begun(st, s) && Indented(st, s)
    ensures var (word, rest, s', room) := (s.queue[0], s.queue[1..], Step(st, s), Room(st, s));
            if TextWidth(word) <= room then
              s'.queue == rest && s'.lines == s.lines && TextWidth(s'.line) <= st.width && Indented(st, s') &&
              Begun(st, s') && Room(st, s') == room - TextWidth(word) - 1
            else s' == State(s.queue, "", s.lines + [s.line])
  {
    var word := s.queue[0];
    OneSpace(s.line, word);
    hide TextWidth, Cut, Step;
    StepIs(st, s);
    assert |s.line + " " + word| > |st.Indent(s.lines)|;
    assert [word] + s.queue[1..] == s.queue;
  }

  /** CutsWell, one word on. */
  lemma CutsWellNext(next: nat, empty: bool, room: int, words: seq<string>)
    requires next > 0 && (empty ==> room > 0) && words != []
    ensures CutsWell(next, empty, room, words) <==>
      var (word, rest) := (words[0], words[1..]);
      if TextWidth(word) <= room then
        if empty && word == "" then CutsWell(next, true, room, rest)
        else CutsWell(next, false, room - TextWidth(word) - 1, rest)
      else if !empty then CutsWell(next, true, next, words)
      else Lacks(Cut(word, room).0, '\t') && CutsWell(next, false, -1, [Cut(word, room).1] + rest)
  {
    hide TextWidth, Lacks, Cut;
  }

  lemma LastLineFits(st: Style, s: State)
    requires TextWidth(s.line) <= st.width && LinesFitWithin(st.width, s.lines)
    ensures LinesFitWithin(st.width, Closed(s)) && LinesFitWithin(st.width, s.lines + [s.line])
  {
  }

  lemma NoCuts(st: Style, s: State)
    requires st.Roomy() && s.queue == []
    ensures CutsWellFrom(st, s) && Wrap(st, s) == Closed(s)
  {
  }

  lemma WrapNext(st: Style, s: State)
    requires st.Roomy() && s.queue != []
    ensures Wrap(st, s) == Wrap(st, Step(st, s))
  {
    hide Step, Begun;
    RoomyIsNotStuck(st, s);
  }

  /** CutsWell, from a state of the loop. */
  predicate CutsWellFrom(st: Style, s: State)
    requires st.Roomy()
  {
    NoWidth();
    if !Begun(st, s) then CutsWell(st.width - TextWidth(st.subsequent), true, st.width - TextWidth(st.Indent(s.lines)), s.queue)
    else CutsWell(st.width - TextWidth(st.subsequent), false, Room(st, s), s.queue)
  }

  lemma EmptyCuts(st: Style, s: State)
    requires st.Roomy() && s.queue != [] && !Begun(st, s)
    ensures var s' := Step(st, s);
            s'.lines == s.lines && st.Indent(s.lines) <= s'.line &&
            if TextWidth(s'.line) <= st.width then CutsWellFrom(st, s) <==> CutsWellFrom(st, s')
            else Begun(st, s') && !CutsWellFrom(st, s)
  {
    hide TextWidth, Lacks, Step, Cut, CutsWell;
    EmptyRoom(st, s);
    CutsWellNext(st.width - TextWidth(st.subsequent), true, st.width - TextWidth(st.Indent(s.lines)), s.queue);
  }

  lemma BegunCuts(st: Style, s: State)
    requires st.Roomy() && s.queue != [] && Begun(st, s) && Indented(st, s)
    ensures var s' := Step(st, s);
            Indented(st, s') && TextWidth(s'.line) <= st.width && (s'.lines == s.lines || s'.lines == s.lines + [s.line]) &&
            (CutsWellFrom(st, s) <==> CutsWellFrom(st, s'))
  {
    NoWidth();
    hide TextWidth, Lacks, Step, Cut, CutsWell;
    BegunRoom(st, s);
    CutsWellNext(st.width - TextWidth(st.subsequent), false, Room(st, s), s.queue);
  }

  lemma {:induction false} WrapFitsIff(st: Style, s: State)
    requires st.Roomy() && Indented(st, s) && TextWidth(s.line) <= st.width && LinesFitWithin(st.width, s.lines)
    ensures LinesFitWithin(st.width, Wrap(st, s)) <==> CutsWellFrom(st, s)
    decreases Chars(s.queue) + |s.queue|, Begun(st, s)
  {
    hide TextWidth, Step, Stuck, LinesFitWithin, CutsWell, Wrap, Chars;
    LastLineFits(st, s);
    if s.queue != [] {
      if Begun(st, s) { BegunCuts(st, s); } else { EmptyCuts(st, s); }
      hide CutsWellFrom;
      RoomyIsNotStuck(st, s);
      StepProgress(st, s);
      WrapNext(st, s);
      var s' := Step(st, s);
      if TextWidth(s'.line) <= st.width {
        WrapFitsIff(st, s');
      } else {
        TooWideStays(st, s');
      }
    } else {
      NoCuts(st, s);
    }
  }

  /** Every output line fits if and only if no piece that is kept when a word is cut holds a tab. */
  lemma LinesFitIff(st: Style, text: string)
    requires st.Roomy()
    ensures LinesFitWithin(st.width, WrapText(st, text)) <==>
            CutsWell(st.width - TextWidth(st.subsequent), true, st.width - TextWidth(st.initial), Split(text, ' '))
  {
    hide CutsWell, Wrap, Split, LinesFitWithin;
    NoWidth();
    NoLines(st.width);
    WrapFitsIff(st, Begin(text));
  }

  lemma NoLines(width: int)
    ensures LinesFitWithin(width, [])
  {
  }

  /** A word that is never cut through a tab: it holds none, or fits on a line of its own. */
  predicate Fine(st: Style, word: string) {
    Lacks(word, '\t') ||
    (TextWidth(st.initial) + TextWidth(word) <= st.width && TextWidth(st.subsequent) + TextWidth(word) <= st.width)
  }

  lemma {:induction false} FineCutsWell(st: Style, empty: bool, room: int, words: seq<string>)
    requires st.Roomy() && forall w :: w in words ==> Fine(st, w)
    requires empty ==> room == st.width - TextWidth(st.initial) || room == st.width - TextWidth(st.subsequent)
    ensures CutsWell(st.width - TextWidth(st.subsequent), empty, room, words)
    decreases Chars(words) + |words|, !empty
  {
    hide TextWidth, Lacks, Cut;
    if words != [] {
      var (word, rest, next) := (words[0], words[1..], st.width - TextWidth(st.subsequent));
      assert word in words && forall w :: w in rest ==> w in words;
      if TextWidth(word) <= room {
        FineCutsWell(st, empty && word == "", if empty && word == "" then room else room - TextWidth(word) - 1, rest);
      } else if !empty {
        FineCutsWell(st, true, next, words);
      } else {
        var (keep, putBack) := Cut(word, room);
        CutShortens(word, room, rest);
        assert [word] + rest == words;
        PiecesLack(keep, putBack, '\t');
        FineCutsWell(st, false, -1, [putBack] + rest);
      }
    }
  }

  /** In particular, all lines fit when each word is without tabs, or fits on a line of its own. */
  lemma LinesFit(st: Style, text: string)
    requires st.Roomy() && forall w :: w in Split(text, ' ') ==> Fine(st, w)
    ensures LinesFitWithin(st.width, WrapText(st, text))
  {
    hide CutsWell, Wrap, Split, LinesFitWithin;
    FineCutsWell(st, true, st.width - TextWidth(st.initial), Split(text, ' '));
    LinesFitIff(st, text);
  }

  function Tabs(n: nat): (s: string)
    ensures |s| == n
  {
    if n == 0 then "" else "\t" + Tabs(n - 1)
  }

  lemma {:induction false} TabsWidth(n: nat)
    ensures TextWidth(Tabs(n)) == 8 * n
  {
    if n > 0 {
      TabsWidth(n - 1);
      assert Tabs(n)[1..] == Tabs(n - 1);
    }
  }

  /** Tabs do overflow: on n columns, a word of n tabs is not cut, and its line is 8n columns wide. */
  lemma TabsOverflow(n: nat)
    requires n > 0
    ensures var st := Style(n, "", "");
            st.Roomy() && Step(st, State([Tabs(n)], "", [])).line == Tabs(n) && TextWidth(Tabs(n)) == 8 * n
  {
    hide Tabs, TextWidth;
    TabsWidth(n);
    NoWidth();
    assert "" + Tabs(n) == Tabs(n);
  }

  /** What a list of lines says: each line without its own indent and without spaces. */
  function Content(st: Style, lines: seq<string>): string {
    if lines == [] then ""
    else Content(st, lines[..|lines| - 1]) + Without(Body(st, lines[..|lines| - 1], lines[|lines| - 1]), ' ')
  }

  /** The line behind its indent, given the lines before it. */
  function Body(st: Style, before: seq<string>, line: string): string {
    if |st.Indent(before)| <= |line| then line[|st.Indent(before)|..] else ""
  }

  function Words(queue: seq<string>): string {
    if queue == [] then "" else Without(queue[0], ' ') + Words(queue[1..])
  }

  /** Everything the state still holds: finished lines, the line, and the queue. */
  function Said(st: Style, s: State): string {
    Content(st, s.lines) + Without(Body(st, s.lines, s.line), ' ') + Words(s.queue)
  }

  predicate Indented(st: Style, s: State) { s.line == "" || st.Indent(s.lines) <= s.line }

  /** Moving a word, or the first piece of a cut word, from the queue to the line. */
  lemma MoveSays(st: Style, lines: seq<string>, line: string, keep: string, putBack: string, rest: seq<string>)
    requires var indent := st.Indent(lines); indent <= line
    ensures var wordPrefix := if line == st.Indent(lines) then line else line + " ";
            var after := State([putBack] + rest, wordPrefix + keep, lines);
            Indented(st, after) && Said(st, after) == Said(st, State([keep + putBack] + rest, line, lines))
  {
    hide Content, TextWidth, Words, Without;
    LineSays(st.Indent(lines), line, keep);
    WithoutConcat(keep, putBack, ' ');
    WordsNext(putBack, rest);
    WordsNext(keep + putBack, rest);
    Regroup(Content(st, lines), Without(Body(st, lines, line), ' '), Without(keep, ' '), Without(putBack, ' '), Words(rest));
  }

  lemma WordsNext(word: string, rest: seq<string>)
    ensures Words([word] + rest) == Without(word, ' ') + Words(rest)
  {
    hide Without;
    assert ([word] + rest)[1..] == rest;
  }

  lemma Regroup(x: string, y: string, k: string, p: string, w: string)
    ensures x + (y + k) + (p + w) == x + y + ((k + p) + w)
  {
  }

  lemma StepSays(st: Style, s: State)
    requires st.Roomy() && s.queue != [] && Indented(st, s)
    ensures Indented(st, Step(st, s)) && Said(st, Step(st, s)) == Said(st, s)
  {
    hide Content, TextWidth, Without, Words;
    var (word, rest) := (s.queue[0], s.queue[1..]);
    var indent := st.Indent(s.lines);
    var line := if s.line == "" then indent else s.line;
    var wordPrefix := if line == indent then line else line + " ";
    assert s.queue == [word] + rest;
    assert Said(st, s) == Said(st, State(s.queue, line, s.lines)) by {
      assert Body(st, s.lines, line) == Body(st, s.lines, s.line);
    }
    if TextWidth(wordPrefix + word) <= st.width {
      MoveSays(st, s.lines, line, word, "", rest);
      assert word + "" == word;
      NothingPutBack(st, rest, wordPrefix + word, s.lines);
    } else if line == indent {
      var (keep, putBack) := Cut(word, st.width - TextWidth(indent));
      assert keep + putBack == word;
      MoveSays(st, s.lines, line, keep, putBack, rest);
    } else {
      FinishedSays(st, s.queue, line, s.lines);
    }
  }

  lemma NothingPutBack(st: Style, rest: seq<string>, line: string, lines: seq<string>)
    ensures Said(st, State([""] + rest, line, lines)) == Said(st, State(rest, line, lines))
  {
    assert ([""] + rest)[1..] == rest;
    assert Words([""] + rest) == Words(rest);
  }

  lemma FinishedSays(st: Style, queue: seq<string>, line: string, lines: seq<string>)
    ensures Said(st, State(queue, "", lines + [line])) == Said(st, State(queue, line, lines))
  {
    hide TextWidth, Words;
    assert (lines + [line])[..|lines|] == lines;
    assert Body(st, lines + [line], "") == "";
    var x, y := Content(st, lines), Without(Body(st, lines, line), ' ');
    assert (x + y) + "" + Words(queue) == x + y + Words(queue);
  }

  lemma LineSays(indent: string, line: string, word: string)
    requires indent <= line
    ensures var wordPrefix := if line == indent then line else line + " ";
            indent <= wordPrefix + word &&
            Without((wordPrefix + word)[|indent|..], ' ') == Without(line[|indent|..], ' ') + Without(word, ' ')
  {
    var body := line[|indent|..];
    if line == indent {
      assert (line + word)[|indent|..] == word;
    } else {
      assert (line + " " + word)[|indent|..] == body + (" " + word);
      WithoutConcat(body, " " + word, ' ');
      assert (" " + word)[1..] == word;
    }
  }

  lemma {:induction false} WrapSays(st: Style, s: State)
    requires st.Roomy() && Indented(st, s)
    ensures Content(st, Wrap(st, s)) == Said(st, s)
    decreases Chars(s.queue) + |s.queue|, Begun(st, s)
  {
    hide Step, Begun;
    if s.queue != [] {
      StepSays(st, s);
      RoomyIsNotStuck(st, s);
      StepProgress(st, s);
      WrapSays(st, Step(st, s));
    } else if s.line != "" {
      assert (s.lines + [s.line])[..|s.lines|] == s.lines;
    }
  }

  lemma {:induction false} WordsOfJoin(parts: seq<string>)
    requires parts != []
    ensures Words(parts) == Without(Join(parts, ' '), ' ')
  {
    if |parts| > 1 {
      WordsOfJoin(parts[1..]);
      WithoutConcat(parts[0] + " ", Join(parts[1..], ' '), ' ');
      WithoutConcat(parts[0], " ", ' ');
    }
  }

  /** Content is conserved: the lines without indents and spaces are the text without spaces. */
  lemma ContentConserved(st: Style, text: string)
    requires st.Roomy()
    ensures Content(st, WrapText(st, text)) == Without(text, ' ')
  {
    var words := Split(text, ' ');
    WrapSays(st, State(words, "", []));
    SplitJoin(text, ' ');
    WordsOfJoin(words);
    assert Body(st, [], "") == "";
  }

  /** A word that is never cut: not empty, and short enough for a line of its own. */
  predicate Whole(st: Style, word: string) {
    word != "" && Lacks(word, ' ') &&
    TextWidth(st.initial) + TextWidth(word) <= st.width && TextWidth(st.subsequent) + TextWidth(word) <= st.width
  }

  /** The lines behind their indents. */
  function Bodies(st: Style, lines: seq<string>): seq<string> {
    if lines == [] then []
    else Bodies(st, lines[..|lines| - 1]) + [Body(st, lines[..|lines| - 1], lines[|lines| - 1])]
  }

  function FirstWord(body: string): string { Split(body, ' ')[0] }

  /** The next word would not have fitted on the line. */
  predicate Overflows(st: Style, line: string, word: string) { TextWidth(line + " " + word) > st.width }

  /** Lines are only broken where they have to be. */
  predicate Greedy(st: Style, lines: seq<string>) {
    forall i :: 0 < i < |lines| ==> Overflows(st, lines[i - 1], FirstWord(Body(st, lines[..i], lines[i])))
  }

  function Current(st: Style, s: State): seq<string> {
    if Begun(st, s) then [Body(st, s.lines, s.line)] else []
  }

  /** The text the state still stands for, broken at the line ends. */
  function Pieces(st: Style, s: State): seq<string> { Bodies(st, s.lines) + Current(st, s) + s.queue }

  predicate WholeWords(st: Style, s: State) {
    Indented(st, s) && (forall w :: w in s.queue ==> Whole(st, w))
  }

  predicate BrokenGreedily(st: Style, s: State) {
    Greedy(st, s.lines) &&
    (s.lines != [] ==>
      if Begun(st, s) then Overflows(st, s.lines[|s.lines| - 1], FirstWord(Body(st, s.lines, s.line)))
      else s.queue != [] && Overflows(st, s.lines[|s.lines| - 1], s.queue[0]))
  }

  /** The three things that can happen when no word has to be cut. */
  lemma StepWhole(st: Style, s: State)
    requires st.Roomy() && s.queue != [] && WholeWords(st, s)
    ensures var (word, rest, indent) := (s.queue[0], s.queue[1..], st.Indent(s.lines));
            var s' := Step(st, s);
            WholeWords(st, s') &&
            if !Begun(st, s) then s' == State(rest, indent + word, s.lines)
            else if TextWidth(s.line + " " + word) <= st.width then s' == State(rest, s.line + " " + word, s.lines)
            else s' == State(s.queue, "", s.lines + [s.line])
  {
    hide TextWidth, Lacks;
    var (word, rest, indent) := (s.queue[0], s.queue[1..], st.Indent(s.lines));
    assert word in s.queue && forall w :: w in rest ==> w in s.queue;
    WidthConcat(indent, word);
  }

  lemma {:induction false} JoinMerge(front: seq<string>, b: string, w: string, rest: seq<string>)
    ensures Join(front + [b] + ([w] + rest), ' ') == Join(front + [b + " " + w] + rest, ' ')
  {
    if front == [] {
      assert [] + [b] + ([w] + rest) == [b] + ([w] + rest);
      assert [] + [b + " " + w] + rest == [b + " " + w] + rest;
      assert ([b] + ([w] + rest))[1..] == [w] + rest;
      assert ([w] + rest)[1..] == rest && ([b + " " + w] + rest)[1..] == rest;
      if rest != [] {
        assert b + " " + (w + " " + Join(rest, ' ')) == b + " " + w + " " + Join(rest, ' ');
      }
    } else {
      var (p, q) := (front + [b] + ([w] + rest), front + [b + " " + w] + rest);
      assert p[1..] == front[1..] + [b] + ([w] + rest) && q[1..] == front[1..] + [b + " " + w] + rest;
      JoinMerge(front[1..], b, w, rest);
    }
  }

  lemma BodyExtended(st: Style, lines: seq<string>, line: string, more: string)
    requires st.Indent(lines) <= line
    ensures Body(st, lines, line + more) == Body(st, lines, line) + more
  {
    var n := |st.Indent(lines)|;
    assert (line + more)[n..] == line[n..] + more;
  }

  lemma StartPieces(st: Style, s: State)
    requires s.queue != [] && s.queue[0] != "" && !Begun(st, s)
    ensures Pieces(st, State(s.queue[1..], st.Indent(s.lines) + s.queue[0], s.lines)) == Pieces(st, s)
  {
    hide Bodies;
    var (word, rest, indent, bodies) := (s.queue[0], s.queue[1..], st.Indent(s.lines), Bodies(st, s.lines));
    assert Body(st, s.lines, indent + word) == word;
    assert bodies + [word] + rest == bodies + [] + s.queue;
  }

  lemma GrowPieces(st: Style, s: State)
    requires s.queue != [] && s.queue[0] != "" && Begun(st, s) && Indented(st, s)
    ensures Join(Pieces(st, State(s.queue[1..], s.line + " " + s.queue[0], s.lines)), ' ') == Join(Pieces(st, s), ' ')
  {
    hide Bodies, Join;
    var (word, rest) := (s.queue[0], s.queue[1..]);
    BodyExtended(st, s.lines, s.line, " ");
    BodyExtended(st, s.lines, s.line + " ", word);
    JoinMerge(Bodies(st, s.lines), Body(st, s.lines, s.line), word, rest);
    assert [word] + rest == s.queue;
  }

  lemma FinishPieces(st: Style, s: State)
    requires Begun(st, s)
    ensures Pieces(st, State(s.queue, "", s.lines + [s.line])) == Pieces(st, s)
  {
    hide Body;
    var lines := s.lines + [s.line];
    assert lines[..|s.lines|] == s.lines;
  }

  lemma StepPieces(st: Style, s: State)
    requires st.Roomy() && s.queue != [] && WholeWords(st, s)
    ensures Join(Pieces(st, Step(st, s)), ' ') == Join(Pieces(st, s), ' ')
  {
    StepWhole(st, s);
    assert s.queue[0] in s.queue && s.queue[0] != "";
    hide Join, TextWidth, Step, Pieces, Begun, Indented;
    if !Begun(st, s) {
      StartPieces(st, s);
    } else if TextWidth(s.line + " " + s.queue[0]) <= st.width {
      GrowPieces(st, s);
    } else {
      FinishPieces(st, s);
    }
  }

  lemma FirstOfExtended(b: string, w: string)
    ensures FirstWord(b + " " + w) == FirstWord(b)
    decreases b
  {
    if b == "" {
      assert b + " " + w == " " + w;
    } else {
      assert (b + " " + w)[1..] == b[1..] + " " + w;
      FirstOfExtended(b[1..], w);
    }
  }

  lemma FinishGreedy(st: Style, s: State)
    requires s.queue != [] && Begun(st, s) && BrokenGreedily(st, s) && Overflows(st, s.line, s.queue[0])
    ensures BrokenGreedily(st, State(s.queue, "", s.lines + [s.line]))
  {
    hide FirstWord, Overflows, Body;
    var lines := s.lines + [s.line];
    forall i | 0 < i < |lines| ensures Overflows(st, lines[i - 1], FirstWord(Body(st, lines[..i], lines[i]))) {
      assert lines[..i] == s.lines[..i];
    }
  }

  lemma StepGreedy(st: Style, s: State)
    requires st.Roomy() && s.queue != [] && WholeWords(st, s) && BrokenGreedily(st, s)
    ensures BrokenGreedily(st, Step(st, s))
  {
    var (word, indent) := (s.queue[0], st.Indent(s.lines));
    StepWhole(st, s);
    assert word in s.queue && Whole(st, word);
    hide FirstWord, TextWidth, Step, Greedy;
    if !Begun(st, s) {
      assert Body(st, s.lines, indent + word) == word;
      FirstOfWord(word);
    } else if TextWidth(s.line + " " + word) <= st.width {
      var b := Body(st, s.lines, s.line);
      assert Body(st, s.lines, s.line + " " + word) == b + " " + word;
      FirstOfExtended(b, word);
    } else {
      FinishGreedy(st, s);
    }
  }

  lemma FirstOfWord(word: string)
    requires Lacks(word, ' ')
    ensures FirstWord(word) == word
  {
    SplitHead(word, "", ' ');
  }

  lemma {:induction false} WrapWhole(st: Style, s: State)
    requires st.Roomy() && WholeWords(st, s) && BrokenGreedily(st, s)
    requires s.queue != [] || Begun(st, s)
    ensures Join(Bodies(st, Wrap(st, s)), ' ') == Join(Pieces(st, s), ' ') && Greedy(st, Wrap(st, s))
    decreases Chars(s.queue) + |s.queue|, Begun(st, s)
  {
    hide FirstWord, TextWidth, Step, Join, Overflows, Body, Pieces, Bodies, Greedy, WholeWords, BrokenGreedily, Begun;
    if s.queue != [] {
      RoomyIsNotStuck(st, s);
      StepProgress(st, s);
      StepPieces(st, s);
      StepGreedy(st, s);
      StepGoesOn(st, s);
      WrapWhole(st, Step(st, s));
    } else {
      LastLineWhole(st, s);
    }
  }

  lemma LastLineWhole(st: Style, s: State)
    requires BrokenGreedily(st, s) && s.queue == [] && Begun(st, s)
    ensures s.line != "" && Pieces(st, s) == Bodies(st, s.lines + [s.line]) && Greedy(st, s.lines + [s.line])
  {
    hide FirstWord, Overflows, Body;
    var all := s.lines + [s.line];
    assert all[..|s.lines|] == s.lines;
    assert Pieces(st, s) == Bodies(st, all) by { hide Greedy; }
    forall i | 0 < i < |all| ensures Overflows(st, all[i - 1], FirstWord(Body(st, all[..i], all[i]))) {
      hide Bodies;
      if i < |s.lines| { assert all[..i] == s.lines[..i]; }
    }
  }

  lemma StepGoesOn(st: Style, s: State)
    requires st.Roomy() && s.queue != [] && WholeWords(st, s)
    ensures var s' := Step(st, s); WholeWords(st, s') && (s'.queue != [] || Begun(st, s'))
  {
    StepWhole(st, s);
    assert s.queue[0] in s.queue;
  }

  /** A text of single-spaced words that each fit on a line: wrapping only turns some of its spaces
      into line breaks, so putting spaces back gives the text; and a line is only broken where the
      next word would not have fitted. */
  lemma WrapsOnlyAtSpaces(st: Style, text: string)
    requires st.Roomy() && forall w :: w in Split(text, ' ') ==> Whole(st, w)
    ensures var lines := WrapText(st, text); Join(Bodies(st, lines), ' ') == text && Greedy(st, lines)
  {
    var words := Split(text, ' ');
    var s := State(words, "", []);
    WrapWhole(st, s);
    assert Pieces(st, s) == words;
    SplitJoin(text, ' ');
  }
}
