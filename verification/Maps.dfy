/** Reading /proc/<pid>/maps into modules: the lexer, the line loop, and the ordered sets of regions. */
module Maps {
  import opened Bytes
  import opened Options
  import opened HexText
  import opened Text

  datatype Region = Region(address: nat, size: nat, readable: bool, writable: bool, executable: bool)

  /** A module: its name, and its regions ordered by address, one for each address. */
  datatype Module = Module(name: string, regions: seq<Region>)

  type Modules = map<string, Module>

  /** std::set::insert under the ordering by address: an address that is there already is kept. */
  function Insert(regions: seq<Region>, r: Region): seq<Region> {
    if regions == [] then [r]
    else if r.address < regions[0].address then [r] + regions
    else if r.address == regions[0].address then regions
    else [regions[0]] + Insert(regions[1..], r)
  }

  function AddRegion(m: Module, r: Region): Module { m.(regions := Insert(m.regions, r)) }

  function BaseAddress(m: Module): nat { if m.regions == [] then 0 else m.regions[0].address }

  predicate Ordered(regions: seq<Region>) {
    forall i, j :: 0 <= i < j < |regions| ==> regions[i].address < regions[j].address
  }

  /** The first region of a list with an address. */
  function FirstAt(rs: seq<Region>, a: nat): Option<Region> {
    if rs == [] then None else if rs[0].address == a then Some(rs[0]) else FirstAt(rs[1..], a)
  }

  lemma {:induction false} FirstAtMeans(rs: seq<Region>, a: nat)
    ensures FirstAt(rs, a).None? ==> forall r :: r in rs ==> r.address != a
    ensures FirstAt(rs, a).Some? ==>
      exists i :: 0 <= i < |rs| && FirstAt(rs, a).value == rs[i] && rs[i].address == a &&
        forall j :: 0 <= j < i ==> rs[j].address != a
  {
    if rs != [] {
      var tail := rs[1..];
      FirstAtMeans(tail, a);
      if rs[0].address == a {
        assert FirstAt(rs, a).value == rs[0];
      } else if FirstAt(tail, a).Some? {
        var i :| 0 <= i < |tail| && FirstAt(tail, a).value == tail[i] && tail[i].address == a &&
                 forall j :: 0 <= j < i ==> tail[j].address != a;
        assert rs[i + 1] == tail[i];
        forall j | 0 <= j < i + 1 ensures rs[j].address != a { if j > 0 { assert rs[j] == tail[j - 1]; } }
      }
    }
  }

  lemma {:induction false} FirstAtConcat(p: seq<Region>, q: seq<Region>, a: nat)
    ensures FirstAt(p + q, a) == if FirstAt(p, a).Some? then FirstAt(p, a) else FirstAt(q, a)
  {
    if p == [] {
      assert p + q == q;
    } else {
      assert (p + q)[1..] == p[1..] + q;
      FirstAtConcat(p[1..], q, a);
    }
  }

  /** In an ordered list, each region is the first with its address. */
  lemma {:induction false} OrderedFirst(regions: seq<Region>, x: Region)
    requires Ordered(regions)
    ensures x in regions <==> FirstAt(regions, x.address) == Some(x)
  {
    if regions != [] {
      var tail := regions[1..];
      assert regions == [regions[0]] + tail;
      OrderedFirst(tail, x);
      if x in tail {
        var i :| 0 <= i < |tail| && tail[i] == x;
        assert regions[0].address < regions[i + 1].address;
      }
    }
  }

  /** Inserting keeps the order, and adds the region exactly when its address is new. */
  lemma {:induction false} InsertMeans(regions: seq<Region>, r: Region, a: nat)
    requires Ordered(regions)
    ensures FirstAt(Insert(regions, r), a) == FirstAt(regions + [r], a)
  {
    FirstAtConcat(regions, [r], a);
    if regions != [] {
      if r.address < regions[0].address {
        assert ([r] + regions)[1..] == regions;
        if a == r.address { FirstAbove(regions, a); }
      } else if r.address > regions[0].address {
        InsertMeans(regions[1..], r, a);
        FirstAtConcat(regions[1..], [r], a);
      }
    }
  }

  lemma {:induction false} FirstAbove(regions: seq<Region>, a: nat)
    requires forall i :: 0 <= i < |regions| ==> a < regions[i].address
    ensures FirstAt(regions, a) == None
  {
    if regions != [] { FirstAbove(regions[1..], a); }
  }

  lemma {:induction false} InsertOrdered(regions: seq<Region>, r: Region)
    requires Ordered(regions)
    ensures Ordered(Insert(regions, r))
    ensures forall lo: nat :: AllAbove(regions, lo) && lo < r.address ==> AllAbove(Insert(regions, r), lo)
  {
    if regions != [] && r.address > regions[0].address {
      var tail := regions[1..];
      InsertOrdered(tail, r);
      assert AllAbove(tail, regions[0].address);
      assert forall lo: nat :: AllAbove(regions, lo) ==> AllAbove(tail, lo);
    }
  }

  predicate AllAbove(regions: seq<Region>, lo: nat) { forall i :: 0 <= i < |regions| ==> lo < regions[i].address }

  function InsertAll(regions: seq<Region>, rs: seq<Region>): seq<Region>
    decreases |rs|
  {
    if rs == [] then regions else InsertAll(Insert(regions, rs[0]), rs[1..])
  }

  lemma {:induction false} InsertAllMeans(regions: seq<Region>, rs: seq<Region>, a: nat)
    requires Ordered(regions)
    ensures Ordered(InsertAll(regions, rs)) && FirstAt(InsertAll(regions, rs), a) == FirstAt(regions + rs, a)
    decreases |rs|
  {
    hide Ordered, Insert;
    if rs == [] {
      assert regions + rs == regions;
    } else {
      InsertOrdered(regions, rs[0]);
      InsertMeans(regions, rs[0], a);
      InsertAllMeans(Insert(regions, rs[0]), rs[1..], a);
      FirstAtConcat(Insert(regions, rs[0]), rs[1..], a);
      FirstAtConcat(regions + [rs[0]], rs[1..], a);
      assert regions + [rs[0]] + rs[1..] == regions + rs;
    }
  }

  /** A set built from a list holds exactly the regions that come first with their address, in order. */
  lemma InsertedAre(rs: seq<Region>)
    ensures Ordered(InsertAll([], rs))
    ensures forall x :: x in InsertAll([], rs) <==> FirstAt(rs, x.address) == Some(x)
  {
    hide Ordered, InsertAll, FirstAt;
    assert Ordered([]) by { EmptyOrdered(); }
    assert [] + rs == rs;
    InsertAllMeans([], rs, 0);
    forall x ensures x in InsertAll([], rs) <==> FirstAt(rs, x.address) == Some(x) {
      InsertAllMeans([], rs, x.address);
      OrderedFirst(InsertAll([], rs), x);
    }
  }

  lemma EmptyOrdered()
    ensures Ordered([])
  {
  }

  /** The base address is the least address. */
  lemma BaseIsLeast(m: Module)
    requires Ordered(m.regions)
    ensures if m.regions == [] then BaseAddress(m) == 0
            else m.regions[0] in m.regions && m.regions[0].address == BaseAddress(m)
    ensures forall r :: r in m.regions ==> BaseAddress(m) <= r.address
  {
  }

  // The lexer.

  /** Characters up to the first c, and what is behind it; None where the stream ends first. */
  function ReadUntil(s: string, c: char): Option<(string, string)> {
    if s == "" then None
    else if s[0] == c then Some(("", s[1..]))
    else
      match ReadUntil(s[1..], c)
      case None => None
      case Some((buf, rest)) => Some(([s[0]] + buf, rest))
  }

  method ReadUntilLoop(s: string, c: char) returns (r: Option<(string, string)>)
    ensures r == ReadUntil(s, c)
  {
    var buf := "";
    var i := 0;
    assert s[0..] == s && forall b :: "" + b == b;
    while i < |s| && s[i] != c
      invariant 0 <= i <= |s| && buf == s[..i]
      invariant ReadUntil(s, c) == match ReadUntil(s[i..], c)
                                   case None => None
                                   case Some((b, rest)) => Some((buf + b, rest))
    {
      assert s[i..][1..] == s[i + 1..];
      assert forall b :: buf + ([s[i]] + b) == buf + [s[i]] + b;
      buf := buf + [s[i]];
      i := i + 1;
    }
    if i == |s| {
      return None;
    }
    assert s[i..][1..] == s[i + 1..] && buf + "" == buf;
    r := Some((buf, s[i + 1..]));
  }

  /** What is behind the first character that is not a blank, that character put back; None where the
      stream ends first. */
  function EatBlanks(s: string): Option<string> {
    if s == "" then None else if s[0] == ' ' then EatBlanks(s[1..]) else Some(s)
  }

  method EatBlanksLoop(s: string) returns (r: Option<string>)
    ensures r == EatBlanks(s)
  {
    var i := 0;
    while i < |s| && s[i] == ' '
      invariant 0 <= i <= |s| && EatBlanks(s) == EatBlanks(s[i..])
    {
      assert s[i..][1..] == s[i + 1..];
      i := i + 1;
    }
    r := if i == |s| then None else Some(s[i..]);
  }

  /** The longest prefix of hexadecimal digits. */
  function Digits(s: string): (d: string)
    ensures d <= s
  {
    if s == "" || HexValue(s[0]) < 0 then "" else [s[0]] + Digits(s[1..])
  }

  function HexNum(d: string): int { if d == "" then 0 else 16 * HexNum(d[..|d| - 1]) + Max(0, HexValue(d[|d| - 1])) }

  function Unprefixed(t: string): string {
    if |t| >= 3 && t[0] == '0' && (t[1] == 'x' || t[1] == 'X') && HexValue(t[2]) >= 0 then t[2..] else t
  }

  /** std::stoull in base 16: white space, a sign and a 0x prefix may precede the digits; without
      digits, or beyond 64 bits, it raises. */
  function Stoull(s: string): Result<nat>
    decreases |s|
  {
    if s != "" && IsSpace(s[0]) then Stoull(s[1..])
    else
      var signed := s != "" && (s[0] == '+' || s[0] == '-');
      var t := if signed then s[1..] else s;
      var d := Digits(Unprefixed(t));
      var v := HexNum(d);
      if d == "" || !(0 <= v < TWO64) then Raised
      else Ok(if signed && s[0] == '-' then (TWO64 - v) % TWO64 else v)
  }

  /** One line: the stream ends inside it, a number raises, or a region, a path, and what follows. */
  datatype Line = Ends | Raises | Line(region: Region, path: string, rest: string)

  function Skip(s: string, fields: nat): Option<string>
    decreases fields
  {
    if fields == 0 then Some(s)
    else
      match ReadUntil(s, ' ')
      case None => None
      case Some((_, rest)) => Skip(rest, fields - 1)
  }

  function ReadLine(s: string): Line {
    match ReadUntil(s, '-')
    case None => Ends
    case Some((start, s1)) =>
      match Stoull(start)
      case Raised => Raises
      case Ok(address) =>
        match ReadUntil(s1, ' ')
        case None => Ends
        case Some((end, s2)) =>
          match Stoull(end)
          case Raised => Raises
          case Ok(last) =>
            match ReadUntil(s2, ' ')
            case None => Ends
            case Some((flags, s3)) =>
              match Skip(s3, 3)
              case None => Ends
              case Some(s4) =>
                match EatBlanks(s4)
                case None => Ends
                case Some(s5) =>
                  match ReadUntil(s5, '\n')
                  case None => Ends
                  case Some((path, rest)) =>
                    Line(Region(address, ((last as int) - address) % TWO64, 'r' in flags, 'w' in flags, 'x' in flags), path, rest)
  }

  lemma {:induction false} ReadUntilShrinks(s: string, c: char)
    ensures ReadUntil(s, c).Some? ==> |ReadUntil(s, c).value.1| < |s|
  {
    if s != "" && s[0] != c { ReadUntilShrinks(s[1..], c); }
  }

  lemma {:induction false} SkipShrinks(s: string, fields: nat)
    ensures Skip(s, fields).Some? ==> |Skip(s, fields).value| <= |s|
    decreases fields
  {
    if fields > 0 && ReadUntil(s, ' ').Some? {
      ReadUntilShrinks(s, ' ');
      SkipShrinks(ReadUntil(s, ' ').value.1, fields - 1);
    }
  }

  lemma {:induction false} EatShrinks(s: string)
    ensures EatBlanks(s).Some? ==> |EatBlanks(s).value| <= |s|
  {
    if s != "" && s[0] == ' ' { EatShrinks(s[1..]); }
  }

  lemma ReadLineShrinks(s: string)
    ensures ReadLine(s).Line? ==> |ReadLine(s).rest| < |s|
  {
    hide ReadUntil, Stoull, Skip, EatBlanks;
    if ReadLine(s).Line? {
      ReadUntilShrinks(s, '-');
      var s1 := ReadUntil(s, '-').value.1;
      ReadUntilShrinks(s1, ' ');
      var s2 := ReadUntil(s1, ' ').value.1;
      ReadUntilShrinks(s2, ' ');
      var s3 := ReadUntil(s2, ' ').value.1;
      SkipShrinks(s3, 3);
      EatShrinks(Skip(s3, 3).value);
      ReadUntilShrinks(EatBlanks(Skip(s3, 3).value).value, '\n');
    }
  }

  /** The part of a path behind its last slash. */
  function Basename(path: string): string {
    if '/' !in path then path else Basename(path[Find(path, '/') + 1..])
  }

  function Find(s: string, c: char): (i: nat)
    requires c in s
    ensures i < |s|
  {
    if s[0] == c then 0 else 1 + Find(s[1..], c)
  }

  /** The name is what stands behind the last slash. */
  lemma {:induction false} BasenameBehindLastSlash(path: string)
    ensures Lacks(Basename(path), '/')
    ensures '/' in path ==> exists front :: path == front + "/" + Basename(path)
  {
    if '/' in path {
      hide Find;
      var i := Find(path, '/');
      FindsIt(path, '/');
      var rest := path[i + 1..];
      var base := Basename(rest);
      BasenameBehindLastSlash(rest);
      if '/' in rest {
        var front :| rest == front + "/" + base;
        PathSplits(path, i, front, base);
      } else {
        assert base == rest;
        assert path == path[..i] + "/" + rest;
      }
    }
  }

  lemma PathSplits(path: string, i: nat, front: string, base: string)
    requires i < |path| && path[i + 1..] == front + "/" + base
    ensures path == (path[..i + 1] + front) + "/" + base
  {
    assert path == path[..i + 1] + path[i + 1..];
    assert path[..i + 1] + (front + "/" + base) == (path[..i + 1] + front) + "/" + base;
  }

  lemma {:induction false} FindsIt(s: string, c: char)
    requires c in s
    ensures s[Find(s, c)] == c
  {
    if s[0] != c { FindsIt(s[1..], c); }
  }

  /** A line names a module when its path is absolute and does not end in a slash. */
  predicate Named(path: string) { path != "" && path[0] == '/' && Basename(path) != "" }

  /** What one line does to the remembered name and the modules. */
  function Note(name: string, modules: Modules, region: Region, path: string): (string, Modules) {
    if path == "" then
      if name != "" && name in modules then (name, modules[name := AddRegion(modules[name], region)]) else (name, modules)
    else if !Named(path) then (name, modules)
    else
      var base := Basename(path);
      var m := if base in modules then modules[base] else Module(base, []);
      (base, modules[base := AddRegion(m, region)])
  }

  /** The line loop. */
  function ParseLines(s: string, name: string, modules: Modules): Result<Modules>
    decreases |s|
  {
    match ReadLine(s)
    case Ends => Ok(modules)
    case Raises => Raised
    case Line(region, path, rest) =>
      ReadLineShrinks(s);
      var (name', modules') := Note(name, modules, region, path);
      ParseLines(rest, name', modules')
  }

  /** HostLinux::modules over the text of the file, with the lexer's loops. */
  method ParseMaps(text: string) returns (r: Result<Modules>)
    ensures r == ParseLines(text, "", map[])
  {
    hide ReadLine, Note;
    var modules: Modules := map[];
    var name := "";
    var s := text;
    while true
      invariant ParseLines(text, "", map[]) == ParseLines(s, name, modules)
      decreases |s|
    {
      ReadLineShrinks(s);
      var line := LexLine(s);
      match line {
        case Ends => return Ok(modules);
        case Raises => return Raised;
        case Line(region, path, rest) =>
          s := rest;
          name, modules := NoteLine(name, modules, region, path);
      }
    }
  }

  /** The end of the loop body: which module a region belongs to. */
  method NoteLine(name0: string, modules0: Modules, region: Region, path: string) returns (name: string, modules: Modules)
    ensures (name, modules) == Note(name0, modules0, region, path)
  {
    name, modules := name0, modules0;
    if |path| == 0 {
      if name != "" && name in modules {
        modules := modules[name := AddRegion(modules[name], region)];
      }
      return;
    }
    if path[0] != '/' {
      return;
    }
    var base := Basename(path);
    if |base| > 0 {
      name := base;
      if name in modules {
        modules := modules[name := AddRegion(modules[name], region)];
      } else {
        var m := Module(name, []);
        m := AddRegion(m, region);
        modules := modules[name := m];
      }
    }
  }

  method LexLine(s: string) returns (line: Line)
    ensures line == ReadLine(s)
  {
    hide ReadUntil, Stoull, EatBlanks;
    var ret := ReadUntilLoop(s, '-');
    if ret.None? { return Ends; }
    var address := Stoull(ret.value.0);
    if address.Raised? { return Raises; }
    ret := ReadUntilLoop(ret.value.1, ' ');
    if ret.None? { return Ends; }
    var end := Stoull(ret.value.0);
    if end.Raised? { return Raises; }
    ret := ReadUntilLoop(ret.value.1, ' ');
    if ret.None? { return Ends; }
    var flags, rest := ret.value.0, ret.value.1;
    var readable, writable, executable := false, false, false;
    for i := 0 to |flags|
      invariant readable == ('r' in flags[..i]) && writable == ('w' in flags[..i]) && executable == ('x' in flags[..i])
    {
      match flags[i] {
        case 'r' => readable := true;
        case 'w' => writable := true;
        case 'x' => executable := true;
        case _ =>
      }
    }
    assert flags[..|flags|] == flags;
    ghost var behindFlags := rest;
    for i := 0 to 3
      invariant Skip(behindFlags, 3) == Skip(rest, 3 - i)
    {
      ret := ReadUntilLoop(rest, ' ');
      if ret.None? { return Ends; }
      rest := ret.value.1;
    }
    var path := EatBlanksLoop(rest);
    if path.None? { return Ends; }
    ret := ReadUntilLoop(path.value, '\n');
    if ret.None? { return Ends; }
    line := Line(Region(address.value, ((end.value as int) - address.value) % TWO64, readable, writable, executable),
                 ret.value.0, ret.value.1);
  }

  // Printing.

  /** What is mapped: nothing with a name; a file in a folder; a path that ends in a slash; or anything
      else the system notes in that place, such as [heap]. */
  datatype Mapped = Anonymous | File(folder: string, base: string) | Folder(folder: string) | Pseudo(text: string)

  predicate LegalMapped(m: Mapped) {
    match m
    case Anonymous => true
    case File(folder, base) => Absolute(folder) && Lacks(folder, '\n') && base != "" && Lacks(base, '\n') && Lacks(base, '/')
    case Folder(folder) => Absolute(folder) && Lacks(folder, '\n')
    case Pseudo(text) => text != "" && text[0] != '/' && text[0] != ' ' && Lacks(text, '\n')
  }

  predicate Absolute(folder: string) { folder == "" || folder[0] == '/' }

  function PathOf(m: Mapped): string {
    match m
    case Anonymous => ""
    case File(folder, base) => folder + "/" + base
    case Folder(folder) => folder + "/"
    case Pseudo(text) => text
  }

  /** One line of the file: the fields as text, any number of blanks, and a path or nothing. */
  datatype Entry = Entry(start: nat, end: nat, flags: string, offset: string, dev: string, inode: string,
                         blanks: nat, mapped: Mapped)
  {
    function Path(): string { PathOf(mapped) }
  }

  predicate LegalEntry(e: Entry) {
    e.start < TWO64 && e.end < TWO64 && Lacks(e.flags, ' ') && Lacks(e.offset, ' ') && Lacks(e.dev, ' ') &&
    Lacks(e.inode, ' ') && LegalMapped(e.mapped)
  }

  lemma LegalPath(m: Mapped)
    requires LegalMapped(m)
    ensures Lacks(PathOf(m), '\n') && (PathOf(m) != "" ==> PathOf(m)[0] != ' ') && (PathOf(m) == "" <==> m.Anonymous?)
  {
  }

  lemma {:induction false} BasenameOfJoined(folder: string, base: string)
    requires Lacks(base, '/')
    ensures Basename(folder + "/" + base) == base
    decreases |folder|
  {
    hide Find, Basename, Lacks;
    var path := folder + "/" + base;
    FirstSlash(folder, base);
    var i := Find(path, '/');
    BasenameNext(path);
    if i < |folder| {
      assert path[i + 1..] == folder[i + 1..] + "/" + base;
      BasenameOfJoined(folder[i + 1..], base);
    } else {
      assert path[i + 1..] == base;
      BasenameWhole(base);
    }
  }

  lemma BasenameNext(path: string)
    requires '/' in path
    ensures Basename(path) == Basename(path[Find(path, '/') + 1..])
  {
  }

  lemma BasenameWhole(base: string)
    requires Lacks(base, '/')
    ensures Basename(base) == base
  {
  }

  lemma FirstSlash(folder: string, base: string)
    ensures '/' in folder + "/" + base && Find(folder + "/" + base, '/') <= |folder|
  {
    hide Find;
    var path := folder + "/" + base;
    assert path[|folder|] == '/';
    FindsFirst(path, '/', |folder|);
  }

  lemma {:induction false} FindsFirst(s: string, c: char, k: nat)
    requires k < |s| && s[k] == c
    ensures Find(s, c) <= k
  {
    if s[0] != c { FindsFirst(s[1..], c, k - 1); }
  }

  /** Files name a module, the one of their base name, and nothing else does. */
  lemma NamedAreFiles(m: Mapped)
    requires LegalMapped(m)
    ensures Named(PathOf(m)) <==> m.File?
    ensures m.File? ==> Basename(PathOf(m)) == m.base
  {
    match m
    case File(folder, base) => BasenameOfJoined(folder, base);
    case Folder(folder) =>
      BasenameOfJoined(folder, "");
      assert folder + "/" + "" == folder + "/";
    case _ =>
  }

  predicate LegalEntries(es: seq<Entry>) { forall e :: e in es ==> LegalEntry(e) }

  function Blanks(n: nat): (s: string)
    ensures |s| == n
  {
    if n == 0 then "" else " " + Blanks(n - 1)
  }

  function Print(e: Entry): string {
    HexOf(e.start) + "-" + (HexOf(e.end) + " " + (e.flags + " " + (e.offset + " " + (e.dev + " " + (e.inode + " " +
    (Blanks(e.blanks) + (e.Path() + "\n" + "")))))))
  }

  function PrintAll(es: seq<Entry>): string {
    if es == [] then "" else Print(es[0]) + PrintAll(es[1..])
  }

  function RegionOf(e: Entry): Region {
    Region(e.start, ((e.end as int) - e.start) % TWO64, 'r' in e.flags, 'w' in e.flags, 'x' in e.flags)
  }

  lemma {:induction false} ReadsUntil(a: string, c: char, rest: string)
    requires Lacks(a, c)
    ensures ReadUntil(a + [c] + rest, c) == Some((a, rest))
  {
    var s := a + [c] + rest;
    if a == "" {
      assert s == [c] + rest && s[1..] == rest;
    } else {
      assert s[1..] == a[1..] + [c] + rest;
      ReadsUntil(a[1..], c, rest);
      assert [a[0]] + a[1..] == a;
    }
  }

  lemma {:induction false} EatsBlanks(n: nat, rest: string)
    requires rest != "" && rest[0] != ' '
    ensures EatBlanks(Blanks(n) + rest) == Some(rest)
  {
    if n == 0 {
      assert Blanks(0) + rest == rest;
    } else {
      assert (Blanks(n) + rest)[1..] == Blanks(n - 1) + rest;
      EatsBlanks(n - 1, rest);
    }
  }

  predicate AllDigits(s: string) { forall i :: 0 <= i < |s| ==> HexValue(s[i]) >= 0 }

  lemma {:induction false} HexIsDigits(n: nat)
    ensures AllDigits(HexOf(n)) && HexNum(HexOf(n)) == n
  {
    HexDigits(n % 16);
    hide HexValue, HexDigit;
    var s := HexOf(n);
    if n < 16 {
      assert s[..0] == "" && HexNum("") == 0 && s[0] == HexDigit(n);
    } else {
      HexIsDigits(n / 16);
      assert s[..|s| - 1] == HexOf(n / 16);
    }
  }

  lemma {:induction false} DigitsOfDigits(s: string)
    requires AllDigits(s)
    ensures Digits(s) == s
  {
    if s != "" {
      DigitsOfDigits(s[1..]);
      assert [s[0]] + s[1..] == s;
    }
  }

  /** No hexadecimal digit comes first, and no x. */
  predicate EndsNumber(rest: string) { rest == "" || (HexValue(rest[0]) < 0 && rest[0] !in {'x', 'X'}) }

  lemma {:induction false} DigitsBefore(s: string, rest: string)
    requires AllDigits(s) && EndsNumber(rest)
    ensures Digits(s + rest) == s
  {
    if s == "" {
      assert s + rest == rest;
    } else {
      assert (s + rest)[1..] == s[1..] + rest;
      DigitsBefore(s[1..], rest);
      assert [s[0]] + s[1..] == s;
    }
  }

  /** Digits are neither white space nor signs nor an x. */
  lemma DigitKind(c: char)
    requires HexValue(c) >= 0
    ensures !IsSpace(c) && c !in {'+', '-', 'x', 'X', ' ', '\n'}
  {
  }

  lemma StoullHex(n: nat)
    requires n < TWO64
    ensures Stoull(HexOf(n)) == Ok(n) && Lacks(HexOf(n), '-') && Lacks(HexOf(n), ' ')
  {
    HexIsDigits(n);
    var s := HexOf(n);
    DigitsOfDigits(s);
    forall i | 0 <= i < |s| ensures !IsSpace(s[i]) && s[i] !in {'+', '-', 'x', 'X', ' ', '\n'} {
      DigitKind(s[i]);
    }
  }

  predicate AllSpaces(s: string) { forall i :: 0 <= i < |s| ==> IsSpace(s[i]) }

  lemma {:induction false} StoullSkipsSpaces(spaces: string, s: string)
    requires AllSpaces(spaces)
    ensures Stoull(spaces + s) == Stoull(s)
  {
    hide IsSpace, Digits, HexNum, HexValue;
    if spaces == "" {
      assert spaces + s == s;
    } else {
      assert (spaces + s)[1..] == spaces[1..] + s;
      StoullSkipsSpaces(spaces[1..], s);
    }
  }

  lemma PrefixIsTaken(prefix: string, n: nat, rest: string)
    requires prefix in {"", "0x", "0X"} && EndsNumber(rest)
    ensures Unprefixed(prefix + (HexOf(n) + rest)) == HexOf(n) + rest
  {
    hide HexOf;
    var digits := HexOf(n) + rest;
    HexIsDigits(n);
    if prefix == "" {
      assert prefix + digits == digits;
      NoPrefix(n, rest);
    } else {
      assert (prefix + digits)[2..] == digits;
    }
  }

  lemma StoullSigned(sign: string, t: string)
    requires sign in {"", "+", "-"} && t != "" && !IsSpace(t[0]) && t[0] != '+' && t[0] != '-'
    ensures var d := Digits(Unprefixed(t));
            Stoull(sign + t) ==
            if d == "" || !(0 <= HexNum(d) < TWO64) then Raised
            else Ok(if sign == "-" then (TWO64 - HexNum(d)) % TWO64 else HexNum(d))
  {
    SignsAreNoSpaces();
    hide IsSpace, Digits, HexNum, Unprefixed;
    if sign == "" {
      assert sign + t == t;
    } else {
      assert (sign + t)[1..] == t && (sign + t)[0] == sign[0];
    }
  }

  /** Every way of writing a number that the library reads, and what it reads: spaces, a sign, a prefix,
      and digits, up to something that is none; from 2^64 on it raises, and a minus sign wraps around. */
  lemma StoullReads(spaces: string, sign: string, prefix: string, n: nat, rest: string)
    requires AllSpaces(spaces) && sign in {"", "+", "-"} && prefix in {"", "0x", "0X"} && EndsNumber(rest)
    ensures Stoull(spaces + (sign + (prefix + (HexOf(n) + rest)))) ==
            if n >= TWO64 then Raised else Ok(if sign == "-" && n > 0 then TWO64 - n else n)
  {
    hide HexOf, Digits, HexNum, IsSpace, HexValue, Unprefixed, Stoull, EndsNumber;
    var (digits, t) := (HexOf(n) + rest, prefix + (HexOf(n) + rest));
    HexIsDigits(n);
    DigitsBefore(HexOf(n), rest);
    assert HexValue(digits[0]) >= 0 && digits[0] == HexOf(n)[0];
    DigitKind(digits[0]);
    SignsAreNoSpaces();
    PrefixIsTaken(prefix, n, rest);
    StoullSkipsSpaces(spaces, sign + t);
    assert t != "" && t[0] == if prefix == "" then digits[0] else '0';
    StoullSigned(sign, t);
  }

  lemma SignsAreNoSpaces()
    ensures !IsSpace('+') && !IsSpace('-') && !IsSpace('0')
  {
  }

  /** Digits that something else follows do not look like a prefix. */
  lemma NoPrefix(n: nat, rest: string)
    requires EndsNumber(rest)
    ensures var digits := HexOf(n) + rest; |digits| >= 2 ==> digits[1] !in {'x', 'X'}
  {
    HexIsDigits(n);
    var digits := HexOf(n) + rest;
    if |HexOf(n)| >= 2 { DigitKind(digits[1]); }
  }

  /** Without digits it raises. */
  lemma StoullNeedsDigits(spaces: string, sign: string, rest: string)
    requires AllSpaces(spaces) && sign in {"", "+", "-"} && EndsNumber(rest)
    requires sign == "" && rest != "" ==> !IsSpace(rest[0]) && rest[0] !in {'+', '-'}
    ensures Stoull(spaces + (sign + rest)) == Raised
  {
    StoullSkipsSpaces(spaces, sign + rest);
    SignsAreNoSpaces();
    hide IsSpace, HexNum;
    assert (if sign == "" then sign + rest else (sign + rest)[1..]) == rest;
  }

  /** A printed line is read back field by field. */
  lemma ReadsPrinted(e: Entry, rest: string)
    requires LegalEntry(e)
    ensures ReadLine(Print(e) + rest) == Line(RegionOf(e), e.Path(), rest)
  {
    hide ReadUntil, Stoull, HexOf, EatBlanks, Blanks;
    var s6 := e.Path() + "\n" + rest;
    var s5 := Blanks(e.blanks) + s6;
    var s4 := e.inode + " " + s5;
    var s3 := e.dev + " " + s4;
    var s2 := e.offset + " " + s3;
    var s1 := e.flags + " " + s2;
    var s0 := HexOf(e.end) + " " + s1;
    assert Print(e) + rest == HexOf(e.start) + "-" + s0;
    StoullHex(e.start);
    StoullHex(e.end);
    ReadsUntil(HexOf(e.start), '-', s0);
    ReadsUntil(HexOf(e.end), ' ', s1);
    ReadsUntil(e.flags, ' ', s2);
    ReadsFields(e, s2, s3, s4, s5);
    EatsBlanks(e.blanks, s6);
    ReadsUntil(e.Path(), '\n', rest);
  }

  lemma ReadsFields(e: Entry, s2: string, s3: string, s4: string, s5: string)
    requires LegalEntry(e)
    requires s2 == e.offset + " " + s3 && s3 == e.dev + " " + s4 && s4 == e.inode + " " + s5
    ensures Skip(s2, 3) == Some(s5)
  {
    hide ReadUntil;
    ReadsUntil(e.offset, ' ', s3);
    ReadsUntil(e.dev, ' ', s4);
    ReadsUntil(e.inode, ' ', s5);
    assert Skip(s5, 0) == Some(s5);
    assert Skip(s4, 1) == Some(s5);
    assert Skip(s3, 2) == Some(s5);
  }

  /** Noting every entry in turn. */
  function NoteAll(es: seq<Entry>, name: string, modules: Modules): Modules {
    if es == [] then modules
    else
      var (name', modules') := Note(name, modules, RegionOf(es[0]), es[0].Path());
      NoteAll(es[1..], name', modules')
  }

  lemma {:induction false} ParsesPrinted(es: seq<Entry>, name: string, modules: Modules)
    requires LegalEntries(es)
    ensures ParseLines(PrintAll(es), name, modules) == Ok(NoteAll(es, name, modules))
    decreases |es|
  {
    hide Print, Note, RegionOf, LegalEntry;
    if es == [] {
      assert ReadUntil("", '-') == None;
    } else {
      assert es[0] in es && forall e :: e in es[1..] ==> e in es;
      ReadsPrinted(es[0], PrintAll(es[1..]));
      hide ReadLine;
      var (name', modules') := Note(name, modules, RegionOf(es[0]), es[0].Path());
      ParsesPrinted(es[1..], name', modules');
    }
  }

  /** The module a line belongs to: the one its path names, or without a path the one named last;
      lines with another kind of path belong to none. */
  function Owner(es: seq<Entry>, i: nat): string
    requires i < |es|
  {
    OwnerOf(es[i].mapped, LastNamed(es[..i]))
  }

  function OwnerOf(m: Mapped, last: string): string {
    match m
    case Anonymous => last
    case File(_, base) => base
    case _ => ""
  }

  function LastNamed(es: seq<Entry>): string {
    if es == [] then ""
    else
      match es[|es| - 1].mapped
      case File(_, base) => base
      case _ => LastNamed(es[..|es| - 1])
  }

  /** The regions of a module's own lines and of the anonymous lines attributed to it, in order. */
  function Owned(es: seq<Entry>, base: string): seq<Region> {
    if es == [] then []
    else
      var n := |es| - 1;
      Owned(es[..n], base) + if Owner(es, n) == base then [RegionOf(es[n])] else []
  }

  lemma {:induction false} InsertAllSnoc(regions: seq<Region>, rs: seq<Region>, r: Region)
    ensures InsertAll(regions, rs + [r]) == Insert(InsertAll(regions, rs), r)
    decreases |rs|
  {
    if rs == [] {
      assert [] + [r] == [r] && [r][1..] == [];
      assert InsertAll(Insert(regions, r), []) == Insert(regions, r);
    } else {
      assert (rs + [r])[1..] == rs[1..] + [r];
      InsertAllSnoc(Insert(regions, rs[0]), rs[1..], r);
    }
  }

  lemma {:induction false} NoteAllSnoc(es: seq<Entry>, e: Entry, name: string, modules: Modules)
    ensures NoteAll(es + [e], name, modules) == Note(NameAfter(es, name), NoteAll(es, name, modules), RegionOf(e), e.Path()).1
    decreases |es|
  {
    hide Note, RegionOf, Named, Basename;
    if es == [] {
      assert [] + [e] == [e] && [e][1..] == [];
      var (name', modules') := Note(name, modules, RegionOf(e), e.Path());
      assert NoteAll([], name', modules') == modules';
    } else {
      assert (es + [e])[1..] == es[1..] + [e];
      var (name', modules') := Note(name, modules, RegionOf(es[0]), es[0].Path());
      NoteName(name, modules, RegionOf(es[0]), es[0].Path());
      NoteAllSnoc(es[1..], e, name', modules');
    }
  }

  function NameAfter(es: seq<Entry>, name: string): string {
    if es == [] then name else NameAfter(es[1..], if Named(es[0].Path()) then Basename(es[0].Path()) else name)
  }

  lemma NoteName(name: string, modules: Modules, region: Region, path: string)
    ensures Note(name, modules, region, path).0 == if Named(path) then Basename(path) else name
  {
  }

  lemma {:induction false} NameAfterSnoc(es: seq<Entry>, e: Entry, name: string)
    ensures NameAfter(es + [e], name) == if Named(e.Path()) then Basename(e.Path()) else NameAfter(es, name)
    decreases |es|
  {
    hide Named, Basename;
    if es == [] {
      assert [] + [e] == [e] && [e][1..] == [];
    } else {
      assert (es + [e])[1..] == es[1..] + [e];
      NameAfterSnoc(es[1..], e, if Named(es[0].Path()) then Basename(es[0].Path()) else name);
    }
  }

  lemma {:induction false} NameAfterIsLast(es: seq<Entry>)
    requires LegalEntries(es)
    ensures NameAfter(es, "") == LastNamed(es)
    ensures LastNamed(es) != "" ==> Owned(es, LastNamed(es)) != []
  {
    hide Named, Basename, RegionOf;
    if es != [] {
      var n := |es| - 1;
      assert forall e :: e in es[..n] ==> e in es;
      NameAfterIsLast(es[..n]);
      NameAfterSnoc(es[..n], es[n], "");
      assert es[..n] + [es[n]] == es;
      assert es[n] in es;
      NamedAreFiles(es[n].mapped);
    }
  }

  /** One more line: only its owner's module changes, if it has an owner. */
  lemma NotesOne(name: string, modules: Modules, e: Entry)
    requires LegalEntry(e) && (name != "" ==> name in modules)
    ensures var owner := OwnerOf(e.mapped, name);
            Note(name, modules, RegionOf(e), e.Path()).1 ==
            if owner == "" then modules
            else modules[owner := AddRegion(if owner in modules then modules[owner] else Module(owner, []), RegionOf(e))]
  {
    hide Named, Basename, RegionOf, AddRegion;
    NamedAreFiles(e.mapped);
    LegalPath(e.mapped);
  }

  /** Printing any list of entries and parsing it gives, under each name, exactly the module whose
      regions are those owned by that name; there is a module for every name that owns a line. */
  lemma {:induction false} NotesOwned(es: seq<Entry>)
    requires LegalEntries(es)
    ensures var modules := NoteAll(es, "", map[]);
            forall base :: base in modules <==> base != "" && Owned(es, base) != []
    ensures var modules := NoteAll(es, "", map[]);
            forall base :: base in modules ==> modules[base] == Module(base, InsertAll([], Owned(es, base)))
  {
    hide Named, Basename, RegionOf, InsertAll, Note, LegalEntry, NameAfter, LastNamed, Owned, OwnerOf, AddRegion;
    if es == [] {
      NothingOwned();
    } else {
      var n := |es| - 1;
      var (front, e) := (es[..n], es[n]);
      assert e in es && forall x :: x in front ==> x in es;
      assert front + [e] == es;
      NotesOwned(front);
      NoteAllSnoc(front, e, "", map[]);
      NameAfterIsLast(front);
      NotesOne(LastNamed(front), NoteAll(front, "", map[]), e);
      var owner := OwnerOf(e.mapped, LastNamed(front));
      forall base
        ensures base in NoteAll(es, "", map[]) <==> base != "" && Owned(es, base) != []
        ensures base in NoteAll(es, "", map[]) ==> NoteAll(es, "", map[])[base] == Module(base, InsertAll([], Owned(es, base)))
      {
        OwnedSnoc(front, e, base);
        AddsOwned(base, Owned(front, base), RegionOf(e));
      }
    }
  }

  lemma NothingOwned()
    ensures forall base :: Owned([], base) == []
  {
  }

  lemma OwnedSnoc(front: seq<Entry>, e: Entry, base: string)
    ensures Owned(front + [e], base) ==
            if OwnerOf(e.mapped, LastNamed(front)) == base then Owned(front, base) + [RegionOf(e)] else Owned(front, base)
  {
    hide RegionOf, LastNamed;
    assert (front + [e])[..|front|] == front && Owned(front, base) + [] == Owned(front, base);
  }

  lemma AddsOwned(base: string, rs: seq<Region>, r: Region)
    ensures AddRegion(Module(base, InsertAll([], rs)), r) == Module(base, InsertAll([], rs + [r]))
    ensures rs == [] ==> AddRegion(Module(base, []), r) == Module(base, InsertAll([], rs + [r]))
  {
    hide Insert;
    InsertAllSnoc([], rs, r);
  }

  /** The maps round trip: parsing what was printed never raises, and each module holds, in order, the
      regions that come first with their address among those it owns; its base address is the least. */
  lemma MapsRoundTrip(es: seq<Entry>)
    requires LegalEntries(es)
    ensures ParseLines(PrintAll(es), "", map[]).Ok?
    ensures var modules := ParseLines(PrintAll(es), "", map[]).value;
            forall base ::
              (base in modules <==> base != "" && Owned(es, base) != []) &&
              (base in modules ==> modules[base].name == base && Holds(modules[base], Owned(es, base)))
  {
    hide Owned, Owner, LegalEntries, Print, Holds, Insert, InsertAll;
    ParsesPrinted(es, "", map[]);
    NotesOwned(es);
    var modules := NoteAll(es, "", map[]);
    forall base | base in modules ensures Holds(modules[base], Owned(es, base)) {
      OwnedModule(modules[base], Owned(es, base));
    }
  }

  /** The module holds, in order, exactly the regions of the list that come first with their address, and
      its base address is the least of the list. */
  ghost predicate Holds(m: Module, rs: seq<Region>) {
    Ordered(m.regions) && (forall x :: x in m.regions <==> FirstAt(rs, x.address) == Some(x)) &&
    FirstAt(rs, BaseAddress(m)).Some? && forall r :: r in rs ==> BaseAddress(m) <= r.address
  }

  lemma OwnedModule(m: Module, rs: seq<Region>)
    requires m.regions == InsertAll([], rs) && rs != []
    ensures Holds(m, rs)
  {
    hide Ordered, InsertAll, FirstAt;
    InsertedAre(rs);
    forall r | r in rs ensures exists x :: x in m.regions && x.address == r.address {
      FirstAtMeans(rs, r.address);
      assert FirstAt(rs, r.address).value in m.regions;
    }
    assert rs[0] in rs;
    BaseIsLeast(m);
  }
}
