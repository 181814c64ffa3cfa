/**
  The Packages index of internal/apt/repo.go read back: the printed text splits at blank lines into
  one stanza per package and each stanza parses to the control fields it was printed from.
 */
module AptPackages {
  import opened Basics
  import opened GoStrings
  import opened AptControl

  // ---------------------------------------------------------------- stanzas

  /** The groups of consecutive non-blank lines, after the lines `cur` already in the current group. */
  function Groups(ls: seq<string>, cur: seq<string>): seq<seq<string>> {
    if ls == [] then (if cur == [] then [] else [cur])
    else if IsBlank(ls[0]) then (if cur == [] then [] else [cur]) + Groups(ls[1..], [])
    else Groups(ls[1..], cur + [ls[0]])
  }

  /** A blank line ends the group before it; what follows is grouped on its own. */
  lemma {:induction false} GroupsSplit(a: seq<string>, sep: string, b: seq<string>, cur: seq<string>)
    requires IsBlank(sep)
    ensures Groups(a + [sep] + b, cur) == Groups(a, cur) + Groups(b, [])
    decreases |a|
  {
    var ls := a + [sep] + b;
    if a == [] {
      assert ls[0] == sep && ls[1..] == b;
    } else {
      assert ls[0] == a[0] && ls[1..] == a[1..] + [sep] + b;
      GroupsSplit(a[1..], sep, b, if IsBlank(a[0]) then [] else cur + [a[0]]);
      if IsBlank(a[0]) {
        Associative(if cur == [] then [] else [cur], Groups(a[1..], []), Groups(b, []));
      }
    }
  }

  predicate NoBlank(ls: seq<string>) {
    forall i :: 0 <= i < |ls| ==> !IsBlank(ls[i])
  }

  lemma {:induction false} OneGroup(body: seq<string>, cur: seq<string>)
    requires NoBlank(body) && cur + body != []
    ensures Groups(body, cur) == [cur + body]
    decreases |body|
  {
    if body == [] {
      assert cur + body == cur;
    } else {
      assert cur + [body[0]] + body[1..] == cur + body;
      OneGroup(body[1..], cur + [body[0]]);
    }
  }

  predicate HasInk(ls: seq<string>) {
    exists i :: 0 <= i < |ls| && !IsBlank(ls[i])
  }

  lemma {:induction false} SomeGroup(ls: seq<string>, cur: seq<string>)
    requires HasInk(ls) || cur != []
    ensures |Groups(ls, cur)| >= 1
    decreases |ls|
  {
    if ls != [] && cur == [] && IsBlank(ls[0]) {
      var i :| 0 <= i < |ls| && !IsBlank(ls[i]);
      assert ls[1..][i - 1] == ls[i];
      SomeGroup(ls[1..], []);
    } else if ls != [] && !IsBlank(ls[0]) {
      SomeGroup(ls[1..], cur + [ls[0]]);
    }
  }

  /** A blank line with text before and after it makes two groups. */
  lemma BlankSplits(a: seq<string>, f: string, ls: seq<string>, g: string, b: seq<string>, line: string)
    requires !IsBlank(f) && !IsBlank(g) && line in ls && IsBlank(line)
    ensures |Groups((a + [f]) + ls + ([g] + b), [])| >= 2
  {
    var i :| 0 <= i < |ls| && ls[i] == line;
    var x, y := (a + [f]) + ls[..i], ls[i + 1..] + ([g] + b);
    assert (a + [f]) + ls + ([g] + b) == x + [line] + y;
    assert x[|a|] == f && y[|ls| - i - 1] == g;
    GroupsSplit(x, line, y, []);
    SomeGroup(x, []);
    SomeGroup(y, []);
  }

  // ---------------------------------------------------------------- the lines of the printed text

  lemma {:induction false} LinesPrefix(p: string, v: string)
    requires OneLine(p)
    ensures Lines(p + v) == [p + Lines(v)[0]] + Lines(v)[1..]
    decreases |p|
  {
    var ls := Lines(v);
    if p == "" {
      assert p + v == v && p + ls[0] == ls[0];
      assert [ls[0]] + ls[1..] == ls;
    } else {
      assert (p + v)[1..] == p[1..] + v && (p + v)[0] == p[0];
      LinesPrefix(p[1..], v);
      var rest := Lines(p[1..] + v);
      assert rest[0] == p[1..] + ls[0] && rest[1..] == ls[1..];
      assert [p[0]] + (p[1..] + ls[0]) == p + ls[0];
    }
  }

  function PairLines(p: Pair): seq<string> {
    [Field(Name(p.key), Lines(p.value)[0])] + Lines(p.value)[1..]
  }

  function PairsLines(ps: seq<Pair>): seq<string> {
    if ps == [] then [] else PairLines(ps[0]) + PairsLines(ps[1..])
  }

  function SumsLines(e: Entry): seq<string> {
    if e.sha256 == "" then [] else Lines(Field("SHA256", e.sha256)) + (["Checksums-Sha256:"] + Lines(SumLine(e)))
  }

  /** The lines about the file, after the control fields. */
  function FileLines(e: Entry): seq<string> {
    Lines(Field("Filename", e.filename)) + ([Field("Size", DecimalInt(e.size))] + SumsLines(e))
  }

  function StanzaLines(e: Entry): seq<string> {
    PairsLines(Pairs(e.info, CANONICAL_ORDER)) + FileLines(e)
  }

  function AllLines(es: seq<Entry>): seq<string> {
    if es == [] then [""] else StanzaLines(es[0]) + [""] + AllLines(es[1..])
  }

  lemma NamesAreOneLine(k: Key)
    ensures OneLine(Name(k) + ": ")
  {
  }

  lemma PairTextLines(p: Pair, rest: string)
    ensures Lines(PairText(p) + rest) == PairLines(p) + Lines(rest)
  {
    var head := Name(p.key) + ": ";
    NamesAreOneLine(p.key);
    LinesPrefix(head, p.value);
    Associative(head + p.value, "\n", rest);
    LinesBreak(head + p.value, rest);
  }

  lemma {:induction false} PairsTextLines(ps: seq<Pair>, rest: string)
    ensures Lines(PairsText(ps) + rest) == PairsLines(ps) + Lines(rest)
    decreases |ps|
  {
    if ps == [] {
      assert PairsText(ps) + rest == rest;
    } else {
      Associative(PairText(ps[0]), PairsText(ps[1..]), rest);
      PairTextLines(ps[0], PairsText(ps[1..]) + rest);
      PairsTextLines(ps[1..], rest);
      Associative(PairLines(ps[0]), PairsLines(ps[1..]), Lines(rest));
    }
  }

  lemma LineThen(line: string, rest: string)
    requires OneLine(line)
    ensures Lines(line + "\n" + rest) == [line] + Lines(rest)
  {
    OneLineLines(line);
    LinesBreak(line, rest);
  }

  lemma DecimalIsOneLine(n: int)
    ensures OneLine(DecimalInt(n))
  {
    var d := Decimal(if n < 0 then -n else n);
    forall i | 0 <= i < |d|
      ensures d[i] != '\n'
    {
    }
  }

  lemma FieldLines(key: string, v: string)
    requires OneLine(key)
    ensures Lines(Field(key, v)) == [Field(key, Lines(v)[0])] + Lines(v)[1..]
  {
    LinesPrefix(key + ": ", v);
  }

  lemma SumsTextLines(e: Entry, rest: string)
    ensures Lines(SumsText(e) + rest) == SumsLines(e) + Lines(rest)
  {
    if e.sha256 == "" {
      assert SumsText(e) + rest == rest;
    } else {
      SumsShape(Field("SHA256", e.sha256), "Checksums-Sha256:", SumLine(e), rest);
    }
  }

  lemma SumsShape(a: string, b: string, c: string, rest: string)
    requires OneLine(b)
    ensures Lines((a + "\n" + (b + "\n" + (c + "\n"))) + rest) == (Lines(a) + ([b] + Lines(c))) + Lines(rest)
  {
    assert (a + "\n" + (b + "\n" + (c + "\n"))) + rest == a + "\n" + (b + "\n" + (c + "\n" + rest));
    LinesBreak(a, b + "\n" + (c + "\n" + rest));
    LineThen(b, c + "\n" + rest);
    LinesBreak(c, rest);
    Associative([b], Lines(c), Lines(rest));
    Associative(Lines(a), [b] + Lines(c), Lines(rest));
  }

  lemma FileTextLines(e: Entry, rest: string)
    ensures Lines(FileText(e) + rest) == FileLines(e) + Lines(rest)
  {
    var f, z := Field("Filename", e.filename), Field("Size", DecimalInt(e.size));
    var sums := SumsText(e);
    DecimalIsOneLine(e.size);
    FileTextShape(f, z, sums, rest);
    LinesBreak(f, z + "\n" + (sums + rest));
    LineThen(z, sums + rest);
    SumsTextLines(e, rest);
    Associative([z], SumsLines(e), Lines(rest));
    Associative(Lines(f), [z] + SumsLines(e), Lines(rest));
  }

  lemma FileTextShape(l1: string, l2: string, sums: string, rest: string)
    ensures (l1 + "\n" + (l2 + "\n" + sums)) + rest == l1 + "\n" + (l2 + "\n" + (sums + rest))
  {
  }

  lemma EntryTextLines(e: Entry, rest: string)
    ensures Lines(EntryText(e) + rest) == StanzaLines(e) + [""] + Lines(rest)
  {
    var ps := Pairs(e.info, CANONICAL_ORDER);
    EntryTextShape(PairsText(ps), FileText(e), rest);
    PairsTextLines(ps, FileText(e) + ("\n" + rest));
    FileTextLines(e, "\n" + rest);
    LineThen("", rest);
    assert "" + "\n" + rest == "\n" + rest;
    Regroup(PairsLines(ps), FileLines(e), [""], Lines(rest));
  }

  lemma Regroup<T>(a: seq<T>, b: seq<T>, c: seq<T>, d: seq<T>)
    ensures a + (b + (c + d)) == (a + b) + c + d
  {
  }

  lemma EntryTextShape(pairs: string, file: string, rest: string)
    ensures (pairs + file + "\n") + rest == pairs + (file + ("\n" + rest))
  {
  }

  /** Whatever the entries hold, the text is line by line their stanzas, each followed by an empty line. */
  lemma {:induction false} PackagesLines(es: seq<Entry>)
    ensures Lines(PackagesText(es)) == AllLines(es)
    decreases |es|
  {
    if es != [] {
      EntryTextLines(es[0], PackagesText(es[1..]));
      PackagesLines(es[1..]);
    }
  }

  // ---------------------------------------------------------------- lines that do no harm

  ghost predicate ControlName(s: string) {
    exists k :: Name(k) == s
  }

  /** Not blank, and for the parser a folded line, no field at all, or a field other than the 17. */
  ghost predicate Quiet(line: string) {
    && !IsBlank(line)
    && (line[0] == ' ' || line[0] == '\t'
        || match IndexOf(line, ':')
           case None => true
           case Some(i) => !ControlName(TrimSpace(line[..i])))
  }

  ghost predicate AllQuiet(ls: seq<string>) {
    forall i :: 0 <= i < |ls| ==> Quiet(ls[i])
  }

  /** Every line printed about the file, the empty end aside, is quiet. */
  ghost predicate Printable(e: Entry) {
    var ls := Lines(FileText(e));
    forall i :: 0 <= i < |ls| - 1 ==> Quiet(ls[i])
  }

  lemma PrintableLines(e: Entry)
    ensures Printable(e) <==> AllQuiet(FileLines(e))
  {
    FileTextLines(e, "");
    assert FileText(e) + "" == FileText(e);
    AllButLastQuiet(FileLines(e));
  }

  lemma AllButLastQuiet(ls: seq<string>)
    ensures (forall i :: 0 <= i < |ls + [""]| - 1 ==> Quiet((ls + [""])[i])) <==> AllQuiet(ls)
  {
    forall i | 0 <= i < |ls|
      ensures (ls + [""])[i] == ls[i]
    {
    }
  }

  lemma NameIsInk(k: Key)
    ensures Name(k) != "" && IsInk(Name(k)[0]) && IsInk(Name(k)[|Name(k)| - 1])
    ensures ':' !in Name(k)
  {
  }

  lemma FieldNotBlank(key: string, text: string)
    requires key != "" && IsInk(key[0])
    ensures !IsBlank(Field(key, text))
  {
    var line := Field(key, text);
    assert line[0] == key[0] && line[0] in line;
    InkIsNotBlank(line, key[0]);
  }

  /** A field line with a name of its own is quiet. */
  lemma FieldIsQuiet(key: string, rest: string)
    requires key != "" && IsInk(key[0]) && IsInk(key[|key| - 1]) && ':' !in key && !ControlName(key)
    ensures Quiet(key + ":" + rest)
  {
    var line := key + ":" + rest;
    assert line[0] == key[0] && line[0] in line;
    InkIsNotBlank(line, line[0]);
    IndexAfter(key, rest, ':');
    assert line[..|key|] == key;
    InkIsTrimmed(key);
    TrimSpaceKeepsTrimmed(key);
  }

  lemma FileNamesDiffer(k: Key)
    ensures Name(k) != "Filename" && Name(k) != "Size" && Name(k) != "SHA256" && Name(k) != "Checksums-Sha256"
  {
    assert "Filename"[0] == 'F' && |"Size"| == 4 && |"SHA256"| == 6 && "SHA256"[0] == 'S' && |"Checksums-Sha256"| == 16;
  }

  lemma FileNamesAreOthers()
    ensures !ControlName("Filename") && !ControlName("Size") && !ControlName("SHA256") && !ControlName("Checksums-Sha256")
  {
    forall k
      ensures Name(k) != "Filename" && Name(k) != "Size" && Name(k) != "SHA256" && Name(k) != "Checksums-Sha256"
    {
      FileNamesDiffer(k);
    }
  }

  // ---------------------------------------------------------------- no line of a stanza is blank

  lemma {:induction false} PairsLinesNotBlank(ps: seq<Pair>)
    requires forall i :: 0 <= i < |ps| ==> FieldValue(ps[i].value)
    ensures NoBlank(PairsLines(ps))
    decreases |ps|
  {
    if ps != [] {
      PairsLinesNotBlank(ps[1..]);
      NameIsInk(ps[0].key);
      FieldNotBlank(Name(ps[0].key), Lines(ps[0].value)[0]);
    }
  }

  lemma {:induction false} PairsAreValues(d: DebInfo, keys: seq<Key>)
    requires forall k :: FieldValue(Value(d, k))
    ensures forall i :: 0 <= i < |Pairs(d, keys)| ==> FieldValue(Pairs(d, keys)[i].value)
    decreases |keys|
  {
    if keys != [] {
      PairsAreValues(d, keys[1..]);
    }
  }

  /** Every field is a trimmed first line and folded lines, the shape that the parser gives. */
  ghost predicate HasFieldValues(d: DebInfo) {
    forall k :: FieldValue(Value(d, k))
  }

  lemma ParsedHasFieldValues(text: string)
    ensures HasFieldValues(ParseControl(text))
  {
    forall k
      ensures FieldValue(Value(ParseControl(text), k))
    {
      ParsedInfoValues(text, k);
    }
  }

  lemma StanzaNotBlank(e: Entry)
    requires HasFieldValues(e.info) && NoBlank(FileLines(e))
    ensures StanzaLines(e) != [] && NoBlank(StanzaLines(e))
  {
    PairsAreValues(e.info, CANONICAL_ORDER);
    PairsLinesNotBlank(Pairs(e.info, CANONICAL_ORDER));
  }

  lemma OneMoreStanza(stanza: seq<string>, rest: seq<string>)
    requires stanza != [] && NoBlank(stanza)
    ensures Groups(stanza + [""] + rest, []) == [stanza] + Groups(rest, [])
  {
    GroupsSplit(stanza, "", rest, []);
    OneGroup(stanza, []);
    assert [] + stanza == stanza;
  }

  lemma {:induction false} GroupsAreStanzas(es: seq<Entry>)
    requires forall i :: 0 <= i < |es| ==> HasFieldValues(es[i].info) && NoBlank(FileLines(es[i]))
    ensures |Groups(AllLines(es), [])| == |es|
    ensures forall i :: 0 <= i < |es| ==> Groups(AllLines(es), [])[i] == StanzaLines(es[i])
    decreases |es|
  {
    if es != [] {
      StanzaNotBlank(es[0]);
      OneMoreStanza(StanzaLines(es[0]), AllLines(es[1..]));
      GroupsAreStanzas(es[1..]);
    } else {
      assert Groups([""], []) == [] + Groups([""][1..], []);
    }
  }

  lemma FirstFileLine(e: Entry)
    ensures FileLines(e) != [] && FileLines(e)[0] == Field("Filename", Lines(e.filename)[0]) && HasInk(FileLines(e))
  {
    FieldLines("Filename", e.filename);
    FieldNotBlank("Filename", Lines(e.filename)[0]);
    assert !IsBlank(FileLines(e)[0]);
  }

  lemma StanzaHasInk(e: Entry)
    ensures HasInk(StanzaLines(e))
  {
    FirstFileLine(e);
    var ps := PairsLines(Pairs(e.info, CANONICAL_ORDER));
    assert StanzaLines(e)[|ps|] == FileLines(e)[0];
    FieldNotBlank("Filename", Lines(e.filename)[0]);
  }

  /** Every entry makes at least one group, so one entry that makes two makes one too many. */
  lemma {:induction false} TooManyGroups(es: seq<Entry>, i: int)
    requires 0 <= i < |es| ==> |Groups(StanzaLines(es[i]), [])| >= 2
    ensures |Groups(AllLines(es), [])| >= |es| + if 0 <= i < |es| then 1 else 0
    decreases |es|
  {
    if es != [] {
      GroupsSplit(StanzaLines(es[0]), "", AllLines(es[1..]), []);
      StanzaHasInk(es[0]);
      SomeGroup(StanzaLines(es[0]), []);
      TooManyGroups(es[1..], i - 1);
    }
  }

  // ---------------------------------------------------------------- where a blank line can be

  /** The part of a path after its last slash. */
  predicate AfterLastSlash(path: string, dir: string, base: string) {
    path == dir + base && '/' !in base && (dir != "" ==> dir[|dir| - 1] == '/')
  }

  lemma {:induction false} BaseNameReads(path: string) returns (dir: string)
    ensures AfterLastSlash(path, dir, BaseName(path))
    decreases |path|
  {
    if path == "" || path[|path| - 1] == '/' {
      dir := path;
    } else {
      dir := BaseNameReads(path[..|path| - 1]);
      assert path == path[..|path| - 1] + [path[|path| - 1]];
    }
  }

  /** The lines of a base name after its first are lines of the path after its first. */
  lemma BaseNameLines(path: string, line: string)
    requires line in Lines(BaseName(path))[1..]
    ensures line in Lines(path)[1..]
  {
    var dir := BaseNameReads(path);
    LinesConcat(dir, BaseName(path));
    GluedTail(Lines(dir), Lines(BaseName(path)), line);
  }

  lemma GluedTail(la: seq<string>, lb: seq<string>, line: string)
    requires |la| >= 1 && |lb| >= 1 && line in lb[1..]
    ensures line in Glued(la, lb)[1..]
  {
    var i :| 0 <= i < |lb[1..]| && lb[1..][i] == line;
    assert Glued(la, lb)[1..][|la| - 1 + i] == line;
  }

  /** The middle of the checksum line. */
  function SumMiddle(e: Entry): string {
    " " + DecimalInt(e.size) + " "
  }

  /** The checksum line as printed: lines of the checksum, one with the size on it, the other lines of the base name. */
  lemma SumLineLines(e: Entry) returns (sum: seq<string>, mid: string)
    ensures Lines(SumLine(e)) == sum + ([mid] + Lines(BaseName(e.filename))[1..]) && !IsBlank(mid)
    ensures Lines(" " + e.sha256) == sum + [SumEnd(e)] && mid == SumEnd(e) + (SumMiddle(e) + Lines(BaseName(e.filename))[0])
  {
    var la, base := Lines(" " + e.sha256), Lines(BaseName(e.filename));
    DecimalIsOneLine(e.size);
    LinesPrefix(SumMiddle(e), BaseName(e.filename));
    SumLineShape(e.sha256, DecimalInt(e.size), BaseName(e.filename));
    LinesConcat(" " + e.sha256, SumMiddle(e) + BaseName(e.filename));
    sum := la[..|la| - 1];
    mid := SumEnd(e) + (SumMiddle(e) + base[0]);
    SizeNotBlank(e, SumEnd(e), base[0]);
    GluedShape(la, SumMiddle(e) + base[0], base[1..]);
  }

  /** The last line of the checksum, as the checksum line begins. */
  function SumEnd(e: Entry): string {
    Lines(" " + e.sha256)[|Lines(" " + e.sha256)| - 1]
  }

  lemma GluedShape(la: seq<string>, first: string, more: seq<string>)
    requires |la| >= 1
    ensures Glued(la, [first] + more) == la[..|la| - 1] + ([la[|la| - 1] + first] + more)
    ensures la == la[..|la| - 1] + [la[|la| - 1]]
  {
    assert ([first] + more)[0] == first && ([first] + more)[1..] == more;
  }

  lemma SumLineShape(sum: string, size: string, base: string)
    ensures " " + sum + " " + size + " " + base == (" " + sum) + ((" " + size + " ") + base)
  {
  }

  lemma SizeNotBlank(e: Entry, a: string, b: string)
    ensures !IsBlank(a + (SumMiddle(e) + b))
  {
    var d := DecimalInt(e.size);
    assert d != "" && IsInk(d[0]);
    var line := a + (SumMiddle(e) + b);
    assert line[|a| + 1] == d[0];
    InkIsNotBlank(line, d[0]);
  }

  /** Wherever a blank line is among the file lines, it cuts the stanza in two. */
  lemma BlankCutsStanza(e: Entry, line: string)
    requires line in FileLines(e) && IsBlank(line)
    ensures |Groups(StanzaLines(e), [])| >= 2
  {
    var name, size := Lines(Field("Filename", e.filename)), Field("Size", DecimalInt(e.size));
    FieldNotBlank("Size", DecimalInt(e.size));
    if line in name {
      BlankInName(e, line);
    } else {
      assert line in SumsLines(e);
      BlankInSums(e, line);
    }
  }

  lemma BlankInName(e: Entry, line: string)
    requires line in Lines(Field("Filename", e.filename)) && IsBlank(line)
    ensures |Groups(StanzaLines(e), [])| >= 2
  {
    var ps := PairsLines(Pairs(e.info, CANONICAL_ORDER));
    var f, tail := Field("Filename", Lines(e.filename)[0]), Lines(e.filename)[1..];
    var z := Field("Size", DecimalInt(e.size));
    FieldLines("Filename", e.filename);
    FieldNotBlank("Filename", Lines(e.filename)[0]);
    FieldNotBlank("Size", DecimalInt(e.size));
    BlankSplits(ps, f, tail, z, SumsLines(e), line);
    NameShape(ps, f, tail, [z] + SumsLines(e));
  }

  lemma NameShape<T>(ps: seq<T>, f: T, tail: seq<T>, rest: seq<T>)
    ensures ps + (([f] + tail) + rest) == (ps + [f]) + tail + rest
  {
  }

  lemma BlankInSums(e: Entry, line: string)
    requires line in SumsLines(e) && IsBlank(line)
    ensures |Groups(StanzaLines(e), [])| >= 2
  {
    var ps, name := PairsLines(Pairs(e.info, CANONICAL_ORDER)), Lines(Field("Filename", e.filename));
    var z, sums, check := Field("Size", DecimalInt(e.size)), Lines(Field("SHA256", e.sha256)), "Checksums-Sha256:";
    assert check[0] == 'C';
    InkIsNotBlank(check, 'C');
    if line in sums {
      FieldNotBlank("Size", DecimalInt(e.size));
      BlankSplits(ps + name, z, sums, check, Lines(SumLine(e)), line);
      SumsPlace(ps, name, z, sums, [check] + Lines(SumLine(e)));
    } else {
      BlankInSumLine(e, line);
    }
  }

  lemma SumsPlace<T>(ps: seq<T>, name: seq<T>, z: T, sums: seq<T>, rest: seq<T>)
    ensures ps + (name + ([z] + (sums + rest))) == ((ps + name) + [z]) + sums + rest
  {
  }

  lemma BlankInSumLine(e: Entry, line: string)
    requires e.sha256 != "" && line in Lines(SumLine(e)) && IsBlank(line)
    ensures |Groups(StanzaLines(e), [])| >= 2
  {
    var sum, mid := SumLineLines(e);
    if line in sum {
      BlankBeforeSize(e, sum, mid, Lines(BaseName(e.filename))[1..], line);
    } else {
      BaseNameLines(e.filename, line);
      FieldLines("Filename", e.filename);
      BlankInName(e, line);
    }
  }

  lemma BlankBeforeSize(e: Entry, sum: seq<string>, mid: string, base: seq<string>, line: string)
    requires e.sha256 != "" && Lines(SumLine(e)) == sum + ([mid] + base) && !IsBlank(mid) && line in sum && IsBlank(line)
    ensures |Groups(StanzaLines(e), [])| >= 2
  {
    var ps, name := PairsLines(Pairs(e.info, CANONICAL_ORDER)), Lines(Field("Filename", e.filename));
    var z, sums, check := Field("Size", DecimalInt(e.size)), Lines(Field("SHA256", e.sha256)), "Checksums-Sha256:";
    assert check[0] == 'C';
    InkIsNotBlank(check, 'C');
    BlankSplits(ps + (name + ([z] + sums)), check, sum, mid, base, line);
    SizePlace(ps, name, z, sums, check, sum, [mid] + base);
  }

  lemma SizePlace<T>(ps: seq<T>, name: seq<T>, z: T, sums: seq<T>, check: T, sum: seq<T>, rest: seq<T>)
    ensures ps + (name + ([z] + (sums + ([check] + (sum + rest))))) == ((ps + (name + ([z] + sums))) + [check]) + sum + rest
  {
  }

  // ---------------------------------------------------------------- parsing a stanza again

  /** A line "key: text" sets that field. */
  lemma FieldLine(key: string, text: string, rest: seq<string>, out: Fields, lastKey: string)
    requires key != "" && IsInk(key[0]) && IsInk(key[|key| - 1]) && ':' !in key
    ensures ParseFrom([key + ":" + text] + rest, out, lastKey) == ParseFrom(rest, out[key := TrimSpace(text)], key)
  {
    var raw := key + ":" + text;
    assert raw[0] == key[0] && raw[0] in raw;
    InkIsNotBlank(raw, raw[0]);
    IndexAfter(key, text, ':');
    assert raw[..|key|] == key && raw[|key| + 1..] == text;
    InkIsTrimmed(key);
    TrimSpaceKeepsTrimmed(key);
    assert ReadLine(raw, out, lastKey) == Progress(out[key := TrimSpace(text)], key, false);
    assert ([raw] + rest)[1..] == rest;
  }

  lemma FieldParses(key: string, text: string, rest: seq<string>, out: Fields, lastKey: string)
    requires key != "" && IsInk(key[0]) && IsInk(key[|key| - 1]) && ':' !in key
    ensures ParseFrom([Field(key, text)] + rest, out, lastKey) == ParseFrom(rest, out[key := TrimSpace(" " + text)], key)
  {
    assert Field(key, text) == key + ":" + (" " + text);
    FieldLine(key, " " + text, rest, out, lastKey);
  }

  lemma JoinFold(v: string, c: string, cs: seq<string>)
    ensures JoinLines([v] + ([c] + cs)) == JoinLines([v + "\n" + c] + cs)
  {
    assert ([v] + ([c] + cs))[1..] == [c] + cs;
    assert ([v + "\n" + c] + cs)[1..] == cs;
    if cs != [] {
      assert ([c] + cs)[1..] == cs;
      assert v + "\n" + (c + "\n" + JoinLines(cs)) == v + "\n" + c + "\n" + JoinLines(cs);
    }
  }

  /** Folded lines are appended to the field they follow. */
  lemma {:induction false} FoldedLines(cs: seq<string>, rest: seq<string>, out: Fields, key: string, v: string)
    requires key != "" && forall i :: 0 <= i < |cs| ==> Folded(cs[i])
    ensures ParseFrom(cs + rest, out[key := v], key) == ParseFrom(rest, out[key := JoinLines([v] + cs)], key)
    decreases |cs|
  {
    if cs == [] {
      assert cs + rest == rest && [v] + cs == [v];
    } else {
      var c, cs' := cs[0], cs[1..];
      assert (cs + rest)[0] == c && (cs + rest)[1..] == cs' + rest;
      assert out[key := v][key := v + "\n" + c] == out[key := v + "\n" + c];
      FoldedLines(cs', rest, out, key, v + "\n" + c);
      JoinFold(v, c, cs');
      assert cs == [c] + cs';
    }
  }

  predicate FoldedTail(v: string) {
    forall i :: 1 <= i < |Lines(v)| ==> Folded(Lines(v)[i])
  }

  /** The value a field gets back: its first line trimmed, its folded lines as they are. */
  function Trimming(v: string): string {
    JoinLines([TrimSpace(" " + Lines(v)[0])] + Lines(v)[1..])
  }

  lemma FieldLinesParse(key: string, v: string, rest: seq<string>, out: Fields, lastKey: string)
    requires key != "" && IsInk(key[0]) && IsInk(key[|key| - 1]) && ':' !in key && FoldedTail(v)
    ensures ParseFrom([Field(key, Lines(v)[0])] + Lines(v)[1..] + rest, out, lastKey) == ParseFrom(rest, out[key := Trimming(v)], key)
  {
    var first, cs := Lines(v)[0], Lines(v)[1..];
    Associative([Field(key, first)], cs, rest);
    FieldParses(key, first, cs + rest, out, lastKey);
    FoldedLines(cs, rest, out, key, TrimSpace(" " + first));
  }

  lemma PairParsesBack(p: Pair, rest: seq<string>, out: Fields, lastKey: string)
    requires FieldValue(p.value)
    ensures ParseFrom(PairLines(p) + rest, out, lastKey) == ParseFrom(rest, out[Name(p.key) := p.value], Name(p.key))
  {
    var ls := Lines(p.value);
    NameIsInk(p.key);
    FieldLinesParse(Name(p.key), p.value, rest, out, lastKey);
    TrimSpaceKeepsTrimmed(ls[0]);
    assert [ls[0]] + ls[1..] == ls;
    JoinOfLines(p.value);
  }

  function Store(out: Fields, ps: seq<Pair>): Fields
    decreases |ps|
  {
    if ps == [] then out else Store(out[Name(ps[0].key) := ps[0].value], ps[1..])
  }

  lemma {:induction false} PairsParseBack(ps: seq<Pair>, rest: seq<string>, out: Fields, lastKey: string) returns (lastKey': string)
    requires forall i :: 0 <= i < |ps| ==> FieldValue(ps[i].value)
    ensures ParseFrom(PairsLines(ps) + rest, out, lastKey) == ParseFrom(rest, Store(out, ps), lastKey')
    decreases |ps|
  {
    if ps == [] {
      assert PairsLines(ps) + rest == rest;
      lastKey' := lastKey;
    } else {
      Associative(PairLines(ps[0]), PairsLines(ps[1..]), rest);
      PairParsesBack(ps[0], PairsLines(ps[1..]) + rest, out, lastKey);
      lastKey' := PairsParseBack(ps[1..], rest, out[Name(ps[0].key) := ps[0].value], Name(ps[0].key));
    }
  }

  /** Length and letters tell the field names apart. */
  lemma NamesDiffer(a: Key, b: Key)
    requires Name(a) == Name(b)
    ensures a == b
  {
    assert Name(a)[0] == Name(b)[0] && Name(a)[2] == Name(b)[2] && |Name(a)| == |Name(b)|;
  }

  lemma {:induction false} StoredValue(d: DebInfo, keys: seq<Key>, out: Fields, k: Key)
    requires k in keys || Lookup(out, Name(k)) == Value(d, k)
    requires Value(d, k) == "" ==> Lookup(out, Name(k)) == ""
    ensures Lookup(Store(out, Pairs(d, keys)), Name(k)) == Value(d, k)
    decreases |keys|
  {
    if keys != [] {
      var ps := Pairs(d, keys);
      var j := keys[0];
      if Name(j) == Name(k) {
        NamesDiffer(j, k);
      }
      if Value(d, j) == "" {
        assert ps == Pairs(d, keys[1..]);
        StoredValue(d, keys[1..], out, k);
      } else {
        assert ps[0] == Pair(j, Value(d, j)) && ps[1..] == Pairs(d, keys[1..]);
        StoredValue(d, keys[1..], out[Name(j) := Value(d, j)], k);
      }
    }
  }

  /** Quiet lines after a field of their own leave the 17 fields alone. */
  lemma {:induction false} QuietLinesKeep(ls: seq<string>, out: Fields, lastKey: string, k: Key)
    requires AllQuiet(ls) && !ControlName(lastKey)
    ensures Lookup(ParseFrom(ls, out, lastKey), Name(k)) == Lookup(out, Name(k))
    decreases |ls|
  {
    if ls != [] {
      assert Quiet(ls[0]);
      var p := ReadLine(ls[0], out, lastKey);
      assert !p.done && !ControlName(p.lastKey) && Lookup(p.out, Name(k)) == Lookup(out, Name(k));
      QuietLinesKeep(ls[1..], p.out, p.lastKey, k);
    }
  }

  lemma NameLineKeeps(f: string, rest: seq<string>, out: Fields, lastKey: string, k: Key)
    requires AllQuiet(rest)
    ensures Lookup(ParseFrom([Field("Filename", f)] + rest, out, lastKey), Name(k)) == Lookup(out, Name(k))
  {
    FileNamesAreOthers();
    FileNamesDiffer(k);
    FieldParses("Filename", f, rest, out, lastKey);
    QuietLinesKeep(rest, out["Filename" := TrimSpace(" " + f)], "Filename", k);
  }

  lemma FileLinesKeep(e: Entry, out: Fields, lastKey: string, k: Key)
    requires AllQuiet(FileLines(e))
    ensures Lookup(ParseFrom(FileLines(e), out, lastKey), Name(k)) == Lookup(out, Name(k))
  {
    var f, rest := Lines(e.filename)[0], FileLines(e)[1..];
    FirstFileLine(e);
    assert FileLines(e) == [Field("Filename", f)] + rest;
    NameLineKeeps(f, rest, out, lastKey, k);
  }

  /** What follows the control fields is parsed from them and some last field. */
  lemma StanzaParse(e: Entry) returns (last: string)
    requires HasFieldValues(e.info)
    ensures ParseFrom(StanzaLines(e), map[], "") == ParseFrom(FileLines(e), Store(map[], Pairs(e.info, CANONICAL_ORDER)), last)
  {
    PairsAreValues(e.info, CANONICAL_ORDER);
    last := PairsParseBack(Pairs(e.info, CANONICAL_ORDER), FileLines(e), map[], "");
  }

  lemma StanzaParsesBack(e: Entry)
    requires HasFieldValues(e.info) && Printable(e)
    ensures FromFields(ParseFrom(StanzaLines(e), map[], "")) == e.info
  {
    PrintableLines(e);
    var last := StanzaParse(e);
    var stored := Store(map[], Pairs(e.info, CANONICAL_ORDER));
    var parsed := ParseFrom(StanzaLines(e), map[], "");
    forall k
      ensures Value(FromFields(parsed), k) == Value(e.info, k)
    {
      FileLinesKeep(e, stored, last, k);
      AllKeysListed(k);
      StoredValue(e.info, CANONICAL_ORDER, map[], k);
      FromFieldsValue(parsed, k);
    }
    SameValuesSameInfo(FromFields(parsed), e.info);
  }

  // ---------------------------------------------------------------- a line that sets a control field

  /** Once two parses agree on a field and on the last field read, they agree on it for good. */
  lemma {:induction false} ParsesAgree(ls: seq<string>, out: Fields, out': Fields, lastKey: string, name: string)
    requires Lookup(out, name) == Lookup(out', name)
    ensures Lookup(ParseFrom(ls, out, lastKey), name) == Lookup(ParseFrom(ls, out', lastKey), name)
    decreases |ls|
  {
    if ls != [] {
      var p, p' := ReadLine(ls[0], out, lastKey), ReadLine(ls[0], out', lastKey);
      if !p.done {
        ParsesAgree(ls[1..], p.out, p'.out, p.lastKey, name);
      }
    }
  }

  predicate SetsField(line: string, name: string) {
    && !IsBlank(line) && line[0] != ' ' && line[0] != '\t'
    && IndexOf(line, ':').Some? && TrimSpace(line[..IndexOf(line, ':').value]) == name
  }

  /** After a line that sets a field, its value no longer depends on what was read before. */
  lemma {:induction false} EarlierValueForgotten(ls: seq<string>, i: nat, out: Fields, out': Fields, lastKey: string, lastKey': string, name: string)
    requires NoBlank(ls) && i < |ls| && SetsField(ls[i], name)
    ensures Lookup(ParseFrom(ls, out, lastKey), name) == Lookup(ParseFrom(ls, out', lastKey'), name)
    decreases |ls|
  {
    var p, p' := ReadLine(ls[0], out, lastKey), ReadLine(ls[0], out', lastKey');
    assert !IsBlank(ls[0]);
    if i == 0 {
      ParsesAgree(ls[1..], p.out, p'.out, name, name);
    } else {
      EarlierValueForgotten(ls[1..], i - 1, p.out, p'.out, p.lastKey, p'.lastKey, name);
    }
  }

  lemma NotQuietSets(line: string) returns (k: Key)
    requires !IsBlank(line) && !Quiet(line)
    ensures SetsField(line, Name(k))
  {
    var i := IndexOf(line, ':').value;
    k :| Name(k) == TrimSpace(line[..i]);
  }

  /** A control text with one field. */
  lemma OneFieldText(k: Key, v: string)
    requires OneLine(v) && Trimmed(v)
    ensures Value(ParseControl(Field(Name(k), v)), k) == v
  {
    var text := Field(Name(k), v);
    NamesAreOneLine(k);
    OneLineLines(text);
    NameIsInk(k);
    FieldParses(Name(k), v, [], map[], "");
    assert [text] + [] == [text];
    TrimSpaceKeepsTrimmed(v);
    FromFieldsValue(Parse(text), k);
  }

  // ---------------------------------------------------------------- the theorem

  /** A text cut at blank lines, each stanza as text. */
  function Stanzas(text: string): seq<string> {
    var gs := Groups(Lines(text), []);
    seq(|gs|, i requires 0 <= i < |gs| => if gs[i] == [] then "" else JoinLines(gs[i]))
  }

  /** The printed index splits into one stanza per entry, in order, each giving back all 17 fields. */
  ghost predicate ReadsBack(es: seq<Entry>) {
    var stanzas := Stanzas(PackagesText(es));
    |stanzas| == |es| && forall i :: 0 <= i < |es| ==> ParseControl(stanzas[i]) == es[i].info
  }

  /** The entries with control data parsed from `texts`. */
  function Described(es: seq<Entry>, texts: seq<string>): seq<Entry>
    requires |texts| == |es|
  {
    seq(|es|, i requires 0 <= i < |es| => es[i].(info := ParseControl(texts[i])))
  }

  lemma {:induction false} PairsLinesAreOneLine(ps: seq<Pair>)
    ensures forall i :: 0 <= i < |PairsLines(ps)| ==> OneLine(PairsLines(ps)[i])
    decreases |ps|
  {
    if ps != [] {
      PairsLinesAreOneLine(ps[1..]);
      NamesAreOneLine(ps[0].key);
      LinesAreLines(ps[0].value);
    }
  }

  lemma FileLinesAreOneLine(e: Entry)
    ensures forall i :: 0 <= i < |FileLines(e)| ==> OneLine(FileLines(e)[i])
  {
    FileTextLines(e, "");
    assert FileText(e) + "" == FileText(e);
    LinesAreLines(FileText(e));
    var ls := Lines(FileText(e));
    forall i | 0 <= i < |FileLines(e)|
      ensures OneLine(FileLines(e)[i])
    {
      assert ls[i] == FileLines(e)[i];
    }
  }

  /** With no blank line inside, stanza i is the lines of entry i. */
  lemma StanzaIs(es: seq<Entry>, i: nat)
    requires i < |es| && forall j :: 0 <= j < |es| ==> HasFieldValues(es[j].info) && NoBlank(FileLines(es[j]))
    ensures |Stanzas(PackagesText(es))| == |es|
    ensures Parse(Stanzas(PackagesText(es))[i]) == ParseFrom(StanzaLines(es[i]), map[], "")
  {
    PackagesLines(es);
    GroupsAreStanzas(es);
    StanzaNotBlank(es[i]);
    PairsLinesAreOneLine(Pairs(es[i].info, CANONICAL_ORDER));
    FileLinesAreOneLine(es[i]);
    LinesOfJoin(StanzaLines(es[i]));
  }

  lemma PrintableReadsBack(es: seq<Entry>)
    requires forall i :: 0 <= i < |es| ==> HasFieldValues(es[i].info) && Printable(es[i])
    ensures ReadsBack(es)
  {
    forall i | 0 <= i < |es|
      ensures NoBlank(FileLines(es[i]))
    {
      PrintableLines(es[i]);
      assert AllQuiet(FileLines(es[i]));
    }
    PackagesLines(es);
    GroupsAreStanzas(es);
    forall i | 0 <= i < |es|
      ensures ParseControl(Stanzas(PackagesText(es))[i]) == es[i].info
    {
      StanzaIs(es, i);
      StanzaParsesBack(es[i]);
    }
  }

  lemma BlankNeverReadsBack(es: seq<Entry>, i: nat, line: string)
    requires i < |es| && line in FileLines(es[i]) && IsBlank(line)
    ensures !ReadsBack(es)
  {
    BlankCutsStanza(es[i], line);
    TooManyGroups(es, i);
    PackagesLines(es);
  }

  lemma DescribedEntry(es: seq<Entry>, texts: seq<string>, n: nat)
    requires |texts| == |es| && n < |es|
    ensures var d := Described(es, texts)[n];
            d.info == ParseControl(texts[n]) && HasFieldValues(d.info) && FileLines(d) == FileLines(es[n])
  {
    ParsedHasFieldValues(texts[n]);
  }

  /** A field that comes back is read from the file lines, after whatever came before them. */
  lemma FieldComesBack(es: seq<Entry>, texts: seq<string>, i: nat, k: Key) returns (out: Fields, last: string)
    requires |texts| == |es| && i < |es| && (forall n :: 0 <= n < |es| ==> NoBlank(FileLines(es[n])))
    ensures ReadsBack(Described(es, texts)) ==>
              Lookup(ParseFrom(FileLines(es[i]), out, last), Name(k)) == Value(ParseControl(texts[i]), k)
  {
    var ds := Described(es, texts);
    forall n | 0 <= n < |es|
      ensures HasFieldValues(ds[n].info) && NoBlank(FileLines(ds[n]))
    {
      DescribedEntry(es, texts, n);
    }
    StanzaIs(ds, i);
    DescribedEntry(es, texts, i);
    last := StanzaParse(ds[i]);
    out := Store(map[], Pairs(ds[i].info, CANONICAL_ORDER));
    FromFieldsValue(Parse(Stanzas(PackagesText(ds))[i]), k);
  }

  /** Control texts that are empty but for one field of entry i. */
  function WithField(es: seq<Entry>, i: nat, k: Key, v: string): seq<string> {
    seq(|es|, n => if n == i then Field(Name(k), v) else "")
  }

  lemma SetFieldNeverReadsBack(es: seq<Entry>, i: nat, j: nat, k: Key, v: string, v': string)
    requires i < |es| && (forall n :: 0 <= n < |es| ==> NoBlank(FileLines(es[n])))
    requires j < |FileLines(es[i])| && SetsField(FileLines(es[i])[j], Name(k))
    requires OneLine(v) && Trimmed(v) && OneLine(v') && Trimmed(v') && v != v'
    ensures !ReadsBack(Described(es, WithField(es, i, k, v))) || !ReadsBack(Described(es, WithField(es, i, k, v')))
  {
    if ReadsBack(Described(es, WithField(es, i, k, v))) && ReadsBack(Described(es, WithField(es, i, k, v'))) {
      var out, last := FieldComesBack(es, WithField(es, i, k, v), i, k);
      var out', last' := FieldComesBack(es, WithField(es, i, k, v'), i, k);
      OneFieldText(k, v);
      OneFieldText(k, v');
      EarlierValueForgotten(FileLines(es[i]), j, out, out', last, last', Name(k));
    }
  }

  lemma LoudFails(es: seq<Entry>, i: nat) returns (texts: seq<string>)
    requires i < |es| && !Printable(es[i]) && (forall n :: 0 <= n < |es| ==> NoBlank(FileLines(es[n])))
    ensures |texts| == |es| && !ReadsBack(Described(es, texts))
  {
    PrintableLines(es[i]);
    var j :| 0 <= j < |FileLines(es[i])| && !Quiet(FileLines(es[i])[j]);
    var k := NotQuietSets(FileLines(es[i])[j]);
    assert "a"[0] != "b"[0];
    SetFieldNeverReadsBack(es, i, j, k, "a", "b");
    texts := WithField(es, i, k, if ReadsBack(Described(es, WithField(es, i, k, "a"))) then "b" else "a");
  }

  lemma BlankFails(es: seq<Entry>, n: nat, line: string) returns (texts: seq<string>)
    requires n < |es| && line in FileLines(es[n]) && IsBlank(line)
    ensures |texts| == |es| && !ReadsBack(Described(es, texts))
  {
    texts := seq(|es|, _ => "");
    DescribedEntry(es, texts, n);
    BlankNeverReadsBack(Described(es, texts), n, line);
  }

  /** Some control data does not come back if an entry is not printable. */
  lemma UnprintableFails(es: seq<Entry>, i: nat) returns (texts: seq<string>)
    requires i < |es| && !Printable(es[i])
    ensures |texts| == |es| && !ReadsBack(Described(es, texts))
  {
    if n, j :| 0 <= n < |es| && 0 <= j < |FileLines(es[n])| && IsBlank(FileLines(es[n])[j]) {
      texts := BlankFails(es, n, FileLines(es[n])[j]);
    } else {
      texts := LoudFails(es, i);
    }
  }

  /**
    Packages round trip, exactly.  Whatever control data the parser produced for them, the entries
    come back from the printed index, one stanza per entry, in order, with all 17 control fields,
    folded lines included, if and only if every line printed about their files is quiet.
   */
  lemma PackagesRoundTrip(es: seq<Entry>)
    ensures (forall texts: seq<string> :: |texts| == |es| ==> ReadsBack(Described(es, texts)))
       <==> (forall i :: 0 <= i < |es| ==> Printable(es[i]))
  {
    if forall i :: 0 <= i < |es| ==> Printable(es[i]) {
      forall texts: seq<string> | |texts| == |es|
        ensures ReadsBack(Described(es, texts))
      {
        var ds := Described(es, texts);
        forall i | 0 <= i < |ds|
          ensures HasFieldValues(ds[i].info) && Printable(ds[i])
        {
          ParsedHasFieldValues(texts[i]);
          assert FileText(ds[i]) == FileText(es[i]);
        }
        PrintableReadsBack(ds);
      }
    } else {
      var i :| 0 <= i < |es| && !Printable(es[i]);
      var texts := UnprintableFails(es, i);
    }
  }

  // ---------------------------------------------------------------- the file name and the checksum

  lemma SumLineFolds(e: Entry)
    requires FoldedTail(e.filename) && OneLine(e.sha256)
    ensures forall i :: 0 <= i < |Lines(SumLine(e))| ==> Folded(Lines(SumLine(e))[i])
  {
    var sum, mid := SumLineLines(e);
    var base := Lines(BaseName(e.filename))[1..];
    OneLineLines(" " + e.sha256);
    assert |sum + [SumEnd(e)]| == 1 && SumEnd(e) == (sum + [SumEnd(e)])[0];
    assert mid[0] == ' ';
    forall i | 0 <= i < |base|
      ensures Folded(base[i])
    {
      BaseNameLines(e.filename, base[i]);
    }
    assert Lines(SumLine(e)) == [mid] + base;
  }

  lemma SumParses(sum: string, text: string, out: Fields)
    requires forall i :: 0 <= i < |Lines(text)| ==> Folded(Lines(text)[i])
    ensures ParseFrom([Field("SHA256", sum)] + (["Checksums-Sha256:"] + Lines(text)), out, "Size")
         == out["SHA256" := TrimSpace(" " + sum)]["Checksums-Sha256" := "\n" + text]
  {
    FieldParses("SHA256", sum, ["Checksums-Sha256:"] + Lines(text), out, "Size");
    ChecksumsParse(text, out["SHA256" := TrimSpace(" " + sum)], "SHA256");
  }

  lemma SumsParse(e: Entry, out: Fields)
    requires FoldedTail(e.filename) && OneLine(e.sha256)
    ensures ParseFrom(SumsLines(e), out, "Size")
         == if e.sha256 == "" then out else out["SHA256" := TrimSpace(" " + e.sha256)]["Checksums-Sha256" := "\n" + SumLine(e)]
  {
    if e.sha256 != "" {
      OneLineLines(Field("SHA256", e.sha256));
      SumLineFolds(e);
      SumParses(e.sha256, SumLine(e), out);
    }
  }

  lemma ChecksumsParse(text: string, out: Fields, lastKey: string)
    requires forall i :: 0 <= i < |Lines(text)| ==> Folded(Lines(text)[i])
    ensures ParseFrom(["Checksums-Sha256:"] + Lines(text), out, lastKey) == out["Checksums-Sha256" := "\n" + text]
  {
    var sum := Lines(text);
    assert "Checksums-Sha256:" == "Checksums-Sha256" + ":" + "";
    FieldLine("Checksums-Sha256", "", sum, out, lastKey);
    FoldedLines(sum, [], out, "Checksums-Sha256", "");
    assert sum + [] == sum;
    JoinBelow(text);
  }

  lemma JoinBelow(text: string)
    ensures JoinLines([""] + Lines(text)) == "\n" + text
  {
    JoinOfLines(text);
    assert ([""] + Lines(text))[1..] == Lines(text);
    assert "" + "\n" + text == "\n" + text;
  }

  lemma FileFieldsParse(e: Entry, out: Fields, lastKey: string)
    requires FoldedTail(e.filename) && OneLine(e.sha256)
    ensures var fields := ParseFrom(FileLines(e), out, lastKey);
            && Lookup(fields, "Filename") == Trimming(e.filename) && Lookup(fields, "Size") == DecimalInt(e.size)
            && (e.sha256 != "" ==> Lookup(fields, "SHA256") == TrimSpace(" " + e.sha256)
                                   && Lookup(fields, "Checksums-Sha256") == "\n" + SumLine(e))
  {
    var z := DecimalInt(e.size);
    DecimalTrimmed(e.size);
    NameThenSize(e.filename, z, SumsLines(e), out, lastKey);
    SumsParse(e, out["Filename" := Trimming(e.filename)]["Size" := TrimSpace(" " + z)]);
  }

  lemma NameThenSize(name: string, size: string, rest: seq<string>, out: Fields, lastKey: string)
    requires FoldedTail(name)
    ensures ParseFrom(Lines(Field("Filename", name)) + ([Field("Size", size)] + rest), out, lastKey)
         == ParseFrom(rest, out["Filename" := Trimming(name)]["Size" := TrimSpace(" " + size)], "Size")
  {
    NameParses(name, [Field("Size", size)] + rest, out, lastKey);
    FieldParses("Size", size, rest, out["Filename" := Trimming(name)], "Filename");
  }

  lemma NameParses(name: string, rest: seq<string>, out: Fields, lastKey: string)
    requires FoldedTail(name)
    ensures ParseFrom(Lines(Field("Filename", name)) + rest, out, lastKey) == ParseFrom(rest, out["Filename" := Trimming(name)], "Filename")
  {
    FieldLines("Filename", name);
    FieldLinesParse("Filename", name, rest, out, lastKey);
  }

  lemma DecimalTrimmed(n: int)
    ensures TrimSpace(" " + DecimalInt(n)) == DecimalInt(n)
  {
    var d := DecimalInt(n);
    DecimalEnds(n);
    assert d != "" && IsInk(d[0]) && IsInk(d[|d| - 1]);
    InkIsTrimmed(d);
    TrimSpaceKeepsTrimmed(d);
  }

  lemma TrimmingKeepsTrimmed(v: string)
    requires Trimmed(Lines(v)[0])
    ensures Trimming(v) == v
  {
    TrimSpaceKeepsTrimmed(Lines(v)[0]);
    assert [Lines(v)[0]] + Lines(v)[1..] == Lines(v);
    JoinOfLines(v);
  }

  /** What a stanza says about its file: name, size, checksum, and the three together. */
  ghost predicate SaysFile(fields: Fields, e: Entry, size: string, dir: string, base: string) {
    && Lookup(fields, "Filename") == Trimming(e.filename)
    && (Trimmed(Lines(e.filename)[0]) ==> Lookup(fields, "Filename") == e.filename)
    && Lookup(fields, "Size") == size && Numeral(size, e.size)
    && (e.sha256 != "" ==>
          && Lookup(fields, "SHA256") == TrimSpace(" " + e.sha256)
          && (Trimmed(e.sha256) ==> Lookup(fields, "SHA256") == e.sha256)
          && AfterLastSlash(e.filename, dir, base)
          && Lookup(fields, "Checksums-Sha256") == "\n " + e.sha256 + " " + size + " " + base)
  }

  lemma FileFieldsSay(e: Entry, fields: Fields) returns (size: string, dir: string, base: string)
    requires Lookup(fields, "Filename") == Trimming(e.filename) && Lookup(fields, "Size") == DecimalInt(e.size)
    requires e.sha256 != "" ==> Lookup(fields, "SHA256") == TrimSpace(" " + e.sha256)
                                && Lookup(fields, "Checksums-Sha256") == "\n" + SumLine(e)
    ensures SaysFile(fields, e, size, dir, base)
  {
    size, base := DecimalInt(e.size), BaseName(e.filename);
    dir := BaseNameReads(e.filename);
    DecimalIsNumeral(e.size);
    if Trimmed(Lines(e.filename)[0]) {
      TrimmingKeepsTrimmed(e.filename);
    }
    if Trimmed(e.sha256) {
      TrimSpaceKeepsTrimmed(e.sha256);
    }
    SumShape(e.sha256, size, base);
  }

  lemma SumShape(sum: string, size: string, base: string)
    ensures "\n" + (" " + sum + " " + size + " " + base) == "\n " + sum + " " + size + " " + base
  {
  }

  /**
    What the index says about a file comes back too, for a file name with folded lines or none and a
    checksum on one line: the name, the decimal numeral of the size, the checksum, and the folded line
    of checksum, size and the part of the name after its last slash.
   */
  lemma FileFieldsReadBack(es: seq<Entry>, i: nat) returns (size: string, dir: string, base: string)
    requires i < |es| && (forall n :: 0 <= n < |es| ==> HasFieldValues(es[n].info) && Printable(es[n]))
    requires FoldedTail(es[i].filename) && OneLine(es[i].sha256)
    ensures |Stanzas(PackagesText(es))| == |es|
    ensures SaysFile(Parse(Stanzas(PackagesText(es))[i]), es[i], size, dir, base)
  {
    forall n | 0 <= n < |es|
      ensures NoBlank(FileLines(es[n]))
    {
      PrintableLines(es[n]);
      assert AllQuiet(FileLines(es[n]));
    }
    StanzaIs(es, i);
    var last := StanzaParse(es[i]);
    FileFieldsParse(es[i], Store(map[], Pairs(es[i].info, CANONICAL_ORDER)), last);
    size, dir, base := FileFieldsSay(es[i], Parse(Stanzas(PackagesText(es))[i]));
  }

  /** What is printed, to the byte: "Name: value" for each field, and the lines about the file. */
  lemma PrintedEntry(e: Entry) returns (size: string, dir: string, base: string)
    ensures Numeral(size, e.size) && AfterLastSlash(e.filename, dir, base)
    ensures EntryText(e) == PairsText(Pairs(e.info, CANONICAL_ORDER))
                            + "Filename: " + e.filename + "\nSize: " + size + "\n"
                            + (if e.sha256 == "" then "" else
                                 "SHA256: " + e.sha256 + "\nChecksums-Sha256:\n " + e.sha256 + " " + size + " " + base + "\n")
                            + "\n"
  {
    size, base := DecimalInt(e.size), BaseName(e.filename);
    dir := BaseNameReads(e.filename);
    DecimalIsNumeral(e.size);
    PrintedFile(PairsText(Pairs(e.info, CANONICAL_ORDER)), e.filename, size, SumsText(e));
    if e.sha256 != "" {
      PrintedSums(e.sha256, size, base);
    }
  }

  lemma PrintedFile(pairs: string, name: string, size: string, sums: string)
    ensures pairs + (("Filename" + ": " + name) + "\n" + (("Size" + ": " + size) + "\n" + sums)) + "\n"
         == pairs + "Filename: " + name + "\nSize: " + size + "\n" + sums + "\n"
  {
    assert "Filename" + ": " == "Filename: " && "Size" + ": " == "Size: ";
    assert "\nSize: " == "\n" + "Size: ";
  }

  lemma PrintedSums(sum: string, size: string, base: string)
    ensures ("SHA256" + ": " + sum) + "\n" + ("Checksums-Sha256:" + "\n" + ((" " + sum + " " + size + " " + base) + "\n"))
         == "SHA256: " + sum + "\nChecksums-Sha256:\n " + sum + " " + size + " " + base + "\n"
  {
    assert "SHA256" + ": " == "SHA256: ";
    assert "\nChecksums-Sha256:\n " == "\n" + ("Checksums-Sha256:" + "\n" + " ");
  }

  /** The fields before it, one after the other. */
  lemma PrintedPairs(ps: seq<Pair>)
    ensures ps != [] ==> PairsText(ps) == Name(ps[0].key) + ": " + ps[0].value + "\n" + PairsText(ps[1..])
    ensures ps == [] ==> PairsText(ps) == ""
  {
  }

  // ---------------------------------------------------------------- an index read as one stanza

  /** The field that folded lines would belong to after these lines. */
  function LastKey(ls: seq<string>, lastKey: string): string {
    if ls == [] then lastKey else LastKey(ls[1..], ReadLine(ls[0], map[], lastKey).lastKey)
  }

  lemma LineKey(line: string, out: Fields, lastKey: string)
    ensures ReadLine(line, out, lastKey).lastKey == ReadLine(line, map[], lastKey).lastKey
  {
  }

  /** A stanza ends at the first blank line after a field, whatever follows. */
  lemma {:induction false} ParseStops(a: seq<string>, blank: string, rest: seq<string>, out: Fields, lastKey: string)
    requires NoBlank(a) && IsBlank(blank) && LastKey(a, lastKey) != ""
    ensures ParseFrom(a + [blank] + rest, out, lastKey) == ParseFrom(a, out, lastKey)
    decreases |a|
  {
    var ls := a + [blank] + rest;
    if a == [] {
      assert ls[0] == blank;
    } else {
      assert ls[0] == a[0] && ls[1..] == a[1..] + [blank] + rest;
      var p := ReadLine(a[0], out, lastKey);
      LineKey(a[0], out, lastKey);
      assert !IsBlank(a[0]);
      ParseStops(a[1..], blank, rest, p.out, p.lastKey);
    }
  }

  /** Blank lines before the first field are skipped. */
  lemma {:induction false} BlankLead(bs: seq<string>, ls: seq<string>, out: Fields)
    requires forall i :: 0 <= i < |bs| ==> IsBlank(bs[i])
    ensures ParseFrom(bs + ls, out, "") == ParseFrom(ls, out, "")
    decreases |bs|
  {
    if bs == [] {
      assert bs + ls == ls;
    } else {
      assert (bs + ls)[0] == bs[0] && (bs + ls)[1..] == bs[1..] + ls;
      BlankLead(bs[1..], ls, out);
    }
  }

  lemma {:induction false} LastKeyConcat(a: seq<string>, b: seq<string>, lastKey: string)
    ensures LastKey(a + b, lastKey) == LastKey(b, LastKey(a, lastKey))
    decreases |a|
  {
    if a == [] {
      assert a + b == b;
    } else {
      assert (a + b)[0] == a[0] && (a + b)[1..] == a[1..] + b;
      LastKeyConcat(a[1..], b, ReadLine(a[0], map[], lastKey).lastKey);
    }
  }

  lemma {:induction false} LastKeyFolded(cs: seq<string>, lastKey: string)
    requires forall i :: 0 <= i < |cs| ==> Folded(cs[i])
    ensures LastKey(cs, lastKey) == lastKey
    decreases |cs|
  {
    if cs != [] {
      LastKeyFolded(cs[1..], lastKey);
    }
  }

  lemma LastKeyField(key: string, text: string, rest: seq<string>, lastKey: string)
    requires key != "" && IsInk(key[0]) && IsInk(key[|key| - 1]) && ':' !in key
    ensures LastKey([key + ":" + text] + rest, lastKey) == LastKey(rest, key)
  {
    var raw := key + ":" + text;
    assert raw[0] == key[0] && raw[0] in raw;
    InkIsNotBlank(raw, raw[0]);
    IndexAfter(key, text, ':');
    assert raw[..|key|] == key;
    InkIsTrimmed(key);
    TrimSpaceKeepsTrimmed(key);
    assert ([raw] + rest)[1..] == rest;
  }

  lemma LastKeyOfChecksums(sum: seq<string>, lastKey: string)
    requires forall i :: 0 <= i < |sum| ==> Folded(sum[i])
    ensures LastKey(["Checksums-Sha256:"] + sum, lastKey) == "Checksums-Sha256"
  {
    assert "Checksums-Sha256:" == "Checksums-Sha256" + ":" + "";
    LastKeyField("Checksums-Sha256", "", sum, lastKey);
    LastKeyFolded(sum, "Checksums-Sha256");
  }

  lemma LastKeyOfSums(e: Entry)
    requires FoldedTail(e.filename) && OneLine(e.sha256)
    ensures LastKey(SumsLines(e), "Size") != ""
  {
    if e.sha256 != "" {
      var first, sum := Lines(Field("SHA256", e.sha256)), Lines(SumLine(e));
      SumLineFolds(e);
      LastKeyConcat(first, ["Checksums-Sha256:"] + sum, "Size");
      LastKeyOfChecksums(sum, LastKey(first, "Size"));
    }
  }

  lemma LastKeyOfStanza(e: Entry)
    requires FoldedTail(e.filename) && OneLine(e.sha256)
    ensures LastKey(StanzaLines(e), "") != ""
  {
    var ps, name := PairsLines(Pairs(e.info, CANONICAL_ORDER)), Lines(Field("Filename", e.filename));
    var z := DecimalInt(e.size);
    Associative(ps, name, [Field("Size", z)] + SumsLines(e));
    LastKeyConcat(ps + name, [Field("Size", z)] + SumsLines(e), "");
    LastKeyOfSize(z, SumsLines(e), LastKey(ps + name, ""));
    LastKeyOfSums(e);
  }

  lemma LastKeyOfSize(size: string, rest: seq<string>, lastKey: string)
    ensures LastKey([Field("Size", size)] + rest, lastKey) == LastKey(rest, "Size")
  {
    assert Field("Size", size) == "Size" + ":" + (" " + size);
    LastKeyField("Size", " " + size, rest, lastKey);
  }

  /** Parsing a whole index, after any blank lines, reads its first stanza and nothing else. */
  lemma FirstStanzaIsRead(lead: string, es: seq<Entry>)
    requires es != [] && HasFieldValues(es[0].info) && Printable(es[0])
    requires FoldedTail(es[0].filename) && OneLine(es[0].sha256)
    requires forall i :: 0 <= i < |Lines(lead)| ==> IsBlank(Lines(lead)[i])
    ensures ParseControl(lead + "\n" + PackagesText(es)) == es[0].info
  {
    LinesBreak(lead, PackagesText(es));
    PackagesLines(es);
    BlankLead(Lines(lead), AllLines(es), map[]);
    PrintableLines(es[0]);
    assert AllQuiet(FileLines(es[0]));
    StanzaNotBlank(es[0]);
    LastKeyOfStanza(es[0]);
    ParseStops(StanzaLines(es[0]), "", AllLines(es[1..]), map[], "");
    StanzaParsesBack(es[0]);
  }

  // ---------------------------------------------------------------- which names are printable

  /** Every line after the first is quiet. */
  ghost predicate QuietTail(v: string) {
    AllQuiet(Lines(v)[1..])
  }

  /** The lines after the first are quiet, and the first of several is not blank. */
  ghost predicate QuietSum(v: string) {
    QuietTail(v) && (|Lines(v)| > 1 ==> !IsBlank(Lines(v)[0]))
  }

  /** The field names are letters and hyphens. */
  lemma NameLetters(k: Key, c: char)
    requires '/' <= c <= '9'
    ensures c !in Name(k)
  {
  }

  lemma NotAName(key: string, c: char)
    requires c in key && '/' <= c <= '9'
    ensures !ControlName(TrimSpace(key))
  {
    TrimLeftKeepsInk(key, c);
    TrimRightKeepsInk(TrimLeft(key), c);
    forall k
      ensures Name(k) != TrimSpace(key)
    {
      NameLetters(k, c);
    }
  }

  lemma {:induction false} IndexInPrefix(a: string, b: string, c: char)
    requires c in a
    ensures IndexOf(a, c).Some? && IndexOf(a + b, c) == IndexOf(a, c)
    decreases |a|
  {
    if a[0] != c {
      assert (a + b)[1..] == a[1..] + b;
      IndexInPrefix(a[1..], b, c);
    }
  }

  lemma IndexPastPrefix(a: string, b: string, c: char)
    requires c !in a && IndexOf(a + b, c).Some?
    ensures IndexOf(a + b, c).value >= |a|
  {
  }

  /** The size, put after a quiet line, keeps it quiet. */
  lemma QuietWithSize(e: Entry, a: string, b: string)
    requires Quiet(a)
    ensures Quiet(a + (SumMiddle(e) + b))
  {
    var line := a + (SumMiddle(e) + b);
    SizeNotBlank(e, a, b);
    assert a != "" && line[0] == a[0];
    if ':' in a {
      IndexInPrefix(a, SumMiddle(e) + b, ':');
      assert line[..IndexOf(a, ':').value] == a[..IndexOf(a, ':').value];
    } else {
      SizeInKey(e, a, b);
    }
  }

  lemma SizeInKey(e: Entry, a: string, b: string)
    requires ':' !in a
    ensures var line := a + (SumMiddle(e) + b);
            IndexOf(line, ':').Some? ==> !ControlName(TrimSpace(line[..IndexOf(line, ':').value]))
  {
    var d, line := DecimalInt(e.size), a + (SumMiddle(e) + b);
    DecimalEnds(e.size);
    if IndexOf(line, ':').Some? {
      assert line == (a + SumMiddle(e)) + b;
      IndexPastPrefix(a + SumMiddle(e), b, ':');
      var key := line[..IndexOf(line, ':').value];
      assert key[|a| + |d|] == d[|d| - 1];
      NotAName(key, d[|d| - 1]);
    }
  }

  lemma DecimalEnds(n: int)
    ensures var d := DecimalInt(n); d != "" && IsDigit(d[|d| - 1]) && ':' !in d
  {
    var d := Decimal(if n < 0 then -n else n);
    assert IsDigit(d[|d| - 1]);
    forall i | 0 <= i < |d|
      ensures d[i] != ':'
    {
    }
  }

  lemma SpaceKeepsBlank(s: string)
    ensures IsBlank(" " + s) <==> IsBlank(s)
  {
    assert (" " + s)[1..] == s;
  }

  lemma StartQuiet(first: string, tail: seq<string>, sum: seq<string>, end: string)
    requires [first] + tail == sum + [end] && AllQuiet(tail) && (tail != [] ==> Quiet(first))
    ensures AllQuiet(sum) && if tail == [] then end == first else Quiet(end)
  {
    var la := [first] + tail;
    assert end == la[|sum|];
    forall i | 0 <= i < |sum|
      ensures Quiet(sum[i])
    {
      assert sum[i] == la[i];
    }
  }

  /** The lines that the checksum begins the checksum line with. */
  lemma SumStartQuiet(e: Entry, sum: seq<string>)
    requires QuietSum(e.sha256) && Lines(" " + e.sha256) == sum + [SumEnd(e)]
    ensures AllQuiet(sum) && SumEnd(e) != "" && (SumEnd(e)[0] == ' ' || Quiet(SumEnd(e)))
  {
    var first, tail := Lines(e.sha256)[0], Lines(e.sha256)[1..];
    LinesPrefix(" ", e.sha256);
    SpaceKeepsBlank(first);
    assert (" " + first)[0] == ' ';
    StartQuiet(" " + first, tail, sum, SumEnd(e));
  }

  lemma MiddleQuiet(e: Entry, a: string, b: string)
    requires a != "" && (a[0] == ' ' || Quiet(a))
    ensures Quiet(a + (SumMiddle(e) + b))
  {
    if a[0] == ' ' {
      SizeNotBlank(e, a, b);
    } else {
      QuietWithSize(e, a, b);
    }
  }

  lemma BaseTailQuiet(path: string)
    requires QuietTail(path)
    ensures QuietTail(BaseName(path))
  {
    var tail := Lines(BaseName(path))[1..];
    forall i | 0 <= i < |tail|
      ensures Quiet(tail[i])
    {
      BaseNameLines(path, tail[i]);
    }
  }

  /** The lines of the checksum line are quiet if those of the two names are and the checksum does not begin with a blank one. */
  lemma SumLineQuiet(e: Entry)
    requires QuietTail(e.filename) && QuietSum(e.sha256)
    ensures AllQuiet(Lines(SumLine(e)))
  {
    var sum, mid := SumLineLines(e);
    SumStartQuiet(e, sum);
    MiddleQuiet(e, SumEnd(e), Lines(BaseName(e.filename))[0]);
    BaseTailQuiet(e.filename);
    QuietJoin(sum, mid, Lines(BaseName(e.filename))[1..]);
  }

  lemma QuietJoin(a: seq<string>, m: string, b: seq<string>)
    requires AllQuiet(a) && Quiet(m) && AllQuiet(b)
    ensures AllQuiet(a + ([m] + b))
  {
  }

  lemma FieldLinesQuiet(key: string, v: string)
    requires OneLine(key) && key != "" && IsInk(key[0]) && IsInk(key[|key| - 1]) && ':' !in key && !ControlName(key)
    ensures AllQuiet(Lines(Field(key, v))) <==> QuietTail(v)
  {
    var first, tail := Field(key, Lines(v)[0]), Lines(v)[1..];
    FieldLines(key, v);
    assert first == key + ":" + (" " + Lines(v)[0]);
    FieldIsQuiet(key, " " + Lines(v)[0]);
    QuietCons(first, tail);
  }

  lemma QuietCons(first: string, tail: seq<string>)
    requires Quiet(first)
    ensures AllQuiet([first] + tail) <==> AllQuiet(tail)
  {
    if AllQuiet([first] + tail) {
      forall i | 0 <= i < |tail|
        ensures Quiet(tail[i])
      {
        assert ([first] + tail)[i + 1] == tail[i];
      }
    }
  }

  lemma QuietConcat(a: seq<string>, b: seq<string>)
    ensures AllQuiet(a + b) <==> AllQuiet(a) && AllQuiet(b)
  {
    forall i | 0 <= i < |a|
      ensures (a + b)[i] == a[i]
    {
    }
    forall i | 0 <= i < |b|
      ensures (a + b)[|a| + i] == b[i]
    {
    }
    if AllQuiet(a + b) {
      forall i | 0 <= i < |b|
        ensures Quiet(b[i])
      {
        assert Quiet((a + b)[|a| + i]);
      }
    }
  }

  lemma SumBeginsNotBlank(e: Entry)
    requires AllQuiet(Lines(SumLine(e))) && |Lines(e.sha256)| > 1
    ensures !IsBlank(Lines(e.sha256)[0])
  {
    var ls := Lines(e.sha256);
    var sum, mid := SumLineLines(e);
    LinesPrefix(" ", e.sha256);
    var la := [" " + ls[0]] + ls[1..];
    assert la == sum + [SumEnd(e)];
    assert la[0] == sum[0] == Lines(SumLine(e))[0];
    SpaceKeepsBlank(ls[0]);
  }

  lemma CheckIsQuiet()
    ensures Quiet("Checksums-Sha256:")
  {
    FileNamesAreOthers();
    FieldIsQuiet("Checksums-Sha256", "");
    assert "Checksums-Sha256:" == "Checksums-Sha256" + ":" + "";
  }

  lemma SumsQuiet(e: Entry)
    requires QuietTail(e.filename) && e.sha256 != ""
    ensures AllQuiet(SumsLines(e)) <==> QuietSum(e.sha256)
  {
    var check, sum := "Checksums-Sha256:", Lines(SumLine(e));
    FileNamesAreOthers();
    FieldLinesQuiet("SHA256", e.sha256);
    CheckIsQuiet();
    QuietConcat(Lines(Field("SHA256", e.sha256)), [check] + sum);
    QuietCons(check, sum);
    if QuietSum(e.sha256) {
      SumLineQuiet(e);
    } else if AllQuiet(sum) && |Lines(e.sha256)| > 1 {
      SumBeginsNotBlank(e);
    }
  }

  lemma SizeIsQuiet(e: Entry)
    ensures Quiet(Field("Size", DecimalInt(e.size)))
  {
    var d := DecimalInt(e.size);
    FileNamesAreOthers();
    FieldIsQuiet("Size", " " + d);
    assert Field("Size", d) == "Size" + ":" + (" " + d);
  }

  lemma FileLinesQuiet(e: Entry)
    ensures AllQuiet(FileLines(e)) <==> QuietTail(e.filename) && AllQuiet(SumsLines(e))
  {
    FileNamesAreOthers();
    FieldLinesQuiet("Filename", e.filename);
    SizeIsQuiet(e);
    QuietConcat(Lines(Field("Filename", e.filename)), [Field("Size", DecimalInt(e.size))] + SumsLines(e));
    QuietCons(Field("Size", DecimalInt(e.size)), SumsLines(e));
  }

  lemma EmptyIsQuietSum()
    ensures QuietSum("")
  {
  }

  /**
    The condition in terms of the two names: their lines after the first are quiet, and a checksum of
    several lines does not begin with a blank one.
   */
  lemma PrintableNames(e: Entry)
    ensures Printable(e) <==> QuietTail(e.filename) && QuietSum(e.sha256)
  {
    PrintableLines(e);
    FileLinesQuiet(e);
    if e.sha256 == "" {
      EmptyIsQuietSum();
    } else if QuietTail(e.filename) {
      SumsQuiet(e);
    }
  }

  // ---------------------------------------------------------------- the paths that are published

  function FirstOf(pkg: string): string {
    if pkg == "" then "x"
    else if "lib" <= pkg && |pkg| > 3 then pkg[..4]
    else if pkg[0] as int < 0x100 then Utf8(pkg[0] as int)      // string(b) of a byte: the rune of that number
    else [pkg[0]]
  }

  /** The pool path of a package: poolPathFor in internal/supply/apt.go. */
  function PoolPath(info: DebInfo, filename: string): string {
    "pool/main/" + FirstOf(info.package) + "/" + info.package + "/" + filename
  }

  /** A package name, folded or not, followed by a slash and a quiet file name. */
  lemma PackageAndName(pkg: string, name: string)
    requires FoldedTail(pkg) && QuietTail(name)
    ensures QuietTail(pkg + ("/" + name))
  {
    var la, ln := Lines(pkg), Lines(name);
    LinesPrefix("/", name);
    LinesConcat(pkg, "/" + name);
    GluedShape(la, "/" + ln[0], ln[1..]);
    FoldedWithSlash(la[|la| - 1], ln[0]);
    FoldedAreQuiet(la[1..]);
    JoinedQuietTail(la, la[|la| - 1] + ("/" + ln[0]), ln[1..]);
  }

  lemma FoldedAreQuiet(ls: seq<string>)
    requires forall i :: 0 <= i < |ls| ==> Folded(ls[i])
    ensures AllQuiet(ls)
  {
  }

  lemma JoinedQuietTail(la: seq<string>, mid: string, more: seq<string>)
    requires |la| >= 1 && AllQuiet(la[1..]) && AllQuiet(more) && (|la| > 1 ==> Quiet(mid))
    ensures AllQuiet((la[..|la| - 1] + ([mid] + more))[1..])
  {
    if |la| == 1 {
      assert (la[..0] + ([mid] + more))[1..] == more;
    } else {
      var start := la[1..][..|la| - 2];
      assert (la[..|la| - 1] + ([mid] + more))[1..] == start + ([mid] + more);
      QuietJoin(start, mid, more);
    }
  }

  lemma FoldedWithSlash(line: string, rest: string)
    ensures Folded(line) ==> Quiet(line + ("/" + rest))
  {
    var all := line + ("/" + rest);
    assert all[|line|] == '/';
    InkIsNotBlank(all, '/');
  }

  /** The first directory is the first letter of the package, or its first four when it is a library. */
  lemma PoolPathParts(info: DebInfo, name: string) returns (first: string)
    ensures PoolPath(info, name) == "pool/main/" + first + "/" + info.package + "/" + name
    ensures info.package == "" ==> first == "x"
    ensures info.package != "" && info.package[0] < '\U{0080}' ==>
              && first <= info.package
              && |first| == if |info.package| > 3 && info.package[..3] == "lib" then 4 else 1
    ensures info.package != "" && 0x80 <= info.package[0] as int < 0x100 ==>
              && |first| == 2 && 0xC0 <= first[0] as int && 0x80 <= first[1] as int < 0xC0
              && (first[0] as int - 0xC0) * 64 + (first[1] as int - 0x80) == info.package[0] as int
  {
    first := FirstOf(info.package);
  }

  lemma SlashIsQuiet(s: string)
    ensures Quiet("/" + s)
  {
    var line := "/" + s;
    assert line[0] == '/';
    InkIsNotBlank(line, '/');
    var i := IndexOf(line, ':');
    if i.Some? {
      assert line[..i.value][0] == '/';
      NotAName(line[..i.value], '/');
    }
  }

  /** The start of a path holds no line break, or one at its end. */
  lemma FirstOfLines(pkg: string) returns (f: string)
    ensures OneLine(f) && (FirstOf(pkg) == f || FirstOf(pkg) == f + "\n")
  {
    f := FirstOf(pkg);
    if f != "" && f[|f| - 1] == '\n' {
      f := f[..|f| - 1];
      assert FirstOf(pkg) == f + "\n";
    }
    if "lib" <= pkg && |pkg| > 3 {
      assert pkg[..4] == "lib" + [pkg[3]];
    }
  }

  lemma PoolPathQuiet(info: DebInfo, name: string)
    requires FieldValue(info.package) && QuietTail(name)
    ensures QuietTail(PoolPath(info, name))
  {
    var q := info.package + ("/" + name);
    PackageAndName(info.package, name);
    var f := FirstOfLines(info.package);
    if FirstOf(info.package) == f {
      PathShape(f, info.package, name);
      LinesPrefix("pool/main/" + f + "/", q);
    } else {
      BrokenPathShape(f, info.package, name);
      LineThen("pool/main/" + f, "/" + q);
      LinesPrefix("/", q);
      SlashIsQuiet(Lines(q)[0]);
      QuietCons("/" + Lines(q)[0], Lines(q)[1..]);
    }
  }

  lemma NameTailQuiet(dir: string, name: string)
    requires QuietTail(dir + name)
    ensures QuietTail(name)
  {
    var tail := Lines(name)[1..];
    forall i | 0 <= i < |tail|
      ensures Quiet(tail[i])
    {
      LinesConcat(dir, name);
      GluedTail(Lines(dir), Lines(name), tail[i]);
    }
  }

  lemma PathShape(f: string, pkg: string, name: string)
    ensures "pool/main/" + f + "/" + pkg + "/" + name == ("pool/main/" + f + "/") + (pkg + ("/" + name))
  {
  }

  lemma BrokenPathShape(f: string, pkg: string, name: string)
    ensures "pool/main/" + (f + "\n") + "/" + pkg + "/" + name == ("pool/main/" + f) + "\n" + ("/" + (pkg + ("/" + name)))
  {
  }

  /**
    The entries the index is generated from, with pool paths of parsed packages: however the package
    name is folded, they are printable exactly when the stored file name and checksum are.
   */
  lemma PoolPathPrintable(text: string, name: string, size: int, sha256: string)
    ensures var info := ParseControl(text);
            Printable(Entry(info, PoolPath(info, name), size, sha256)) <==> QuietTail(name) && QuietSum(sha256)
  {
    var info := ParseControl(text);
    PrintableNames(Entry(info, PoolPath(info, name), size, sha256));
    ParsedInfoValues(text, Package);
    if QuietTail(name) {
      PoolPathQuiet(info, name);
    } else if QuietTail(PoolPath(info, name)) {
      NameTailQuiet("pool/main/" + FirstOf(info.package) + "/" + info.package + "/", name);
    }
  }

  /** One-line file names and checksums are enough for every index of parsed packages to come back. */
  lemma PublishedIndexReadsBack(es: seq<Entry>, texts: seq<string>, names: seq<string>)
    requires |texts| == |names| == |es|
    requires forall i :: 0 <= i < |es| ==>
               && es[i].info == ParseControl(texts[i]) && es[i].filename == PoolPath(es[i].info, names[i])
               && OneLine(names[i]) && OneLine(es[i].sha256)
    ensures ReadsBack(es)
  {
    forall i | 0 <= i < |es|
      ensures HasFieldValues(es[i].info) && Printable(es[i])
    {
      ParsedHasFieldValues(texts[i]);
      OneLineLines(names[i]);
      OneLineLines(es[i].sha256);
      PoolPathPrintable(texts[i], names[i], es[i].size, es[i].sha256);
    }
    PrintableReadsBack(es);
  }

  // ---------------------------------------------------------------- a name that forges a field

  function Forged(info: DebInfo, size: int, v: string): Entry {
    Entry(info, "f" + "\n" + Field("Package", v), size, "")
  }

  lemma ForgedFileLines(info: DebInfo, size: int, v: string)
    requires OneLine(v)
    ensures FileLines(Forged(info, size, v))
         == [Field("Filename", "f")] + ([Field("Package", v)] + [Field("Size", DecimalInt(size))])
  {
    var line := Field("Package", v);
    FieldLines("Filename", "f" + "\n" + line);
    LineThen("f", line);
    OneLineLines(line);
    assert [Field("Filename", "f")] + [line] + ([Field("Size", DecimalInt(size))] + [])
        == [Field("Filename", "f")] + ([line] + [Field("Size", DecimalInt(size))]);
  }

  lemma ForgedTextLines(info: DebInfo, size: int, v: string)
    requires OneLine(v)
    ensures Lines(EntryText(Forged(info, size, v)))
         == PairsLines(Pairs(info, CANONICAL_ORDER)) + (FileLines(Forged(info, size, v)) + ([""] + [""]))
  {
    var e := Forged(info, size, v);
    EntryTextLines(e, "");
    assert EntryText(e) + "" == EntryText(e);
    Regroup(PairsLines(Pairs(info, CANONICAL_ORDER)), FileLines(e), [""], [""]);
  }

  /** A file name with a line break can overwrite a control field: here the package name becomes any `v`. */
  lemma LineBreakForgesField(text: string, size: int, v: string)
    requires OneLine(v) && Trimmed(v)
    ensures Lookup(Parse(EntryText(Forged(ParseControl(text), size, v))), "Package") == v
  {
    ParsedHasFieldValues(text);
    ForgedParses(ParseControl(text), size, v);
  }

  lemma ForgedParses(info: DebInfo, size: int, v: string)
    requires OneLine(v) && Trimmed(v) && HasFieldValues(info)
    ensures Lookup(Parse(EntryText(Forged(info, size, v))), "Package") == v
  {
    var ps := Pairs(info, CANONICAL_ORDER);
    var ls := FileLines(Forged(info, size, v)) + ([""] + [""]);
    ForgedTextLines(info, size, v);
    ForgedFileLines(info, size, v);
    PairsAreValues(info, CANONICAL_ORDER);
    var last := PairsParseBack(ps, ls, map[], "");
    ForgedShape(Field("Filename", "f"), Field("Package", v), Field("Size", DecimalInt(size)));
    ForgedParse(v, DecimalInt(size), Store(map[], ps), last);
  }

  lemma ForgedShape(a: string, b: string, c: string)
    ensures ([a] + ([b] + [c])) + ([""] + [""]) == [a] + ([b] + ([c] + ([""] + [""])))
  {
  }

  lemma ForgedParse(v: string, size: string, out: Fields, lastKey: string)
    requires Trimmed(v)
    ensures Lookup(ParseFrom([Field("Filename", "f")] + ([Field("Package", v)] + ([Field("Size", size)] + ([""] + [""]))), out, lastKey), "Package") == v
  {
    var rest := [Field("Size", size)] + ([""] + [""]);
    FieldParses("Filename", "f", [Field("Package", v)] + rest, out, lastKey);
    PackageThenSize(v, size, out["Filename" := TrimSpace(" " + "f")]);
  }

  lemma PackageThenSize(v: string, size: string, out: Fields)
    requires Trimmed(v)
    ensures Lookup(ParseFrom([Field("Package", v)] + ([Field("Size", size)] + ([""] + [""])), out, "Filename"), "Package") == v
  {
    FieldParses("Package", v, [Field("Size", size)] + ([""] + [""]), out, "Filename");
    TrimSpaceKeepsTrimmed(v);
    SizeThenBlank(size, out["Package" := v]);
  }

  lemma SizeThenBlank(size: string, out: Fields)
    ensures ParseFrom([Field("Size", size)] + ([""] + [""]), out, "Package") == out["Size" := TrimSpace(" " + size)]
  {
    FieldParses("Size", size, [""] + [""], out, "Package");
    assert ([""] + [""])[0] == "";
  }

  // ---------------------------------------------------------------- which index holds what

  /** The package is for no architecture in particular. */
  predicate ForAll(e: Entry) {
    e.info.architecture == "" || e.info.architecture == "all"
  }

  /** The architectures that get an index: each concrete one once, amd64 when there is none. */
  method ArchsOf(entries: seq<Entry>) returns (archs: seq<string>)
    ensures archs != [] && NoDup(archs) && "all" !in archs
    ensures forall a :: a in archs <==>
              (exists i :: 0 <= i < |entries| && entries[i].info.architecture == a && !ForAll(entries[i]))
              || (a == "amd64" && forall i :: 0 <= i < |entries| ==> ForAll(entries[i]))
  {
    archs := [];
    var seen: set<string> := {};
    var j := 0;
    while j < |entries|
      invariant 0 <= j <= |entries|
      invariant NoDup(archs) && forall a :: a in archs <==> a in seen
      invariant forall a :: a in archs <==> exists i :: 0 <= i < j && entries[i].info.architecture == a && !ForAll(entries[i])
    {
      var a := if entries[j].info.architecture == "" then "all" else entries[j].info.architecture;
      if a != "all" && a !in seen {
        seen := seen + {a};
        archs := archs + [a];
      }
      j := j + 1;
    }
    if |archs| == 0 {
      forall i | 0 <= i < |entries|
        ensures ForAll(entries[i])
      {
        assert entries[i].info.architecture !in archs;
      }
      archs := ["amd64"];
    } else {
      assert archs[0] in archs;
    }
  }

  predicate Serves(arch: string, e: Entry) {
    ForAll(e) || e.info.architecture == arch
  }

  /** The entries of one index, in order: those of the architecture and those for all. */
  method FilterByArch(entries: seq<Entry>, arch: string) returns (out: seq<Entry>)
    ensures out == Selected(entries, arch)
  {
    out := [];
    var i := 0;
    assert entries[i..] == entries;
    while i < |entries|
      invariant 0 <= i <= |entries|
      invariant Selected(entries, arch) == out + Selected(entries[i..], arch)
    {
      SliceNext(entries, i);
      var a := if entries[i].info.architecture == "" then "all" else entries[i].info.architecture;
      var picked := if a == arch || a == "all" then [entries[i]] else [];
      Associative(out, picked, Selected(entries[i + 1..], arch));
      out := out + picked;
      i := i + 1;
    }
  }

  function Selected(entries: seq<Entry>, arch: string): seq<Entry> {
    if entries == [] then [] else
      (if Serves(arch, entries[0]) then [entries[0]] else []) + Selected(entries[1..], arch)
  }

  lemma {:induction false} SelectedExactly(entries: seq<Entry>, arch: string, e: Entry)
    ensures e in Selected(entries, arch) <==> e in entries && Serves(arch, e)
    decreases |entries|
  {
    if entries != [] {
      SelectedExactly(entries[1..], arch, e);
      assert entries == [entries[0]] + entries[1..];
    }
  }

  /** An index keeps the order and number of its entries: the index of a list is that of its parts, one after the other. */
  lemma {:induction false} SelectedInOrder(a: seq<Entry>, b: seq<Entry>, arch: string)
    ensures Selected(a + b, arch) == Selected(a, arch) + Selected(b, arch)
    ensures |a| == 1 ==> Selected(a, arch) == if Serves(arch, a[0]) then a else []
    decreases |a|
  {
    if a == [] {
      assert a + b == b;
    } else {
      assert (a + b)[0] == a[0] && (a + b)[1..] == a[1..] + b;
      SelectedInOrder(a[1..], b, arch);
    }
  }

  /**
    Every package is published: it is in the index of each architecture it serves and in no other,
    and at least one of the generated indexes holds it.
   */
  method IndexesCoverAll(entries: seq<Entry>) returns (archs: seq<string>, indexes: seq<seq<Entry>>)
    ensures |indexes| == |archs| && NoDup(archs)
    ensures forall j, e :: 0 <= j < |archs| ==> (e in indexes[j] <==> e in entries && Serves(archs[j], e))
    ensures forall i :: 0 <= i < |entries| ==> exists j :: 0 <= j < |archs| && entries[i] in indexes[j]
  {
    archs := ArchsOf(entries);
    indexes := [];
    var n := 0;
    while n < |archs|
      invariant 0 <= n <= |archs| && |indexes| == n
      invariant forall j, e :: 0 <= j < n ==> (e in indexes[j] <==> e in entries && Serves(archs[j], e))
    {
      var picked := FilterByArch(entries, archs[n]);
      forall e
        ensures e in picked <==> e in entries && Serves(archs[n], e)
      {
        SelectedExactly(entries, archs[n], e);
      }
      indexes := indexes + [picked];
      n := n + 1;
    }
    forall i | 0 <= i < |entries|
      ensures exists j :: 0 <= j < |archs| && entries[i] in indexes[j]
    {
      var a := entries[i].info.architecture;
      var b := if a == "" || a == "all" then archs[0] else a;
      assert b in archs;
      var j :| 0 <= j < |archs| && archs[j] == b;
      assert entries[i] in entries && Serves(archs[j], entries[i]);
      assert entries[i] in indexes[j];
    }
  }
}
