/**
  Debian control text: the stanza parser and the field model of internal/apt/deb.go and the Packages
  printer of internal/apt/repo.go.  A field value is a first line and folded lines that start with a
  space or a tab (section 5.1 of the Debian Policy Manual).
 */
module AptControl {
  import opened Basics
  import opened GoStrings

  // ---------------------------------------------------------------- fields

  /** The control fields, in canonical Packages order. */
  datatype Key =
    | Package | Version | Architecture | Maintainer | InstalledSize
    | Depends | PreDepends | Recommends | Suggests | Conflicts
    | Breaks | Replaces | Provides | Section | Priority | Homepage
    | Description

  const CANONICAL_ORDER: seq<Key> := [
    Package, Version, Architecture, Maintainer, InstalledSize,
    Depends, PreDepends, Recommends, Suggests, Conflicts,
    Breaks, Replaces, Provides, Section, Priority, Homepage,
    Description
  ]

  function Name(k: Key): string {
    match k
    case Package => "Package"
    case Version => "Version"
    case Architecture => "Architecture"
    case Maintainer => "Maintainer"
    case InstalledSize => "Installed-Size"
    case Depends => "Depends"
    case PreDepends => "Pre-Depends"
    case Recommends => "Recommends"
    case Suggests => "Suggests"
    case Conflicts => "Conflicts"
    case Breaks => "Breaks"
    case Replaces => "Replaces"
    case Provides => "Provides"
    case Section => "Section"
    case Priority => "Priority"
    case Homepage => "Homepage"
    case Description => "Description"
  }

  datatype DebInfo = DebInfo(
    package: string, version: string, architecture: string, maintainer: string, installedSize: string,
    description: string, depends: string, preDepends: string, recommends: string, suggests: string,
    conflicts: string, breaks: string, replacesPkgs: string, providesPkgs: string, section: string,
    priority: string, homepage: string)

  function Value(d: DebInfo, k: Key): string {
    match k
    case Package => d.package
    case Version => d.version
    case Architecture => d.architecture
    case Maintainer => d.maintainer
    case InstalledSize => d.installedSize
    case Depends => d.depends
    case PreDepends => d.preDepends
    case Recommends => d.recommends
    case Suggests => d.suggests
    case Conflicts => d.conflicts
    case Breaks => d.breaks
    case Replaces => d.replacesPkgs
    case Provides => d.providesPkgs
    case Section => d.section
    case Priority => d.priority
    case Homepage => d.homepage
    case Description => d.description
  }

  lemma SameValuesSameInfo(d: DebInfo, d': DebInfo)
    requires forall k :: Value(d, k) == Value(d', k)
    ensures d == d'
  {
    assert Value(d, Package) == Value(d', Package) && Value(d, Version) == Value(d', Version);
    assert Value(d, Architecture) == Value(d', Architecture) && Value(d, Maintainer) == Value(d', Maintainer);
    assert Value(d, InstalledSize) == Value(d', InstalledSize) && Value(d, Depends) == Value(d', Depends);
    assert Value(d, PreDepends) == Value(d', PreDepends) && Value(d, Recommends) == Value(d', Recommends);
    assert Value(d, Suggests) == Value(d', Suggests) && Value(d, Conflicts) == Value(d', Conflicts);
    assert Value(d, Breaks) == Value(d', Breaks) && Value(d, Replaces) == Value(d', Replaces);
    assert Value(d, Provides) == Value(d', Provides) && Value(d, Section) == Value(d', Section);
    assert Value(d, Priority) == Value(d', Priority) && Value(d, Homepage) == Value(d', Homepage);
    assert Value(d, Description) == Value(d', Description);
  }

  lemma AllKeysListed(k: Key)
    ensures k in CANONICAL_ORDER
  {
    var c := CANONICAL_ORDER;
    assert c[0] == Package && c[1] == Version && c[2] == Architecture && c[3] == Maintainer && c[4] == InstalledSize;
    assert c[5] == Depends && c[6] == PreDepends && c[7] == Recommends && c[8] == Suggests && c[9] == Conflicts;
    assert c[10] == Breaks && c[11] == Replaces && c[12] == Provides && c[13] == Section && c[14] == Priority;
    assert c[15] == Homepage && c[16] == Description;
  }

  type Fields = map<string, string>

  function Lookup(m: Fields, name: string): string {
    if name in m then m[name] else ""
  }

  // ---------------------------------------------------------------- parsing

  datatype Progress = Progress(out: Fields, lastKey: string, done: bool)

  /** What one line does: the fields read so far, the field that folded lines belong to, and whether the stanza ended. */
  function ReadLine(raw: string, out: Fields, lastKey: string): Progress {
    if IsBlank(raw) then Progress(out, lastKey, lastKey != "")
    else if raw != "" && (raw[0] == ' ' || raw[0] == '\t') then
      Progress(if lastKey != "" then out[lastKey := Lookup(out, lastKey) + "\n" + raw] else out, lastKey, false)
    else match IndexOf(raw, ':')
      case None => Progress(out, lastKey, false)
      case Some(i) =>
        var key := TrimSpace(raw[..i]);
        Progress(out[key := TrimSpace(raw[i + 1..])], key, false)
  }

  function ParseFrom(ls: seq<string>, out: Fields, lastKey: string): Fields {
    if ls == [] then out else
      var p := ReadLine(ls[0], out, lastKey);
      if p.done then p.out else ParseFrom(ls[1..], p.out, p.lastKey)
  }

  function Parse(text: string): Fields {
    ParseFrom(Lines(text), map[], "")
  }

  method ParseRFC822(text: string) returns (out: Fields)
    ensures out == Parse(text)
  {
    out := map[];
    var lastKey := "";
    var ls := Lines(text);
    var i := 0;
    assert ls[i..] == ls;
    while i < |ls|
      invariant 0 <= i <= |ls|
      invariant Parse(text) == ParseFrom(ls[i..], out, lastKey)
    {
      var raw := ls[i];
      SliceNext(ls, i);
      i := i + 1;
      if TrimSpace(raw) == "" {
        if lastKey != "" {
          return;
        }
        continue;
      }
      assert raw != "";
      if raw[0] == ' ' || raw[0] == '\t' {
        if lastKey != "" {
          out := out[lastKey := Lookup(out, lastKey) + "\n" + raw];
        }
        continue;
      }
      var idx := IndexOf(raw, ':');
      if idx.None? {
        continue;
      }
      var key := TrimSpace(raw[..idx.value]);
      var val := TrimSpace(raw[idx.value + 1..]);
      out := out[key := val];
      lastKey := key;
    }
  }

  function FromFields(m: Fields): DebInfo {
    DebInfo(Lookup(m, "Package"), Lookup(m, "Version"), Lookup(m, "Architecture"), Lookup(m, "Maintainer"),
            Lookup(m, "Installed-Size"), Lookup(m, "Description"), Lookup(m, "Depends"), Lookup(m, "Pre-Depends"),
            Lookup(m, "Recommends"), Lookup(m, "Suggests"), Lookup(m, "Conflicts"), Lookup(m, "Breaks"),
            Lookup(m, "Replaces"), Lookup(m, "Provides"), Lookup(m, "Section"), Lookup(m, "Priority"),
            Lookup(m, "Homepage"))
  }

  function ParseControl(text: string): DebInfo {
    FromFields(Parse(text))
  }

  lemma FromFieldsValue(m: Fields, k: Key)
    ensures Value(FromFields(m), k) == Lookup(m, Name(k))
  {
  }

  // ---------------------------------------------------------------- values that come out of the parser

  predicate Folded(line: string) {
    line != "" && (line[0] == ' ' || line[0] == '\t') && !IsBlank(line)
  }

  /** A trimmed first line and folded lines after it. */
  predicate FieldValue(v: string) {
    Trimmed(Lines(v)[0]) && forall i :: 1 <= i < |Lines(v)| ==> Folded(Lines(v)[i])
  }

  lemma FieldValueFold(v: string, line: string)
    requires FieldValue(v) && Folded(line) && OneLine(line)
    ensures FieldValue(v + "\n" + line)
  {
    LinesBreak(v, line);
    OneLineLines(line);
  }

  lemma FieldValueFirst(s: string)
    requires OneLine(s)
    ensures FieldValue(TrimSpace(s))
  {
    TrimSpaceTrims(s);
    OneLineLines(TrimSpace(s));
  }

  /** Every value the parser produces is such a value. */
  lemma {:induction false} ParsedValues(ls: seq<string>, out: Fields, lastKey: string)
    requires forall i :: 0 <= i < |ls| ==> OneLine(ls[i])
    requires forall k :: k in out ==> FieldValue(out[k])
    ensures forall k :: k in ParseFrom(ls, out, lastKey) ==> FieldValue(ParseFrom(ls, out, lastKey)[k])
    decreases |ls|
  {
    if ls != [] {
      LineKeepsValues(ls[0], out, lastKey);
      var p := ReadLine(ls[0], out, lastKey);
      if !p.done {
        ParsedValues(ls[1..], p.out, p.lastKey);
      }
    }
  }

  lemma LineKeepsValues(raw: string, out: Fields, lastKey: string)
    requires OneLine(raw) && forall k :: k in out ==> FieldValue(out[k])
    ensures forall k :: k in ReadLine(raw, out, lastKey).out ==> FieldValue(ReadLine(raw, out, lastKey).out[k])
  {
    if !IsBlank(raw) {
      if raw != "" && (raw[0] == ' ' || raw[0] == '\t') {
        FieldValueFold(Lookup(out, lastKey), raw);
      } else {
        var i := IndexOf(raw, ':');
        if i.Some? {
          FieldValueFirst(raw[i.value + 1..]);
        }
      }
    }
  }

  lemma ParsedInfoValues(text: string, k: Key)
    ensures FieldValue(Value(ParseControl(text), k))
  {
    LinesAreLines(text);
    ParsedValues(Lines(text), map[], "");
    FromFieldsValue(Parse(text), k);
  }

  // ---------------------------------------------------------------- printing

  datatype Pair = Pair(key: Key, value: string)

  /** The non-empty fields among `keys`, in their order. */
  function Pairs(d: DebInfo, keys: seq<Key>): seq<Pair> {
    if keys == [] then [] else
      (if Value(d, keys[0]) == "" then [] else [Pair(keys[0], Value(d, keys[0]))]) + Pairs(d, keys[1..])
  }

  /** The place of a field in a stanza. */
  function Rank(k: Key): nat {
    match k
    case Package => 0 case Version => 1 case Architecture => 2 case Maintainer => 3 case InstalledSize => 4
    case Depends => 5 case PreDepends => 6 case Recommends => 7 case Suggests => 8 case Conflicts => 9
    case Breaks => 10 case Replaces => 11 case Provides => 12 case Section => 13 case Priority => 14
    case Homepage => 15 case Description => 16
  }

  /** The fields that are not empty, each once, with their values, in the order of Packages files. */
  ghost predicate FieldsInOrder(d: DebInfo, pairs: seq<Pair>) {
    && (forall k :: Value(d, k) != "" <==> Pair(k, Value(d, k)) in pairs)
    && (forall i :: 0 <= i < |pairs| ==> pairs[i].value == Value(d, pairs[i].key))
    && (forall i, j :: 0 <= i < j < |pairs| ==> Rank(pairs[i].key) < Rank(pairs[j].key))
  }

  lemma OrderIsRanked(i: nat)
    requires i < |CANONICAL_ORDER|
    ensures Rank(CANONICAL_ORDER[i]) == i
  {
  }

  lemma {:induction false} PairsFrom(d: DebInfo, keys: seq<Key>, i: nat)
    requires i + |keys| == 17 && forall j :: 0 <= j < |keys| ==> Rank(keys[j]) == i + j
    ensures var ps := Pairs(d, keys);
            && (forall k :: Rank(k) >= i ==> (Value(d, k) != "" <==> Pair(k, Value(d, k)) in ps))
            && (forall j :: 0 <= j < |ps| ==> ps[j].value == Value(d, ps[j].key) && Rank(ps[j].key) >= i)
            && (forall j, l :: 0 <= j < l < |ps| ==> Rank(ps[j].key) < Rank(ps[l].key))
    decreases |keys|
  {
    if keys != [] {
      PairsFrom(d, keys[1..], i + 1);
      PairsStep(d, keys[0], i, Pairs(d, keys[1..]), Pairs(d, keys));
    }
  }

  lemma PairsStep(d: DebInfo, k0: Key, i: nat, rest: seq<Pair>, ps: seq<Pair>)
    requires Rank(k0) == i
    requires ps == (if Value(d, k0) == "" then [] else [Pair(k0, Value(d, k0))]) + rest
    requires forall k :: Rank(k) >= i + 1 ==> (Value(d, k) != "" <==> Pair(k, Value(d, k)) in rest)
    requires forall j :: 0 <= j < |rest| ==> rest[j].value == Value(d, rest[j].key) && Rank(rest[j].key) >= i + 1
    requires forall j, l :: 0 <= j < l < |rest| ==> Rank(rest[j].key) < Rank(rest[l].key)
    ensures forall k :: Rank(k) >= i ==> (Value(d, k) != "" <==> Pair(k, Value(d, k)) in ps)
    ensures forall j :: 0 <= j < |ps| ==> ps[j].value == Value(d, ps[j].key) && Rank(ps[j].key) >= i
    ensures forall j, l :: 0 <= j < l < |ps| ==> Rank(ps[j].key) < Rank(ps[l].key)
  {
    forall k | Rank(k) >= i
      ensures Value(d, k) != "" <==> Pair(k, Value(d, k)) in ps
    {
      if Rank(k) == i {
        RankIsOneToOne(k, k0);
      }
    }
  }

  lemma RankIsOneToOne(a: Key, b: Key)
    requires Rank(a) == Rank(b)
    ensures a == b
  {
  }

  method ControlPairs(d: DebInfo) returns (pairs: seq<Pair>)
    ensures pairs == Pairs(d, CANONICAL_ORDER) && FieldsInOrder(d, pairs)
  {
    pairs := NonEmptyPairs(d, CANONICAL_ORDER);
    forall i | 0 <= i < |CANONICAL_ORDER|
      ensures Rank(CANONICAL_ORDER[i]) == i
    {
      OrderIsRanked(i);
    }
    PairsFrom(d, CANONICAL_ORDER, 0);
  }

  method NonEmptyPairs(d: DebInfo, keys: seq<Key>) returns (pairs: seq<Pair>)
    ensures pairs == Pairs(d, keys)
  {
    pairs := [];
    var i := 0;
    while i < |keys|
      invariant 0 <= i <= |keys|
      invariant Pairs(d, keys) == pairs + Pairs(d, keys[i..])
    {
      var k := keys[i];
      SliceNext(keys, i);
      var shown := [];
      if Value(d, k) != "" {
        shown := [Pair(k, Value(d, k))];
      }
      assert Pairs(d, keys[i..]) == shown + Pairs(d, keys[i + 1..]);
      Associative(pairs, shown, Pairs(d, keys[i + 1..]));
      pairs := pairs + shown;
      i := i + 1;
    }
  }

  datatype Entry = Entry(info: DebInfo, filename: string, size: int, sha256: string)

  function BaseName(path: string): (r: string)
    ensures forall c :: c in r ==> c in path
  {
    if path == "" then ""
    else if path[|path| - 1] == '/' then ""
    else BaseName(path[..|path| - 1]) + [path[|path| - 1]]
  }

  /** "key: text", as fmt prints a field. */
  function Field(key: string, text: string): string {
    key + ": " + text
  }

  function PairText(p: Pair): string {
    Field(Name(p.key), p.value) + "\n"
  }

  function PairsText(ps: seq<Pair>): string {
    if ps == [] then "" else PairText(ps[0]) + PairsText(ps[1..])
  }

  /** The lines about the file, after the control fields. */
  function FileText(e: Entry): string {
    Field("Filename", e.filename) + "\n" + (Field("Size", DecimalInt(e.size)) + "\n" + SumsText(e))
  }

  function SumsText(e: Entry): string {
    if e.sha256 == "" then "" else
      Field("SHA256", e.sha256) + "\n" + ("Checksums-Sha256:" + "\n" + (SumLine(e) + "\n"))
  }

  function SumLine(e: Entry): string {
    " " + e.sha256 + " " + DecimalInt(e.size) + " " + BaseName(e.filename)
  }

  function EntryText(e: Entry): string {
    PairsText(Pairs(e.info, CANONICAL_ORDER)) + FileText(e) + "\n"
  }

  function PackagesText(es: seq<Entry>): string {
    if es == [] then "" else EntryText(es[0]) + PackagesText(es[1..])
  }

  method RenderPackages(entries: seq<Entry>) returns (b: string)
    ensures b == PackagesText(entries)
  {
    b := "";
    var i := 0;
    assert entries[i..] == entries;
    while i < |entries|
      invariant 0 <= i <= |entries|
      invariant PackagesText(entries) == b + PackagesText(entries[i..])
    {
      var stanza := RenderEntry(entries[i]);
      SliceNext(entries, i);
      Associative(b, stanza, PackagesText(entries[i + 1..]));
      b := b + stanza;
      i := i + 1;
    }
  }

  method RenderEntry(e: Entry) returns (b: string)
    ensures b == EntryText(e)
  {
    var pairs := ControlPairs(e.info);
    var fields := RenderPairs(pairs);
    var sums := "";
    if e.sha256 != "" {
      sums := Field("SHA256", e.sha256) + "\n" + ("Checksums-Sha256:" + "\n" + (SumLine(e) + "\n"));
    }
    var file := Field("Filename", e.filename) + "\n" + (Field("Size", DecimalInt(e.size)) + "\n" + sums);
    b := fields + file + "\n";
  }

  method RenderPairs(pairs: seq<Pair>) returns (b: string)
    ensures b == PairsText(pairs)
  {
    b := "";
    var i := 0;
    assert pairs[i..] == pairs;
    while i < |pairs|
      invariant 0 <= i <= |pairs|
      invariant PairsText(pairs) == b + PairsText(pairs[i..])
    {
      SliceNext(pairs, i);
      Associative(b, PairText(pairs[i]), PairsText(pairs[i + 1..]));
      b := b + PairText(pairs[i]);
      i := i + 1;
    }
  }
}
