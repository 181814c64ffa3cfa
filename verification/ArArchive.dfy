/**
  The `ar` reader of internal/apt/ar.go.  Bytes are chars.  A reader is its remaining bytes: a short
  read is what io.ReadFull reports as EOF (nothing read) or unexpected EOF (something read).
 */
module ArArchive {
  import opened Basics
  import opened GoStrings
  import opened Int64

  const MAGIC := "!<arch>\n"
  const HEADER_SIZE := 60

  datatype ArEntry = ArEntry(name: string, size: int, data: string)

  datatype ArError = ShortMagic | BadMagic | ShortHeader | BadSize | ShortBody

  // ---------------------------------------------------------------- the size field

  lemma WrapStep(n: int, d: int)
    ensures Wrap64(Wrap64(n) * 10 + d) == Wrap64(n * 10 + d)
  {
    var k := (n + TWO_63) / TWO_64;
    assert Wrap64(n) == n - k * TWO_64;
    WrapShift(n * 10 + d, -10 * k);
  }

  function Pow10(k: nat): nat {
    if k == 0 then 1 else 10 * Pow10(k - 1)
  }

  lemma {:induction false} DigitsBound(s: string)
    requires AllDigits(s)
    ensures DigitsValue(s) < Pow10(|s|)
    decreases |s|
  {
    if s != "" {
      DigitsBound(s[..|s| - 1]);
    }
  }

  lemma {:induction false} PowMonotone(j: nat, k: nat)
    requires j <= k
    ensures 1 <= Pow10(j) <= Pow10(k)
    decreases k
  {
    if j < k {
      PowMonotone(j, k - 1);
    } else if k > 0 {
      PowMonotone(j - 1, k - 1);
    }
  }

  lemma TenDigitsFit(s: string)
    requires AllDigits(s) && |s| <= 10
    ensures DigitsValue(s) < 10_000_000_000
  {
    DigitsBound(s);
    PowMonotone(|s|, 10);
    assert Pow10(10) == 10 * Pow10(9) && Pow10(9) == 10 * Pow10(8) && Pow10(8) == 10 * Pow10(7);
    assert Pow10(7) == 10 * Pow10(6) && Pow10(6) == 10 * Pow10(5) && Pow10(5) == 10 * Pow10(4);
    assert Pow10(4) == 10 * Pow10(3) && Pow10(3) == 10 * Pow10(2) && Pow10(2) == 10 * Pow10(1);
  }

  /**
    Accepts exactly the digit strings, padding aside, and accumulates in an int64.  Up to ten digits,
    as many as the size field of a header holds, the sum is exact and never overflows.
   */
  method ParseOctalOrDecimal(s: string) returns (r: Option<int>)
    ensures r.Some? <==> TrimSpace(s) != "" && AllDigits(TrimSpace(s))
    ensures r.Some? ==> r.value == Wrap64(DigitsValue(TrimSpace(s)))
    ensures r.Some? && |TrimSpace(s)| <= 10 ==> r.value == DigitsValue(TrimSpace(s)) < 10_000_000_000
  {
    var t := TrimSpace(s);
    if t == "" {
      return None;
    }
    var n := 0;
    var i := 0;
    while i < |t|
      invariant 0 <= i <= |t| && AllDigits(t[..i])
      invariant n == Wrap64(DigitsValue(t[..i]))
    {
      var c := t[i];
      if c < '0' || c > '9' {
        return None;
      }
      assert t[..i + 1][..i] == t[..i];
      WrapStep(DigitsValue(t[..i]), DigitValue(c));
      n := Wrap64(n * 10 + DigitValue(c));
      i := i + 1;
    }
    assert t[..i] == t;
    if |t| <= 10 {
      TenDigitsFit(t);
    }
    return Some(n);
  }

  // ---------------------------------------------------------------- reading

  datatype HeaderInfo = HeaderInfo(name: string, size: nat)

  function NameField(block: string): string
    requires |block| == HEADER_SIZE
  {
    CutRight(TrimSpace(CutRight(block[..16], {' '})), {'/'})
  }

  function SizeField(block: string): (r: Option<nat>)
    requires |block| == HEADER_SIZE
  {
    var t := TrimSpace(block[48..58]);
    if t == "" || !AllDigits(t) then None else Some(DigitsValue(t))
  }

  /** Name and size from a header block; None when the size field is no number. */
  function ParseHeader(block: string): Option<HeaderInfo> {
    if |block| != HEADER_SIZE then None else
      match SizeField(block)
      case None => None
      case Some(size) => Some(HeaderInfo(NameField(block), size))
  }

  type HeaderParser = string -> Option<HeaderInfo>

  function Padding(size: nat): nat {
    size % 2
  }

  /** The members in the bytes that follow the magic, for any way of parsing a header block. */
  function MembersWith(parse: HeaderParser, rest: string): Result<seq<ArEntry>, ArError>
    decreases |rest|
  {
    if rest == "" then Ok([])
    else if |rest| < HEADER_SIZE then Err(ShortHeader)
    else match parse(rest[..HEADER_SIZE])
      case None => Err(BadSize)
      case Some(HeaderInfo(name, size)) =>
        if |rest| < HEADER_SIZE + size then Err(ShortBody) else
          var entry := ArEntry(name, size, rest[HEADER_SIZE..HEADER_SIZE + size]);
          Prepend(entry, MembersWith(parse, Drop(rest, HEADER_SIZE + size + Padding(size))))
  }

  function Members(rest: string): Result<seq<ArEntry>, ArError> {
    MembersWith(ParseHeader, rest)
  }

  /** Skip `n` bytes or to the end. */
  function Drop(s: string, n: nat): (r: string)
    ensures n > 0 && s != "" ==> |r| < |s|
  {
    if n <= |s| then s[n..] else ""
  }

  function Prepend(e: ArEntry, r: Result<seq<ArEntry>, ArError>): Result<seq<ArEntry>, ArError> {
    match r
    case Err(x) => Err(x)
    case Ok(es) => Ok([e] + es)
  }

  function Archive(input: string): Result<seq<ArEntry>, ArError> {
    if |input| < |MAGIC| then Err(ShortMagic)
    else if input[..|MAGIC|] != MAGIC then Err(BadMagic)
    else Members(input[|MAGIC|..])
  }

  lemma TrimIsShorter(s: string)
    ensures |TrimSpace(s)| <= |s|
  {
    TrimLeftShrinks(s);
    TrimRightIsPrefix(TrimLeft(s));
  }

  function After(entries: seq<ArEntry>, r: Result<seq<ArEntry>, ArError>): Result<seq<ArEntry>, ArError> {
    match r
    case Err(x) => Err(x)
    case Ok(es) => Ok(entries + es)
  }

  method ReadHeader(block: string) returns (h: Option<HeaderInfo>)
    requires |block| == HEADER_SIZE
    ensures h == ParseHeader(block)
  {
    var name := TrimSpace(CutRight(block[..16], {' '}));
    var sizeStr := TrimSpace(block[48..58]);
    TrimIsShorter(block[48..58]);
    TrimSpaceTrims(block[48..58]);
    TrimSpaceKeepsTrimmed(sizeStr);
    var size := ParseOctalOrDecimal(sizeStr);
    if size.None? {
      return None;
    }
    return Some(HeaderInfo(CutRight(name, {'/'}), size.value));
  }

  datatype Step = Stop(result: Result<seq<ArEntry>, ArError>) | More(entry: ArEntry, rest: string)

  /** One round of the reader's loop on a header already parsed: an error, or a member and what follows it. */
  method ReadBody(ghost parse: HeaderParser, rest: string, h: Option<HeaderInfo>) returns (step: Step)
    requires |rest| >= HEADER_SIZE && h == parse(rest[..HEADER_SIZE])
    ensures step.Stop? ==> step.result.Err? && MembersWith(parse, rest) == step.result
    ensures step.More? ==> |step.rest| < |rest| && MembersWith(parse, rest) == Prepend(step.entry, MembersWith(parse, step.rest))
  {
    if h.None? {
      return Stop(Err(BadSize));
    }
    var HeaderInfo(name, size) := h.value;
    if |rest| < 60 + size {
      return Stop(Err(ShortBody));
    }
    var entry := ArEntry(name, size, rest[60..60 + size]);
    var left := rest[60 + size..];
    if size % 2 == 1 {
      left := Drop(left, 1);
    }
    return More(entry, left);
  }

  method ReadAr(input: string) returns (r: Result<seq<ArEntry>, ArError>)
    ensures r == Archive(input)
  {
    if |input| < 8 {
      return Err(ShortMagic);
    }
    if input[..8] != MAGIC {
      return Err(BadMagic);
    }
    var rest := input[8..];
    var entries := [];
    ghost var all := Members(rest);
    AfterNothing(all);
    while true
      invariant all == After(entries, Members(rest))
      decreases |rest|
    {
      if |rest| == 0 {
        assert entries + [] == entries;
        return Ok(entries);
      }
      if |rest| < 60 {
        return Err(ShortHeader);
      }
      var h := ReadHeader(rest[..60]);
      var step := ReadBody(ParseHeader, rest, h);
      if step.Stop? {
        return step.result;
      }
      AfterPrepend(entries, step.entry, Members(step.rest));
      entries := entries + [step.entry];
      rest := step.rest;
    }
  }

  lemma AfterNothing(r: Result<seq<ArEntry>, ArError>)
    ensures After([], r) == r
  {
    if r.Ok? {
      assert [] + r.value == r.value;
    }
  }

  lemma AfterPrepend(entries: seq<ArEntry>, e: ArEntry, r: Result<seq<ArEntry>, ArError>)
    ensures After(entries, Prepend(e, r)) == After(entries + [e], r)
  {
    if r.Ok? {
      Associative(entries, [e], r.value);
    }
  }

  // ---------------------------------------------------------------- writing

  /** A member as `ar` stores it: a short name, with or without GNU's slash, and header bytes the reader ignores. */
  datatype Member = Member(name: string, slash: bool, meta: string, trailer: string, data: string)

  function StoredName(m: Member): string {
    if m.slash then m.name + "/" else m.name
  }

  predicate Legal(m: Member) {
    && Trimmed(m.name) && (m.name != "" ==> m.name[|m.name| - 1] != '/')
    && |StoredName(m)| <= 16 && |m.meta| == 32 && |m.trailer| == 2
    && |m.data| < 10_000_000_000
  }

  function Pad(s: string, n: nat): string {
    if |s| >= n then s else s + Spaces(n - |s|)
  }

  function Header(m: Member): string {
    Pad(StoredName(m), 16) + m.meta + Pad(Decimal(|m.data|), 10) + m.trailer
  }

  function PadByte(m: Member): string {
    if |m.data| % 2 == 1 then "\n" else ""
  }

  function MemberBytes(m: Member): string {
    Header(m) + m.data + PadByte(m)
  }

  function Concat(bs: seq<string>): string {
    if bs == [] then "" else bs[0] + Concat(bs[1..])
  }

  function Bytes(ms: seq<Member>): seq<string> {
    if ms == [] then [] else [MemberBytes(ms[0])] + Bytes(ms[1..])
  }

  function Bodies(ms: seq<Member>): string {
    Concat(Bytes(ms))
  }

  function Encode(ms: seq<Member>): string {
    MAGIC + Bodies(ms)
  }

  function EntryOf(m: Member): ArEntry {
    ArEntry(m.name, |m.data|, m.data)
  }

  /** The entries of the first `k` members. */
  function Entries(ms: seq<Member>, k: nat): seq<ArEntry>
    requires k <= |ms|
  {
    if k == 0 then [] else [EntryOf(ms[0])] + Entries(ms[1..], k - 1)
  }

  lemma {:induction false} EntriesInOrder(ms: seq<Member>, k: nat, i: nat)
    requires i < k <= |ms|
    ensures |Entries(ms, k)| == k && Entries(ms, k)[i] == EntryOf(ms[i])
    decreases k
  {
    if k > 1 {
      EntriesInOrder(ms[1..], k - 1, if i > 0 then i - 1 else 0);
    }
  }

  // ---------------------------------------------------------------- what the reader makes of a header

  lemma {:induction false} DecimalLength(n: nat, k: nat)
    requires n < Pow10(k) && k >= 1
    ensures |Decimal(n)| <= k
    decreases k
  {
    if n >= 10 {
      assert k > 1;
      DecimalLength(n / 10, k - 1);
    }
  }

  lemma PowTen()
    ensures Pow10(10) == 10_000_000_000
  {
    assert Pow10(3) == 1000;
    assert Pow10(6) == 1000 * Pow10(3);
    assert Pow10(9) == 1000 * Pow10(6);
    assert Pow10(10) == 10 * Pow10(9);
  }

  lemma HeaderLayout(m: Member)
    requires Legal(m)
    ensures |Header(m)| == HEADER_SIZE
    ensures Header(m)[..16] == Pad(StoredName(m), 16)
    ensures Header(m)[48..58] == Pad(Decimal(|m.data|), 10)
  {
    PowTen();
    DecimalLength(|m.data|, 10);
  }

  lemma {:induction false} CutSpaces(s: string, n: nat)
    requires s != "" ==> s[|s| - 1] != ' '
    ensures CutRight(s + Spaces(n), {' '}) == s
    decreases n
  {
    var p := s + Spaces(n);
    if n == 0 {
      assert p == s;
    } else {
      assert p[..|p| - 1] == s + Spaces(n - 1);
      CutSpaces(s, n - 1);
    }
  }

  lemma StoredNameTrimmed(m: Member)
    requires Legal(m)
    ensures Trimmed(StoredName(m)) && (StoredName(m) != "" ==> StoredName(m)[|StoredName(m)| - 1] != ' ')
    ensures CutRight(StoredName(m), {'/'}) == m.name
  {
    if m.slash {
      assert StoredName(m)[..|m.name|] == m.name;
    }
  }

  lemma HeaderReads(m: Member)
    requires Legal(m)
    ensures |Header(m)| == HEADER_SIZE
    ensures ParseHeader(Header(m)) == Some(HeaderInfo(m.name, |m.data|))
  {
    HeaderLayout(m);
    NameReads(m, Header(m));
    SizeReads(m, Header(m));
  }

  lemma NameReads(m: Member, block: string)
    requires Legal(m) && |block| == HEADER_SIZE && block[..16] == Pad(StoredName(m), 16)
    ensures NameField(block) == m.name
  {
    StoredNameTrimmed(m);
    var s := StoredName(m);
    CutSpaces(s, 16 - |s|);
    TrimSpaceKeepsTrimmed(s);
  }

  lemma SizeReads(m: Member, block: string)
    requires |block| == HEADER_SIZE && block[48..58] == Pad(Decimal(|m.data|), 10)
    ensures SizeField(block) == Some(|m.data|)
  {
    var d := Decimal(|m.data|);
    DecimalValue(|m.data|);
    assert IsInk(d[0]) && IsInk(d[|d| - 1]);
    TrimPadded(d, if |d| >= 10 then 0 else 10 - |d|);
    assert d + Spaces(0) == d;
  }

  // ---------------------------------------------------------------- reading what was written, whole or cut

  function Length(m: Member): nat {
    HEADER_SIZE + |m.data| + |m.data| % 2
  }

  /** Where the first `k` members end in the bytes after the magic. */
  function End(ms: seq<Member>, k: nat): nat
    requires k <= |ms|
  {
    if k == 0 then 0 else Length(ms[0]) + End(ms[1..], k - 1)
  }

  /** The cut `c` comes right after member `k`, or between its body and its pad byte. */
  predicate CutAfter(ms: seq<Member>, k: nat, c: nat)
    requires k <= |ms|
  {
    c == End(ms, k) || (k > 0 && |ms[k - 1].data| % 2 == 1 && c + 1 == End(ms, k))
  }

  /** `b` is stored bytes that the reader takes for the member `m`. */
  predicate Reads(parse: HeaderParser, b: string, m: Member) {
    && |b| == Length(m)
    && parse(b[..HEADER_SIZE]) == Some(HeaderInfo(m.name, |m.data|))
    && b[HEADER_SIZE..HEADER_SIZE + |m.data|] == m.data
  }

  predicate AllRead(parse: HeaderParser, bs: seq<string>, ms: seq<Member>) {
    if bs == [] || ms == [] then bs == [] && ms == []
    else Reads(parse, bs[0], ms[0]) && AllRead(parse, bs[1..], ms[1..])
  }

  lemma MemberReads(m: Member)
    requires Legal(m)
    ensures Reads(ParseHeader, MemberBytes(m), m)
  {
    HeaderReads(m);
    var b := MemberBytes(m);
    assert b[..HEADER_SIZE] == Header(m);
  }

  lemma OneMember(parse: HeaderParser, b: string, m: Member, tail: string, c: nat)
    requires Reads(parse, b, m) && HEADER_SIZE <= c <= |b + tail|
    ensures MembersWith(parse, (b + tail)[..c])
         == if c < HEADER_SIZE + |m.data| then Err(ShortBody)
            else Prepend(EntryOf(m), if c <= Length(m) then Ok([]) else MembersWith(parse, tail[..c - Length(m)]))
  {
    var rest := (b + tail)[..c];
    var n := |m.data|;
    assert rest[..HEADER_SIZE] == b[..HEADER_SIZE];
    if c >= HEADER_SIZE + n {
      assert rest[HEADER_SIZE..HEADER_SIZE + n] == b[HEADER_SIZE..HEADER_SIZE + n];
      if c <= Length(m) {
        assert Drop(rest, Length(m)) == "";
      } else {
        assert Drop(rest, Length(m)) == tail[..c - Length(m)];
      }
    }
  }

  /** How many members survive when only `c` bytes are left of the archive's body; None is an error. */
  function Survivors(ms: seq<Member>, c: nat): Option<nat> {
    if c == 0 then Some(0)
    else if ms == [] || c < HEADER_SIZE + |ms[0].data| then None
    else if c <= Length(ms[0]) then Some(1)
    else match Survivors(ms[1..], c - Length(ms[0]))
      case None => None
      case Some(k) => Some(k + 1)
  }

  lemma {:induction false} SurvivorsAreWholeMembers(ms: seq<Member>, c: nat, k: nat)
    ensures Survivors(ms, c) == Some(k) <==> k <= |ms| && CutAfter(ms, k, c)
    decreases |ms|
  {
    if ms != [] && c > 0 {
      var m := ms[0];
      if k > 0 {
        SurvivorsAreWholeMembers(ms[1..], if c > Length(m) then c - Length(m) else 0, k - 1);
      }
      if k == 1 {
        assert End(ms, 1) == Length(m);
      }
      if 1 < k <= |ms| {
        EndGrows(ms[1..], k - 1);
      }
    }
    if k > 0 && k <= |ms| {
      EndGrows(ms, k);
    }
  }

  lemma {:induction false} EndGrows(ms: seq<Member>, k: nat)
    requires 1 <= k <= |ms|
    ensures End(ms, k) >= HEADER_SIZE + |ms[k - 1].data| + |ms[k - 1].data| % 2
    decreases k
  {
    if k > 1 {
      EndGrows(ms[1..], k - 1);
    }
  }

  function Cons(e: ArEntry, rest: Option<seq<ArEntry>>): Option<seq<ArEntry>> {
    match rest
    case None => None
    case Some(es) => Some([e] + es)
  }

  /** The entries that survive the cut, member by member. */
  function Kept(ms: seq<Member>, c: nat): Option<seq<ArEntry>> {
    if c == 0 then Some([])
    else if ms == [] || c < HEADER_SIZE + |ms[0].data| then None
    else Cons(EntryOf(ms[0]), if c <= Length(ms[0]) then Some([]) else Kept(ms[1..], c - Length(ms[0])))
  }

  lemma {:induction false} KeptAreSurvivors(ms: seq<Member>, c: nat)
    ensures match Survivors(ms, c)
            case None => Kept(ms, c) == None
            case Some(k) => k <= |ms| && Kept(ms, c) == Some(Entries(ms, k))
    decreases |ms|
  {
    if c > 0 && ms != [] && c > Length(ms[0]) {
      KeptAreSurvivors(ms[1..], c - Length(ms[0]));
    }
  }

  function Success(r: Result<seq<ArEntry>, ArError>): Option<seq<ArEntry>> {
    match r
    case Ok(es) => Some(es)
    case Err(_) => None
  }

  lemma {:induction false} CutMembers(parse: HeaderParser, bs: seq<string>, ms: seq<Member>, c: nat)
    requires AllRead(parse, bs, ms) && c <= |Concat(bs)|
    ensures Success(MembersWith(parse, Concat(bs)[..c])) == Kept(ms, c)
    decreases |ms|
  {
    var s := Concat(bs)[..c];
    if c == 0 {
      assert s == "";
    } else if c < HEADER_SIZE {
      assert MembersWith(parse, s) == Err(ShortHeader);
    } else {
      OneMember(parse, bs[0], ms[0], Concat(bs[1..]), c);
      if c > Length(ms[0]) {
        CutMembers(parse, bs[1..], ms[1..], c - Length(ms[0]));
      }
    }
  }

  lemma {:induction false} BytesRead(ms: seq<Member>)
    requires forall i :: 0 <= i < |ms| ==> Legal(ms[i])
    ensures AllRead(ParseHeader, Bytes(ms), ms)
    decreases |ms|
  {
    if ms != [] {
      MemberReads(ms[0]);
      BytesRead(ms[1..]);
      assert Bytes(ms)[1..] == Bytes(ms[1..]);
    }
  }

  /** No member ends at `b`. */
  ghost predicate InsideMember(ms: seq<Member>, b: nat) {
    forall k: nat :: k <= |ms| ==> !CutAfter(ms, k, b)
  }

  /**
    Reading back any cut of a written archive.  If the cut falls right after member k, with or
    without its pad byte, the reader returns exactly the first k members; anywhere else, inside a
    header or a body, it is an error and never a shorter list.
   */
  lemma ArRoundTrip(ms: seq<Member>, b: nat)
    requires (forall i :: 0 <= i < |ms| ==> Legal(ms[i])) && b <= |Bodies(ms)|
    ensures forall k: nat :: k <= |ms| && CutAfter(ms, k, b) ==>
              Archive(Encode(ms)[..|MAGIC| + b]) == Ok(Entries(ms, k))
    ensures InsideMember(ms, b) ==> Archive(Encode(ms)[..|MAGIC| + b]).Err?
  {
    AfterMagic(Bodies(ms), b);
    BodiesRoundTrip(ms, b);
  }

  /** What follows a member of `n` bytes: its pad byte is skipped, if there is one. */
  function Beyond(rest: string, n: nat): string
    requires |rest| >= 60 + n
  {
    if n % 2 == 1 && |rest| > 60 + n then rest[60 + n + 1..] else rest[60 + n..]
  }

  /**
    The bytes are laid out as these members: a header of 60 bytes that names the member and tells the
    number of bytes that follow it, these bytes, and a pad byte after an odd number unless the archive
    ends.
   */
  ghost predicate LaidOut(parse: HeaderParser, rest: string, es: seq<ArEntry>)
    decreases |es|
  {
    if es == [] then rest == "" else
      && |rest| >= 60 + |es[0].data|
      && IsMember(parse, rest, es[0])
      && LaidOut(parse, Beyond(rest, |es[0].data|), es[1..])
  }

  predicate IsMember(parse: HeaderParser, rest: string, e: ArEntry)
    requires |rest| >= 60 + |e.data|
  {
    e.size == |e.data| && rest[60..60 + |e.data|] == e.data && parse(rest[..60]) == Some(HeaderInfo(e.name, |e.data|))
  }

  lemma MembersStep(parse: HeaderParser, rest: string, e: ArEntry)
    requires |rest| >= 60 + |e.data| && IsMember(parse, rest, e)
    ensures MembersWith(parse, rest) == Prepend(e, MembersWith(parse, Beyond(rest, |e.data|)))
  {
    var n := |e.data|;
    assert Drop(rest, 60 + n + Padding(n)) == Beyond(rest, n);
  }

  /** A reader that does not fail reads a member first. */
  lemma FirstMember(parse: HeaderParser, rest: string, es: seq<ArEntry>)
    requires MembersWith(parse, rest) == Ok(es) && rest != ""
    ensures es != [] && |rest| >= 60 + |es[0].data| && IsMember(parse, rest, es[0])
  {
    var h := parse(rest[..60]).value;
    assert es[0] == ArEntry(h.name, h.size, rest[60..60 + h.size]);
  }

  /** What a header tells: its size field, trimmed, is the decimal number, and its name field without padding and slashes the name. */
  lemma HeaderExactly(block: string, name: string, size: nat)
    ensures ParseHeader(block) == Some(HeaderInfo(name, size)) <==>
            && |block| == 60 && Numeral(TrimSpace(block[48..58]), size)
            && name == CutRight(TrimSpace(CutRight(block[..16], {' '})), {'/'})
  {
  }

  lemma {:induction false} MembersAreLaidOut(parse: HeaderParser, rest: string, es: seq<ArEntry>)
    requires MembersWith(parse, rest) == Ok(es)
    ensures LaidOut(parse, rest, es)
    decreases |rest|
  {
    if rest != "" {
      FirstMember(parse, rest, es);
      MembersStep(parse, rest, es[0]);
      var more := MembersWith(parse, Beyond(rest, |es[0].data|));
      assert es[1..] == more.value;
      MembersAreLaidOut(parse, Beyond(rest, |es[0].data|), es[1..]);
    }
  }

  lemma {:induction false} LaidOutIsRead(parse: HeaderParser, rest: string, es: seq<ArEntry>)
    requires LaidOut(parse, rest, es)
    ensures MembersWith(parse, rest) == Ok(es)
    decreases |es|
  {
    if es != [] {
      LaidOutIsRead(parse, Beyond(rest, |es[0].data|), es[1..]);
      MembersStep(parse, rest, es[0]);
      assert es == [es[0]] + es[1..];
    }
  }

  /** The reader accepts exactly the magic followed by members laid out one after the other. */
  lemma AcceptedExactly(input: string, es: seq<ArEntry>)
    ensures Archive(input) == Ok(es) <==> |input| >= 8 && input[..8] == "!<arch>\n" && LaidOut(ParseHeader, input[8..], es)
  {
    if |input| >= 8 {
      if LaidOut(ParseHeader, input[8..], es) {
        LaidOutIsRead(ParseHeader, input[8..], es);
      } else if Members(input[8..]) == Ok(es) {
        MembersAreLaidOut(ParseHeader, input[8..], es);
      }
    }
  }

  /** A cut inside the magic is an error too. */
  lemma CutInMagic(ms: seq<Member>, c: nat)
    requires c < |MAGIC|
    ensures c <= |Encode(ms)| && Archive(Encode(ms)[..c]) == Err(ShortMagic)
  {
  }

  lemma BodiesRoundTrip(ms: seq<Member>, b: nat)
    requires (forall i :: 0 <= i < |ms| ==> Legal(ms[i])) && b <= |Bodies(ms)|
    ensures forall k: nat :: k <= |ms| && CutAfter(ms, k, b) ==> Members(Bodies(ms)[..b]) == Ok(Entries(ms, k))
    ensures InsideMember(ms, b) ==> Members(Bodies(ms)[..b]).Err?
  {
    BytesRead(ms);
    CutMembers(ParseHeader, Bytes(ms), ms, b);
    KeptAreSurvivors(ms, b);
    forall k: nat | k <= |ms| && CutAfter(ms, k, b)
      ensures Members(Bodies(ms)[..b]) == Ok(Entries(ms, k))
    {
      SurvivorsAreWholeMembers(ms, b, k);
    }
    if Survivors(ms, b).Some? {
      SurvivorsAreWholeMembers(ms, b, Survivors(ms, b).value);
    }
  }

  lemma AfterMagic(body: string, b: nat)
    requires b <= |body|
    ensures Archive((MAGIC + body)[..|MAGIC| + b]) == Members(body[..b])
  {
    var s := (MAGIC + body)[..|MAGIC| + b];
    assert s[..|MAGIC|] == MAGIC && s[|MAGIC|..] == body[..b];
  }

  lemma {:induction false} ConcatLength(parse: HeaderParser, bs: seq<string>, ms: seq<Member>)
    requires AllRead(parse, bs, ms)
    ensures |Concat(bs)| == End(ms, |ms|)
    decreases |ms|
  {
    if ms != [] {
      ConcatLength(parse, bs[1..], ms[1..]);
    }
  }

  lemma BodiesLength(ms: seq<Member>)
    requires forall i :: 0 <= i < |ms| ==> Legal(ms[i])
    ensures |Bodies(ms)| == End(ms, |ms|)
  {
    BytesRead(ms);
    ConcatLength(ParseHeader, Bytes(ms), ms);
  }

  lemma TakeAll(a: string, b: string, n: nat)
    requires n == |a| + |b|
    ensures (a + b)[..n] == a + b
  {
  }

  /** The uncut archive gives all members back. */
  lemma WholeArchive(ms: seq<Member>)
    requires forall i :: 0 <= i < |ms| ==> Legal(ms[i])
    ensures Archive(Encode(ms)) == Ok(Entries(ms, |ms|)) && |Entries(ms, |ms|)| == |ms|
    ensures forall i :: 0 <= i < |ms| ==> Entries(ms, |ms|)[i] == EntryOf(ms[i])
  {
    forall i | 0 <= i < |ms|
      ensures |Entries(ms, |ms|)| == |ms| && Entries(ms, |ms|)[i] == EntryOf(ms[i])
    {
      EntriesInOrder(ms, |ms|, i);
    }
    var n := |Bodies(ms)|;
    BodiesLength(ms);
    assert CutAfter(ms, |ms|, n);
    ArRoundTrip(ms, n);
    TakeAll(MAGIC, Bodies(ms), |MAGIC| + n);
  }

  /** So does the archive that lacks only the pad byte of an odd last member. */
  lemma FinalPadIsOptional(ms: seq<Member>)
    requires (forall i :: 0 <= i < |ms| ==> Legal(ms[i])) && ms != [] && |ms[|ms| - 1].data| % 2 == 1
    ensures Bodies(ms) != "" && Archive(Encode(ms)[..|MAGIC| + |Bodies(ms)| - 1]) == Ok(Entries(ms, |ms|))
  {
    var n := |Bodies(ms)|;
    BodiesLength(ms);
    EndGrows(ms, |ms|);
    assert CutAfter(ms, |ms|, n - 1);
    ArRoundTrip(ms, n - 1);
  }
}
