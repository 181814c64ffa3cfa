/**
  Docker's multiplexed log stream, parsed by parseDockerLogStream in internal/handler/container.go:
  frames of an 8-byte header (stream type, three bytes of padding, big-endian payload size) and a
  payload of text lines.  Bytes are chars.
 */
module DockerLogs {
  import opened Basics
  import opened GoStrings

  datatype Stream = Stdout | Stderr

  datatype LogEntry = LogEntry(stream: Stream, content: string)

  function StreamOf(kind: char): Stream {
    if kind == '\U{0002}' then Stderr else Stdout
  }

  // ---------------------------------------------------------------- the lines of one payload

  function LineEntry(stream: Stream, line: string): seq<LogEntry> {
    var text := CutRight(line, {'\r'});
    if text == "" then [] else [LogEntry(stream, text)]
  }

  /** One entry for each line that is not empty once trailing carriage returns are gone. */
  function LineEntries(stream: Stream, ls: seq<string>): seq<LogEntry> {
    if ls == [] then [] else LineEntry(stream, ls[0]) + LineEntries(stream, ls[1..])
  }

  /** What a payload says: its non-empty lines, tagged with the stream. */
  function PayloadEntries(kind: char, payload: string): seq<LogEntry> {
    LineEntries(StreamOf(kind), Lines(payload))
  }

  lemma {:induction false} LineEntriesConcat(stream: Stream, a: seq<string>, b: seq<string>)
    ensures LineEntries(stream, a + b) == LineEntries(stream, a) + LineEntries(stream, b)
    decreases |a|
  {
    if a == [] {
      assert a + b == b;
    } else {
      assert (a + b)[0] == a[0] && (a + b)[1..] == a[1..] + b;
      LineEntriesConcat(stream, a[1..], b);
      Associative(LineEntry(stream, a[0]), LineEntries(stream, a[1..]), LineEntries(stream, b));
    }
  }

  lemma OneLineEntries(stream: Stream, line: string)
    ensures LineEntries(stream, [line]) == LineEntry(stream, line)
  {
    assert LineEntries(stream, [line]) == LineEntry(stream, line) + LineEntries(stream, [line][1..]);
  }

  /** Trailing line breaks and carriage returns add no entry. */
  lemma {:induction false} TrailingBreaksSayNothing(stream: Stream, payload: string)
    ensures LineEntries(stream, Lines(CutRight(payload, {'\n', '\r'}))) == LineEntries(stream, Lines(payload))
    decreases |payload|
  {
    if payload != "" && payload[|payload| - 1] in {'\n', '\r'} {
      var init, c := payload[..|payload| - 1], payload[|payload| - 1];
      TrailingBreaksSayNothing(stream, init);
      assert payload == init + [c];
      if c == '\n' {
        LineBreakSaysNothing(stream, init);
      } else {
        CarriageReturnSaysNothing(stream, init);
      }
    }
  }

  lemma LineBreakSaysNothing(stream: Stream, s: string)
    ensures LineEntries(stream, Lines(s + ['\n'])) == LineEntries(stream, Lines(s))
  {
    LinesBreak(s, "");
    assert s + "\n" + "" == s + ['\n'];
    LineEntriesConcat(stream, Lines(s), [""]);
    OneLineEntries(stream, "");
  }

  lemma CarriageReturnSaysNothing(stream: Stream, s: string)
    ensures LineEntries(stream, Lines(s + ['\r'])) == LineEntries(stream, Lines(s))
  {
    LinesConcat(s, ['\r']);
    OneLineLines(['\r']);
    GluedSaysTheSame(stream, Lines(s));
  }

  lemma GluedSaysTheSame(stream: Stream, ls: seq<string>)
    requires |ls| >= 1
    ensures LineEntries(stream, Glued(ls, [['\r']])) == LineEntries(stream, ls)
  {
    var init, last := ls[..|ls| - 1], ls[|ls| - 1];
    assert Glued(ls, [['\r']]) == init + [last + ['\r']];
    LineEntriesConcat(stream, init, [last + ['\r']]);
    LineEntriesConcat(stream, init, [last]);
    OneLineEntries(stream, last + ['\r']);
    OneLineEntries(stream, last);
    assert init + [last] == ls;
  }

  /** `text` is the line without its trailing carriage returns. */
  predicate Stripped(line: string, text: string) {
    && text <= line && (forall i :: |text| <= i < |line| ==> line[i] == '\r')
    && (text != "" ==> text[|text| - 1] != '\r')
  }

  /**
    The entries say the lines numbered `at`, in order, each on the stream and without its trailing
    carriage returns; and these are exactly the lines from number `i` on that have another character.
   */
  ghost predicate SaysLines(stream: Stream, ls: seq<string>, i: nat, entries: seq<LogEntry>, at: seq<nat>) {
    SayTheLines(stream, ls, i, entries, at) && Ascending(at) && OthersSayNothing(ls, i, at)
  }

  predicate SayTheLines(stream: Stream, ls: seq<string>, i: nat, entries: seq<LogEntry>, at: seq<nat>) {
    |at| == |entries| && forall k :: 0 <= k < |at| ==> i <= at[k] < |ls| && SaysLine(stream, ls[at[k]], entries[k])
  }

  predicate Ascending(at: seq<nat>) {
    forall k, l :: 0 <= k < l < |at| ==> at[k] < at[l]
  }

  ghost predicate OthersSayNothing(ls: seq<string>, i: nat, at: seq<nat>) {
    forall n: nat :: i <= n < |ls| && n !in at ==> Stripped(ls[n], "")
  }

  predicate SaysLine(stream: Stream, line: string, entry: LogEntry) {
    entry.stream == stream && entry.content != "" && Stripped(line, entry.content)
  }

  lemma NotInTail(i: nat, at: seq<nat>, n: nat)
    requires n !in [i] + at
    ensures n !in at
  {
    forall k | 0 <= k < |at|
      ensures at[k] != n
    {
      assert ([i] + at)[k + 1] == at[k];
    }
  }

  lemma OneMoreSaid(stream: Stream, ls: seq<string>, i: nat, entries: seq<LogEntry>, at: seq<nat>, entry: LogEntry)
    requires i < |ls| && SayTheLines(stream, ls, i + 1, entries, at) && SaysLine(stream, ls[i], entry)
    ensures SayTheLines(stream, ls, i, [entry] + entries, [i] + at)
  {
  }

  lemma OneMoreAscends(i: nat, at: seq<nat>)
    requires Ascending(at) && forall k :: 0 <= k < |at| ==> i < at[k]
    ensures Ascending([i] + at)
  {
  }

  lemma OneFewerOther(ls: seq<string>, i: nat, at: seq<nat>)
    requires OthersSayNothing(ls, i + 1, at)
    ensures OthersSayNothing(ls, i, [i] + at)
  {
    forall n: nat | i <= n < |ls| && n !in [i] + at
      ensures Stripped(ls[n], "")
    {
      assert ([i] + at)[0] == i;
      NotInTail(i, at, n);
    }
  }

  lemma SaysOneMore(stream: Stream, ls: seq<string>, i: nat, entries: seq<LogEntry>, at: seq<nat>, entry: LogEntry)
    requires i < |ls| && SaysLines(stream, ls, i + 1, entries, at) && SaysLine(stream, ls[i], entry)
    ensures SaysLines(stream, ls, i, [entry] + entries, [i] + at)
  {
    OneMoreSaid(stream, ls, i, entries, at, entry);
    OneMoreAscends(i, at);
    OneFewerOther(ls, i, at);
  }

  lemma SaysNoMore(stream: Stream, ls: seq<string>, i: nat, entries: seq<LogEntry>, at: seq<nat>)
    requires i < |ls| && SaysLines(stream, ls, i + 1, entries, at) && Stripped(ls[i], "")
    ensures SaysLines(stream, ls, i, entries, at)
  {
  }

  lemma SaysNext(stream: Stream, ls: seq<string>, i: nat, rest: seq<LogEntry>, at: seq<nat>, text: string) returns (at': seq<nat>)
    requires i < |ls| && SaysLines(stream, ls, i + 1, rest, at) && Stripped(ls[i], text)
    ensures SaysLines(stream, ls, i, if text == "" then rest else [LogEntry(stream, text)] + rest, at')
  {
    if text == "" {
      SaysNoMore(stream, ls, i, rest, at);
      at' := at;
    } else {
      SaysOneMore(stream, ls, i, rest, at, LogEntry(stream, text));
      at' := [i] + at;
    }
  }

  lemma {:induction false} LineEntriesRead(stream: Stream, ls: seq<string>, i: nat, entries: seq<LogEntry>) returns (at: seq<nat>)
    requires i <= |ls| && entries == LineEntries(stream, ls[i..])
    ensures SaysLines(stream, ls, i, entries, at)
    decreases |ls| - i
  {
    if i == |ls| {
      at := [];
    } else {
      var rest := LineEntries(stream, ls[i + 1..]);
      at := LineEntriesRead(stream, ls, i + 1, rest);
      CutRightReads(ls[i], {'\r'});
      EntriesFrom(stream, ls, i);
      at := SaysNext(stream, ls, i, rest, at, CutRight(ls[i], {'\r'}));
    }
  }

  lemma EntriesFrom(stream: Stream, ls: seq<string>, i: nat)
    requires i < |ls|
    ensures var text, rest := CutRight(ls[i], {'\r'}), LineEntries(stream, ls[i + 1..]);
            LineEntries(stream, ls[i..]) == if text == "" then rest else [LogEntry(stream, text)] + rest
  {
    SliceNext(ls, i);
    var rest := LineEntries(stream, ls[i + 1..]);
    assert [] + rest == rest;
  }

  /** What a payload says: type 2 is stderr and any other stdout, and its lines are those with a character besides carriage returns. */
  lemma PayloadReads(kind: char, payload: string) returns (at: seq<nat>)
    ensures SaysLines(if kind as int == 2 then Stderr else Stdout, Lines(payload), 0, PayloadEntries(kind, payload), at)
  {
    assert Lines(payload)[0..] == Lines(payload);
    at := LineEntriesRead(StreamOf(kind), Lines(payload), 0, PayloadEntries(kind, payload));
  }

  // ---------------------------------------------------------------- frames

  const FRAME_HEADER: nat := 8

  /** binary.BigEndian.Uint32 */
  function Uint32(a: char, b: char, c: char, d: char): nat {
    ((a as int * 256 + b as int) * 256 + c as int) * 256 + d as int
  }

  type Decoder = (char, string) -> seq<LogEntry>

  /** The entries of a stream, whatever a payload stands for: a header or payload cut short ends it. */
  function EntriesWith(decode: Decoder, s: string): seq<LogEntry>
    decreases |s|
  {
    if |s| < FRAME_HEADER then [] else
      var size := Uint32(s[4], s[5], s[6], s[7]);
      if |s| < FRAME_HEADER + size then []
      else decode(s[0], s[FRAME_HEADER..FRAME_HEADER + size]) + EntriesWith(decode, s[FRAME_HEADER + size..])
  }

  function Entries(s: string): seq<LogEntry> {
    EntriesWith(PayloadEntries, s)
  }

  method ParseLines(stream: Stream, content: string) returns (entries: seq<LogEntry>)
    ensures entries == LineEntries(stream, Lines(content))
  {
    entries := [];
    var ls := Lines(content);
    var i := 0;
    assert ls[i..] == ls;
    while i < |ls|
      invariant 0 <= i <= |ls|
      invariant LineEntries(stream, ls) == entries + LineEntries(stream, ls[i..])
    {
      SliceNext(ls, i);
      var line := CutRight(ls[i], {'\r'});
      var added := [];
      if line != "" {
        added := [LogEntry(stream, line)];
      }
      assert LineEntries(stream, ls[i..]) == added + LineEntries(stream, ls[i + 1..]);
      Associative(entries, added, LineEntries(stream, ls[i + 1..]));
      entries := entries + added;
      i := i + 1;
    }
  }

  method ParsePayload(kind: char, payload: string) returns (entries: seq<LogEntry>)
    ensures entries == PayloadEntries(kind, payload)
  {
    var stream := Stdout;
    if kind == '\U{0002}' {
      stream := Stderr;
    }
    var content := CutRight(payload, {'\n', '\r'});
    TrailingBreaksSayNothing(stream, payload);
    if content == "" {
      OneLineEntries(stream, "");
      return [];
    }
    entries := ParseLines(stream, content);
  }

  lemma FirstFrame(decode: Decoder, s: string, n: nat)
    requires |s| >= FRAME_HEADER && n == FRAME_HEADER + Uint32(s[4], s[5], s[6], s[7]) && n <= |s|
    ensures EntriesWith(decode, s) == decode(s[0], s[FRAME_HEADER..n]) + EntriesWith(decode, s[n..])
  {
  }

  method ParseDockerLogStream(input: string) returns (entries: seq<LogEntry>)
    ensures entries == Entries(input)
  {
    entries := [];
    var r := input;
    ghost var left := Entries(input);
    while |r| >= 8
      invariant Entries(input) == entries + left && left == EntriesWith(PayloadEntries, r)
      decreases |r|
    {
      var size := Uint32(r[4], r[5], r[6], r[7]);
      if size == 0 {
        EmptyFrame(r);
        r := r[8..];
        continue;
      }
      if |r| < 8 + size {
        break;
      }
      FirstFrame(PayloadEntries, r, 8 + size);
      var added := ParsePayload(r[0], r[8..8 + size]);
      r := r[8 + size..];
      left := EntriesWith(PayloadEntries, r);
      Associative(entries, added, left);
      entries := entries + added;
    }
  }

  lemma EmptyFrame(s: string)
    requires |s| >= FRAME_HEADER && Uint32(s[4], s[5], s[6], s[7]) == 0
    ensures EntriesWith(PayloadEntries, s) == EntriesWith(PayloadEntries, s[FRAME_HEADER..])
  {
    FirstFrame(PayloadEntries, s, FRAME_HEADER);
    assert s[FRAME_HEADER..FRAME_HEADER] == "";
    OneLineEntries(StreamOf(s[0]), "");
  }

  // ---------------------------------------------------------------- round trip

  /** A frame; its three bytes of padding may hold anything. */
  datatype Frame = Frame(kind: char, padding: string, payload: string)

  predicate Encodable(f: Frame) {
    |f.padding| == 3 && |f.payload| < TWO_32
  }

  const TWO_32: nat := 0x1_0000_0000

  function Byte(n: nat): char
    requires n < 256
  {
    n as char
  }

  function BigEndian(n: nat): string
    requires n < TWO_32
  {
    [Byte(n / 0x100_0000), Byte(n / 0x1_0000 % 256), Byte(n / 256 % 256), Byte(n % 256)]
  }

  lemma BigEndianReads(n: nat)
    requires n < TWO_32
    ensures var b := BigEndian(n); Uint32(b[0], b[1], b[2], b[3]) == n
  {
    var q := n / 256;
    assert n == q * 256 + n % 256;
    assert q == n / 0x1_0000 * 256 + q % 256;
    assert n / 0x1_0000 == n / 0x100_0000 * 256 + n / 0x1_0000 % 256;
  }

  function EncodeFrame(f: Frame): string
    requires Encodable(f)
  {
    [f.kind] + f.padding + BigEndian(|f.payload|) + f.payload
  }

  function Encode(fs: seq<Frame>): string
    requires forall i :: 0 <= i < |fs| ==> Encodable(fs[i])
  {
    if fs == [] then "" else EncodeFrame(fs[0]) + Encode(fs[1..])
  }

  function Said(fs: seq<Frame>): seq<LogEntry> {
    if fs == [] then [] else PayloadEntries(fs[0].kind, fs[0].payload) + Said(fs[1..])
  }

  lemma FrameThen(decode: Decoder, f: Frame, rest: string)
    requires Encodable(f)
    ensures EntriesWith(decode, EncodeFrame(f) + rest) == decode(f.kind, f.payload) + EntriesWith(decode, rest)
  {
    var n := |f.payload|;
    var s := EncodeFrame(f) + rest;
    BigEndianReads(n);
    assert s[0] == f.kind && s[4] == BigEndian(n)[0] && s[5] == BigEndian(n)[1] && s[6] == BigEndian(n)[2] && s[7] == BigEndian(n)[3];
    assert s[FRAME_HEADER..FRAME_HEADER + n] == f.payload && s[FRAME_HEADER + n..] == rest;
  }

  /** Parsing the encoding of any frames gives the non-empty lines of each payload, in order, tagged with its stream. */
  lemma {:induction false} LogRoundTrip(fs: seq<Frame>)
    requires forall i :: 0 <= i < |fs| ==> Encodable(fs[i])
    ensures Entries(Encode(fs)) == Said(fs)
    decreases |fs|
  {
    if fs != [] {
      FrameThen(PayloadEntries, fs[0], Encode(fs[1..]));
      LogRoundTrip(fs[1..]);
    }
  }

  /** A frame that is cut short says nothing, and the whole frames before it say all they say. */
  lemma {:induction false} CutFrameSaysNothing(fs: seq<Frame>, rest: string)
    requires forall i :: 0 <= i < |fs| ==> Encodable(fs[i])
    requires |rest| < 8 || |rest| < 8 + Uint32(rest[4], rest[5], rest[6], rest[7])
    ensures Entries(Encode(fs) + rest) == Said(fs)
    decreases |fs|
  {
    if fs == [] {
      assert Encode(fs) + rest == rest;
    } else {
      Associative(EncodeFrame(fs[0]), Encode(fs[1..]), rest);
      FrameThen(PayloadEntries, fs[0], Encode(fs[1..]) + rest);
      CutFrameSaysNothing(fs[1..], rest);
    }
  }

  lemma PrefixAfter<T>(a: seq<T>, b: seq<T>, c: seq<T>)
    requires b <= c
    ensures a + b <= a + c
  {
  }

  lemma {:induction false} PrefixWith(decode: Decoder, s: string, c: nat)
    requires c <= |s|
    ensures EntriesWith(decode, s[..c]) <= EntriesWith(decode, s)
    decreases |s|
  {
    if c >= FRAME_HEADER {
      var n := FRAME_HEADER + Uint32(s[4], s[5], s[6], s[7]);
      if c >= n {
        assert s[..c][FRAME_HEADER..n] == s[FRAME_HEADER..n];
        assert s[..c][n..] == s[n..][..c - n];
        FirstFrame(decode, s, n);
        FirstFrame(decode, s[..c], n);
        PrefixWith(decode, s[n..], c - n);
        PrefixAfter(decode(s[0], s[FRAME_HEADER..n]), EntriesWith(decode, s[n..][..c - n]), EntriesWith(decode, s[n..]));
      }
    }
  }

  /** Cutting any byte stream anywhere never changes an entry: what is parsed is a prefix of the whole. */
  lemma CutStreamGivesPrefix(s: string, c: nat)
    requires c <= |s|
    ensures Entries(s[..c]) <= Entries(s)
  {
    PrefixWith(PayloadEntries, s, c);
  }
}
