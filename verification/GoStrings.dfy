/**
  Go strings and the functions of package strings that the parsers use.  A Go string is a sequence
  of bytes; here each char stands for one byte.  TrimSpace works on UTF-8: the Unicode spaces above
  ASCII are the two- and three-byte patterns below.
 */
module GoStrings {
  import opened Basics

  lemma Associative<T>(a: seq<T>, b: seq<T>, c: seq<T>)
    ensures (a + b) + c == a + (b + c)
  {
  }

  // ---------------------------------------------------------------- white space

  predicate AsciiSpace(c: char) {
    c == ' ' || '\t' <= c <= '\r'
  }

  predicate TwoByteSpace(a: char, b: char) {
    a == '\U{00C2}' && (b == '\U{0085}' || b == '\U{00A0}')
  }

  predicate ThreeByteSpace(a: char, b: char, c: char) {
    || (a == '\U{00E1}' && b == '\U{009A}' && c == '\U{0080}')
    || (a == '\U{00E2}' && b == '\U{0080}' &&
        ('\U{0080}' <= c <= '\U{008A}' || c == '\U{00A8}' || c == '\U{00A9}' || c == '\U{00AF}'))
    || (a == '\U{00E2}' && b == '\U{0081}' && c == '\U{009F}')
    || (a == '\U{00E3}' && b == '\U{0080}' && c == '\U{0080}')
  }

  /** Bytes of the space at the start of `s`, 0 if it starts with none. */
  function LeadSpace(s: string): (n: nat)
    ensures n <= |s|
  {
    if |s| >= 1 && AsciiSpace(s[0]) then 1
    else if |s| >= 2 && TwoByteSpace(s[0], s[1]) then 2
    else if |s| >= 3 && ThreeByteSpace(s[0], s[1], s[2]) then 3
    else 0
  }

  /** Bytes of the space at the end of `s`, 0 if it ends with none. */
  function TailSpace(s: string): (n: nat)
    ensures n <= |s|
  {
    var m := |s|;
    if m >= 1 && AsciiSpace(s[m - 1]) then 1
    else if m >= 2 && TwoByteSpace(s[m - 2], s[m - 1]) then 2
    else if m >= 3 && ThreeByteSpace(s[m - 3], s[m - 2], s[m - 1]) then 3
    else 0
  }

  function TrimLeft(s: string): string {
    if LeadSpace(s) == 0 then s else TrimLeft(s[LeadSpace(s)..])
  }

  function TrimRight(s: string): string {
    if TailSpace(s) == 0 then s else TrimRight(s[..|s| - TailSpace(s)])
  }

  /** strings.TrimSpace */
  function TrimSpace(s: string): string {
    TrimRight(TrimLeft(s))
  }

  predicate IsBlank(s: string) {
    TrimSpace(s) == ""
  }

  predicate Trimmed(s: string) {
    LeadSpace(s) == 0 && TailSpace(s) == 0
  }

  /** A visible ASCII character, which is no part of any space. */
  predicate IsInk(c: char) {
    '!' <= c <= '~'
  }

  lemma LeadOfPrefix(p: string, s: string)
    requires p <= s && LeadSpace(p) > 0
    ensures LeadSpace(s) == LeadSpace(p)
  {
  }

  lemma {:induction false} TrimRightIsPrefix(s: string)
    ensures TrimRight(s) <= s && TailSpace(TrimRight(s)) == 0
    decreases |s|
  {
    if TailSpace(s) > 0 {
      TrimRightIsPrefix(s[..|s| - TailSpace(s)]);
    }
  }

  lemma {:induction false} TrimLeftTrims(s: string)
    ensures LeadSpace(TrimLeft(s)) == 0
    decreases |s|
  {
    if LeadSpace(s) > 0 {
      TrimLeftTrims(s[LeadSpace(s)..]);
    }
  }

  lemma {:induction false} TrimLeftShrinks(s: string)
    ensures |TrimLeft(s)| <= |s| && forall c :: c in TrimLeft(s) ==> c in s
    decreases |s|
  {
    var n := LeadSpace(s);
    if n > 0 {
      TrimLeftShrinks(s[n..]);
      assert forall c :: c in s[n..] ==> c in s;
    }
  }

  lemma TrimSpaceTrims(s: string)
    ensures Trimmed(TrimSpace(s))
    ensures forall c :: c in TrimSpace(s) ==> c in s
  {
    var l := TrimLeft(s);
    TrimLeftTrims(s);
    TrimLeftShrinks(s);
    TrimRightIsPrefix(l);
    if LeadSpace(TrimRight(l)) > 0 {
      LeadOfPrefix(TrimRight(l), l);
    }
  }

  lemma TrimSpaceKeepsTrimmed(s: string)
    requires Trimmed(s)
    ensures TrimSpace(s) == s && TrimSpace(" " + s) == s
  {
    assert (" " + s)[1..] == s;
  }

  lemma InkIsTrimmed(s: string)
    requires s != "" && IsInk(s[0]) && IsInk(s[|s| - 1])
    ensures Trimmed(s)
  {
  }

  lemma TailIsNotInk(s: string, i: nat)
    requires |s| - TailSpace(s) <= i < |s|
    ensures !IsInk(s[i])
  {
  }

  lemma LeadIsNotInk(s: string, i: nat)
    requires i < LeadSpace(s)
    ensures !IsInk(s[i])
  {
  }

  lemma {:induction false} TrimRightKeepsInk(s: string, c: char)
    requires c in s && IsInk(c)
    ensures c in TrimRight(s)
    decreases |s|
  {
    var n := TailSpace(s);
    if n > 0 {
      var i :| 0 <= i < |s| && s[i] == c;
      if i >= |s| - n {
        TailIsNotInk(s, i);
      }
      assert s[..|s| - n][i] == c;
      TrimRightKeepsInk(s[..|s| - n], c);
    }
  }

  lemma {:induction false} TrimLeftKeepsInk(s: string, c: char)
    requires c in s && IsInk(c)
    ensures c in TrimLeft(s)
    decreases |s|
  {
    var n := LeadSpace(s);
    if n > 0 {
      var i :| 0 <= i < |s| && s[i] == c;
      if i < n {
        LeadIsNotInk(s, i);
      }
      assert s[n..][i - n] == c;
      TrimLeftKeepsInk(s[n..], c);
    }
  }

  lemma InkIsNotBlank(s: string, c: char)
    requires c in s && IsInk(c)
    ensures !IsBlank(s)
  {
    TrimLeftKeepsInk(s, c);
    TrimRightKeepsInk(TrimLeft(s), c);
  }

  function Spaces(n: nat): string {
    seq(n, _ => ' ')
  }

  lemma {:induction false} TrimRightPadding(s: string, n: nat)
    ensures TrimRight(s + Spaces(n)) == TrimRight(s)
    decreases n
  {
    var p := s + Spaces(n);
    if n == 0 {
      assert p == s;
    } else {
      assert p[..|p| - 1] == s + Spaces(n - 1);
      TrimRightPadding(s, n - 1);
    }
  }

  /** Padding a field with spaces and trimming it gives the field back. */
  lemma TrimPadded(s: string, n: nat)
    requires Trimmed(s)
    ensures TrimSpace(s + Spaces(n)) == s
    decreases n
  {
    if s == "" {
      TrimSpacesOnly(n);
      assert s + Spaces(n) == Spaces(n);
    } else {
      assert LeadSpace(s + Spaces(n)) == 0;
      TrimRightPadding(s, n);
    }
  }

  lemma {:induction false} TrimSpacesOnly(n: nat)
    ensures TrimSpace(Spaces(n)) == ""
  {
    if n > 0 {
      assert Spaces(n)[1..] == Spaces(n - 1);
      TrimSpacesOnly(n - 1);
    }
  }

  // ---------------------------------------------------------------- white space, by code point

  /** unicode.IsSpace */
  predicate UnicodeSpace(c: nat) {
    || 0x9 <= c <= 0xD || c == 0x20 || c == 0x85 || c == 0xA0 || c == 0x1680
    || 0x2000 <= c <= 0x200A || c == 0x2028 || c == 0x2029 || c == 0x202F || c == 0x205F || c == 0x3000
  }

  /** A code point of the basic plane in UTF-8. */
  function Utf8(c: nat): string
    requires c < 0x1_0000
  {
    if c < 0x80 then [c as char]
    else if c < 0x800 then [(0xC0 + c / 64) as char, (0x80 + c % 64) as char]
    else [(0xE0 + c / 4096) as char, (0x80 + c / 64 % 64) as char, (0x80 + c % 64) as char]
  }

  /** A string begins with a space exactly when it begins with the bytes of a white space code point. */
  lemma LeadSpaceReads(s: string, c: nat)
    requires UnicodeSpace(c) && Utf8(c) <= s
    ensures LeadSpace(s) == |Utf8(c)|
  {
    var u := Utf8(c);
    assert s[0] == u[0] && (|u| >= 2 ==> s[1] == u[1]) && (|u| == 3 ==> s[2] == u[2]);
  }

  lemma TailSpaceReads(s: string, c: nat)
    requires UnicodeSpace(c) && |Utf8(c)| <= |s| && s[|s| - |Utf8(c)|..] == Utf8(c)
    ensures TailSpace(s) == |Utf8(c)|
  {
    var u := Utf8(c);
    var k := |s| - |u|;
    assert s[k] == s[k..][0] == u[0] && (|u| >= 2 ==> s[k + 1] == s[k..][1] == u[1]) && (|u| == 3 ==> s[k + 2] == s[k..][2] == u[2]);
  }

  lemma TwoBytePoint(u: string) returns (c: nat)
    requires |u| == 2 && TwoByteSpace(u[0], u[1])
    ensures UnicodeSpace(c) && Utf8(c) == u
  {
    c := u[1] as int;
    assert Utf8(0x85) == ['\U{00C2}', '\U{0085}'] && Utf8(0xA0) == ['\U{00C2}', '\U{00A0}'];
  }

  lemma ThreeBytePoint(u: string) returns (c: nat)
    requires |u| == 3 && ThreeByteSpace(u[0], u[1], u[2])
    ensures UnicodeSpace(c) && Utf8(c) == u
  {
    if u[0] == '\U{00E1}' {
      c := 0x1680;
    } else if u[0] == '\U{00E3}' {
      c := 0x3000;
    } else if u[1] == '\U{0081}' {
      c := 0x205F;
    } else {
      var k := u[2] as int - 0x80;
      c := 0x2000 + k;
      assert c / 4096 == 2 && c / 64 == 128 && c % 64 == k;
    }
  }

  /** A space of one, two or three bytes is a white space code point. */
  lemma SpacePoint(u: string) returns (c: nat)
    requires (|u| == 1 && AsciiSpace(u[0])) || (|u| == 2 && TwoByteSpace(u[0], u[1])) || (|u| == 3 && ThreeByteSpace(u[0], u[1], u[2]))
    ensures UnicodeSpace(c) && Utf8(c) == u
  {
    if |u| == 1 {
      c := u[0] as int;
    } else if |u| == 2 {
      c := TwoBytePoint(u);
    } else {
      c := ThreeBytePoint(u);
    }
  }

  /** The code points, one after the other. */
  function Spell(cs: seq<nat>): string
    requires AllSpaces(cs)
  {
    if cs == [] then "" else
      assert UnicodeSpace(cs[0]);
      Utf8(cs[0]) + Spell(cs[1..])
  }

  lemma {:induction false} SpellSnoc(cs: seq<nat>, c: nat)
    requires UnicodeSpace(c) && AllSpaces(cs)
    ensures Spell(cs + [c]) == Spell(cs) + Utf8(c)
    decreases |cs|
  {
    if cs == [] {
      assert cs + [c] == [c] && Spell([c]) == Utf8(c) + Spell([c][1..]);
    } else {
      assert (cs + [c])[0] == cs[0] && (cs + [c])[1..] == cs[1..] + [c];
      SpellSnoc(cs[1..], c);
      Associative(Utf8(cs[0]), Spell(cs[1..]), Utf8(c));
    }
  }

  lemma LeadPoint(s: string) returns (c: nat)
    requires LeadSpace(s) > 0
    ensures UnicodeSpace(c) && Utf8(c) == s[..LeadSpace(s)]
  {
    c := SpacePoint(s[..LeadSpace(s)]);
  }

  lemma TailPoint(s: string) returns (c: nat)
    requires TailSpace(s) > 0
    ensures UnicodeSpace(c) && Utf8(c) == s[|s| - TailSpace(s)..]
  {
    c := SpacePoint(s[|s| - TailSpace(s)..]);
  }

  predicate AllSpaces(cs: seq<nat>) {
    forall i :: 0 <= i < |cs| ==> UnicodeSpace(cs[i])
  }

  lemma SpellCons(c: nat, cs: seq<nat>, s: string, n: nat, r: string)
    requires UnicodeSpace(c) && AllSpaces(cs) && n <= |s| && Utf8(c) == s[..n] && s[n..] == Spell(cs) + r
    ensures AllSpaces([c] + cs) && s == Spell([c] + cs) + r
  {
    assert s == s[..n] + s[n..];
    assert ([c] + cs)[1..] == cs;
    Associative(Utf8(c), Spell(cs), r);
  }

  lemma SpellEnd(c: nat, cs: seq<nat>, s: string, k: nat, r: string)
    requires UnicodeSpace(c) && AllSpaces(cs) && k <= |s| && Utf8(c) == s[k..] && s[..k] == r + Spell(cs)
    ensures AllSpaces(cs + [c]) && s == r + Spell(cs + [c])
  {
    SpellSnoc(cs, c);
    ThreeParts(s, k, r, Spell(cs), Utf8(c));
  }

  lemma ThreeParts(s: string, k: nat, r: string, a: string, u: string)
    requires k <= |s| && s[..k] == r + a && s[k..] == u
    ensures s == r + (a + u)
  {
    assert s == s[..k] + s[k..];
  }

  lemma {:induction false} TrimLeftReads(s: string) returns (cs: seq<nat>)
    ensures AllSpaces(cs) && s == Spell(cs) + TrimLeft(s)
    decreases |s|
  {
    var n := LeadSpace(s);
    if n == 0 {
      cs := [];
      assert "" + s == s;
    } else {
      var c := LeadPoint(s);
      var rest := TrimLeftReads(s[n..]);
      SpellCons(c, rest, s, n, TrimLeft(s[n..]));
      cs := [c] + rest;
    }
  }

  lemma {:induction false} TrimRightReads(s: string) returns (cs: seq<nat>)
    ensures AllSpaces(cs) && s == TrimRight(s) + Spell(cs)
    decreases |s|
  {
    var n := TailSpace(s);
    if n == 0 {
      cs := [];
      assert s + "" == s;
    } else {
      var c := TailPoint(s);
      var rest := TrimRightReads(s[..|s| - n]);
      SpellEnd(c, rest, s, |s| - n, TrimRight(s[..|s| - n]));
      cs := rest + [c];
    }
  }

  /** TrimSpace takes white space code points off both ends and leaves none there. */
  lemma TrimSpaceReads(s: string) returns (lead: seq<nat>, tail: seq<nat>)
    ensures AllSpaces(lead) && AllSpaces(tail)
    ensures s == Spell(lead) + (TrimSpace(s) + Spell(tail))
    ensures forall c: nat :: UnicodeSpace(c) ==> !(Utf8(c) <= TrimSpace(s))
    ensures forall c: nat :: UnicodeSpace(c) && |Utf8(c)| <= |TrimSpace(s)| ==> TrimSpace(s)[|TrimSpace(s)| - |Utf8(c)|..] != Utf8(c)
  {
    lead := TrimLeftReads(s);
    tail := TrimRightReads(TrimLeft(s));
    TrimSpaceTrims(s);
    NoSpaceAtEnds(TrimSpace(s));
  }

  lemma NoSpaceAtEnds(r: string)
    requires Trimmed(r)
    ensures forall c: nat :: UnicodeSpace(c) ==> !(Utf8(c) <= r)
    ensures forall c: nat :: UnicodeSpace(c) && |Utf8(c)| <= |r| ==> r[|r| - |Utf8(c)|..] != Utf8(c)
  {
    forall c: nat | UnicodeSpace(c)
      ensures !(Utf8(c) <= r)
    {
      if Utf8(c) <= r {
        LeadSpaceReads(r, c);
      }
    }
    forall c: nat | UnicodeSpace(c) && |Utf8(c)| <= |r|
      ensures r[|r| - |Utf8(c)|..] != Utf8(c)
    {
      if r[|r| - |Utf8(c)|..] == Utf8(c) {
        TailSpaceReads(r, c);
      }
    }
  }

  // ---------------------------------------------------------------- trailing characters

  /** strings.TrimRight with a cutset. */
  function CutRight(s: string, cutset: set<char>): string {
    if s == "" || s[|s| - 1] !in cutset then s else CutRight(s[..|s| - 1], cutset)
  }

  // ---------------------------------------------------------------- lines

  /** strings.Split(s, "\n") */
  function Lines(s: string): (ls: seq<string>)
    ensures |ls| >= 1
  {
    if s == "" then [""]
    else if s[0] == '\n' then [""] + Lines(s[1..])
    else
      var rest := Lines(s[1..]);
      [[s[0]] + rest[0]] + rest[1..]
  }

  /** strings.Join(ls, "\n") */
  function JoinLines(ls: seq<string>): string
    requires |ls| >= 1
  {
    if |ls| == 1 then ls[0] else ls[0] + "\n" + JoinLines(ls[1..])
  }

  predicate OneLine(s: string) {
    '\n' !in s
  }

  lemma {:induction false} LinesAreLines(s: string)
    ensures forall i :: 0 <= i < |Lines(s)| ==> OneLine(Lines(s)[i])
    decreases |s|
  {
    if s != "" {
      LinesAreLines(s[1..]);
    }
  }

  lemma {:induction false} OneLineLines(s: string)
    requires OneLine(s)
    ensures Lines(s) == [s]
    decreases |s|
  {
    if s != "" {
      OneLineLines(s[1..]);
      assert [s[0]] + s[1..] == s;
    }
  }

  /** Splitting distributes over a line break. */
  lemma {:induction false} LinesBreak(a: string, b: string)
    ensures Lines(a + "\n" + b) == Lines(a) + Lines(b)
    decreases |a|
  {
    var s := a + "\n" + b;
    if a == "" {
      assert s[0] == '\n' && s[1..] == b;
    } else {
      assert s[0] == a[0] && s[1..] == a[1..] + "\n" + b;
      LinesBreak(a[1..], b);
      var rest, tail := Lines(a[1..]), Lines(b);
      assert Lines(s[1..]) == rest + tail;
      if a[0] == '\n' {
        Associative([""], rest, tail);
      } else {
        assert (rest + tail)[1..] == rest[1..] + tail;
        Associative([[a[0]] + rest[0]], rest[1..], tail);
      }
    }
  }

  /** The lines `la` and then `lb`, the last of one and the first of the other on one line. */
  function Glued(la: seq<string>, lb: seq<string>): seq<string>
    requires |la| >= 1 && |lb| >= 1
  {
    la[..|la| - 1] + ([la[|la| - 1] + lb[0]] + lb[1..])
  }

  /** Splitting a concatenation. */
  lemma {:induction false} LinesConcat(a: string, b: string)
    ensures Lines(a + b) == Glued(Lines(a), Lines(b))
    decreases |a|
  {
    var lb := Lines(b);
    if a == "" {
      assert a + b == b && "" + lb[0] == lb[0];
      assert [lb[0]] + lb[1..] == lb;
    } else {
      assert (a + b)[0] == a[0] && (a + b)[1..] == a[1..] + b;
      LinesConcat(a[1..], b);
      GlueAfterFirst("", Lines(a[1..]), lb);
      GlueAfterGrowing(a[0], Lines(a[1..]), lb);
    }
  }

  lemma GlueAfterFirst(first: string, la: seq<string>, lb: seq<string>)
    requires |la| >= 1 && |lb| >= 1
    ensures Glued([first] + la, lb) == [first] + Glued(la, lb)
  {
  }

  lemma GlueAfterGrowing(c: char, la: seq<string>, lb: seq<string>)
    requires |la| >= 1 && |lb| >= 1
    ensures Glued([[c] + la[0]] + la[1..], lb) == [[c] + Glued(la, lb)[0]] + Glued(la, lb)[1..]
  {
    if |la| == 1 {
      assert [c] + (la[0] + lb[0]) == ([c] + la[0]) + lb[0];
    }
  }

  lemma {:induction false} LinesOfJoin(ls: seq<string>)
    requires |ls| >= 1 && forall i :: 0 <= i < |ls| ==> OneLine(ls[i])
    ensures Lines(JoinLines(ls)) == ls
    decreases |ls|
  {
    OneLineLines(ls[0]);
    if |ls| > 1 {
      LinesOfJoin(ls[1..]);
      LinesBreak(ls[0], JoinLines(ls[1..]));
    }
  }

  lemma JoinPrepend(c: char, ls: seq<string>)
    requires |ls| >= 1
    ensures JoinLines([[c] + ls[0]] + ls[1..]) == [c] + JoinLines(ls)
  {
    var ls' := [[c] + ls[0]] + ls[1..];
    if |ls| > 1 {
      var rest := JoinLines(ls[1..]);
      assert ls'[1..] == ls[1..];
      Associative([c], ls[0], "\n");
      Associative([c], ls[0] + "\n", rest);
    }
  }

  lemma {:induction false} JoinOfLines(s: string)
    ensures JoinLines(Lines(s)) == s
    decreases |s|
  {
    if s != "" {
      JoinOfLines(s[1..]);
      var rest := Lines(s[1..]);
      if s[0] == '\n' {
        assert ([""] + rest)[1..] == rest;
      } else {
        JoinPrepend(s[0], rest);
      }
    }
  }

  /** Slices as a loop over `s` sees them. */
  lemma SliceNext<T>(s: seq<T>, i: nat)
    requires i < |s|
    ensures s[i..] != [] && s[i..][0] == s[i] && s[i..][1..] == s[i + 1..]
  {
  }

  // ---------------------------------------------------------------- searching

  /** strings.IndexByte */
  function IndexOf(s: string, c: char): (r: Option<nat>)
    ensures r.Some? ==> r.value < |s| && s[r.value] == c && c !in s[..r.value]
    ensures r.None? ==> c !in s
  {
    if s == "" then None
    else if s[0] == c then Some(0)
    else match IndexOf(s[1..], c)
      case None => None
      case Some(i) => assert s[..i + 1] == [s[0]] + s[1..][..i]; Some(i + 1)
  }

  lemma {:induction false} IndexAfter(key: string, rest: string, c: char)
    requires c !in key
    ensures IndexOf(key + [c] + rest, c) == Some(|key|)
    decreases |key|
  {
    if key != "" {
      assert (key + [c] + rest)[1..] == key[1..] + [c] + rest;
      IndexAfter(key[1..], rest, c);
    }
  }

  // ---------------------------------------------------------------- decimals

  function Digit(d: nat): char
    requires d < 10
  {
    '0' + d as char
  }

  function DigitValue(c: char): int {
    c as int - '0' as int
  }

  predicate IsDigit(c: char) {
    '0' <= c <= '9'
  }

  /** Decimal digits of a natural number, as printed by %d. */
  function Decimal(n: nat): (s: string)
    ensures s != "" && forall i :: 0 <= i < |s| ==> IsDigit(s[i])
  {
    if n < 10 then [Digit(n)] else Decimal(n / 10) + [Digit(n % 10)]
  }

  function DecimalInt(n: int): string {
    if n < 0 then "-" + Decimal(-n) else Decimal(n)
  }

  predicate AllDigits(s: string) {
    forall i :: 0 <= i < |s| ==> IsDigit(s[i])
  }

  /** The number a digit string stands for. */
  function DigitsValue(s: string): nat
    requires AllDigits(s)
  {
    if s == "" then 0 else DigitsValue(s[..|s| - 1]) * 10 + DigitValue(s[|s| - 1])
  }

  lemma {:induction false} DecimalValue(n: nat)
    ensures AllDigits(Decimal(n)) && DigitsValue(Decimal(n)) == n
    decreases n
  {
    var s := Decimal(n);
    if n >= 10 {
      DecimalValue(n / 10);
      assert s[..|s| - 1] == Decimal(n / 10);
    } else {
      assert s[..0] == "";
    }
  }

  /** `s` is the decimal numeral of `n`: its digits, after a minus sign when it is negative. */
  predicate Numeral(s: string, n: int) {
    if n >= 0 then s != "" && AllDigits(s) && DigitsValue(s) == n
    else |s| > 1 && s[0] == '-' && AllDigits(s[1..]) && DigitsValue(s[1..]) == -n
  }

  lemma DecimalIsNumeral(n: int)
    ensures Numeral(DecimalInt(n), n)
  {
    DecimalValue(if n < 0 then -n else n);
    if n < 0 {
      assert DecimalInt(n)[1..] == Decimal(-n);
    }
  }

  /** What is cut off is of the cutset, and what is left does not end in it. */
  lemma {:induction false} CutRightReads(s: string, cutset: set<char>)
    ensures var r := CutRight(s, cutset);
            && r <= s && (forall i :: |r| <= i < |s| ==> s[i] in cutset)
            && (r != "" ==> r[|r| - 1] !in cutset)
    decreases |s|
  {
    if s != "" && s[|s| - 1] in cutset {
      CutRightReads(s[..|s| - 1], cutset);
    }
  }
}
