/**
  Choosing the latest ISO: the version order of internal/service/version.go, and the hand-written
  insertion sort and directory search of internal/service/iso_scraper.go.
 */
module IsoSelect {
  import opened Basics

  // ---------------------------------------------------------------- versions

  /** Numeric tuple order: the first difference decides, a proper prefix is less. */
  function Compare(a: seq<int>, b: seq<int>): (r: int)
    ensures r == -1 || r == 0 || r == 1
  {
    if a == [] && b == [] then 0
    else if a == [] then -1
    else if b == [] then 1
    else if a[0] < b[0] then -1
    else if a[0] > b[0] then 1
    else Compare(a[1..], b[1..])
  }

  lemma {:induction false} CompareStep(a: seq<int>, b: seq<int>, i: nat)
    requires i <= |a| && i <= |b| && forall j :: 0 <= j < i ==> a[j] == b[j]
    ensures Compare(a, b) == Compare(a[i..], b[i..])
    decreases i
  {
    if i == 0 {
      assert a[0..] == a && b[0..] == b;
    } else {
      CompareStep(a[1..], b[1..], i - 1);
      assert a[1..][i - 1..] == a[i..] && b[1..][i - 1..] == b[i..];
    }
  }

  method CompareVersion(a: seq<int>, b: seq<int>) returns (r: int)
    ensures r == Compare(a, b)
  {
    var aLen, bLen := |a|, |b|;
    if aLen == 0 && bLen == 0 {
      return 0;
    }
    if aLen == 0 {
      return -1;
    }
    if bLen == 0 {
      return 1;
    }
    var minLen := aLen;
    if bLen < minLen {
      minLen := bLen;
    }
    var i := 0;
    while i < minLen
      invariant 0 <= i <= minLen
      invariant forall j :: 0 <= j < i ==> a[j] == b[j]
    {
      CompareStep(a, b, i);
      if a[i] < b[i] {
        return -1;
      }
      if a[i] > b[i] {
        return 1;
      }
      i := i + 1;
    }
    CompareStep(a, b, minLen);
    if aLen < bLen {
      return -1;
    }
    if aLen > bLen {
      return 1;
    }
    return 0;
  }

  lemma {:induction false} CompareMirrors(a: seq<int>, b: seq<int>)
    ensures Compare(a, b) == -Compare(b, a)
    decreases |a|
  {
    if a != [] && b != [] && a[0] == b[0] {
      CompareMirrors(a[1..], b[1..]);
    }
  }

  lemma {:induction false} CompareTransitive(a: seq<int>, b: seq<int>, c: seq<int>)
    requires Compare(a, b) <= 0 && Compare(b, c) <= 0
    ensures Compare(a, c) <= 0
    ensures Compare(a, b) < 0 || Compare(b, c) < 0 ==> Compare(a, c) < 0
    decreases |a|
  {
    if a != [] && b != [] && c != [] && a[0] == b[0] == c[0] {
      CompareTransitive(a[1..], b[1..], c[1..]);
    }
  }

  lemma {:induction false} CompareEqual(a: seq<int>, b: seq<int>)
    ensures Compare(a, b) == 0 <==> a == b
    decreases |a|
  {
    if a != [] && b != [] {
      CompareEqual(a[1..], b[1..]);
      assert a == [a[0]] + a[1..] && b == [b[0]] + b[1..];
    }
  }

  /** At the first difference `a` has the smaller number, or `a` ends there and `b` goes on. */
  ghost predicate TupleLess(a: seq<int>, b: seq<int>) {
    || (exists i :: 0 <= i < |a| && i < |b| && a[..i] == b[..i] && a[i] < b[i])
    || (|a| < |b| && a == b[..|a|])
  }

  /** What the three answers mean. */
  lemma CompareReads(a: seq<int>, b: seq<int>)
    ensures Compare(a, b) == -1 <==> TupleLess(a, b)
    ensures Compare(a, b) == 1 <==> TupleLess(b, a)
    ensures Compare(a, b) == 0 <==> a == b
  {
    CompareLess(a, b);
    CompareLess(b, a);
    CompareMirrors(a, b);
    CompareEqual(a, b);
  }

  lemma {:induction false} CompareLess(a: seq<int>, b: seq<int>)
    ensures Compare(a, b) == -1 <==> TupleLess(a, b)
    decreases |a|
  {
    if a != [] && b != [] && a[0] == b[0] {
      CompareLess(a[1..], b[1..]);
      assert a == [a[0]] + a[1..] && b == [b[0]] + b[1..];
      if i :| 0 <= i < |a| && i < |b| && a[..i] == b[..i] && a[i] < b[i] {
        assert a[1..][..i - 1] == a[..i][1..] && b[1..][..i - 1] == b[..i][1..];
      }
      if i :| 0 <= i < |a[1..]| && i < |b[1..]| && a[1..][..i] == b[1..][..i] && a[1..][i] < b[1..][i] {
        assert a[..i + 1] == [a[0]] + a[1..][..i] && b[..i + 1] == [b[0]] + b[1..][..i];
      }
      if |a| < |b| {
        assert b[..|a|] == [b[0]] + b[1..][..|a| - 1];
      }
    } else if a != [] && b != [] && a[0] < b[0] {
      assert a[..0] == b[..0];
    } else if a == [] {
      assert b[..0] == a;
    }
  }

  // ---------------------------------------------------------------- the order on files

  datatype FileMatch = FileMatch(filename: string, version: Option<seq<int>>, fullURL: string)

  /** Files without a version come first, by name; the others by version. */
  predicate Less(x: FileMatch, y: FileMatch) {
    if x.version.Some? && y.version.Some? then Compare(x.version.value, y.version.value) < 0
    else if x.version.Some? then false
    else if y.version.Some? then true
    else LexLess(x.filename, y.filename)
  }

  /** What the order means: a missing version before any version, then the smaller version or the smaller name. */
  lemma LessReads(x: FileMatch, y: FileMatch)
    ensures Less(x, y) <==>
            || (x.version.None? && y.version.Some?)
            || (x.version.Some? && y.version.Some? && TupleLess(x.version.value, y.version.value))
            || (x.version.None? && y.version.None? && BytewiseLess(x.filename, y.filename))
  {
    if x.version.Some? && y.version.Some? {
      CompareReads(x.version.value, y.version.value);
    }
    LexReads(x.filename, y.filename);
  }

  /** The order is a strict weak order: irreflexive, and being "not greater" is total and transitive. */
  lemma NotGreaterTotal(x: FileMatch, y: FileMatch)
    ensures !Less(x, y) || !Less(y, x)
  {
    if x.version.Some? && y.version.Some? {
      CompareMirrors(x.version.value, y.version.value);
    } else if x.version.None? && y.version.None? && LexLess(x.filename, y.filename) && LexLess(y.filename, x.filename) {
      LexTransitive(x.filename, y.filename, x.filename);
      LexIrreflexive(x.filename);
    }
  }

  lemma NotGreaterTransitive(x: FileMatch, y: FileMatch, z: FileMatch)
    requires !Less(y, x) && !Less(z, y)
    ensures !Less(z, x)
  {
    if x.version.Some? && y.version.Some? && z.version.Some? {
      CompareMirrors(x.version.value, y.version.value);
      CompareMirrors(y.version.value, z.version.value);
      CompareMirrors(x.version.value, z.version.value);
      CompareTransitive(x.version.value, y.version.value, z.version.value);
    } else if x.version.None? && y.version.None? && z.version.None? {
      LexTotal(x.filename, y.filename);
      LexTotal(y.filename, z.filename);
      if LexLess(z.filename, x.filename) {
        if x.filename != y.filename {
          LexTransitive(z.filename, x.filename, y.filename);
        }
      }
    }
  }

  type Order<!T> = (T, T) -> bool

  /** `less` is a strict weak order: asymmetric, and "not greater" is transitive. */
  ghost predicate WeakOrder<T(!new)>(less: Order<T>) {
    && (forall x, y :: !less(x, y) || !less(y, x))
    && (forall x, y, z :: !less(y, x) && !less(z, y) ==> !less(z, x))
  }

  lemma LessIsWeakOrder()
    ensures WeakOrder(Less)
  {
    forall x, y
      ensures !Less(x, y) || !Less(y, x)
    {
      NotGreaterTotal(x, y);
    }
    forall x, y, z | !Less(y, x) && !Less(z, y)
      ensures !Less(z, x)
    {
      NotGreaterTransitive(x, y, z);
    }
  }

  // ---------------------------------------------------------------- insertion sort as a function, for any order

  predicate Ordered<T>(less: Order<T>, s: seq<T>) {
    forall i, j :: 0 <= i < j < |s| ==> !less(s[j], s[i])
  }

  function Insert<T>(less: Order<T>, s: seq<T>, x: T): seq<T> {
    if s == [] || !less(x, s[|s| - 1]) then s + [x]
    else Insert(less, s[..|s| - 1], x) + [s[|s| - 1]]
  }

  function Sorted<T>(less: Order<T>, s: seq<T>): seq<T> {
    if s == [] then [] else Insert(less, Sorted(less, s[..|s| - 1]), s[|s| - 1])
  }

  lemma {:induction false} InsertKeepsAll<T(!new)>(less: Order<T>, s: seq<T>, x: T)
    ensures multiset(Insert(less, s, x)) == multiset(s) + multiset{x}
    ensures |Insert(less, s, x)| == |s| + 1
    decreases |s|
  {
    if s != [] && less(x, s[|s| - 1]) {
      InsertKeepsAll(less, s[..|s| - 1], x);
      assert s == s[..|s| - 1] + [s[|s| - 1]];
    }
  }

  lemma {:induction false} SortedKeepsAll<T(!new)>(less: Order<T>, s: seq<T>)
    ensures multiset(Sorted(less, s)) == multiset(s) && |Sorted(less, s)| == |s|
    decreases |s|
  {
    if s != [] {
      var n := |s| - 1;
      SortedKeepsAll(less, s[..n]);
      InsertKeepsAll(less, Sorted(less, s[..n]), s[n]);
      assert s == s[..n] + [s[n]];
    }
  }

  /** Inserting into an ordered list keeps it ordered. */
  lemma {:induction false} InsertOrders<T(!new)>(less: Order<T>, s: seq<T>, x: T)
    requires WeakOrder(less)
    requires Ordered(less, s)
    ensures Ordered(less, Insert(less, s, x))
    decreases |s|
  {
    var n := |s| - 1;
    if s == [] {
    } else if !less(x, s[n]) {
      assert forall i :: 0 <= i < |s| ==> !less(x, s[i]);
    } else {
      InsertOrders(less, s[..n], x);
      InsertKeepsAll(less, s[..n], x);
      var t := Insert(less, s[..n], x);
      forall i | 0 <= i < |t|
        ensures !less(s[n], t[i])
      {
        assert t[i] in multiset(t);
        if t[i] != x {
          assert t[i] in multiset(s[..n]);
          assert t[i] in s[..n];
        }
      }
    }
  }

  lemma {:induction false} SortedOrders<T(!new)>(less: Order<T>, s: seq<T>)
    requires WeakOrder(less)
    ensures Ordered(less, Sorted(less, s))
    decreases |s|
  {
    if s != [] {
      SortedOrders(less, s[..|s| - 1]);
      InsertOrders(less, Sorted(less, s[..|s| - 1]), s[|s| - 1]);
    }
  }

  /** Position `k` of `s` holds a maximum, and everything listed after it is strictly smaller. */
  predicate LastMaximum<T>(less: Order<T>, s: seq<T>, k: nat) {
    && k < |s|
    && (forall j :: 0 <= j < |s| ==> !less(s[k], s[j]))
    && (forall j :: k < j < |s| ==> less(s[j], s[k]))
  }

  lemma MaximumOfOneMore<T(!new)>(less: Order<T>, s: seq<T>, n: nat, m: nat) returns (k: nat)
    requires WeakOrder(less)
    requires |s| == n + 1 && LastMaximum(less, s[..n], m)
    ensures LastMaximum(less, s, k) && s[k] == if less(s[n], s[..n][m]) then s[..n][m] else s[n]
  {
    if less(s[n], s[m]) {
      k := m;
    } else {
      k := n;
    }
  }

  predicate EndsWith<T(==)>(s: seq<T>, x: T) {
    s != [] && s[|s| - 1] == x
  }

  lemma InsertLast<T>(less: Order<T>, t: seq<T>, x: T)
    requires t != []
    ensures EndsWith(Insert(less, t, x), if less(x, t[|t| - 1]) then t[|t| - 1] else x)
  {
  }

  lemma SortedOfOneMore<T>(less: Order<T>, s: seq<T>, n: nat, x: T)
    requires |s| == n + 1 && EndsWith(Sorted(less, s[..n]), x)
    ensures EndsWith(Sorted(less, s), if less(s[n], x) then x else s[n])
  {
    InsertLast(less, Sorted(less, s[..n]), s[n]);
  }

  lemma {:induction false} SortedEndsWithLastMaximum<T(!new)>(less: Order<T>, s: seq<T>) returns (k: nat)
    requires WeakOrder(less)
    requires s != []
    ensures LastMaximum(less, s, k) && EndsWith(Sorted(less, s), s[k])
    decreases |s|
  {
    var n := |s| - 1;
    if n == 0 {
      assert Sorted(less, s[..0]) == [];
      k := 0;
    } else {
      var m := SortedEndsWithLastMaximum(less, s[..n]);
      SortedOfOneMore(less, s, n, s[..n][m]);
      k := MaximumOfOneMore(less, s, n, m);
    }
  }

  // ---------------------------------------------------------------- the in-place sort

  /** Where the element being inserted sits: `p` is the ordered prefix, `x` is at `j`. */
  ghost predicate Inserting<T>(less: Order<T>, view: seq<T>, p: seq<T>, x: T, j: nat) {
    && |view| == |p| + 1 && j <= |p|
    && view == p[..j] + [x] + p[j..]
    && Insert(less, p, x) == Insert(less, p[..j], x) + p[j..]
  }

  lemma InsertingStarts<T>(less: Order<T>, view: seq<T>, p: seq<T>, x: T)
    requires view == p + [x]
    ensures Inserting(less, view, p, x, |p|)
  {
    assert p[..|p|] == p && p[|p|..] == [];
    assert p + [x] + [] == p + [x] && Insert(less, p, x) + [] == Insert(less, p, x);
  }

  lemma InsertingSwaps<T>(less: Order<T>, view: seq<T>, p: seq<T>, x: T, j: nat)
    requires Inserting(less, view, p, x, j) && j > 0 && less(x, p[j - 1])
    ensures view[j - 1] == p[j - 1] && view[j] == x
    ensures Inserting(less, view[j := view[j - 1]][j - 1 := x], p, x, j - 1)
  {
    assert p[..j][..j - 1] == p[..j - 1];
    assert p[j - 1..] == [p[j - 1]] + p[j..];
    assert Insert(less, p[..j], x) == Insert(less, p[..j - 1], x) + [p[j - 1]];
    assert Insert(less, p, x) == Insert(less, p[..j - 1], x) + p[j - 1..];
    assert view[j := view[j - 1]][j - 1 := x] == p[..j - 1] + [x] + p[j - 1..];
  }

  method Precedes(x: FileMatch, y: FileMatch) returns (less: bool)
    ensures less == Less(x, y)
  {
    if x.version.Some? && y.version.Some? {
      var c := CompareVersion(x.version.value, y.version.value);
      less := c < 0;
    } else if x.version.Some? {
      less := false;
    } else if y.version.Some? {
      less := true;
    } else {
      less := LexLess(x.filename, y.filename);
    }
  }

  /** One pass of the outer loop: move element `i` down to its place. */
  method InsertAt(files: array<FileMatch>, i: nat)
    requires i < files.Length
    modifies files
    ensures files[..i + 1] == Insert(Less, old(files[..i]), old(files[i]))
    ensures files[i + 1..] == old(files[i + 1..])
  {
    ghost var p, x := files[..i], files[i];
    var j := i;
    assert files[..i + 1] == p + [x];
    InsertingStarts(Less, files[..i + 1], p, x);
    while j > 0
      invariant 0 <= j <= i
      invariant Inserting(Less, files[..i + 1], p, x, j)
      invariant files[i + 1..] == old(files[i + 1..])
    {
      assert files[..i + 1][j] == x && files[..i + 1][j - 1] == p[j - 1];
      var less := Precedes(files[j], files[j - 1]);
      if !less {
        break;
      }
      ghost var view := files[..i + 1];
      InsertingSwaps(Less, view, p, x, j);
      files[j], files[j - 1] := files[j - 1], files[j];
      assert files[..i + 1] == view[j := view[j - 1]][j - 1 := x];
      j := j - 1;
    }
  }

  method InsertionSort(files: array<FileMatch>)
    modifies files
    ensures files[..] == Sorted(Less, old(files[..]))
    ensures Ordered(Less, files[..]) && multiset(files[..]) == multiset(old(files[..]))
  {
    ghost var all := files[..];
    var i := 0;
    while i < files.Length
      invariant 0 <= i <= files.Length
      invariant files[..i] == Sorted(Less, all[..i])
      invariant files[i..] == all[i..]
    {
      assert files[i] == files[i..][0] && all[i] == all[i..][0];
      assert files[i + 1..] == files[i..][1..] && all[i + 1..] == all[i..][1..];
      assert all[..i + 1][..i] == all[..i];
      InsertAt(files, i);
      i := i + 1;
    }
    assert files[..i] == files[..] && all[..i] == all;
    LessIsWeakOrder();
    SortedOrders(Less, all);
    SortedKeepsAll(Less, all);
  }

  ghost predicate SomeVersion(files: seq<FileMatch>) {
    exists j :: 0 <= j < |files| && files[j].version.Some?
  }

  /**
    File `k` is the latest: if any file has a version, it has one that no other exceeds, and if none
    has, no file name exceeds its own; of equally late files it is the one listed last.
   */
  ghost predicate Latest(files: seq<FileMatch>, k: nat) {
    && k < |files|
    && (if SomeVersion(files) then
          && files[k].version.Some?
          && (forall j :: 0 <= j < |files| && files[j].version.Some? ==> !TupleLess(files[k].version.value, files[j].version.value))
          && (forall j :: k < j < |files| && files[j].version.Some? ==> TupleLess(files[j].version.value, files[k].version.value))
        else
          && (forall j :: 0 <= j < |files| ==> !BytewiseLess(files[k].filename, files[j].filename))
          && (forall j :: k < j < |files| ==> BytewiseLess(files[j].filename, files[k].filename)))
  }

  lemma MaximumIsLatest(files: seq<FileMatch>, k: nat)
    requires LastMaximum(Less, files, k)
    ensures Latest(files, k)
  {
    forall j | 0 <= j < |files|
      ensures !Less(files[k], files[j])
      ensures files[j].version.Some? ==> files[k].version.Some? && !TupleLess(files[k].version.value, files[j].version.value)
      ensures files[k].version.None? ==> !BytewiseLess(files[k].filename, files[j].filename)
    {
      LessReads(files[k], files[j]);
    }
    forall j | k < j < |files|
      ensures files[j].version.Some? ==> files[k].version.Some? && TupleLess(files[j].version.value, files[k].version.value)
      ensures files[k].version.None? ==> BytewiseLess(files[j].filename, files[k].filename)
    {
      LessReads(files[j], files[k]);
    }
  }

  /** The URL returned is that of the latest file.  Without files it is empty. */
  method LatestUrl(files: array<FileMatch>) returns (url: string)
    modifies files
    ensures files.Length == 0 ==> url == ""
    ensures files.Length > 0 ==> exists k: nat :: Latest(old(files[..]), k) && url == old(files[..])[k].fullURL
  {
    if files.Length == 0 {
      return "";
    }
    LessIsWeakOrder();
    ghost var k := SortedEndsWithLastMaximum(Less, files[..]);
    ghost var all := files[..];
    InsertionSort(files);
    assert files[..][files.Length - 1] == all[k];
    MaximumIsLatest(all, k);
    return files[files.Length - 1].fullURL;
  }

  // ---------------------------------------------------------------- the directory search

  datatype VersionDir = VersionDir(dirName: string, version: seq<int>)

  predicate Descending(dirs: seq<VersionDir>) {
    forall i, j :: 0 <= i < j < |dirs| ==> Compare(dirs[i].version, dirs[j].version) >= 0
  }

  /** sort.Slice by descending version; it leaves the order of equal versions open, and so does this contract. */
  method SortDescending(dirs: seq<VersionDir>) returns (sorted: seq<VersionDir>)
    ensures multiset(sorted) == multiset(dirs) && Descending(sorted)
  {
    sorted := [];
    var i := 0;
    while i < |dirs|
      invariant 0 <= i <= |dirs|
      invariant multiset(sorted) == multiset(dirs[..i]) && Descending(sorted)
    {
      sorted := PutDescending(sorted, dirs[i]);
      assert dirs[..i + 1] == dirs[..i] + [dirs[i]];
      i := i + 1;
    }
    assert dirs[..i] == dirs;
  }

  method PutDescending(sorted: seq<VersionDir>, d: VersionDir) returns (r: seq<VersionDir>)
    requires Descending(sorted)
    ensures multiset(r) == multiset(sorted) + multiset{d} && Descending(r)
  {
    var j := 0;
    while j < |sorted| && Compare(sorted[j].version, d.version) >= 0
      invariant 0 <= j <= |sorted|
      invariant forall k :: 0 <= k < j ==> Compare(sorted[k].version, d.version) >= 0
    {
      j := j + 1;
    }
    r := sorted[..j] + [d] + sorted[j..];
    assert sorted == sorted[..j] + sorted[j..];
    PutInPlace(sorted, d, j);
  }

  lemma PutInPlace(sorted: seq<VersionDir>, d: VersionDir, j: nat)
    requires Descending(sorted) && j <= |sorted|
    requires forall k :: 0 <= k < j ==> Compare(sorted[k].version, d.version) >= 0
    requires j < |sorted| ==> Compare(sorted[j].version, d.version) < 0
    ensures Descending(sorted[..j] + [d] + sorted[j..])
  {
    forall k | j <= k < |sorted|
      ensures Compare(d.version, sorted[k].version) >= 0
    {
      LaterIsLess(sorted[j].version, sorted[k].version, d.version);
    }
  }

  lemma LaterIsLess(a: seq<int>, b: seq<int>, d: seq<int>)
    requires Compare(a, d) < 0 && (Compare(a, b) >= 0 || a == b)
    ensures Compare(d, b) >= 0
  {
    CompareEqual(a, b);
    CompareMirrors(a, b);
    CompareMirrors(d, b);
    CompareTransitive(b, a, d);
  }

  /** The URL a directory listing yields: an error, or "" when nothing in it matches. */
  type Listing = VersionDir -> Result<string, string>

  predicate HasMatch(listing: Listing, d: VersionDir) {
    listing(d).Ok? && listing(d).value != ""
  }

  /**
    The search returns a match of some directory such that every directory of a strictly later
    version had none or failed; it returns "" exactly when no directory has a match.
   */
  method ScrapeTwoLevel(dirs: seq<VersionDir>, listing: Listing) returns (url: string)
    ensures url == "" <==> forall d :: d in dirs ==> !HasMatch(listing, d)
    ensures url != "" ==>
              exists d :: d in dirs && HasMatch(listing, d) && listing(d) == Ok(url)
                          && forall e :: e in dirs && TupleLess(d.version, e.version) ==> !HasMatch(listing, e)
  {
    if |dirs| == 0 {
      return "";
    }
    var sorted := SortDescending(dirs);
    assert forall d :: d in dirs <==> d in sorted by {
      assert forall d :: d in dirs <==> d in multiset(dirs);
      assert forall d :: d in sorted <==> d in multiset(sorted);
    }
    var i := 0;
    while i < |sorted|
      invariant 0 <= i <= |sorted|
      invariant forall j :: 0 <= j < i ==> !HasMatch(listing, sorted[j])
    {
      var d := sorted[i];
      var result := listing(d);
      if result.Ok? && result.value != "" {
        assert d in dirs;
        forall e | e in dirs && TupleLess(d.version, e.version)
          ensures !HasMatch(listing, e)
        {
          var j :| 0 <= j < |sorted| && sorted[j] == e;
          CompareReads(d.version, e.version);
        }
        return result.value;
      }
      i := i + 1;
    }
    return "";
  }
}
