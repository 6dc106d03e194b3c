/**
 * The result viewer (frontend/main.js): which result files it finds in the results
 * directory listing and which two it loads, how it marks entries that are new since
 * the previous snapshot, which columns the table gets and in what order, their
 * titles, the value a cell shows, and how long text is cut short. The listing is
 * the directory page Python's `http.server` generates for the results directory.
 *
 * The network, DataTables and HTML rendering are left out; an item is the JSON
 * object of one record, `toLowerCase` and `toUpperCase` are the parameters
 * `lower` and `upper`.
 */
module ResultTable {
  import opened Wrappers
  import opened Strings
  import opened Objects
  import opened Snapshot
  import RowFilter

  // ---------------------------------------------------------------- ordered sets

  /** No element occurs twice. */
  predicate Distinct(s: seq<string>) {
    forall i, j :: 0 <= i < j < |s| ==> s[i] != s[j]
  }

  /** `set.add(x)` on a `Set`, which keeps insertion order. */
  function Add(s: seq<string>, x: string): seq<string>
  {
    if x in s then s else s + [x]
  }

  /** Adding the elements of `xs` one after the other. */
  function AddAll(s: seq<string>, xs: seq<string>): seq<string>
  {
    if xs == [] then s else Add(AddAll(s, xs[..|xs| - 1]), xs[|xs| - 1])
  }

  /** `[...new Set(xs)]`: the first occurrence of each element, in order. */
  function Dedup(xs: seq<string>): seq<string>
  {
    AddAll([], xs)
  }

  /** Adding keeps what was there, in place, and adds exactly the new elements, once each. */
  lemma {:induction false} AddAllFacts(s: seq<string>, xs: seq<string>)
    ensures |AddAll(s, xs)| >= |s| && AddAll(s, xs)[..|s|] == s
    ensures forall x :: x in AddAll(s, xs) <==> x in s || x in xs
    ensures Distinct(s) ==> Distinct(AddAll(s, xs))
  {
    if xs != [] {
      var init := xs[..|xs| - 1];
      AddAllFacts(s, init);
      assert xs == init + [xs[|xs| - 1]];
      var r := AddAll(s, init);
      if xs[|xs| - 1] !in r {
        assert (r + [xs[|xs| - 1]])[..|s|] == r[..|s|];
      }
    }
  }

  lemma {:induction false} AddAllAppend(s: seq<string>, a: seq<string>, b: seq<string>)
    ensures AddAll(s, a + b) == AddAll(AddAll(s, a), b)
    decreases |b|
  {
    if b == [] {
      assert a + b == a;
    } else {
      assert (a + b)[..|a + b| - 1] == a + b[..|b| - 1];
      assert (a + b)[|a + b| - 1] == b[|b| - 1];
      AddAllAppend(s, a, b[..|b| - 1]);
    }
  }

  /** The elements of `xs` not in `ex`, in order: `xs.filter(k => !ex.includes(k))`. */
  function Without(xs: seq<string>, ex: seq<string>): (r: seq<string>)
    ensures forall x :: x in r <==> x in xs && x !in ex
  {
    if xs == [] then []
    else Without(xs[..|xs| - 1], ex) + if xs[|xs| - 1] in ex then [] else [xs[|xs| - 1]]
  }

  // ---------------------------------------------------------------- getResultFiles

  const NameLength: nat := 18

  /** The characters the file-name pattern `\d{6}_result\.json` can match. */
  predicate PatternChar(c: char) {
    IsDigit(c) || c in ResultSuffix
  }

  /** `matchAll` from position `i`: a match is taken and the scan resumes after it. */
  function MatchesFrom(s: string, i: nat): seq<string>
    requires i <= |s|
    decreases |s| - i
  {
    if i + NameLength > |s| then []
    else if IsResultName(s[i..i + NameLength]) then [s[i..i + NameLength]] + MatchesFrom(s, i + NameLength)
    else MatchesFrom(s, i + 1)
  }

  /** Every match of `/(\d{6}_result\.json)/g` in the listing, in order. */
  function ResultMatches(listing: string): seq<string>
  {
    MatchesFrom(listing, 0)
  }

  /** `m` occurs in `s` at position `j`. */
  predicate OccursAt(s: string, j: nat, m: string) {
    j + NameLength <= |s| && s[j..j + NameLength] == m
  }

  /** No character of the suffix is a digit, and `_` opens it only once in its first six. */
  lemma SuffixChars()
    ensures forall k :: 0 <= k < |ResultSuffix| ==> !IsDigit(ResultSuffix[k])
    ensures forall k :: 1 <= k < 6 ==> ResultSuffix[k] != ResultSuffix[0]
  {
    assert ResultSuffix == ['_', 'r', 'e', 's', 'u', 'l', 't', '.', 'j', 's', 'o', 'n'];
  }

  /** Two occurrences of the pattern never overlap. */
  lemma NoOverlap(s: string, p: nat, j: nat)
    requires p < j < p + NameLength && j + NameLength <= |s|
    requires IsResultName(s[p..p + NameLength])
    ensures !IsResultName(s[j..j + NameLength])
  {
    var first := s[p..p + NameLength];
    var second := s[j..j + NameLength];
    SuffixChars();
    if j - p <= 5 {
      assert second[6] == first[j - p + 6] == first[6..][j - p] == ResultSuffix[j - p];
      assert second[6..][0] == second[6];
    } else {
      assert second[0] == first[j - p] == first[6..][j - p - 6] == ResultSuffix[j - p - 6];
    }
  }

  /** What the scan finds are occurrences of the pattern in the listing. */
  lemma {:induction false} MatchesSound(s: string, i: nat, m: string)
    requires i <= |s|
    requires m in MatchesFrom(s, i)
    ensures IsResultName(m) && exists j :: i <= j && OccursAt(s, j, m)
    decreases |s| - i
  {
    if IsResultName(s[i..i + NameLength]) && m == s[i..i + NameLength] {
      assert OccursAt(s, i, m);
    } else if IsResultName(s[i..i + NameLength]) {
      MatchesSound(s, i + NameLength, m);
    } else {
      MatchesSound(s, i + 1, m);
    }
  }

  /** The scan finds every occurrence of the pattern at or after its start. */
  lemma {:induction false} MatchesComplete(s: string, i: nat, j: nat)
    requires i <= j && j + NameLength <= |s|
    requires IsResultName(s[j..j + NameLength])
    ensures s[j..j + NameLength] in MatchesFrom(s, i)
    decreases j - i
  {
    if i < j {
      if IsResultName(s[i..i + NameLength]) {
        if j < i + NameLength {
          NoOverlap(s, i, j);
        }
        MatchesComplete(s, i + NameLength, j);
      } else {
        MatchesComplete(s, i + 1, j);
      }
    }
  }

  /** A name is matched iff it is a dated result name occurring in the listing. */
  lemma ResultMatchesIff(listing: string, m: string)
    ensures m in ResultMatches(listing) <==> IsResultName(m) && exists j :: OccursAt(listing, j, m)
  {
    if m in ResultMatches(listing) {
      MatchesSound(listing, 0, m);
    }
    if IsResultName(m) && exists j :: OccursAt(listing, j, m) {
      var j :| OccursAt(listing, j, m);
      MatchesComplete(listing, 0, j);
    }
  }

  /** The name the aggregator saves a day's results under is what the viewer looks for. */
  lemma SavedNameMatched(d: Date)
    requires ValidDate(d)
    ensures ResultMatches(ResultName(d)) == [ResultName(d)]
  {
    var n := ResultName(d);
    ResultNameRecognised(d);
    assert n[0..NameLength] == n;
    assert MatchesFrom(n, NameLength) == [];
  }

  // ---------------------------------------------------------------- newest first

  /** `sort((a, b) => b.localeCompare(a))` ordered: each name is at least the ones after it. */
  predicate SortedDesc(s: seq<string>) {
    forall i, j :: 0 <= i < j < |s| ==> LexLe(s[j], s[i])
  }

  /** Insert `x` before the first name it is at least. */
  function InsertDesc(x: string, s: seq<string>): (r: seq<string>)
    requires SortedDesc(s)
    ensures SortedDesc(r)
    ensures multiset(r) == multiset(s) + multiset{x}
  {
    if s == [] then [x]
    else if LexLe(s[0], x) then
      InsertAtFront(x, s);
      [x] + s
    else
      var t := InsertDesc(x, s[1..]);
      InsertBehindHead(x, s, t);
      [s[0]] + t
  }

  lemma InsertAtFront(x: string, s: seq<string>)
    requires SortedDesc(s) && s != [] && LexLe(s[0], x)
    ensures SortedDesc([x] + s)
  {
    forall j | 0 < j < |s| ensures LexLe(s[j], x) {
      LexTransitive(s[j], s[0], x);
    }
  }

  lemma InsertBehindHead(x: string, s: seq<string>, t: seq<string>)
    requires SortedDesc(s) && s != [] && !LexLe(s[0], x)
    requires SortedDesc(t) && multiset(t) == multiset(s[1..]) + multiset{x}
    ensures SortedDesc([s[0]] + t)
    ensures multiset([s[0]] + t) == multiset(s) + multiset{x}
  {
    LexTotal(s[0], x);
    forall j | 0 <= j < |t| ensures LexLe(t[j], s[0]) {
      assert t[j] in multiset(t);
      if t[j] != x {
        assert t[j] in multiset(s[1..]);
        var k :| 0 <= k < |s[1..]| && s[1..][k] == t[j];
        assert s[k + 1] == t[j];
      }
    }
    var r := [s[0]] + t;
    forall i, j | 0 <= i < j < |r| ensures LexLe(r[j], r[i]) {
      if i > 0 {
        assert r[i] == t[i - 1] && r[j] == t[j - 1];
      }
    }
    assert s == [s[0]] + s[1..];
  }

  /** The listing's names, newest first. */
  function SortDesc(xs: seq<string>): (r: seq<string>)
    ensures SortedDesc(r) && multiset(r) == multiset(xs)
  {
    if xs == [] then []
    else
      assert xs == xs[..|xs| - 1] + [xs[|xs| - 1]];
      InsertDesc(xs[|xs| - 1], SortDesc(xs[..|xs| - 1]))
  }

  /** In a dated listing sorted newest first, an earlier position never holds an older date. */
  lemma NewestFirst(files: seq<string>, i: nat, j: nat, di: Date, dj: Date)
    requires SortedDesc(files) && i < j < |files|
    requires ValidDate(di) && ValidDate(dj) && files[i] == ResultName(di) && files[j] == ResultName(dj)
    ensures DateKey(dj) <= DateKey(di)
  {
    ResultNameOrder(dj, di);
  }

  /** In a descending list a repeated element occurs at least twice in its multiset. */
  lemma TwiceInMultiset(s: seq<string>, i: nat, j: nat)
    requires i < j < |s|
    ensures s[i] == s[j] ==> multiset(s)[s[i]] >= 2
  {
    assert s == s[..j] + [s[j]] + s[j + 1..];
    assert s[i] in s[..j];
  }

  lemma {:induction false} DistinctAtMostOnce(s: seq<string>, x: string)
    requires Distinct(s)
    ensures multiset(s)[x] <= 1
  {
    if s != [] {
      var init := s[..|s| - 1];
      assert s == init + [s[|s| - 1]];
      DistinctAtMostOnce(init, x);
      forall k | 0 <= k < |init| ensures init[k] != s[|s| - 1] {
        assert init[k] == s[k];
      }
    }
  }

  /** Sorting keeps a list without repetitions without repetitions. */
  lemma SortDistinct(xs: seq<string>)
    requires Distinct(xs)
    ensures Distinct(SortDesc(xs))
  {
    var r := SortDesc(xs);
    forall i, j | 0 <= i < j < |r| ensures r[i] != r[j] {
      TwiceInMultiset(r, i, j);
      DistinctAtMostOnce(xs, r[i]);
    }
  }

  /** `getResultFiles()` as written: every match, newest first. */
  function ResultFilesAsWritten(listing: string): seq<string>
  {
    SortDesc(ResultMatches(listing))
  }

  /**
   * The corrected `getResultFiles()`: each name once, newest first. The code as
   * written keeps every match (`ResultFilesAsWritten`), and the directory listing
   * names each file twice.
   */
  function ResultFiles(listing: string): seq<string>
  {
    SortDesc(Dedup(ResultMatches(listing)))
  }

  /** Corrected: the files are exactly the dated result names occurring in the listing, once each. */
  lemma ResultFilesIff(listing: string, x: string)
    ensures x in ResultFiles(listing) <==> IsResultName(x) && exists j :: OccursAt(listing, j, x)
    ensures Distinct(ResultFiles(listing)) && SortedDesc(ResultFiles(listing))
  {
    var ms := ResultMatches(listing);
    AddAllFacts([], ms);
    ResultMatchesIff(listing, x);
    SortDistinct(Dedup(ms));
    assert x in ResultFiles(listing) <==> x in multiset(Dedup(ms));
  }

  /**
   * As written: the files are exactly the dated result names occurring in the
   * listing, newest first, with every occurrence kept.
   */
  lemma ResultFilesAsWrittenIff(listing: string, x: string)
    ensures x in ResultFilesAsWritten(listing) <==> IsResultName(x) && exists j :: OccursAt(listing, j, x)
    ensures SortedDesc(ResultFilesAsWritten(listing))
    ensures multiset(ResultFilesAsWritten(listing)) == multiset(ResultMatches(listing))
  {
    ResultMatchesIff(listing, x);
    SortKeepsMembers(ResultMatches(listing), x);
  }

  /** The two snapshots `fetchJson` loads: the newest, and the one after it if there is one. */
  datatype Snapshots = Snapshots(master: string, previous: Option<string>)

  /** `init` stops without files; otherwise `files[0]`, and `files[1]` when it is truthy. */
  function LoadedFiles(files: seq<string>): Option<Snapshots>
  {
    if |files| == 0 then None
    else Some(Snapshots(files[0], if |files| > 1 && files[1] != "" then Some(files[1]) else None))
  }

  /**
   * Corrected: with each name listed once, `previous` is absent exactly when fewer
   * than two files exist, and otherwise it is the newest file other than `master`.
   */
  lemma PreviousIsOlder(listing: string)
    ensures var files := ResultFiles(listing);
            LoadedFiles(files).None? <==> files == []
    ensures var files := ResultFiles(listing);
            files != [] ==> (LoadedFiles(files).value.previous.None? <==> |files| < 2)
    ensures var files := ResultFiles(listing);
            |files| >= 2 ==>
              var sn := LoadedFiles(files).value;
              sn.previous.value != sn.master && LexLe(sn.previous.value, sn.master) &&
              forall x :: x in files && x != sn.master ==> LexLe(x, sn.previous.value)
  {
    var files := ResultFiles(listing);
    ResultFilesIff(listing, "");
    if |files| >= 2 {
      ResultFilesIff(listing, files[1]);
      forall x | x in files && x != files[0] ensures LexLe(x, files[1]) {
        var k :| 0 <= k < |files| && files[k] == x;
        if k == 1 {
          LexReflexive(x);
        }
      }
    }
  }

  // ---------------------------------------------------------------- the directory listing

  /**
   * One line of the directory page that Python's `http.server.SimpleHTTPRequestHandler`
   * generates for the results directory (frontend/serve.py falls back to it for every
   * GET outside `/config/`): the file name is written twice, once as the link target
   * and once as the link text. Result names need neither URL quoting nor HTML escaping.
   */
  function ListingEntry(name: string): string
  {
    "<li><a href=\"" + name + "\">" + name + "</a></li>\n"
  }

  function Listing(names: seq<string>): string
  {
    if names == [] then "" else Listing(names[..|names| - 1]) + ListingEntry(names[|names| - 1])
  }

  /** Each name twice in a row. */
  function Doubled(names: seq<string>): (r: seq<string>)
    ensures |r| == 2 * |names|
    ensures forall x :: multiset(r)[x] == 2 * multiset(names)[x]
  {
    if names == [] then []
    else
      var init := names[..|names| - 1];
      assert names == init + [names[|names| - 1]];
      Doubled(init) + [names[|names| - 1], names[|names| - 1]]
  }

  /** No window across the seam of `a` and `b` can match. */
  predicate CleanSeam(a: string, b: string) {
    a == [] || b == [] || !PatternChar(a[|a| - 1]) || !PatternChar(b[0])
  }

  lemma PatternChars(x: string, k: nat)
    requires k < |x|
    ensures IsResultName(x) ==> PatternChar(x[k])
  {
    if k >= 6 && IsResultName(x) {
      assert x[k] == x[6..][k - 6];
    }
  }

  /** The scan from a position depends only on the text from there on. */
  lemma {:induction false} MatchesSameTail(s: string, i: nat, t: string, j: nat)
    requires i <= |s| && j <= |t| && s[i..] == t[j..]
    ensures MatchesFrom(s, i) == MatchesFrom(t, j)
    decreases |s| - i
  {
    if i + NameLength <= |s| {
      assert s[i..i + NameLength] == s[i..][..NameLength] == t[j..][..NameLength] == t[j..j + NameLength];
      assert s[i + 1..] == s[i..][1..] && t[j + 1..] == t[j..][1..];
      assert s[i + NameLength..] == s[i..][NameLength..] && t[j + NameLength..] == t[j..][NameLength..];
      if IsResultName(s[i..i + NameLength]) {
        MatchesSameTail(s, i + NameLength, t, j + NameLength);
      } else {
        MatchesSameTail(s, i + 1, t, j + 1);
      }
    } else {
      assert |s| - i == |t| - j;
    }
  }

  lemma MatchesShift(a: string, b: string, k: nat)
    requires k <= |b|
    ensures MatchesFrom(a + b, |a| + k) == MatchesFrom(b, k)
  {
    assert (a + b)[|a| + k..] == b[k..];
    MatchesSameTail(a + b, |a| + k, b, k);
  }

  /** A window across a clean seam is no match. */
  lemma StraddleNoMatch(a: string, b: string, i: nat)
    requires i < |a| < i + NameLength <= |a + b| && CleanSeam(a, b)
    ensures !IsResultName((a + b)[i..i + NameLength])
  {
    var w := (a + b)[i..i + NameLength];
    assert w[|a| - 1 - i] == a[|a| - 1] && w[|a| - i] == b[0];
    PatternChars(w, |a| - 1 - i);
    PatternChars(w, |a| - i);
  }

  /** Across a clean seam the matches of the two parts concatenate. */
  lemma {:induction false} MatchesSplit(a: string, b: string, i: nat)
    requires i <= |a| && CleanSeam(a, b)
    ensures MatchesFrom(a + b, i) == MatchesFrom(a, i) + MatchesFrom(b, 0)
    decreases |a| - i
  {
    if i == |a| {
      MatchesShift(a, b, 0);
    } else if i + NameLength <= |a| {
      assert (a + b)[i..i + NameLength] == a[i..i + NameLength];
      if IsResultName(a[i..i + NameLength]) {
        MatchesSplit(a, b, i + NameLength);
      } else {
        MatchesSplit(a, b, i + 1);
      }
    } else if i + NameLength <= |a + b| {
      StraddleNoMatch(a, b, i);
      MatchesSplit(a, b, i + 1);
    }
  }

  /** A listing line shows its name twice, in the link target and in the link text. */
  lemma EntryMatches(name: string)
    requires IsResultName(name)
    ensures ResultMatches(ListingEntry(name)) == [name, name]
  {
    var p1, p2, p3 := "<li><a href=\"", "\">", "</a></li>\n";
    assert ListingEntry(name) == p1 + (name + (p2 + (name + p3)));
    assert name[0..NameLength] == name;
    assert MatchesFrom(name, 0) == [name];
    MatchesSplit(name, p3, 0);
    MatchesSplit(p2, name + p3, 0);
    MatchesSplit(name, p2 + (name + p3), 0);
    MatchesSplit(p1, name + (p2 + (name + p3)), 0);
  }

  /** A listing of dated result files yields every name twice, in listing order. */
  lemma {:induction false} ListingMatches(names: seq<string>)
    requires forall i :: 0 <= i < |names| ==> IsResultName(names[i])
    ensures ResultMatches(Listing(names)) == Doubled(names)
  {
    if names != [] {
      var init := names[..|names| - 1];
      var last := names[|names| - 1];
      ListingMatches(init);
      EntryMatches(last);
      assert ListingEntry(last)[0] == '<';
      MatchesSplit(Listing(init), ListingEntry(last), 0);
    }
  }

  /**
   * As written, the newest file is found twice, so `previous` is `master` again:
   * the newest snapshot is compared with itself.
   */
  lemma ListingRepeatsNewest(names: seq<string>)
    requires names != []
    requires forall i :: 0 <= i < |names| ==> IsResultName(names[i])
    ensures var files := ResultFilesAsWritten(Listing(names));
            |files| >= 2 && files[1] == files[0] &&
            LoadedFiles(files) == Some(Snapshots(files[0], Some(files[0])))
  {
    ListingMatches(names);
    DoubledTopRepeats(names);
  }

  /** Sorting a list of names each given twice puts the newest name first and second. */
  lemma DoubledTopRepeats(names: seq<string>)
    requires names != []
    requires forall i :: 0 <= i < |names| ==> IsResultName(names[i])
    ensures var files := SortDesc(Doubled(names));
            |files| >= 2 && files[1] == files[0] && files[0] != ""
  {
    var d := Doubled(names);
    var files := SortDesc(d);
    var top := files[0];
    assert top in multiset(d) by {
      assert top in multiset(files);
    }
    assert multiset(files)[top] == multiset(d)[top] == 2 * multiset(names)[top];
    RepeatedTop(files);
    assert top in names;
  }

  /** In a descending list whose first element occurs twice, the second element is the first. */
  lemma RepeatedTop(files: seq<string>)
    requires SortedDesc(files) && files != [] && multiset(files)[files[0]] >= 2
    ensures |files| >= 2 && files[1] == files[0]
  {
    var top := files[0];
    assert multiset(files[1..])[top] >= 1 by {
      assert files == [top] + files[1..];
    }
    assert top in files[1..];
    var k :| 1 <= k < |files| && files[k] == top;
    if k > 1 {
      LexAntisymmetric(files[1], top);
    }
  }

  /** Listed once each, two dated files give a `previous` different from `master`. */
  lemma ListingOnceNewest(names: seq<string>)
    requires forall i :: 0 <= i < |names| ==> IsResultName(names[i])
    requires exists i, j :: 0 <= i < j < |names| && names[i] != names[j]
    ensures var files := ResultFiles(Listing(names));
            |files| >= 2 && files[1] != files[0]
  {
    ListingMatches(names);
    var i, j :| 0 <= i < j < |names| && names[i] != names[j];
    var d := Doubled(names);
    var files := ResultFiles(Listing(names));
    assert names[i] in d && names[j] in d by {
      assert multiset(names)[names[i]] > 0 && multiset(names)[names[j]] > 0;
    }
    AddAllFacts([], d);
    assert files == SortDesc(Dedup(d));
    SortKeepsMembers(Dedup(d), names[i]);
    SortKeepsMembers(Dedup(d), names[j]);
    ResultFilesIff(Listing(names), "");
    TwoMembers(files, names[i], names[j]);
  }

  lemma SortKeepsMembers(xs: seq<string>, x: string)
    ensures x in SortDesc(xs) <==> x in xs
  {
    assert x in SortDesc(xs) <==> x in multiset(SortDesc(xs));
  }

  lemma TwoMembers(s: seq<string>, a: string, b: string)
    requires a in s && b in s && a != b && Distinct(s)
    ensures |s| >= 2 && s[1] != s[0]
  {
  }

  // ---------------------------------------------------------------- markNewEntries

  /** `item.details?.url`, when it is a non-empty string. */
  function UrlOf(item: Fields): Option<string>
  {
    var u := Get(DetailsFields(item), "url");
    if u.Some? && u.value.Str? && u.value.s != "" then Some(u.value.s) else None
  }

  /** `prevUrls`: the URLs the previous snapshot's entries carry. */
  function PreviousUrls(previous: seq<Fields>): (urls: set<string>)
    ensures forall u :: u in urls <==> exists i :: 0 <= i < |previous| && UrlOf(previous[i]) == Some(u)
  {
    set i | 0 <= i < |previous| && UrlOf(previous[i]).Some? :: UrlOf(previous[i]).value
  }

  /** The entry has a URL and some entry of `previous` has the same one. */
  predicate SeenBefore(item: Fields, previous: seq<Fields>) {
    UrlOf(item).Some? && exists i :: 0 <= i < |previous| && UrlOf(previous[i]) == UrlOf(item)
  }

  function StatusOf(item: Fields, urls: set<string>): string
  {
    if UrlOf(item).Some? && UrlOf(item).value in urls then "existing" else "NEW"
  }

  /** `{...item, details: {...item.details, status}}`. */
  function Marked(item: Fields, urls: set<string>): Fields
  {
    Put(item, "details", Obj(Put(DetailsFields(item), "status", Str(StatusOf(item, urls)))))
  }

  /** Without a previous snapshot the master entries are returned as they are. */
  function MarkNewEntries(master: seq<Fields>, previous: Option<seq<Fields>>): (r: seq<Fields>)
    ensures previous.None? ==> r == master
    ensures |r| == |master|
  {
    match previous
    case None => master
    case Some(prev) =>
      var urls := PreviousUrls(prev);
      seq(|master|, i requires 0 <= i < |master| => Marked(master[i], urls))
  }

  /** What marking does to one entry: its details gain the status and nothing else changes. */
  lemma MarkedFields(item: Fields, urls: set<string>)
    ensures var m := Marked(item, urls);
            DetailsFields(m) == Put(DetailsFields(item), "status", Str(StatusOf(item, urls))) &&
            (forall k :: k != "details" ==> Get(m, k) == Get(item, k)) &&
            (forall k :: k != "status" ==> Get(DetailsFields(m), k) == Get(DetailsFields(item), k)) &&
            UrlOf(m) == UrlOf(item)
  {
    var m := Marked(item, urls);
    assert Get(m, "details") == Some(Obj(Put(DetailsFields(item), "status", Str(StatusOf(item, urls)))));
  }

  /**
   * With a previous snapshot, every master entry keeps its fields and its other
   * details and gets the status "existing" exactly when the previous snapshot
   * holds an entry with its URL, and "NEW" otherwise.
   */
  lemma MarkedStatus(master: seq<Fields>, previous: seq<Fields>, i: nat)
    requires i < |master|
    ensures var r := MarkNewEntries(master, Some(previous))[i];
            (forall k :: k != "details" ==> Get(r, k) == Get(master[i], k)) &&
            (forall k :: k != "status" ==> Get(DetailsFields(r), k) == Get(DetailsFields(master[i]), k)) &&
            Get(DetailsFields(r), "status") ==
              Some(Str(if SeenBefore(master[i], previous) then "existing" else "NEW"))
  {
    MarkedFields(master[i], PreviousUrls(previous));
  }

  /** Marking twice against the same snapshot is marking once. */
  lemma MarkIdempotent(master: seq<Fields>, previous: Option<seq<Fields>>)
    ensures MarkNewEntries(MarkNewEntries(master, previous), previous) == MarkNewEntries(master, previous)
  {
    if previous.Some? {
      var urls := PreviousUrls(previous.value);
      var once := MarkNewEntries(master, previous);
      forall i | 0 <= i < |master| ensures Marked(once[i], urls) == once[i] {
        var item := master[i];
        var details := DetailsFields(item);
        var status := Str(StatusOf(item, urls));
        MarkedFields(item, urls);
        PutPut(details, "status", status, status);
        PutPut(item, "details", Obj(Put(details, "status", status)), Obj(Put(details, "status", status)));
      }
    }
  }

  /** An entry without a URL is always new. */
  lemma NoUrlIsNew(master: seq<Fields>, previous: seq<Fields>, i: nat)
    requires i < |master| && UrlOf(master[i]).None?
    ensures Get(DetailsFields(MarkNewEntries(master, Some(previous))[i]), "status") == Some(Str("NEW"))
  {
    MarkedStatus(master, previous, i);
  }

  /** Compared with itself, a snapshot has every entry with a URL "existing". */
  lemma MarkedAgainstItself(master: seq<Fields>, i: nat)
    requires i < |master| && UrlOf(master[i]).Some?
    ensures Get(DetailsFields(MarkNewEntries(master, Some(master))[i]), "status") == Some(Str("existing"))
  {
    MarkedStatus(master, master, i);
  }

  // ---------------------------------------------------------------- getColumnStructure

  const PriorityColumns: seq<string> := ["shop", "image", "name"]

  /** The column keys one entry contributes: its own keys but `details` and `url`, then its details' keys but `url`. */
  function ItemKeys(item: Fields): seq<string>
  {
    Without(Keys(item), ["details", "url"]) + Without(Keys(DetailsFields(item)), ["url"])
  }

  /** An entry contributes exactly its keys but `details` and `url`, and its details' keys but `url`. */
  lemma ItemKeysIff(item: Fields, k: string)
    ensures k in ItemKeys(item) <==>
              (k in Keys(item) && k != "details" && k != "url") || (k in Keys(DetailsFields(item)) && k != "url")
  {
  }

  /** The keys each entry contributes, entry by entry. */
  function KeyGroups(data: seq<Fields>): (g: seq<seq<string>>)
    ensures |g| == |data| && forall i :: 0 <= i < |data| ==> g[i] == ItemKeys(data[i])
  {
    seq(|data|, i requires 0 <= i < |data| => ItemKeys(data[i]))
  }

  /** Adding group after group to an initially empty ordered set. */
  function Gather(groups: seq<seq<string>>): seq<string>
  {
    if groups == [] then [] else AddAll(Gather(groups[..|groups| - 1]), groups[|groups| - 1])
  }

  /** `allColumns` after the entries of `data` have been walked. */
  function Collected(data: seq<Fields>): seq<string>
  {
    Gather(KeyGroups(data))
  }

  /** `indexOf`: the first position of `x`, or -1. */
  function IndexOf(s: seq<string>, x: string): (r: int)
    ensures -1 <= r < |s|
    ensures r == -1 <==> x !in s
    ensures r >= 0 ==> s[r] == x && x !in s[..r]
  {
    if s == [] then -1
    else if s[0] == x then 0
    else var r := IndexOf(s[1..], x); if r == -1 then -1 else r + 1
  }

  /** The priority columns with `status` put right after `name`, or at the end without a `name`. */
  function WithStatus(p: seq<string>): seq<string>
  {
    var n := IndexOf(p, "name");
    if n > -1 then p[..n + 1] + ["status"] + p[n + 1..] else p + ["status"]
  }

  /** The columns in table order, given the collected keys. */
  function Arrange(collected: seq<string>): seq<string>
  {
    Dedup(WithStatus(PriorityColumns) + Without(Add(collected, "isNew"), PriorityColumns))
  }

  /** The columns, in table order. */
  function Columns(data: seq<Fields>): seq<string>
  {
    Arrange(Collected(data))
  }

  /** `keys.forEach(k => allColumns.add(k))`. */
  method AddEach(allColumns: seq<string>, keys: seq<string>) returns (r: seq<string>)
    ensures r == AddAll(allColumns, keys)
  {
    r := allColumns;
    for m := 0 to |keys|
      invariant r == AddAll(allColumns, keys[..m])
    {
      assert keys[..m + 1][..m] == keys[..m];
      r := Add(r, keys[m]);
    }
    assert keys[..|keys|] == keys;
  }

  /** The `data.forEach` walk that fills `allColumns`. */
  method CollectColumns(data: seq<Fields>) returns (allColumns: seq<string>)
    ensures allColumns == Collected(data)
  {
    allColumns := [];
    for n := 0 to |data|
      invariant allColumns == Gather(KeyGroups(data)[..n])
    {
      var item := data[n];
      var before := allColumns;
      var own := Without(Keys(item), ["details", "url"]);
      var inner := Without(Keys(DetailsFields(item)), ["url"]);
      allColumns := AddEach(allColumns, own);
      allColumns := AddEach(allColumns, inner);
      AddAllAppend(before, own, inner);
      GatherStep(KeyGroups(data), n);
    }
    assert KeyGroups(data)[..|data|] == KeyGroups(data);
  }

  lemma GatherStep(groups: seq<seq<string>>, n: nat)
    requires n < |groups|
    ensures Gather(groups[..n + 1]) == AddAll(Gather(groups[..n]), groups[n])
  {
    assert groups[..n + 1][..n] == groups[..n];
  }

  method GetColumnStructure(data: seq<Fields>) returns (columns: seq<string>)
    ensures columns == Columns(data)
  {
    var allColumns := CollectColumns(data);
    allColumns := Add(allColumns, "isNew");
    var sortedColumns := PriorityColumns;
    var remainingColumns := Without(allColumns, PriorityColumns);
    var nameIndex := IndexOf(sortedColumns, "name");
    if nameIndex > -1 {
      sortedColumns := sortedColumns[..nameIndex + 1] + ["status"] + sortedColumns[nameIndex + 1..];
    } else {
      sortedColumns := sortedColumns + ["status"];
    }
    columns := Dedup(sortedColumns + remainingColumns);
  }

  /** A key is gathered iff some group holds it; nothing is gathered twice. */
  lemma {:induction false} GatherIff(groups: seq<seq<string>>, k: string)
    ensures k in Gather(groups) <==> exists i :: 0 <= i < |groups| && k in groups[i]
    ensures Distinct(Gather(groups))
  {
    if groups != [] {
      var init := groups[..|groups| - 1];
      var last := groups[|groups| - 1];
      GatherIff(init, k);
      AddAllFacts(Gather(init), last);
      if k in last {
        assert k in groups[|groups| - 1];
      }
      if k in Gather(init) {
        var i :| 0 <= i < |init| && k in init[i];
        assert init[i] == groups[i];
      }
      if exists i :: 0 <= i < |groups| && k in groups[i] {
        var i :| 0 <= i < |groups| && k in groups[i];
        if i < |init| {
          assert init[i] == groups[i];
        }
      }
    }
  }

  /** A key is collected iff some entry contributes it. */
  lemma CollectedIff(data: seq<Fields>, k: string)
    ensures k in Collected(data) <==> exists i :: 0 <= i < |data| && k in ItemKeys(data[i])
    ensures Distinct(Collected(data))
  {
    GatherIff(KeyGroups(data), k);
  }

  /** Adding elements none of which is there yet, nor repeated, appends them. */
  lemma {:induction false} AddAllFresh(s: seq<string>, xs: seq<string>)
    requires Distinct(s + xs)
    ensures AddAll(s, xs) == s + xs
  {
    if xs != [] {
      var init := xs[..|xs| - 1];
      assert s + xs == (s + init) + [xs[|xs| - 1]];
      assert Distinct(s + init) by {
        forall i, j | 0 <= i < j < |s + init| ensures (s + init)[i] != (s + init)[j] {
          assert (s + init)[i] == (s + xs)[i] && (s + init)[j] == (s + xs)[j];
        }
      }
      AddAllFresh(s, init);
      assert xs[|xs| - 1] !in s + init by {
        forall i | 0 <= i < |s + init| ensures (s + init)[i] != xs[|xs| - 1] {
          assert (s + init)[i] == (s + xs)[i] && xs[|xs| - 1] == (s + xs)[|s + xs| - 1];
        }
      }
    }
  }

  lemma WithStatusPriority()
    ensures WithStatus(PriorityColumns) == ["shop", "image", "name", "status"]
  {
    assert IndexOf(PriorityColumns, "name") == 2;
  }

  /** Whatever was collected, the arranged columns start with the four and repeat nothing. */
  lemma ArrangeFacts(collected: seq<string>, c: string)
    ensures |Arrange(collected)| >= 4 && Arrange(collected)[..4] == ["shop", "image", "name", "status"]
    ensures Distinct(Arrange(collected))
    ensures c in Arrange(collected) <==> c in ["shop", "image", "name", "status", "isNew"] || c in collected
  {
    var head := ["shop", "image", "name", "status"];
    var added := Add(collected, "isNew");
    var rest := Without(added, PriorityColumns);
    WithStatusPriority();
    assert Arrange(collected) == AddAll([], head + rest);
    AddAllAppend([], head, rest);
    assert Distinct(head);
    assert [] + head == head;
    AddAllFresh([], head);
    AddAllFacts(head, rest);
    assert Arrange(collected) == AddAll(head, rest);
    assert c in added <==> c in collected || c == "isNew";
    assert c in rest <==> c in added && c !in PriorityColumns;
  }

  /** The table starts with shop, image, name and status, in that order, and no column comes twice. */
  lemma ColumnsStart(data: seq<Fields>)
    ensures |Columns(data)| >= 4 && Columns(data)[..4] == ["shop", "image", "name", "status"]
    ensures Distinct(Columns(data))
  {
    ArrangeFacts(Collected(data), "");
  }

  /** A column is one of the four leading ones, `isNew`, or a key some entry contributes. */
  lemma ColumnsIff(data: seq<Fields>, c: string)
    ensures c in Columns(data) <==>
              c in ["shop", "image", "name", "status", "isNew"] ||
              exists i :: 0 <= i < |data| && c in ItemKeys(data[i])
  {
    ArrangeFacts(Collected(data), c);
    CollectedIff(data, c);
  }

  /** `url` is never a column: it is left out of both the entry's keys and its details' keys. */
  lemma NoUrlColumn(data: seq<Fields>)
    ensures "url" !in Columns(data)
  {
    ColumnsIff(data, "url");
    forall i | 0 <= i < |data| ensures "url" !in ItemKeys(data[i]) {
      ItemKeysIff(data[i], "url");
    }
  }

  // ---------------------------------------------------------------- cells

  const MaxTruncateLength: nat := 120
  const ExpandableColumns: set<string> := {"description", "service"}

  /** What `createExpandableContent` renders: an expandable container or not, a chevron, the text. */
  datatype Content = Content(expandable: bool, truncated: bool, text: string)

  function ExpandableContent(data: string, column: string, lower: char -> char): (c: Content)
    ensures c.expandable <==> MapChars(column, lower) in ExpandableColumns
  {
    var expandable := MapChars(column, lower) in ExpandableColumns;
    var truncate := expandable && data != "" && |data| > MaxTruncateLength;
    Content(expandable, truncate, if truncate then data[..MaxTruncateLength] + "..." else data)
  }

  /**
   * Only text of an expandable column that is longer than the limit is cut; the
   * cut text is the first 120 characters followed by an ellipsis, and any other
   * text is shown whole.
   */
  lemma ContentShown(data: string, column: string, lower: char -> char)
    ensures var c := ExpandableContent(data, column, lower);
            (c.truncated <==> c.expandable && |data| > MaxTruncateLength) &&
            (c.truncated ==> |c.text| == MaxTruncateLength + 3 && IsPrefix(c.text[..MaxTruncateLength], data) &&
                             IsSuffix("...", c.text)) &&
            (!c.truncated ==> c.text == data) &&
            (c.expandable ==> |c.text| <= MaxTruncateLength + 3)
  {
    var c := ExpandableContent(data, column, lower);
    if c.truncated {
      assert c.text[..MaxTruncateLength] == data[..MaxTruncateLength];
      assert c.text[|c.text| - 3..] == "...";
    }
  }

  /** The column name's case does not matter for whether it is expandable. */
  lemma ExpandableIgnoresCase(data: string, a: string, b: string, lower: char -> char)
    requires MapChars(a, lower) == MapChars(b, lower)
    ensures ExpandableContent(data, a, lower) == ExpandableContent(data, b, lower)
  {
  }

  /** The header: `Status`, or the column name with its first character upper-cased. */
  function ColumnTitle(col: string, upper: char -> char): (t: string)
    ensures |t| == |col|
    ensures col != "" ==> t[1..] == col[1..]
    ensures col != "" && col != "status" ==> t[0] == upper(col[0])
  {
    if col == "status" then "Status"
    else if col == "" then ""
    else [upper(col[0])] + col[1..]
  }

  /** Where `upper` maps `s` to `S`, the `status` header follows the general rule too. */
  lemma StatusTitleRegular(col: string, upper: char -> char)
    requires upper('s') == 'S' && col != ""
    ensures ColumnTitle(col, upper) == [upper(col[0])] + col[1..]
  {
    if col == "status" {
      assert [upper(col[0])] + col[1..] == "Status";
    }
  }

  /**
   * The filter offers a column under its lower-cased header. For a key other
   * than `status` whose first character comes back from upper- then lower-casing,
   * that is the key again exactly when the rest of the key is already lower case.
   */
  lemma FilterColumnOfTitle(col: string, upper: char -> char, lower: char -> char)
    requires col != "" && col != "status" && lower(upper(col[0])) == col[0]
    ensures MapChars(ColumnTitle(col, upper), lower) == col <==>
            forall k :: 1 <= k < |col| ==> lower(col[k]) == col[k]
  {
    var t := MapChars(ColumnTitle(col, upper), lower);
    if forall k :: 1 <= k < |col| ==> lower(col[k]) == col[k] {
      forall k | 0 <= k < |col| ensures t[k] == col[k] {
        if k > 0 {
          assert ColumnTitle(col, upper)[k] == ColumnTitle(col, upper)[1..][k - 1] == col[k];
        }
      }
    }
    if t == col {
      forall k | 1 <= k < |col| ensures lower(col[k]) == col[k] {
        assert ColumnTitle(col, upper)[k] == ColumnTitle(col, upper)[1..][k - 1] == col[k];
      }
    }
  }

  /** `row[col] ?? row.details?.[col]`; `None` is `undefined`. */
  function CellValue(row: Fields, col: string): (v: Option<Json>)
    ensures v.Some? ==> v == Get(row, col) || v == Get(DetailsFields(row), col)
    ensures v.Some? && v.value.Null? ==> Get(row, col) != Some(Null) || Get(DetailsFields(row), col) == Some(Null)
  {
    var top := Get(row, col);
    if top.Some? && !top.value.Null? then top else Get(DetailsFields(row), col)
  }

  /**
   * The text `render` passes on for an ordinary column: `JSON.stringify` of an
   * object or of `null`, the string itself, and `''` for `undefined`.
   * `stringify` is `JSON.stringify` of an object.
   */
  function ShownText(v: Option<Json>, stringify: Fields -> string): string
  {
    match v
    case None => ""
    case Some(Null) => "null"
    case Some(Str(s)) => s
    case Some(Obj(f)) => stringify(f)
  }

  /**
   * The table shows an entry's own value before its details' one, while the
   * filter tests the details' value first: where only one of them is set and it
   * is a string, or neither is set, the table shows the text the filter tests.
   */
  lemma CellAgreesWithFilter(row: Fields, col: string, stringify: Fields -> string)
    requires DistinctKeys(DetailsFields(row))
    requires Get(DetailsFields(row), col).None? || Get(row, col).None? || Get(row, col) == Some(Null)
    requires CellValue(row, col).None? || CellValue(row, col).value.Str?
    ensures ShownText(CellValue(row, col), stringify) == RowFilter.CellText(Get(RowFilter.Merged(row), col))
  {
    RowFilter.DetailsOverride(row, col);
  }

  /**
   * A `null` value, which is what a subpage attribute without text holds, is shown
   * as the text `null` while the filter tests `''` for it.
   */
  lemma NullShownAsText(row: Fields, col: string, stringify: Fields -> string)
    requires DistinctKeys(DetailsFields(row))
    requires CellValue(row, col) == Some(Null)
    ensures ShownText(CellValue(row, col), stringify) == "null"
    ensures RowFilter.CellText(Get(RowFilter.Merged(row), col)) == ""
  {
    RowFilter.DetailsOverride(row, col);
  }

  /** Where both are set, the table shows the entry's own value and the filter tests the details' one. */
  lemma CellDiffersFromFilter(row: Fields, col: string, own: Json, inner: Json)
    requires DistinctKeys(DetailsFields(row))
    requires Get(row, col) == Some(own) && own != Null
    requires Get(DetailsFields(row), col) == Some(inner)
    ensures CellValue(row, col) == Some(own)
    ensures Get(RowFilter.Merged(row), col) == Some(inner)
  {
    RowFilter.DetailsOverride(row, col);
  }
}
