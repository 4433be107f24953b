/**
 * The version resolver of internal/finder/find.go: among the entries of
 * GenshinImpact_Data/webCaches it keeps the directories whose names parse as
 * four dot-separated non-negative integers, picks one with the greatest
 * tuple, and checks that its data_2 file exists.
 *
 * The filesystem is abstract: the listing of webCaches is `None` when it
 * cannot be read and otherwise a sequence of (name, is-directory) entries,
 * and `stat` gives the outcome of the final stat call for a path.
 */
module Finder {
  import opened Wrappers
  import opened Strings
  import opened Strconv

  /** A parsed version directory name: [4]int with every part in 0..MaxInt. */
  type Version = v: seq<nat> | |v| == 4 witness [0, 0, 0, 0]

  // ---------------------------------------------------------------------
  // parseVersion
  // ---------------------------------------------------------------------

  /** One segment of a version name: non-empty, Atoi-parseable, not negative. */
  predicate ValidSegment(seg: string)
  {
    seg != "" && Atoi(seg).Some? && Atoi(seg).value >= 0
  }

  /** The version a directory name denotes, if it denotes one. */
  function ParsedVersion(name: string): Option<Version>
  {
    var parts := Split(name, '.');
    if |parts| == 4 && forall i :: 0 <= i < 4 ==> ValidSegment(parts[i]) then
      Some([Atoi(parts[0]).value, Atoi(parts[1]).value, Atoi(parts[2]).value, Atoi(parts[3]).value])
    else None
  }

  /**
   * A name denotes a version exactly when it has four dot-separated segments,
   * each valid; the version's parts are the segments' values, in order.
   */
  lemma ParsedVersionMeaning(s: string)
    ensures ParsedVersion(s).Some? <==> |Split(s, '.')| == 4 && forall seg <- Split(s, '.') :: ValidSegment(seg)
    ensures ParsedVersion(s).Some? ==>
              forall i :: 0 <= i < 4 ==> Atoi(Split(s, '.')[i]) == Some(ParsedVersion(s).value[i] as int)
  {
    var parts := Split(s, '.');
    if |parts| == 4 && forall i :: 0 <= i < 4 ==> ValidSegment(parts[i]) {
      forall seg <- parts ensures ValidSegment(seg) {
        var i :| 0 <= i < 4 && parts[i] == seg;
      }
    }
  }

  /** parseVersion: split on '.', demand four segments, convert each in turn. */
  method ParseVersion(s: string) returns (r: Option<Version>)
    ensures r.Some? <==> |Split(s, '.')| == 4 && forall seg <- Split(s, '.') :: ValidSegment(seg)
    ensures r.Some? ==> forall i :: 0 <= i < 4 ==> Atoi(Split(s, '.')[i]) == Some(r.value[i] as int)
    ensures r == ParsedVersion(s)
  {
    ParsedVersionMeaning(s);
    var parts := Split(s, '.');
    if |parts| != 4 {
      return None;
    }
    var res: Version := [0, 0, 0, 0];
    for i := 0 to 4
      invariant forall k :: 0 <= k < i ==> ValidSegment(parts[k]) && res[k] == Atoi(parts[k]).value
    {
      var seg := parts[i];
      if seg == "" {
        return None;
      }
      var v := Atoi(seg);
      if v.None? || v.value < 0 {
        return None;
      }
      res := res[i := v.value];
    }
    assert res == [Atoi(parts[0]).value, Atoi(parts[1]).value, Atoi(parts[2]).value, Atoi(parts[3]).value];
    return Some(res);
  }

  /** The canonical name of a version: its parts in decimal, joined by dots. */
  function VersionName(v: Version): string
  {
    Join([Decimal(v[0]), Decimal(v[1]), Decimal(v[2]), Decimal(v[3])], '.')
  }

  /** Four dot-free segments that Atoi reads as the parts of `v`, joined with dots, parse to `v`. */
  lemma ParsedJoin(parts: seq<string>, v: Version)
    requires |parts| == 4
    requires forall i :: 0 <= i < 4 ==> '.' !in parts[i] && Atoi(parts[i]) == Some(v[i] as int)
    ensures ParsedVersion(Join(parts, '.')) == Some(v)
  {
    forall p <- parts ensures '.' !in p {
      var i :| 0 <= i < 4 && parts[i] == p;
    }
    SplitJoin(parts, '.');
    assert [Atoi(parts[0]).value, Atoi(parts[1]).value, Atoi(parts[2]).value, Atoi(parts[3]).value] == v;
  }

  /** Round trip: the canonical name of a version (parts within int64) parses back to it. */
  lemma ParseVersionName(v: Version)
    requires forall x <- v :: x <= MaxInt
    ensures ParsedVersion(VersionName(v)) == Some(v)
  {
    var parts := [Decimal(v[0]), Decimal(v[1]), Decimal(v[2]), Decimal(v[3])];
    forall i | 0 <= i < 4 ensures '.' !in parts[i] && Atoi(parts[i]) == Some(v[i] as int) {
      assert v[i] in v;
      AtoiDecimal(v[i]);
      assert AllDigits(parts[i]);
    }
    ParsedJoin(parts, v);
  }

  /** Names without dots, such as "foo", "latest" and "backup-2024", are skipped. */
  lemma UndottedNamesRejected()
    ensures ParsedVersion("foo") == None && ParsedVersion("latest") == None
    ensures ParsedVersion("backup-2024") == None
  {
    SplitNoSeparator("foo", '.');
    SplitNoSeparator("latest", '.');
    SplitNoSeparator("backup-2024", '.');
  }

  /** "1.2.3" has three segments only. */
  lemma ThreeSegmentsRejected()
    ensures ParsedVersion("1.2.3") == None
  {
    assert Join(["2", "3"], '.') == "2.3";
    assert Join(["1", "2", "3"], '.') == "1.2.3";
    SplitJoin(["1", "2", "3"], '.');
  }

  /** "1..2.3" has four segments, one of them empty. */
  lemma EmptySegmentRejected()
    ensures ParsedVersion("1..2.3") == None
  {
    assert Join(["2", "3"], '.') == "2.3";
    assert Join(["", "2", "3"], '.') == ".2.3";
    assert Join(["1", "", "2", "3"], '.') == "1..2.3";
    SplitJoin(["1", "", "2", "3"], '.');
    assert !ValidSegment(Split("1..2.3", '.')[1]);
  }

  /** Different names can denote the same version: "+1.01.-0.0" parses to [1, 1, 0, 0]. */
  lemma EquivalentNames()
    ensures ParsedVersion("+1.01.-0.0") == Some([1, 1, 0, 0])
  {
    var parts := ["+1", "01", "-0", "0"];
    assert Join(parts, '.') == "+1.01.-0.0" by {
      assert Join(parts[3..], '.') == "0";
      assert Join(parts[2..], '.') == "-0.0";
      assert Join(parts[1..], '.') == "01.-0.0";
    }
    SignedAndPaddedExamples();
    assert Atoi("0") == Some(0) by {
      assert "0"[..0] == "";
    }
    ParsedJoin(parts, [1, 1, 0, 0]);
  }

  // ---------------------------------------------------------------------
  // The order of versions
  // ---------------------------------------------------------------------

  /** The sort comparator of findData2FS: `a` is strictly newer than `b`. */
  predicate Newer(a: Version, b: Version)
  {
    if a[0] != b[0] then a[0] > b[0]
    else if a[1] != b[1] then a[1] > b[1]
    else if a[2] != b[2] then a[2] > b[2]
    else a[3] > b[3]
  }

  /** The comparator is the lexicographic order on the four integers. */
  lemma NewerIsLexicographic(a: Version, b: Version)
    ensures Newer(a, b) <==> exists i :: 0 <= i < 4 && a[..i] == b[..i] && a[i] > b[i]
  {
    if Newer(a, b) {
      var i := if a[0] != b[0] then 0 else if a[1] != b[1] then 1 else if a[2] != b[2] then 2 else 3;
      assert a[..i] == b[..i];
    } else {
      forall i | 0 <= i < 4 && a[..i] == b[..i] ensures a[i] <= b[i] {
        assert forall k :: 0 <= k < i ==> a[k] == a[..i][k] == b[..i][k] == b[k];
      }
    }
  }

  lemma NewerTransitive(a: Version, b: Version, c: Version)
    requires Newer(a, b) && Newer(b, c)
    ensures Newer(a, c)
  {
  }

  /** Two different versions are always ordered one way or the other. */
  lemma NewerTotal(a: Version, b: Version)
    requires a != b
    ensures Newer(a, b) || Newer(b, a)
  {
  }

  /** Components compare as integers, not as text: 9.0.0.0 beats 2.44.1.0 and 10.0.0.0 beats 9.0.0.0. */
  lemma NumericNotTextual()
    ensures Newer([9, 0, 0, 0], [2, 44, 1, 0]) && Newer([2, 44, 1, 0], [2, 44, 0, 0])
    ensures Newer([10, 0, 0, 0], [9, 0, 0, 0]) && Less("10.0.0.0", "9.0.0.0")
  {
  }

  // ---------------------------------------------------------------------
  // findData2FS
  // ---------------------------------------------------------------------

  /** A directory entry of webCaches (fs.DirEntry: its name and whether it is a directory). */
  datatype Entry = Entry(name: string, isDir: bool)

  /** A version directory: its name and the version it denotes. */
  datatype Candidate = Candidate(name: string, parts: Version)

  datatype StatOutcome = Found | NotExist | StatFailed

  datatype FindError =
    | EmptyRoot
    | ReadError
    | NoVersionsFound
    | DataFileMissing(version: string)
    | StatError

  /** The entries that are directories with a version name, in listing order. */
  function Candidates(es: seq<Entry>): (cs: seq<Candidate>)
    ensures forall c <- cs :: Entry(c.name, true) in es && ParsedVersion(c.name) == Some(c.parts)
    ensures forall e <- es :: e.isDir && ParsedVersion(e.name).Some? ==> Candidate(e.name, ParsedVersion(e.name).value) in cs
  {
    if es == [] then []
    else
      var e := es[|es| - 1];
      var init := Candidates(es[..|es| - 1]);
      assert es == es[..|es| - 1] + [e];
      if e.isDir && ParsedVersion(e.name).Some? then init + [Candidate(e.name, ParsedVersion(e.name).value)]
      else init
  }

  /** `c` is a greatest candidate: its version is at least that of every candidate. */
  predicate IsLatest(c: Candidate, cs: seq<Candidate>)
  {
    c in cs && forall d <- cs :: d.parts == c.parts || Newer(c.parts, d.parts)
  }

  /** Where data_2 lies for a version directory, relative to the game data root. */
  function DataPath(name: string): string
  {
    "GenshinImpact_Data/webCaches/" + name + "/Cache/Cache_Data/data_2"
  }

  /** The outcome of the stat of data_2 under the chosen version. */
  function StatData2(name: string, stat: string -> StatOutcome): Result<string, FindError>
  {
    match stat(DataPath(name))
    case Found => Success(DataPath(name))
    case NotExist => Failure(DataFileMissing(name))
    case StatFailed => Failure(StatError)
  }

  /**
   * What findData2FS may return for a listing: a read error, no versions, or
   * the stat outcome of data_2 under some greatest candidate.
   */
  ghost predicate ResolvedBy(listing: Option<seq<Entry>>, stat: string -> StatOutcome, r: Result<string, FindError>)
  {
    match listing
    case None => r == Failure(ReadError)
    case Some(es) =>
      if Candidates(es) == [] then r == Failure(NoVersionsFound)
      else exists c :: IsLatest(c, Candidates(es)) && r == StatData2(c.name, stat)
  }

  /** The maximum of the candidates; the source sorts them newest first and takes the head. */
  method Latest(cs: seq<Candidate>) returns (best: Candidate)
    requires cs != []
    ensures IsLatest(best, cs)
  {
    best := cs[0];
    for i := 1 to |cs|
      invariant best in cs
      invariant forall d <- cs[..i] :: d.parts == best.parts || Newer(best.parts, d.parts)
    {
      var c := cs[i];
      if Newer(c.parts, best.parts) {
        forall d <- cs[..i] ensures d.parts == c.parts || Newer(c.parts, d.parts) {
          if d.parts != best.parts {
            NewerTransitive(c.parts, best.parts, d.parts);
          }
        }
        best := c;
      } else if c.parts != best.parts {
        NewerTotal(c.parts, best.parts);
      }
      assert cs[..i + 1] == cs[..i] + [c];
    }
    assert cs[..|cs|] == cs;
  }

  /** findData2FS: locate data_2 under the newest version directory. */
  method FindData2FS(listing: Option<seq<Entry>>, stat: string -> StatOutcome) returns (r: Result<string, FindError>)
    ensures ResolvedBy(listing, stat, r)
  {
    if listing.None? {
      return Failure(ReadError);
    }
    var entries := listing.value;
    var versions: seq<Candidate> := [];
    for k := 0 to |entries|
      invariant versions == Candidates(entries[..k])
    {
      assert entries[..k + 1][..k] == entries[..k];
      var e := entries[k];
      if !e.isDir {
        continue;
      }
      var p := ParseVersion(e.name);
      if p.None? {
        continue;
      }
      versions := versions + [Candidate(e.name, p.value)];
    }
    assert entries[..|entries|] == entries;
    if |versions| == 0 {
      return Failure(NoVersionsFound);
    }
    var latest := Latest(versions);
    var rel := DataPath(latest.name);
    match stat(rel)
    case Found => r := Success(rel);
    case NotExist => r := Failure(DataFileMissing(latest.name));
    case StatFailed => r := Failure(StatError);
  }

  /** FindData2: reject an empty root before any lookup, then resolve. */
  method FindData2(root: string, listing: Option<seq<Entry>>, stat: string -> StatOutcome) returns (r: Result<string, FindError>)
    ensures root == "" ==> r == Failure(EmptyRoot)
    ensures root != "" ==> ResolvedBy(listing, stat, r)
  {
    if root == "" {
      return Failure(EmptyRoot);
    }
    r := FindData2FS(listing, stat);
  }

  // ---------------------------------------------------------------------
  // What resolution promises
  // ---------------------------------------------------------------------

  /** A success names data_2 under a greatest version directory, and that file exists. */
  lemma SuccessIsLatestData2(listing: Option<seq<Entry>>, stat: string -> StatOutcome, r: Result<string, FindError>)
    requires ResolvedBy(listing, stat, r) && r.Success?
    ensures listing.Some?
    ensures exists c :: IsLatest(c, Candidates(listing.value)) && r.value == DataPath(c.name)
    ensures stat(r.value) == Found
  {
    var c :| IsLatest(c, Candidates(listing.value)) && r == StatData2(c.name, stat);
  }

  /** Only version directories count: with no candidate the result is NoVersionsFound. */
  lemma NoCandidatesFails(es: seq<Entry>, stat: string -> StatOutcome, r: Result<string, FindError>)
    requires forall e <- es :: !e.isDir || ParsedVersion(e.name).None?
    requires ResolvedBy(Some(es), stat, r)
    ensures r == Failure(NoVersionsFound)
  {
  }

  /**
   * No fallback: when data_2 is missing under every greatest version, the
   * result is DataFileMissing even if an older version has the file.
   */
  lemma MissingLatestData2Fails(es: seq<Entry>, stat: string -> StatOutcome, r: Result<string, FindError>)
    requires ResolvedBy(Some(es), stat, r) && Candidates(es) != []
    requires forall c <- Candidates(es) :: IsLatest(c, Candidates(es)) ==> stat(DataPath(c.name)) == NotExist
    ensures r.Failure? && r.error.DataFileMissing?
  {
    var c :| IsLatest(c, Candidates(es)) && r == StatData2(c.name, stat);
  }
}
