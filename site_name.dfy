/**
 * Package-name extraction from a `FASTN.ftd` descriptor
 * (src/utils/get_site_name_from_ftd.rs): the text is split into lines as
 * `str::lines` does, the first line that contains the marker
 * `-- fastn.package: ` is split at its first `:`, and the remainder,
 * trimmed of white space, is the package name.
 */
module SiteName {
  import opened Common

  const Marker: string := "-- fastn.package: "

  /** What opening and reading `FASTN.ftd` produced. */
  datatype FtdFile =
    | CantOpen(error: IoError)
    | CantRead(error: IoError)
    | Text(text: string)

  datatype GetSiteNameFromFtdError =
    | PackageNotFound
    | CantOpenFASTNFile(error: IoError)
    | CantReadFASTNFile(error: IoError)

  // ---------------------------------------------------------------------
  // String helpers with Rust's semantics
  // ---------------------------------------------------------------------

  /** Index of the first `c` in `s`, or `|s|` when there is none. */
  function IndexOf(s: string, c: char): (i: nat)
    ensures i <= |s|
    ensures i < |s| ==> s[i] == c
    ensures forall j :: 0 <= j < i ==> s[j] != c
    decreases |s|
  {
    if s == [] || s[0] == c then 0 else 1 + IndexOf(s[1..], c)
  }

  lemma IndexOfAt(s: string, c: char, i: nat)
    requires i < |s| && s[i] == c
    requires forall j :: 0 <= j < i ==> s[j] != c
    ensures IndexOf(s, c) == i
  {
  }

  lemma IndexOfAbsent(s: string, c: char)
    requires c !in s
    ensures IndexOf(s, c) == |s|
  {
  }

  /** `str::split_once` with a character pattern: the parts before and after the first `c`. */
  function SplitOnce(s: string, c: char): (r: Option<(string, string)>)
    ensures r.None? <==> c !in s
    ensures r.Some? ==> s == r.value.0 + [c] + r.value.1 && c !in r.value.0
  {
    var i := IndexOf(s, c);
    if i == |s| then None
    else
      assert s == s[..i] + [c] + s[i + 1..];
      Some((s[..i], s[i + 1..]))
  }

  /** `str::contains` with a string pattern: `pat` occurs somewhere in `s`. */
  predicate Contains(s: string, pat: string)
    ensures Contains(s, pat) <==> exists i :: OccursAt(s, pat, i)
    decreases |s|
  {
    OccurrenceShift(s, pat);
    StartsWith(s, pat) || (s != [] && Contains(s[1..], pat))
  }

  /** `pat` occurs in `s` starting at index `i`. */
  predicate OccursAt(s: string, pat: string, i: int)
  {
    0 <= i <= |s| - |pat| && s[i..i + |pat|] == pat
  }

  /** An occurrence is at the front or is an occurrence in the tail. */
  lemma OccurrenceShift(s: string, pat: string)
    ensures (exists i :: OccursAt(s, pat, i))
        <==> StartsWith(s, pat) || (s != [] && exists i :: OccursAt(s[1..], pat, i))
  {
    if exists i :: OccursAt(s, pat, i) {
      var i :| OccursAt(s, pat, i);
      if i > 0 {
        TailSlice(s, i - 1, |pat|);
        assert OccursAt(s[1..], pat, i - 1);
      }
    }
    if StartsWith(s, pat) {
      assert OccursAt(s, pat, 0);
    } else if s != [] && exists i :: OccursAt(s[1..], pat, i) {
      var i :| OccursAt(s[1..], pat, i);
      TailSlice(s, i, |pat|);
      assert OccursAt(s, pat, i + 1);
    }
  }

  lemma TailSlice(s: string, i: nat, n: nat)
    requires s != [] && i + n <= |s| - 1
    ensures s[1..][i..i + n] == s[i + 1..i + 1 + n]
  {
  }

  /** The code points with the Unicode White_Space property, one by one. */
  const WhiteSpaceCodePoints: set<int> :=
    {0x09, 0x0A, 0x0B, 0x0C, 0x0D, 0x20, 0x85, 0xA0, 0x1680,
     0x2000, 0x2001, 0x2002, 0x2003, 0x2004, 0x2005, 0x2006, 0x2007, 0x2008, 0x2009, 0x200A,
     0x2028, 0x2029, 0x202F, 0x205F, 0x3000}

  /** `char::is_whitespace`: the Unicode White_Space property. */
  predicate IsWhitespace(c: char)
  {
    var n := c as int;
    (0x09 <= n <= 0x0D) || n == 0x20 || n == 0x85 || n == 0xA0 || n == 0x1680
    || (0x2000 <= n <= 0x200A) || n == 0x2028 || n == 0x2029 || n == 0x202F
    || n == 0x205F || n == 0x3000
  }

  /** The ranges of `IsWhitespace` cover exactly the listed White_Space code points. */
  lemma WhiteSpaceTable(c: char)
    ensures IsWhitespace(c) <==> c as int in WhiteSpaceCodePoints
  {
  }

  function TrimStart(s: string): (r: string)
    ensures |r| <= |s| && r == s[|s| - |r|..]
    ensures forall k :: 0 <= k < |s| - |r| ==> IsWhitespace(s[k])
    ensures r == [] || !IsWhitespace(r[0])
    decreases |s|
  {
    if s != [] && IsWhitespace(s[0]) then TrimStart(s[1..]) else s
  }

  function TrimEnd(s: string): (r: string)
    ensures |r| <= |s| && r == s[..|r|]
    ensures forall k :: |r| <= k < |s| ==> IsWhitespace(s[k])
    ensures r == [] || !IsWhitespace(r[|r| - 1])
    decreases |s|
  {
    if s != [] && IsWhitespace(s[|s| - 1]) then TrimEnd(s[..|s| - 1]) else s
  }

  /** `str::trim`: `s` with its leading and trailing white space removed. */
  function Trim(s: string): (r: string)
    ensures r == [] || (!IsWhitespace(r[0]) && !IsWhitespace(r[|r| - 1]))
    ensures exists i :: TrimmedAt(s, r, i)
  {
    var e := TrimEnd(s);
    var r := TrimStart(e);
    TrimParts(s, e, r);
    r
  }

  /** Trimming the end, then the start, leaves a piece of `s` with only white space around it. */
  lemma TrimParts(s: string, e: string, r: string)
    requires |e| <= |s| && e == s[..|e|] && forall k :: |e| <= k < |s| ==> IsWhitespace(s[k])
    requires |r| <= |e| && r == e[|e| - |r|..] && forall k :: 0 <= k < |e| - |r| ==> IsWhitespace(e[k])
    ensures TrimmedAt(s, r, |e| - |r|)
  {
    var i := |e| - |r|;
    assert r == s[i..i + |r|];
    forall k | 0 <= k < i ensures IsWhitespace(s[k]) {
      assert s[k] == e[k];
    }
  }

  /** `r` is `s[i..]` cut where only white space surrounds it. */
  predicate TrimmedAt(s: string, r: string, i: int)
  {
    0 <= i <= |s| - |r| && r == s[i..i + |r|]
    && (forall k :: 0 <= k < i ==> IsWhitespace(s[k]))
    && (forall k :: i + |r| <= k < |s| ==> IsWhitespace(s[k]))
  }

  function StripCarriageReturn(line: string): string
  {
    if line != [] && line[|line| - 1] == '\r' then line[..|line| - 1] else line
  }

  /**
   * `str::lines`: the pieces between `\n` characters, each with one `\r`
   * removed from its end when a `\n` follows it; a final `\n` does not start
   * an extra empty line, and a `\r` not followed by `\n` is kept.
   */
  function Lines(s: string): (ls: seq<string>)
    ensures forall k :: 0 <= k < |ls| ==> '\n' !in ls[k]
    decreases |s|
  {
    if s == [] then []
    else
      var i := IndexOf(s, '\n');
      if i == |s| then [s] else [StripCarriageReturn(s[..i])] + Lines(s[i + 1..])
  }

  /** Reference inverse of `Lines`: every line followed by `\n`. */
  function JoinLines(ls: seq<string>): string
  {
    if ls == [] then [] else ls[0] + "\n" + JoinLines(ls[1..])
  }

  // ---------------------------------------------------------------------
  // The parser
  // ---------------------------------------------------------------------

  /** The name the line scan finds in `lines`, before `ok_or` turns None into an error. */
  function PackageNameIn(lines: seq<string>): Option<string>
  {
    if lines == [] then None
    else if Contains(lines[0], Marker) then
      match SplitOnce(lines[0], ':')
      case Some(parts) => Some(Trim(parts.1))
      case None => None
    else PackageNameIn(lines[1..])
  }

  /** Line `k` is the first line of `lines` that contains the marker. */
  predicate IsFirstMarkerLine(lines: seq<string>, k: int)
  {
    0 <= k < |lines| && Contains(lines[k], Marker)
    && forall j :: 0 <= j < k ==> !Contains(lines[j], Marker)
  }

  /** The loop shared by both parsers: scan the lines, stop at the first marker line. */
  method FindPackageName(content: string) returns (packageName: Option<string>)
    ensures packageName == PackageNameIn(Lines(content))
  {
    var lines := Lines(content);
    packageName := None;
    var i := 0;
    while i < |lines|
      invariant 0 <= i <= |lines|
      invariant PackageNameIn(lines) == PackageNameIn(lines[i..])
    {
      assert lines[i..][0] == lines[i];
      if Contains(lines[i], Marker) {
        packageName := match SplitOnce(lines[i], ':')
                       case Some(parts) => Some(Trim(parts.1))
                       case None => None;
        break;
      }
      assert lines[i..][1..] == lines[i + 1..];
      i := i + 1;
    }
  }

  /** `get_site_name_from_ftd`, from the outcome of opening and reading `FASTN.ftd`. */
  method GetSiteNameFromFtd(file: FtdFile) returns (r: Result<string, GetSiteNameFromFtdError>)
    ensures file.CantOpen? ==> r == Err(CantOpenFASTNFile(file.error))
    ensures file.CantRead? ==> r == Err(CantReadFASTNFile(file.error))
    ensures file.Text? ==>
              match PackageNameIn(Lines(file.text))
              case Some(name) => r == Ok(name)
              case None => r == Err(PackageNotFound)
  {
    match file
    case CantOpen(e) => r := Err(CantOpenFASTNFile(e));
    case CantRead(e) => r := Err(CantReadFASTNFile(e));
    case Text(text) =>
      var packageName := FindPackageName(text);
      r := match packageName
           case Some(name) => Ok(name)
           case None => Err(PackageNotFound);
  }

  // ---------------------------------------------------------------------
  // Properties
  // ---------------------------------------------------------------------

  lemma {:induction false} ContainsChar(s: string, pat: string, c: char)
    requires Contains(s, pat) && c in pat
    ensures c in s
    decreases |s|
  {
    if !StartsWith(s, pat) {
      ContainsChar(s[1..], pat, c);
    } else {
      var k :| 0 <= k < |pat| && pat[k] == c;
      assert s[k] == c;
    }
  }

  /** A marker line always has a `:`, so `split_once` never fails on it. */
  lemma MarkerLineSplits(line: string)
    requires Contains(line, Marker)
    ensures SplitOnce(line, ':').Some?
  {
    assert Marker[16] == ':';
    ContainsChar(line, Marker, ':');
  }

  /**
   * The scan's result: None exactly when no line contains the marker, and
   * otherwise the trimmed text after the first `:` of the first marker line.
   */
  lemma {:induction false} PackageNameInFirstMarkerLine(lines: seq<string>)
    ensures PackageNameIn(lines).None? <==> forall k :: 0 <= k < |lines| ==> !Contains(lines[k], Marker)
    ensures forall k :: IsFirstMarkerLine(lines, k) ==>
              SplitOnce(lines[k], ':').Some?
              && PackageNameIn(lines) == Some(Trim(SplitOnce(lines[k], ':').value.1))
  {
    if lines != [] {
      if Contains(lines[0], Marker) {
        MarkerLineSplits(lines[0]);
        forall k | IsFirstMarkerLine(lines, k) ensures k == 0 { }
      } else {
        PackageNameInFirstMarkerLine(lines[1..]);
        forall k | IsFirstMarkerLine(lines, k)
          ensures IsFirstMarkerLine(lines[1..], k - 1)
        {
          assert k != 0;
        }
        forall k | 0 <= k < |lines[1..]| && Contains(lines[1..][k], Marker)
          ensures exists j :: 0 <= j < |lines| && Contains(lines[j], Marker)
        {
          assert lines[k + 1] == lines[1..][k];
        }
      }
    }
  }

  /** A found name never begins or ends with white space. */
  lemma {:induction false} PackageNameTrimmed(lines: seq<string>)
    requires PackageNameIn(lines).Some?
    ensures var name := PackageNameIn(lines).value;
            name == [] || (!IsWhitespace(name[0]) && !IsWhitespace(name[|name| - 1]))
    decreases |lines|
  {
    if !Contains(lines[0], Marker) {
      PackageNameTrimmed(lines[1..]);
    }
  }

  /** Marker lines after the first one are never looked at. */
  lemma {:induction false} LaterLinesIgnored(lines: seq<string>, more: seq<string>)
    requires PackageNameIn(lines).Some?
    ensures PackageNameIn(lines + more) == PackageNameIn(lines)
    decreases |lines|
  {
    var all := lines + more;
    assert all[0] == lines[0];
    if Contains(lines[0], Marker) {
      SameFirstMarkerLine(lines, all);
    } else {
      assert all[1..] == lines[1..] + more;
      SkipUnmarkedLine(lines);
      LaterLinesIgnored(lines[1..], more);
      SkipUnmarkedLine(all);
    }
  }

  lemma SameFirstMarkerLine(a: seq<string>, b: seq<string>)
    requires a != [] && b != [] && a[0] == b[0] && Contains(a[0], Marker)
    ensures PackageNameIn(a) == PackageNameIn(b)
  {
  }

  lemma SkipUnmarkedLine(lines: seq<string>)
    requires lines != [] && !Contains(lines[0], Marker)
    ensures PackageNameIn(lines) == PackageNameIn(lines[1..])
  {
  }

  lemma {:induction false} ContainsAfter(p: string, s: string, pat: string)
    requires StartsWith(s, pat)
    ensures Contains(p + s, pat)
    decreases |p|
  {
    if p == [] {
      assert p + s == s;
    } else {
      assert (p + s)[1..] == p[1..] + s;
      ContainsAfter(p[1..], s, pat);
    }
  }

  /**
   * The marker may stand anywhere in the line: with no `:` before it, the
   * name is the trimmed rest of the line after the marker's own `:`.
   */
  lemma MarkerAnywhere(p: string, q: string)
    requires ':' !in p
    ensures PackageNameIn([p + Marker + q]) == Some(Trim(" " + q))
  {
    var line := p + Marker + q;
    assert StartsWith(Marker + q, Marker);
    assert line == p + (Marker + q);
    ContainsAfter(p, Marker + q, Marker);
    assert line == (p + "-- fastn.package") + [':'] + (" " + q);
    var a := p + "-- fastn.package";
    assert ':' !in a;
    assert forall j :: 0 <= j < |a| ==> line[j] == a[j];
    IndexOfAt(line, ':', |a|);
    assert line[|a| + 1..] == " " + q;
  }

  /** A line that is exactly the marker names the empty package. */
  lemma BareMarkerLine()
    ensures PackageNameIn(Lines(Marker)) == Some("")
  {
    LinesOfOneLine(Marker);
    MarkerLineAlone(Marker);
    TrimSpace();
  }

  lemma MarkerLineAlone(line: string)
    requires line == Marker
    ensures PackageNameIn([line]) == Some(Trim(" "))
  {
    assert StartsWith(line, Marker);
    ContainsAfter([], line, Marker);
    assert [] + line == line;
    IndexOfAt(line, ':', 16);
    assert line[17..] == " ";
    SingleMarkerLine(line);
  }

  /** A one-line text that contains the marker names the trimmed text after its first `:`. */
  lemma SingleMarkerLine(line: string)
    requires Contains(line, Marker)
    ensures SplitOnce(line, ':').Some?
    ensures PackageNameIn([line]) == Some(Trim(SplitOnce(line, ':').value.1))
  {
    MarkerLineSplits(line);
  }

  lemma LinesOfOneLine(l: string)
    requires l != [] && '\n' !in l
    ensures Lines(l) == [l]
  {
    IndexOfAbsent(l, '\n');
  }

  lemma TrimSpace()
    ensures Trim(" ") == ""
  {
    assert IsWhitespace(' ');
    assert " "[..0] == [];
  }

  /** A `:` before the marker moves the split: the marker becomes part of the name. */
  lemma ColonBeforeMarker()
    ensures PackageNameIn(["x:" + Marker + "site"]) == Some(Marker + "site")
  {
    var line := "x:" + Marker + "site";
    assert line == "x" + [':'] + (Marker + "site");
    assert StartsWith(Marker + "site", Marker);
    assert line == "x:" + (Marker + "site");
    ContainsAfter("x:", Marker + "site", Marker);
    IndexOfAt(line, ':', 1);
    assert line[..1] == "x" && line[2..] == Marker + "site";
    assert SplitOnce(line, ':') == Some(("x", Marker + "site"));
    var v := Marker + "site";
    assert !IsWhitespace(v[0]) && !IsWhitespace(v[|v| - 1]);
    assert TrimEnd(v) == v;
    assert TrimStart(v) == v;
  }

  /** `Lines` takes apart what `JoinLines` puts together. */
  lemma {:induction false} LinesJoinLines(ls: seq<string>)
    requires forall k :: 0 <= k < |ls| ==> '\n' !in ls[k] && (ls[k] == [] || ls[k][|ls[k]| - 1] != '\r')
    ensures Lines(JoinLines(ls)) == ls
  {
    if ls != [] {
      var s := JoinLines(ls);
      var l := ls[0];
      assert s == l + "\n" + JoinLines(ls[1..]);
      assert s[|l|] == '\n';
      assert forall j :: 0 <= j < |l| ==> s[j] == l[j];
      IndexOfAt(s, '\n', |l|);
      assert s[..|l|] == l;
      assert s[|l| + 1..] == JoinLines(ls[1..]);
      LinesJoinLines(ls[1..]);
    }
  }

  /** A `\r\n` ending counts as one line ending. */
  lemma CrLfLine(l: string, rest: string)
    requires '\n' !in l
    ensures Lines(l + "\r\n" + rest) == [l] + Lines(rest)
  {
    var s := l + "\r\n" + rest;
    var i := |l| + 1;
    assert s[i] == '\n';
    assert forall j :: 0 <= j < |l| ==> s[j] == l[j];
    IndexOfAt(s, '\n', i);
    assert s[..i] == l + "\r";
    assert s[i + 1..] == rest;
  }
}
