/**
 * License selection and license-text discovery: parsing a cargo license
 * expression, choosing the most acceptable alternative, and locating the text.
 */
module Licenses {
  import opened Wrappers
  import opened Strings
  import opened Metadata

  /** The licenses under which dependencies are accepted, most preferred first. */
  const LicensesInPreferenceOrder: seq<string> := [
    "MPL-2.0",
    "Apache-2.0",
    "MIT",
    "CC0-1.0",
    "ISC",
    "BSD-2-Clause",
    "BSD-3-Clause"
  ]

  /*
   * Splitting a license expression. The tool splits with the regular expression
   * `\s*(?:/|\sOR\s)\s*` and strips each piece. Written by hand: find the earliest
   * separator (a `/`, or whitespace, `OR`, whitespace), cut there, then skip the
   * whitespace that follows it. The regular expression's leading `\s*` only moves
   * whitespace out of the piece, which the strip removes anyway.
   */

  /** Length of the separator starting at `s[i]`: 1 for `/`, 4 for whitespace-`OR`-whitespace, 0 for none. */
  function SeparatorAt(s: string, i: nat): (n: nat)
    requires i < |s|
    ensures i + n <= |s|
    ensures n == 0 || n == 1 || n == 4
  {
    if s[i] == '/' then 1
    else if i + 4 <= |s| && IsSpace(s[i]) && s[i + 1] == 'O' && s[i + 2] == 'R' && IsSpace(s[i + 3]) then 4
    else 0
  }

  function SkipSpaces(s: string, j: nat): (k: nat)
    requires j <= |s|
    ensures j <= k <= |s|
    ensures k == |s| || !IsSpace(s[k])
    decreases |s| - j
  {
    if j < |s| && IsSpace(s[j]) then SkipSpaces(s, j + 1) else j
  }

  /** The pieces of `s[start..]`, scanning from `i`; no separator starts in `s[start..i]`. */
  function SplitFrom(s: string, start: nat, i: nat): seq<string>
    requires start <= i <= |s|
    decreases |s| - i
  {
    if i == |s| then [s[start..]]
    else if SeparatorAt(s, i) > 0 then
      var j := SkipSpaces(s, i + SeparatorAt(s, i));
      [s[start..i]] + SplitFrom(s, j, j)
    else SplitFrom(s, start, i + 1)
  }

  /** `re.split(r"\s*(?:/|\sOR\s)\s*", expr)`, up to whitespace at the ends of each piece. */
  function SplitAlternatives(expr: string): seq<string> {
    SplitFrom(expr, 0, 0)
  }

  /** `set(l.strip() for l in re.split(...))`: the alternatives a license expression offers. */
  function LicenseSet(expr: string): set<string> {
    set piece | piece in SplitAlternatives(expr) :: Strip(piece)
  }

  /** A character of an SPDX license identifier (letters, digits, `-`, `.`, and the `+` suffix). */
  predicate IsIdChar(c: char) {
    'a' <= c <= 'z' || 'A' <= c <= 'Z' || '0' <= c <= '9' || c == '-' || c == '.' || c == '+'
  }

  predicate IsLicenseId(s: string) {
    s != [] && forall i | 0 <= i < |s| :: IsIdChar(s[i])
  }

  predicate AllLicenseIds(ids: seq<string>) {
    forall i :: 0 <= i < |ids| ==> IsLicenseId(ids[i])
  }

  /** Between two identifiers, cargo's legacy `/` or the SPDX `OR` operator. */
  predicate IsAlternativeSeparator(sep: string) {
    sep == "/" || sep == " OR "
  }

  lemma {:induction false} ScanIdentifier(s: string, start: nat, i: nat, end: nat)
    requires start <= i <= end <= |s|
    requires forall k :: start <= k < end ==> IsIdChar(s[k])
    ensures SplitFrom(s, start, i) == SplitFrom(s, start, end)
    decreases end - i
  {
    if i < end {
      assert SeparatorAt(s, i) == 0;
      ScanIdentifier(s, start, i + 1, end);
    }
  }

  lemma IdCharIsNotSpace(c: char)
    requires IsIdChar(c)
    ensures !IsSpace(c) && c != '/'
  {
  }

  /** A separator followed by an identifier character is cut whole, with no whitespace to skip after it. */
  lemma SeparatorBeforeIdentifier(s: string, m: nat, sep: string)
    requires IsAlternativeSeparator(sep)
    requires m + |sep| < |s| && s[m..m + |sep|] == sep && IsIdChar(s[m + |sep|])
    ensures SeparatorAt(s, m) == |sep|
    ensures SkipSpaces(s, m + |sep|) == m + |sep|
  {
    IdCharIsNotSpace(s[m + |sep|]);
    var cut := s[m..m + |sep|];
    if sep == "/" {
      assert s[m] == cut[0] == '/';
    } else {
      assert s[m] == cut[0] == ' ';
      assert s[m + 1] == cut[1] == 'O';
      assert s[m + 2] == cut[2] == 'R';
      assert s[m + 3] == cut[3] == ' ';
    }
  }

  lemma JoinStartsWithFirst(ids: seq<string>, sep: string)
    requires ids != []
    ensures |Join(ids, sep)| >= |ids[0]| && Join(ids, sep)[..|ids[0]|] == ids[0]
    ensures |ids| == 1 ==> Join(ids, sep) == ids[0]
    ensures |ids| > 1 ==> Join(ids, sep)[|ids[0]|..] == sep + Join(ids[1..], sep)
  {
  }

  /** No separator starts inside an identifier, so scanning passes over it. */
  lemma ScanLicenseId(s: string, start: nat, id: string)
    requires start + |id| <= |s| && s[start..start + |id|] == id && IsLicenseId(id)
    ensures SplitFrom(s, start, start) == SplitFrom(s, start, start + |id|)
  {
    forall k | start <= k < start + |id| ensures IsIdChar(s[k]) {
      assert s[k] == id[k - start];
    }
    ScanIdentifier(s, start, start, start + |id|);
  }

  lemma SeparatorThenText(s: string, m: nat, sep: string, rest: string)
    requires m <= |s| && s[m..] == sep + rest && rest != []
    ensures m + |sep| < |s| && s[m..m + |sep|] == sep && s[m + |sep|] == rest[0]
    ensures s[m + |sep|..] == rest
  {
    var t := s[m..];
    assert s[m..m + |sep|] == t[..|sep|];
    assert s[m + |sep|..] == t[|sep|..];
    assert s[m + |sep|] == t[|sep|];
  }

  /** The last identifier is the last piece. */
  lemma LastPiece(s: string, start: nat, id: string)
    requires start <= |s| && s[start..] == id && IsLicenseId(id)
    ensures SplitFrom(s, start, start) == [id]
  {
    ScanLicenseId(s, start, id);
  }

  /**
   * Identifier characters up to `m`, then a separator with nothing to skip after it: the
   * first piece ends at `m` and scanning resumes after the separator.
   */
  lemma PieceAt(s: string, start: nat, m: nat, n: nat, id: string)
    requires start <= m < |s| && s[start..m] == id && IsLicenseId(id)
    requires SeparatorAt(s, m) == n > 0 && SkipSpaces(s, m + n) == m + n
    ensures SplitFrom(s, start, start) == [id] + SplitFrom(s, m + n, m + n)
  {
    forall k | start <= k < m ensures IsIdChar(s[k]) {
      assert s[k] == id[k - start];
    }
    ScanIdentifier(s, start, start, m);
  }

  /** What an identifier, a separator and more text at `start` say about the characters of `s`. */
  lemma PieceFacts(s: string, start: nat, id: string, sep: string, rest: string)
    requires start <= |s| && s[start..] == id + sep + rest
    requires IsLicenseId(id) && IsAlternativeSeparator(sep) && rest != [] && IsIdChar(rest[0])
    ensures start + |id| + |sep| < |s| && s[start + |id| + |sep|..] == rest
    ensures s[start..start + |id|] == id
    ensures SeparatorAt(s, start + |id|) == |sep| > 0 && SkipSpaces(s, start + |id| + |sep|) == start + |id| + |sep|
  {
    var m := start + |id|;
    assert s[start..m] == id && s[m..] == sep + rest by {
      var t := s[start..];
      assert s[start..m] == t[..|id|];
      assert s[m..] == t[|id|..];
    }
    SeparatorThenText(s, m, sep, rest);
    SeparatorBeforeIdentifier(s, m, sep);
  }

  /** An identifier followed by a separator is cut off whole, and scanning resumes after the separator. */
  lemma PieceBeforeSeparator(s: string, start: nat, id: string, sep: string, rest: string)
    requires start <= |s| && s[start..] == id + sep + rest
    requires IsLicenseId(id) && IsAlternativeSeparator(sep) && rest != [] && IsIdChar(rest[0])
    ensures start + |id| + |sep| <= |s| && s[start + |id| + |sep|..] == rest
    ensures SplitFrom(s, start, start) == [id] + SplitFrom(s, start + |id| + |sep|, start + |id| + |sep|)
  {
    assert start + |id| + |sep| <= |s| && s[start + |id| + |sep|..] == rest by {
      PieceFacts(s, start, id, sep, rest);
    }
    assert SplitFrom(s, start, start) == [id] + SplitFrom(s, start + |id| + |sep|, start + |id| + |sep|) by {
      PieceFacts(s, start, id, sep, rest);
      PieceAt(s, start, start + |id|, |sep|, id);
    }
  }

  lemma RestOfJoin(ids: seq<string>, sep: string)
    requires |ids| > 1 && AllLicenseIds(ids)
    ensures AllLicenseIds(ids[1..])
    ensures Join(ids[1..], sep) != [] && IsIdChar(Join(ids[1..], sep)[0])
    ensures Join(ids, sep) == ids[0] + sep + Join(ids[1..], sep)
  {
    var tail := ids[1..];
    var rest := Join(tail, sep);
    forall i | 0 <= i < |tail| ensures IsLicenseId(tail[i]) {
      assert tail[i] == ids[i + 1];
    }
    assert tail[0] == ids[1] && IsLicenseId(ids[1]);
    JoinStartsWithFirst(tail, sep);
    assert rest[0] == rest[..|ids[1]|][0] == ids[1][0];
  }

  lemma {:induction false} SplitFromJoin(s: string, start: nat, ids: seq<string>, sep: string)
    requires start <= |s| && ids != []
    requires AllLicenseIds(ids)
    requires IsAlternativeSeparator(sep)
    requires s[start..] == Join(ids, sep)
    ensures SplitFrom(s, start, start) == ids
    decreases |ids|
  {
    if |ids| == 1 {
      LastPiece(s, start, ids[0]);
    } else {
      var tail := ids[1..];
      assert ids == [ids[0]] + tail;
      RestOfJoin(ids, sep);
      PieceBeforeSeparator(s, start, ids[0], sep, Join(tail, sep));
      SplitFromJoin(s, start + |ids[0]| + |sep|, tail, sep);
    }
  }

  /** Writing alternatives with `/` or ` OR ` and splitting them again gives them back in order. */
  lemma SplitJoinRoundTrip(ids: seq<string>, sep: string)
    requires ids != [] && AllLicenseIds(ids)
    requires IsAlternativeSeparator(sep)
    ensures SplitAlternatives(Join(ids, sep)) == ids
  {
    SplitFromJoin(Join(ids, sep), 0, ids, sep);
  }

  lemma LicenseSetOfJoin(ids: seq<string>, sep: string)
    requires ids != [] && AllLicenseIds(ids)
    requires IsAlternativeSeparator(sep)
    ensures LicenseSet(Join(ids, sep)) == set id | id in ids
  {
    SplitJoinRoundTrip(ids, sep);
    forall i | 0 <= i < |ids| ensures Strip(ids[i]) == ids[i] {
      StripNoSpace(ids[i]);
    }
  }

  /** Index of the first entry of `prefs` that `offered` contains, or `|prefs|`. */
  function FirstPreferred(prefs: seq<string>, offered: set<string>): (k: nat)
    ensures k <= |prefs|
    ensures k < |prefs| ==> prefs[k] in offered
    ensures forall j :: 0 <= j < k ==> prefs[j] !in offered
  {
    if prefs == [] then 0
    else if prefs[0] in offered then 0
    else 1 + FirstPreferred(prefs[1..], offered)
  }

  /**
   * The license chosen among those `offered`: the earliest preferred one; failing that,
   * `OpenSSL` for the OpenSSL package alone; otherwise an error naming the package.
   */
  function PreferredAmong(id: string, licenseId: string, offered: set<string>): (r: Result<string, Error>)
    ensures r.Ok? ==> r.value in offered
    ensures forall k :: 0 <= k < |LicensesInPreferenceOrder| ==>
      (LicensesInPreferenceOrder[k] in offered && (forall j :: 0 <= j < k ==> LicensesInPreferenceOrder[j] !in offered)
       ==> r == Ok(LicensesInPreferenceOrder[k]))
    ensures (forall l :: l in LicensesInPreferenceOrder ==> l !in offered) ==>
      (if "OpenSSL" in offered && id == "ext-openssl" then r == Ok("OpenSSL")
       else r == Err(NoAcceptableLicense(id, licenseId)))
  {
    var k := FirstPreferred(LicensesInPreferenceOrder, offered);
    if k < |LicensesInPreferenceOrder| then Ok(LicensesInPreferenceOrder[k])
    else if "OpenSSL" in offered && id == "ext-openssl" then Ok("OpenSSL")
    else Err(NoAcceptableLicense(id, licenseId))
  }

  /** `pick_most_acceptable_license(id, license_id)`. */
  function PickMostAcceptableLicense(id: string, licenseId: string): Result<string, Error> {
    PreferredAmong(id, licenseId, LicenseSet(licenseId))
  }

  /** The choice does not depend on the order in which the alternatives are written, nor on the separator. */
  lemma PickIgnoresOrderOfAlternatives(id: string, ids1: seq<string>, sep1: string, ids2: seq<string>, sep2: string)
    requires ids1 != [] && AllLicenseIds(ids1)
    requires IsAlternativeSeparator(sep1) && IsAlternativeSeparator(sep2)
    requires forall x :: x in ids1 <==> x in ids2
    ensures PickMostAcceptableLicense(id, Join(ids1, sep1)).Ok? == PickMostAcceptableLicense(id, Join(ids2, sep2)).Ok?
    ensures PickMostAcceptableLicense(id, Join(ids1, sep1)).Ok? ==>
      PickMostAcceptableLicense(id, Join(ids1, sep1)).value == PickMostAcceptableLicense(id, Join(ids2, sep2)).value
  {
    assert ids2 != [] by {
      assert ids1[0] in ids2;
    }
    assert AllLicenseIds(ids2) by {
      forall i | 0 <= i < |ids2| ensures IsLicenseId(ids2[i]) {
        assert ids2[i] in ids1;
        var j :| 0 <= j < |ids1| && ids1[j] == ids2[i];
      }
    }
    assert LicenseSet(Join(ids1, sep1)) == LicenseSet(Join(ids2, sep2)) by {
      LicenseSetOfJoin(ids1, sep1);
      LicenseSetOfJoin(ids2, sep2);
    }
    SameChoiceForSameOffer(id, Join(ids1, sep1), Join(ids2, sep2), LicenseSet(Join(ids1, sep1)));
  }

  /** The choice depends on the licenses offered; the expression only appears in the error. */
  lemma SameChoiceForSameOffer(id: string, expr1: string, expr2: string, offered: set<string>)
    ensures PreferredAmong(id, expr1, offered).Ok? == PreferredAmong(id, expr2, offered).Ok?
    ensures PreferredAmong(id, expr1, offered).Ok? ==>
      PreferredAmong(id, expr1, offered).value == PreferredAmong(id, expr2, offered).value
  {
  }

  /** A package dual-licensed `MIT/Apache-2.0` (or `MIT OR Apache-2.0`) is redistributed under Apache-2.0. */
  lemma PickMitOrApache(id: string, sep: string)
    requires IsAlternativeSeparator(sep)
    ensures PickMostAcceptableLicense(id, Join(["MIT", "Apache-2.0"], sep)) == Ok("Apache-2.0")
  {
    var ids := ["MIT", "Apache-2.0"];
    assert AllLicenseIds(ids) by {
      assert IsLicenseId(ids[0]) && IsLicenseId(ids[1]);
    }
    LicenseSetOfJoin(ids, sep);
    assert LicensesInPreferenceOrder[0] !in set x | x in ids;
    assert LicensesInPreferenceOrder[1] in set x | x in ids;
  }

  /*
   * Locating the license text of a package.
   */

  /** The roots of common license file names, by license; `""` holds the generic ones. */
  const CommonLicenseFileNameRoots: map<string, seq<string>> := map[
    "" := ["license", "licence"],
    "Apache-2.0" := ["license-apache", "licence-apache"],
    "MIT" := ["license-mit", "licence-mit"]
  ]

  const CommonLicenseFileNameSuffixes: seq<string> := ["", ".md", ".txt"]

  function WithSuffix(roots: seq<string>, suffix: string): set<string> {
    set root | root in roots :: root + suffix
  }

  /** Every license-specific root and every generic root, each followed by every suffix. */
  function CandidateNames(roots: seq<string>, generic: seq<string>, suffixes: seq<string>): set<string> {
    set root, suffix | root in roots + generic && suffix in suffixes :: root + suffix
  }

  lemma WithSuffixSnoc(roots: seq<string>, j: nat, suffix: string)
    requires j < |roots|
    ensures WithSuffix(roots[..j + 1], suffix) == WithSuffix(roots[..j], suffix) + {roots[j] + suffix}
  {
    assert roots[..j + 1] == roots[..j] + [roots[j]];
  }

  lemma CandidateNamesSnoc(roots: seq<string>, generic: seq<string>, suffixes: seq<string>, i: nat)
    requires i < |suffixes|
    ensures CandidateNames(roots, generic, suffixes[..i + 1])
      == CandidateNames(roots, generic, suffixes[..i]) + WithSuffix(roots, suffixes[i]) + WithSuffix(generic, suffixes[i])
  {
    var before := CandidateNames(roots, generic, suffixes[..i]);
    var after := CandidateNames(roots, generic, suffixes[..i + 1]);
    var added := WithSuffix(roots, suffixes[i]) + WithSuffix(generic, suffixes[i]);
    assert suffixes[..i + 1] == suffixes[..i] + [suffixes[i]];
    forall nm | nm in after ensures nm in before + added {
      var root, suffix :| root in roots + generic && suffix in suffixes[..i + 1] && nm == root + suffix;
      if suffix !in suffixes[..i] {
        assert suffix == suffixes[i];
        assert root in roots || root in generic;
      }
    }
    forall nm | nm in before + added ensures nm in after {
      if nm in before {
        var root, suffix :| root in roots + generic && suffix in suffixes[..i] && nm == root + suffix;
        assert suffix in suffixes[..i + 1];
      } else if nm in WithSuffix(roots, suffixes[i]) {
        var root :| root in roots && nm == root + suffixes[i];
        assert root in roots + generic && suffixes[i] in suffixes[..i + 1];
      } else {
        var root :| root in generic && nm == root + suffixes[i];
        assert root in roots + generic && suffixes[i] in suffixes[..i + 1];
      }
    }
  }

  /** The innermost loops of the start-up table: add `root + suffix` for each root in turn. */
  method AddWithSuffix(found: set<string>, roots: seq<string>, suffix: string) returns (r: set<string>)
    ensures r == found + WithSuffix(roots, suffix)
  {
    r := found;
    var j := 0;
    while j < |roots|
      invariant 0 <= j <= |roots|
      invariant r == found + WithSuffix(roots[..j], suffix)
    {
      WithSuffixSnoc(roots, j, suffix);
      r := r + {roots[j] + suffix};
      j := j + 1;
    }
    assert roots[..|roots|] == roots;
  }

  /** The names of one license: for each suffix, its own roots and then the generic roots. */
  method CollectCandidateNames(own: seq<string>, generic: seq<string>, suffixes: seq<string>) returns (found: set<string>)
    ensures found == CandidateNames(own, generic, suffixes)
  {
    found := {};
    var i := 0;
    while i < |suffixes|
      invariant 0 <= i <= |suffixes|
      invariant found == CandidateNames(own, generic, suffixes[..i])
    {
      found := AddWithSuffix(found, own, suffixes[i]);
      found := AddWithSuffix(found, generic, suffixes[i]);
      CandidateNamesSnoc(own, generic, suffixes, i);
      i := i + 1;
    }
    assert suffixes[..|suffixes|] == suffixes;
  }

  /**
   * The table of common license file names, built at start-up: for each license with
   * roots of its own, its roots and the generic roots, each with every suffix.
   */
  method BuildCommonLicenseFileNames(roots: map<string, seq<string>>, suffixes: seq<string>)
    returns (names: map<string, set<string>>)
    requires "" in roots
    ensures names.Keys == roots.Keys
    ensures forall license :: license in names ==> names[license] == CandidateNames(roots[license], roots[""], suffixes)
  {
    names := map[];
    var pending := roots.Keys;
    while pending != {}
      invariant pending <= roots.Keys
      invariant names.Keys == roots.Keys - pending
      invariant forall license :: license in names ==> names[license] == CandidateNames(roots[license], roots[""], suffixes)
      decreases pending
    {
      var license :| license in pending;
      var found := CollectCandidateNames(roots[license], roots[""], suffixes);
      names := names[license := found];
      pending := pending - {license};
    }
  }

  /** `COMMON_LICENSE_FILE_NAMES[license]`, falling back to the generic names for any other license. */
  function LicenseFileNames(license: string): set<string> {
    var roots := CommonLicenseFileNameRoots;
    if license in roots then CandidateNames(roots[license], roots[""], CommonLicenseFileNameSuffixes)
    else CandidateNames(roots[""], roots[""], CommonLicenseFileNameSuffixes)
  }

  /** Whatever the license, the generic names `license`, `licence` (with any suffix) are candidates. */
  lemma GenericNamesAlwaysCandidates(license: string, root: string, suffix: string)
    requires root in CommonLicenseFileNameRoots[""] && suffix in CommonLicenseFileNameSuffixes
    ensures root + suffix in LicenseFileNames(license)
  {
    var roots := CommonLicenseFileNameRoots;
    var own := if license in roots then roots[license] else roots[""];
    assert root in own + roots[""];
  }

  /** `[nm for nm in listing if nm.lower() in names]`. */
  function MatchingFiles(listing: seq<string>, names: set<string>): (found: seq<string>)
    ensures |found| <= |listing|
    ensures forall nm :: nm in found <==> nm in listing && Lower(nm) in names
  {
    if listing == [] then []
    else
      var rest := MatchingFiles(listing[1..], names);
      assert listing == [listing[0]] + listing[1..];
      if Lower(listing[0]) in names then [listing[0]] + rest else rest
  }

  /** Entry `i` is the one and only entry of the listing whose lower-cased name is a candidate. */
  ghost predicate UniqueMatch(listing: seq<string>, names: set<string>, i: int) {
    0 <= i < |listing| && Lower(listing[i]) in names
    && forall j :: 0 <= j < |listing| && j != i ==> Lower(listing[j]) !in names
  }

  lemma {:induction false} NoMatchesMeansEmpty(listing: seq<string>, names: set<string>)
    requires forall j :: 0 <= j < |listing| ==> Lower(listing[j]) !in names
    ensures MatchingFiles(listing, names) == []
  {
    if listing != [] {
      NoMatchesMeansEmpty(listing[1..], names);
    }
  }

  /** Exactly one file is found when, and only when, exactly one entry of the listing matches. */
  lemma {:induction false} SingleMatch(listing: seq<string>, names: set<string>)
    ensures |MatchingFiles(listing, names)| == 1 <==> exists i :: UniqueMatch(listing, names, i)
    ensures forall i :: UniqueMatch(listing, names, i) ==> MatchingFiles(listing, names) == [listing[i]]
  {
    if listing != [] {
      var tail := listing[1..];
      SingleMatch(tail, names);
      if Lower(listing[0]) in names {
        if |MatchingFiles(listing, names)| == 1 {
          assert MatchingFiles(tail, names) == [];
          forall j | 0 < j < |listing| ensures Lower(listing[j]) !in names {
            assert listing[j] == tail[j - 1];
            assert listing[j] !in MatchingFiles(tail, names);
          }
          assert UniqueMatch(listing, names, 0);
        }
        forall i | UniqueMatch(listing, names, i) ensures MatchingFiles(listing, names) == [listing[i]] {
          assert i == 0;
          forall j | 0 <= j < |tail| ensures Lower(tail[j]) !in names {
            assert tail[j] == listing[j + 1];
          }
          NoMatchesMeansEmpty(tail, names);
        }
      } else {
        forall i | UniqueMatch(listing, names, i) ensures UniqueMatch(tail, names, i - 1) {
          assert i != 0;
          forall j | 0 <= j < |tail| && j != i - 1 ensures Lower(tail[j]) !in names {
            assert tail[j] == listing[j + 1];
          }
        }
        forall i | UniqueMatch(tail, names, i) ensures UniqueMatch(listing, names, i + 1) {
          forall j | 0 <= j < |listing| && j != i + 1 ensures Lower(listing[j]) !in names {
            if j > 0 {
              assert listing[j] == tail[j - 1];
            }
          }
        }
      }
    }
  }

  /**
   * What the tool can read: the contents of remote files by URL, of local files by
   * path, and the entries of local directories by path.
   */
  datatype Environment = Environment(
    remote: map<string, string>,
    files: map<string, string>,
    listings: map<string, seq<string>>)

  function ReadFile(env: Environment, path: string): Result<string, Error> {
    if path in env.files then Ok(env.files[path]) else Err(FileUnreadable(path))
  }

  /** Look for exactly one conventionally named license file next to the manifest. */
  function DiscoverLicenseFile(license: string, pkg: Package, root: string, env: Environment): (r: Result<string, Error>)
    ensures root !in env.listings ==> r == Err(DirectoryUnreadable(root))
    ensures root in env.listings ==>
      var found := MatchingFiles(env.listings[root], LicenseFileNames(license));
      && (|found| == 1 ==> r == ReadFile(env, JoinPath(root, found[0])))
      && (|found| > 1 ==> r == Err(AmbiguousLicenseFiles(pkg.name, found)))
      && (|found| == 0 ==> r == Err(LicenseFileNotFound(pkg.name, pkg.repository)))
  {
    if root !in env.listings then Err(DirectoryUnreadable(root))
    else
      var found := MatchingFiles(env.listings[root], LicenseFileNames(license));
      if |found| == 1 then ReadFile(env, JoinPath(root, found[0]))
      else if |found| > 1 then Err(AmbiguousLicenseFiles(pkg.name, found))
      else Err(LicenseFileNotFound(pkg.name, pkg.repository))
  }

  /**
   * `_fetch_license_text`: the text declared in the metadata; else the declared license
   * file, fetched when it is an `https://` URL and read next to the manifest otherwise;
   * else the single conventionally named license file next to the manifest.
   */
  function FetchLicenseText(license: string, pkg: Package, env: Environment): (r: Result<string, Error>)
  {
    if pkg.licenseText.Some? then Ok(pkg.licenseText.value)
    else if pkg.licenseFile.Some? && StartsWith(pkg.licenseFile.value, "https://") then
      var url := pkg.licenseFile.value;
      if url in env.remote then Ok(env.remote[url]) else Err(FetchFailed(url))
    else if pkg.manifestPath.None? then Err(MissingManifestPath(pkg.name))
    else
      var root := Dirname(pkg.manifestPath.value);
      if pkg.licenseFile.Some? then ReadFile(env, JoinPath(root, pkg.licenseFile.value))
      else DiscoverLicenseFile(license, pkg, root, env)
  }

  /**
   * With nothing declared, the tool never guesses: it succeeds only when exactly one entry
   * next to the manifest has a conventional license file name, and then returns that file.
   */
  lemma DiscoveryNeverGuesses(license: string, pkg: Package, env: Environment)
    requires pkg.licenseText.None? && pkg.licenseFile.None? && pkg.manifestPath.Some?
    ensures var root := Dirname(pkg.manifestPath.value);
      var r := FetchLicenseText(license, pkg, env);
      && (r.Ok? ==>
            (root in env.listings
             && exists i :: (UniqueMatch(env.listings[root], LicenseFileNames(license), i)
                             && r == ReadFile(env, JoinPath(root, env.listings[root][i])))))
      && (root in env.listings && (forall i :: !UniqueMatch(env.listings[root], LicenseFileNames(license), i)) ==>
            (r == Err(LicenseFileNotFound(pkg.name, pkg.repository))
             || r == Err(AmbiguousLicenseFiles(pkg.name, MatchingFiles(env.listings[root], LicenseFileNames(license))))))
  {
    var root := Dirname(pkg.manifestPath.value);
    if root in env.listings {
      SingleMatch(env.listings[root], LicenseFileNames(license));
    }
  }

  /** Declared license text always wins, and a declared license file is used before any search. */
  lemma DeclarationsTakePrecedence(license: string, pkg: Package, env: Environment)
    ensures pkg.licenseText.Some? ==> FetchLicenseText(license, pkg, env) == Ok(pkg.licenseText.value)
    ensures (pkg.licenseText.None? && pkg.licenseFile.Some? && !StartsWith(pkg.licenseFile.value, "https://")
             && pkg.manifestPath.Some?) ==>
      FetchLicenseText(license, pkg, env)
        == ReadFile(env, JoinPath(Dirname(pkg.manifestPath.value), pkg.licenseFile.value))
    ensures pkg.licenseText.None? && pkg.licenseFile.Some? && StartsWith(pkg.licenseFile.value, "https://") ==>
      (FetchLicenseText(license, pkg, env).Ok? <==> pkg.licenseFile.value in env.remote)
  {
  }

  /** Every root of a common license file name starts with `lic`. */
  lemma RootsStartWithLic(key: string)
    requires key in CommonLicenseFileNameRoots
    ensures forall root :: root in CommonLicenseFileNameRoots[key] ==> |root| >= 3 && root[..3] == "lic"
  {
    assert "license"[..3] == "licence"[..3] == "lic";
    assert "license-apache"[..3] == "licence-apache"[..3] == "lic";
    assert "license-mit"[..3] == "licence-mit"[..3] == "lic";
  }

  /** Every candidate name starts with `lic`. */
  lemma CandidatesStartWithLic(license: string, nm: string)
    ensures nm in LicenseFileNames(license) ==> |nm| >= 3 && nm[..3] == "lic"
  {
    var roots := CommonLicenseFileNameRoots;
    var key := if license in roots then license else "";
    RootsStartWithLic(key);
    RootsStartWithLic("");
    CandidatesKeepPrefix(roots[key], roots[""], CommonLicenseFileNameSuffixes, nm);
  }

  /** Candidate names start with whatever three letters all their roots start with. */
  lemma CandidatesKeepPrefix(own: seq<string>, generic: seq<string>, suffixes: seq<string>, nm: string)
    requires forall root :: root in own ==> |root| >= 3 && root[..3] == "lic"
    requires forall root :: root in generic ==> |root| >= 3 && root[..3] == "lic"
    ensures nm in CandidateNames(own, generic, suffixes) ==> |nm| >= 3 && nm[..3] == "lic"
  {
    if nm in CandidateNames(own, generic, suffixes) {
      var root, suffix :| root in own + generic && suffix in suffixes && nm == root + suffix;
      assert nm[..3] == root[..3];
    }
  }

  /** A lone `LICENSE` file is found whatever the license. */
  lemma LoneLicenseFileIsFound(license: string, listing: seq<string>)
    requires listing == ["Cargo.toml", "LICENSE", "src"]
    ensures MatchingFiles(listing, LicenseFileNames(license)) == ["LICENSE"]
  {
    var names := LicenseFileNames(license);
    assert Lower(listing[1]) == "license";
    GenericNamesAlwaysCandidates(license, "license", "");
    assert "license" + "" == "license";
    assert Lower(listing[0])[0] == 'c' && Lower(listing[2])[0] == 's';
    CandidatesStartWithLic(license, Lower(listing[0]));
    CandidatesStartWithLic(license, Lower(listing[2]));
    assert UniqueMatch(listing, names, 1);
    SingleMatch(listing, names);
  }

  /** `LICENSE` beside `LICENSE.md` is ambiguous: the tool refuses to choose. */
  lemma TwoLicenseFilesAreAmbiguous(license: string, listing: seq<string>)
    requires listing == ["LICENSE", "LICENSE.md"]
    ensures MatchingFiles(listing, LicenseFileNames(license)) == listing
  {
    assert Lower(listing[0]) == "license";
    assert Lower(listing[1]) == "license.md";
    GenericNamesAlwaysCandidates(license, "license", "");
    GenericNamesAlwaysCandidates(license, "license", ".md");
    assert "license" + "" == "license";
    assert "license" + ".md" == "license.md";
  }
}
