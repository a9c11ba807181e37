/**
 * The structure of the license report `print_dependency_summary` writes: dependencies
 * grouped by license text, sections in preference order, the header and anchor of each
 * section, the text printed for it and the links to the packages it covers.
 */
module Report {
  import opened Wrappers
  import opened Strings
  import opened Sorting
  import opened Metadata
  import opened Licenses
  import opened Grouping

  /*
   * Grouping by license text.
   */

  /** Licenses whose copies are known to share one text, so a section holds all their users. */
  predicate SharedTextLicense(license: string) {
    license == "MPL-2.0" || license == "Apache-2.0" || license == "OpenSSL"
  }

  /**
   * `licenseTextHash`: the license alone for a shared-text license, otherwise the license, a
   * colon and the text with all whitespace removed (standing for its SHA-256 digest).
   */
  function GroupKey(info: LicenseInfo): string {
    if SharedTextLicense(info.license) then info.license
    else info.license + ":" + RemoveWhitespace(info.text)
  }

  /** Re-wrapping a license text does not move its dependency to another group. */
  lemma GroupKeyIgnoresWhitespace(info: LicenseInfo, a: string, w: string, b: string)
    requires info.text == a + b && AllSpace(w)
    ensures GroupKey(info.(text := a + w + b)) == GroupKey(info)
  {
    InsertedWhitespaceVanishes(a, w, b);
  }

  lemma {:induction false} BeforeColon(license: string, rest: string)
    requires ':' !in license
    ensures BeforeFirst(license + ":" + rest, ':') == license
    decreases |license|
  {
    if license != [] {
      assert (license + ":" + rest)[1..] == license[1..] + ":" + rest;
      BeforeColon(license[1..], rest);
    }
  }

  lemma {:induction false} ColonFreeBeforeFirst(s: string)
    requires ':' !in s
    ensures BeforeFirst(s, ':') == s
    decreases |s|
  {
    if s != [] {
      ColonFreeBeforeFirst(s[1..]);
    }
  }

  /** The license of a dependency is the part of its key before the first colon. */
  lemma KeyNamesLicense(info: LicenseInfo)
    requires ':' !in info.license
    ensures BeforeFirst(GroupKey(info), ':') == info.license
  {
    if SharedTextLicense(info.license) {
      ColonFreeBeforeFirst(info.license);
    } else {
      BeforeColon(info.license, RemoveWhitespace(info.text));
    }
  }

  /**
   * Two dependencies whose licenses hold no colon share a group exactly when they have the
   * same license and, unless it is a shared-text license, the same text up to whitespace.
   */
  lemma SameGroupIff(x: LicenseInfo, y: LicenseInfo)
    requires ':' !in x.license && ':' !in y.license
    ensures GroupKey(x) == GroupKey(y) <==>
      x.license == y.license && (SharedTextLicense(x.license) || RemoveWhitespace(x.text) == RemoveWhitespace(y.text))
  {
    if GroupKey(x) == GroupKey(y) {
      KeyNamesLicense(x);
      KeyNamesLicense(y);
      var n := |x.license| + 1;
      if !SharedTextLicense(x.license) {
        assert GroupKey(x)[n..] == RemoveWhitespace(x.text);
        assert GroupKey(y)[n..] == RemoveWhitespace(y.text);
      }
    }
  }

  /**
   * The grouping loop of `print_dependency_summary`: append each dependency to the list
   * under its key, creating the list at the key's first occurrence.
   */
  method GroupByLicenseText(deps: seq<LicenseInfo>) returns (keys: seq<string>, groups: map<string, seq<LicenseInfo>>)
    ensures keys == KeysInOrder(deps, GroupKey)
    ensures forall key :: key in groups <==> key in keys
    ensures forall key :: key in groups ==> groups[key] == Members(deps, GroupKey, key)
  {
    keys, groups := [], map[];
    var i := 0;
    while i < |deps|
      invariant i <= |deps|
      invariant GroupedAs(deps[..i], GroupKey, keys, groups)
    {
      var key := GroupKey(deps[i]);
      if key in groups {
        GroupedJoin(deps, GroupKey, i, keys, groups);
        groups := groups[key := groups[key] + [deps[i]]];
      } else {
        GroupedNew(deps, GroupKey, i, keys, groups);
        keys := keys + [key];
        groups := groups[key := [deps[i]]];
      }
      i := i + 1;
    }
    assert deps[..i] == deps;
  }

  /*
   * Section order.
   */

  /** The index of the first of `prefs` that `key` starts with, or `|prefs|` when there is none. */
  function FirstPrefixOf(key: string, prefs: seq<string>): (r: nat)
    ensures r <= |prefs|
    ensures r < |prefs| ==> StartsWith(key, prefs[r])
    ensures forall j :: 0 <= j < r ==> !StartsWith(key, prefs[j])
  {
    if prefs == [] then 0
    else if StartsWith(key, prefs[0]) then 0
    else 1 + FirstPrefixOf(key, prefs[1..])
  }

  /** The first component of `sort_key`: the preference rank of the key's license. */
  function Rank(key: string): (r: nat)
    ensures r <= |LicensesInPreferenceOrder|
    ensures r < |LicensesInPreferenceOrder| ==> StartsWith(key, LicensesInPreferenceOrder[r])
    ensures forall j :: 0 <= j < r ==> !StartsWith(key, LicensesInPreferenceOrder[j])
  {
    FirstPrefixOf(key, LicensesInPreferenceOrder)
  }

  function NameOf(info: LicenseInfo): string {
    info.name
  }

  /** The names of a group's dependencies, in order. */
  function Names(group: seq<LicenseInfo>): seq<string> {
    MapSeq(group, NameOf)
  }

  /** `sorted(info["name"] for info in group)`: duplicates kept. */
  function SortedNames(group: seq<LicenseInfo>): seq<string> {
    SortBy(Names(group), StrLe)
  }

  /** The value `sort_key` returns: a rank and a sorted list of names, compared as a Python tuple. */
  datatype SortKey = SortKey(rank: nat, names: seq<string>)

  predicate SortKeyLess(a: SortKey, b: SortKey) {
    a.rank < b.rank || (a.rank == b.rank && LexLess(a.names, b.names, StrLess))
  }

  lemma SortKeyLessStrictTotal()
    ensures StrictTotalOrder(SortKeyLess)
  {
    StrLessStrictTotal();
    forall a: SortKey ensures !SortKeyLess(a, a) {
      LexIrreflexive(a.names, StrLess);
    }
    forall a: SortKey, b: SortKey, c: SortKey | SortKeyLess(a, b) && SortKeyLess(b, c) ensures SortKeyLess(a, c) {
      if a.rank == b.rank == c.rank {
        LexTransitive(a.names, b.names, c.names, StrLess);
      }
    }
    forall a: SortKey, b: SortKey | a != b ensures SortKeyLess(a, b) || SortKeyLess(b, a) {
      if a.rank == b.rank {
        LexTotal(a.names, b.names, StrLess);
      }
    }
  }

  /** `sort_key(key)` for a key whose group is `group`: the key's rank and the group's sorted names. */
  function SortKeyFor(key: string, group: seq<LicenseInfo>): SortKey {
    SortKey(Rank(key), SortedNames(group))
  }

  /** `sort_key(key)` over the grouping of `deps`. */
  function SortKeyOf(deps: seq<LicenseInfo>, key: string): SortKey {
    SortKeyFor(key, Members(deps, GroupKey, key))
  }

  /** `sort_key` itself, for the grouping of `deps`. */
  function SortKeys(deps: seq<LicenseInfo>): string -> SortKey {
    key => SortKeyOf(deps, key)
  }

  /**
   * `sorted(depsByLicenseTextHash.keys(), key=sort_key)` as written: a stable sort, so keys
   * with equal sort keys stay in the order in which they were first met.
   */
  function AsWrittenSectionOrder(deps: seq<LicenseInfo>): seq<string> {
    SortBy(KeysInOrder(deps, GroupKey), ByKey(SortKeys(deps), SortKeyLess))
  }

  /**
   * The sections as written are the keys, each once, ordered by rank and then by sorted
   * names.
   */
  lemma AsWrittenSectionsSorted(deps: seq<LicenseInfo>)
    ensures multiset(AsWrittenSectionOrder(deps)) == multiset(KeysInOrder(deps, GroupKey))
    ensures forall i, j :: 0 <= i < j < |AsWrittenSectionOrder(deps)| ==>
      !SortKeyLess(SortKeyOf(deps, AsWrittenSectionOrder(deps)[j]), SortKeyOf(deps, AsWrittenSectionOrder(deps)[i]))
  {
    SortKeyLessStrictTotal();
    ByKeyTotalPreorder(SortKeys(deps), SortKeyLess);
    SortBySorted(KeysInOrder(deps, GroupKey), ByKey(SortKeys(deps), SortKeyLess));
  }

  /** A key that starts with "MIT" ranks third, after MPL-2.0 and Apache-2.0. */
  lemma RankOfMit(key: string)
    requires StartsWith(key, "MIT")
    ensures Rank(key) == 2
  {
    assert LicensesInPreferenceOrder[2] == "MIT";
    assert key[0] == 'M' && key[1] == 'I';
    assert !StartsWith(key, LicensesInPreferenceOrder[0]) by {
      assert LicensesInPreferenceOrder[0][1] == 'P';
    }
    assert !StartsWith(key, LicensesInPreferenceOrder[1]) by {
      assert LicensesInPreferenceOrder[1][0] == 'A';
    }
  }

  /** A stable sort leaves two elements that compare equal where they are. */
  lemma SortTwoTied<T>(a: T, b: T, le: (T, T) -> bool)
    requires le(a, b)
    ensures SortBy([a, b], le) == [a, b]
  {
    assert [a, b][1..] == [b];
    assert [b][1..] == [];
  }

  /**
   * Two dependencies of one name in two groups of equal rank tie on their sort keys, so the
   * sections come out in input order.
   */
  lemma TiedPairKeepsInputOrder(x: LicenseInfo, y: LicenseInfo)
    requires GroupKey(x) != GroupKey(y) && x.name == y.name && Rank(GroupKey(x)) == Rank(GroupKey(y))
    ensures AsWrittenSectionOrder([x, y]) == [GroupKey(x), GroupKey(y)]
  {
    TwoGroups(x, y, GroupKey);
    TiedSortKeys(x, y);
    SortTwoTied(GroupKey(x), GroupKey(y), ByKey(SortKeys([x, y]), SortKeyLess));
  }

  /** The two groups of such a pair have equal sort keys, so neither sorts before the other. */
  lemma TiedSortKeys(x: LicenseInfo, y: LicenseInfo)
    requires GroupKey(x) != GroupKey(y) && x.name == y.name && Rank(GroupKey(x)) == Rank(GroupKey(y))
    ensures !SortKeyLess(SortKeyOf([x, y], GroupKey(y)), SortKeyOf([x, y], GroupKey(x)))
  {
    TwoGroups(x, y, GroupKey);
    assert Names([x]) == [x.name] && Names([y]) == [y.name];
    assert SortKeyOf([x, y], GroupKey(x)) == SortKeyOf([x, y], GroupKey(y));
    StrLessStrictTotal();
    LexIrreflexive(SortedNames([x]), StrLess);
  }

  /** The key of an MIT dependency whose text is one visible character. */
  lemma MitKey(info: LicenseInfo, c: char)
    requires info.license == "MIT" && info.text == [c] && !IsSpace(c)
    ensures GroupKey(info) == "MIT:" + [c]
    ensures Rank(GroupKey(info)) == 2
  {
    assert RemoveWhitespace([c]) == [c] by {
      assert [c][1..] == [];
    }
    RankOfMit(GroupKey(info));
  }

  /** Two MIT dependencies of one name with different one-character texts: their sections in input order. */
  lemma TiedMitPair(x: LicenseInfo, y: LicenseInfo, a: char, b: char)
    requires x.license == "MIT" && x.text == [a] && !IsSpace(a)
    requires y.license == "MIT" && y.text == [b] && !IsSpace(b)
    requires x.name == y.name && a != b
    ensures AsWrittenSectionOrder([x, y]) == ["MIT:" + [a], "MIT:" + [b]]
  {
    MitKey(x, a);
    MitKey(y, b);
    assert ("MIT:" + [a])[4] == a;
    TiedPairKeepsInputOrder(x, y);
  }

  /**
   * Two MIT dependencies of one name whose texts differ form two groups with equal sort
   * keys; the section order then follows the order of the input, which is the iteration
   * order of a Python set of package ids.
   */
  lemma AsWrittenOrderDependsOnInput()
    ensures var x := LicenseInfo("foo", None, "MIT", "A");
            var y := LicenseInfo("foo", None, "MIT", "B");
      && AsWrittenSectionOrder([x, y]) == ["MIT:A", "MIT:B"]
      && AsWrittenSectionOrder([y, x]) == ["MIT:B", "MIT:A"]
  {
    var x := LicenseInfo("foo", None, "MIT", "A");
    var y := LicenseInfo("foo", None, "MIT", "B");
    assert "MIT:" + ['A'] == "MIT:A" && "MIT:" + ['B'] == "MIT:B";
    TiedMitPair(x, y, 'A', 'B');
    TiedMitPair(y, x, 'B', 'A');
  }

  /*
   * The section order with ties broken by the key itself.
   */

  /** The sections in order: by rank, then sorted names, then key, so no two sections tie. */
  function SectionOrder(deps: seq<LicenseInfo>): seq<string> {
    SortBy(KeysInOrder(deps, GroupKey), ThenBy(SortKeys(deps), SortKeyLess, StrLe))
  }

  /**
   * The sections are the keys, each exactly once, ordered by rank, then by sorted names,
   * then by key: the order the source promises, with its ties settled.
   */
  lemma SectionOrderSorted(deps: seq<LicenseInfo>)
    ensures forall k :: k in SectionOrder(deps) <==> k in KeysInOrder(deps, GroupKey)
    ensures NoDuplicates(SectionOrder(deps))
    ensures forall i, j :: 0 <= i < j < |SectionOrder(deps)| ==>
      || SortKeyLess(SortKeyOf(deps, SectionOrder(deps)[i]), SortKeyOf(deps, SectionOrder(deps)[j]))
      || (SortKeyOf(deps, SectionOrder(deps)[i]) == SortKeyOf(deps, SectionOrder(deps)[j])
          && StrLess(SectionOrder(deps)[i], SectionOrder(deps)[j]))
  {
    var keys, order := KeysInOrder(deps, GroupKey), SectionOrder(deps);
    var le := ThenBy(SortKeys(deps), SortKeyLess, StrLe);
    SortKeyLessStrictTotal();
    StrLeIsTotalOrder();
    ThenByTotalOrder(SortKeys(deps), SortKeyLess, StrLe);
    SortBySorted(keys, le);
    assert forall k :: k in order <==> k in multiset(keys);
    PermutationKeepsNoDuplicates(keys, order);
    StrLessStrictTotal();
    forall i, j | 0 <= i < j < |order|
      ensures || SortKeyLess(SortKeyOf(deps, order[i]), SortKeyOf(deps, order[j]))
              || (SortKeyOf(deps, order[i]) == SortKeyOf(deps, order[j]) && StrLess(order[i], order[j]))
    {
      assert le(order[i], order[j]);
      assert order[i] != order[j];
    }
  }

  /** Reordering a group leaves its sorted names unchanged. */
  lemma SortedNamesPermuted(g1: seq<LicenseInfo>, g2: seq<LicenseInfo>)
    requires multiset(g1) == multiset(g2)
    ensures SortedNames(g1) == SortedNames(g2)
  {
    MapSeqPermutation(g1, g2, NameOf);
    StrLeIsTotalOrder();
    SortByPermutation(Names(g1), Names(g2), StrLe);
  }

  /** Sort keys depend on the input only up to its order. */
  lemma SortKeysIgnoreOrder(d1: seq<LicenseInfo>, d2: seq<LicenseInfo>, key: string)
    requires multiset(d1) == multiset(d2)
    ensures SortKeyOf(d1, key) == SortKeyOf(d2, key)
  {
    MembersPermuted(d1, d2, GroupKey, key);
    SortedNamesPermuted(Members(d1, GroupKey, key), Members(d2, GroupKey, key));
  }

  /** The section order depends only on which dependencies there are, not on the order they come in. */
  lemma SectionOrderIndependent(d1: seq<LicenseInfo>, d2: seq<LicenseInfo>)
    requires multiset(d1) == multiset(d2)
    ensures SectionOrder(d1) == SectionOrder(d2)
  {
    var k1, k2 := KeysInOrder(d1, GroupKey), KeysInOrder(d2, GroupKey);
    var le1 := ThenBy(SortKeys(d1), SortKeyLess, StrLe);
    var le2 := ThenBy(SortKeys(d2), SortKeyLess, StrLe);
    forall a, b ensures le1(a, b) == le2(a, b) {
      SortKeysIgnoreOrder(d1, d2, a);
      SortKeysIgnoreOrder(d1, d2, b);
    }
    forall k ensures k in k1 <==> k in k2 {
      KeysPermuted(d1, d2, GroupKey, k);
    }
    SortKeyLessStrictTotal();
    StrLeIsTotalOrder();
    ThenByTotalOrder(SortKeys(d1), SortKeyLess, StrLe);
    SortByUnique(k1, k2, le1);
    SortByCongruent(k2, le1, le2);
  }

  /*
   * Headers and anchors.
   */

  /** `format_license_header(key, group)`. */
  function LicenseHeader(key: string, group: seq<LicenseInfo>): string {
    if key == "MPL-2.0" then "Mozilla Public License 2.0"
    else if key == "Apache-2.0" then "Apache License 2.0"
    else if key == "OpenSSL" then "OpenSSL License"
    else BeforeFirst(key, ':') + " License: " + Join(SortedSet(Names(group)), ", ")
  }

  /** A header depends on the set of names in the group, not on their order or repetition. */
  lemma HeaderIgnoresOrder(key: string, g1: seq<LicenseInfo>, g2: seq<LicenseInfo>)
    requires forall n :: n in Names(g1) <==> n in Names(g2)
    ensures LicenseHeader(key, g1) == LicenseHeader(key, g2)
  {
    SortedSetCanonical(Names(g1), Names(g2));
  }

  /**
   * Outside the shared-text licenses, a header starts with the dependency's license followed
   * by " License: ", and goes on with the names of the group.
   */
  lemma HeaderNamesLicense(info: LicenseInfo, group: seq<LicenseInfo>)
    requires ':' !in info.license && !SharedTextLicense(info.license)
    ensures LicenseHeader(GroupKey(info), group) == info.license + " License: " + Join(SortedSet(Names(group)), ", ")
  {
    var key := GroupKey(info);
    KeyNamesLicense(info);
    assert ':' in key by {
      assert key[|info.license|] == ':';
    }
    assert ':' !in "MPL-2.0" && ':' !in "Apache-2.0" && ':' !in "OpenSSL";
  }

  /** `header_to_anchor(header)`: lower-cased, spaces become dashes, `.`, `,` and `:` are dropped. */
  function HeaderToAnchor(header: string): (anchor: string)
    ensures ' ' !in anchor && '.' !in anchor && ',' !in anchor && ':' !in anchor
    ensures forall i :: 0 <= i < |anchor| ==> !IsAsciiUpper(anchor[i])
  {
    var lower := Lower(header);
    assert forall c :: c in lower ==> !IsAsciiUpper(c);
    var a := Replace(Replace(Replace(Replace(lower, ' ', "-"), '.', ""), ',', ""), ':', "");
    assert forall c :: c in a ==> c in lower || c == '-';
    assert forall i :: 0 <= i < |a| ==> a[i] in a;
    a
  }

  /** An anchor is its own anchor. */
  lemma AnchorIdempotent(header: string)
    ensures HeaderToAnchor(HeaderToAnchor(header)) == HeaderToAnchor(header)
  {
    var a := HeaderToAnchor(header);
    assert Lower(a) == a;
  }

  /** What `header_to_anchor` makes of one character: a dash for a space, nothing for `.`, `,` or `:`, otherwise the character lower-cased. */
  function AnchorOfChar(c: char): string {
    if c == ' ' then "-"
    else if c == '.' || c == ',' || c == ':' then ""
    else [ToLowerChar(c)]
  }

  /** The anchor built one character at a time, each character of the header mapped on its own, in order. */
  function CharwiseAnchor(header: string): string {
    if header == [] then [] else AnchorOfChar(header[0]) + CharwiseAnchor(header[1..])
  }

  /** The anchor of a header is the anchors of its pieces, one after the other. */
  lemma AnchorConcat(a: string, b: string)
    ensures HeaderToAnchor(a + b) == HeaderToAnchor(a) + HeaderToAnchor(b)
  {
    assert Lower(a + b) == Lower(a) + Lower(b);
    var a1, b1 := Replace(Lower(a), ' ', "-"), Replace(Lower(b), ' ', "-");
    ReplaceConcat(Lower(a), Lower(b), ' ', "-");
    var a2, b2 := Replace(a1, '.', ""), Replace(b1, '.', "");
    ReplaceConcat(a1, b1, '.', "");
    var a3, b3 := Replace(a2, ',', ""), Replace(b2, ',', "");
    ReplaceConcat(a2, b2, ',', "");
    ReplaceConcat(a3, b3, ':', "");
  }

  lemma AnchorOfOneChar(c: char)
    ensures HeaderToAnchor([c]) == AnchorOfChar(c)
  {
    var l := ToLowerChar(c);
    assert Lower([c]) == [l];
    if c == ' ' {
      ReplaceOfChar(l, ' ', "-");
    } else if c == '.' || c == ',' || c == ':' {
      ReplaceOfChar(l, c, "");
      assert Replace([], ':', "") == [];
    } else {
      assert l != ' ' && l != '.' && l != ',' && l != ':';
    }
  }

  /** `header_to_anchor` maps each character of the header on its own and keeps their order. */
  lemma {:induction false} AnchorCharwise(header: string)
    ensures HeaderToAnchor(header) == CharwiseAnchor(header)
    decreases |header|
  {
    if header == [] {
      assert Lower(header) == [];
    } else {
      assert header == [header[0]] + header[1..];
      AnchorConcat([header[0]], header[1..]);
      AnchorOfOneChar(header[0]);
      AnchorCharwise(header[1..]);
    }
  }

  /*
   * The text printed for a section.
   */

  /** A text is acceptable for a section unless the section is Apache's and the text lacks the `[yyyy]` placeholder. */
  predicate AcceptableText(key: string, text: string) {
    key != "Apache-2.0" || Contains(text, "[yyyy]")
  }

  /** The text of the first dependency whose text is acceptable. */
  function FirstAcceptableText(key: string, sorted: seq<LicenseInfo>): Result<string, Error> {
    if sorted == [] then Err(NoApacheTemplate)
    else if AcceptableText(key, sorted[0].text) then Ok(sorted[0].text)
    else FirstAcceptableText(key, sorted[1..])
  }

  /**
   * The pick succeeds exactly when some text is acceptable, and then yields the first such
   * text; outside the Apache section that is the first dependency's text.
   */
  lemma {:induction false} FirstAcceptableTextMeaning(key: string, sorted: seq<LicenseInfo>)
    ensures FirstAcceptableText(key, sorted).Ok? <==> exists i :: 0 <= i < |sorted| && AcceptableText(key, sorted[i].text)
    ensures FirstAcceptableText(key, sorted).Err? ==> FirstAcceptableText(key, sorted).error == NoApacheTemplate
    ensures FirstAcceptableText(key, sorted).Ok? ==>
      exists i :: (0 <= i < |sorted| && FirstAcceptableText(key, sorted).value == sorted[i].text
                   && AcceptableText(key, sorted[i].text) && forall j :: 0 <= j < i ==> !AcceptableText(key, sorted[j].text))
    ensures key != "Apache-2.0" && sorted != [] ==> FirstAcceptableText(key, sorted) == Ok(sorted[0].text)
    decreases |sorted|
  {
    if sorted != [] && !AcceptableText(key, sorted[0].text) {
      var rest := sorted[1..];
      FirstAcceptableTextMeaning(key, rest);
      if FirstAcceptableText(key, rest).Ok? {
        var i :| && 0 <= i < |rest| && FirstAcceptableText(key, rest).value == rest[i].text
          && AcceptableText(key, rest[i].text) && forall j :: 0 <= j < i ==> !AcceptableText(key, rest[j].text);
        assert forall j :: 0 <= j < i + 1 ==> !AcceptableText(key, sorted[j].text) by {
          forall j | 0 <= j < i + 1 ensures !AcceptableText(key, sorted[j].text) {
            if j > 0 {
              assert sorted[j] == rest[j - 1];
            }
          }
        }
        assert sorted[i + 1] == rest[i];
      }
      forall i | 0 < i < |sorted| ensures sorted[i] == rest[i - 1] {}
    }
  }

  /** An acceptable text anywhere in the list makes the pick succeed. */
  lemma FirstAcceptableTextFound(key: string, sorted: seq<LicenseInfo>, i: nat)
    requires i < |sorted| && AcceptableText(key, sorted[i].text)
    ensures FirstAcceptableText(key, sorted).Ok?
  {
    FirstAcceptableTextMeaning(key, sorted);
  }

  /** A successful pick is the text of one of the listed dependencies, and an acceptable one. */
  lemma FirstAcceptableTextPicks(key: string, sorted: seq<LicenseInfo>)
    requires FirstAcceptableText(key, sorted).Ok?
    ensures exists i :: 0 <= i < |sorted| && sorted[i].text == FirstAcceptableText(key, sorted).value
    ensures AcceptableText(key, FirstAcceptableText(key, sorted).value)
  {
    FirstAcceptableTextMeaning(key, sorted);
  }

  /**
   * The `for`/`else` loop of `print_dependency_summary`: start from the first dependency's
   * text and stop at the first acceptable one.
   */
  method PickSectionText(key: string, sorted: seq<LicenseInfo>) returns (r: Result<string, Error>)
    requires sorted != []
    ensures r == FirstAcceptableText(key, sorted)
  {
    var text := sorted[0].text;
    var i := 0;
    while i < |sorted|
      invariant i <= |sorted|
      invariant FirstAcceptableText(key, sorted) == FirstAcceptableText(key, sorted[i..])
    {
      text := sorted[i].text;
      if AcceptableText(key, text) {
        return Ok(text);
      }
      assert sorted[i..][1..] == sorted[i + 1..];
      i := i + 1;
    }
    return Err(NoApacheTemplate);
  }

  /*
   * Package links.
   */

  /** `"[{}]({})".format(info["name"], info["repository"])`: a missing repository prints as `None`. */
  function PackageLink(info: LicenseInfo): string {
    "[" + info.name + "](" + (if info.repository.Some? then info.repository.value else "None") + ")"
  }

  /** `sorted(set(pkgs))`: the links of a group, each once, in code-point order. */
  function SectionLinks(group: seq<LicenseInfo>): seq<string> {
    SortedSet(MapSeq(group, PackageLink))
  }

  /** The links are those of the group's dependencies, each listed once, in strictly increasing order. */
  lemma LinksMeaning(group: seq<LicenseInfo>)
    ensures forall l :: l in SectionLinks(group) <==> exists i :: 0 <= i < |group| && l == PackageLink(group[i])
    ensures forall i, j :: 0 <= i < j < |SectionLinks(group)| ==> StrLess(SectionLinks(group)[i], SectionLinks(group)[j])
  {
    SortedSetCanonical(MapSeq(group, PackageLink), MapSeq(group, PackageLink));
  }

  /** Reordering a group leaves its links unchanged. */
  lemma LinksPermuted(g1: seq<LicenseInfo>, g2: seq<LicenseInfo>)
    requires multiset(g1) == multiset(g2)
    ensures SectionLinks(g1) == SectionLinks(g2)
  {
    var l1, l2 := MapSeq(g1, PackageLink), MapSeq(g2, PackageLink);
    MapSeqPermutation(g1, g2, PackageLink);
    assert forall l :: l in l1 <==> l in multiset(l1);
    assert forall l :: l in l2 <==> l in multiset(l2);
    SortedSetCanonical(l1, l2);
  }

  /** Reordering a group leaves its header unchanged. */
  lemma HeaderPermuted(key: string, g1: seq<LicenseInfo>, g2: seq<LicenseInfo>)
    requires multiset(g1) == multiset(g2)
    ensures LicenseHeader(key, g1) == LicenseHeader(key, g2)
  {
    MapSeqPermutation(g1, g2, NameOf);
    assert forall n :: n in Names(g1) <==> n in multiset(Names(g1));
    assert forall n :: n in Names(g2) <==> n in multiset(Names(g2));
    HeaderIgnoresOrder(key, g1, g2);
  }

  /*
   * Sections.
   */

  /** `sorted(group, key=lambda i: i["name"])`: by name, dependencies of equal name in group order. */
  function ByName(group: seq<LicenseInfo>): seq<LicenseInfo> {
    SortBy(group, ByKey(NameOf, StrLess))
  }

  /** The group sorted by name is a rearrangement of the group in which names never decrease. */
  lemma ByNameSorted(group: seq<LicenseInfo>)
    ensures multiset(ByName(group)) == multiset(group)
    ensures forall d :: d in ByName(group) <==> d in group
    ensures forall i, j :: 0 <= i < j < |ByName(group)| ==> StrLe(ByName(group)[i].name, ByName(group)[j].name)
  {
    StrLessStrictTotal();
    ByKeyTotalPreorder(NameOf, StrLess);
    SortBySorted(group, ByKey(NameOf, StrLess));
    assert forall d :: d in ByName(group) <==> d in multiset(group);
  }

  /** The details of one section: its `##` header, the package links and the text in its fenced block. */
  datatype Section = Section(header: string, links: seq<string>, text: string)

  /**
   * One section of the details, or the error that aborts the report there: no Apache text
   * with the `[yyyy]` placeholder, or a text that would close the fenced block early.
   */
  function RenderSection(key: string, group: seq<LicenseInfo>): Result<Section, Error> {
    var sorted := ByName(group);
    var text :- FirstAcceptableText(key, sorted);
    if Contains(text, "```") then Err(FenceInLicenseText(key))
    else Ok(Section(LicenseHeader(key, sorted), SectionLinks(sorted), text))
  }

  /** A section's header and links are those of its group, whatever the order within the group. */
  lemma RenderSectionHeader(key: string, group: seq<LicenseInfo>)
    requires RenderSection(key, group).Ok?
    ensures RenderSection(key, group).value.header == LicenseHeader(key, group)
    ensures RenderSection(key, group).value.links == SectionLinks(group)
  {
    ByNameSorted(group);
    HeaderPermuted(key, ByName(group), group);
    LinksPermuted(ByName(group), group);
  }

  /** A section's text is the text of one of its dependencies, acceptable for the section and free of fences. */
  lemma RenderSectionText(key: string, group: seq<LicenseInfo>)
    requires RenderSection(key, group).Ok?
    ensures AcceptableText(key, RenderSection(key, group).value.text)
    ensures !Contains(RenderSection(key, group).value.text, "```")
    ensures exists d :: d in group && d.text == RenderSection(key, group).value.text
  {
    var sorted := ByName(group);
    ByNameSorted(group);
    FirstAcceptableTextPicks(key, sorted);
    var i :| 0 <= i < |sorted| && sorted[i].text == FirstAcceptableText(key, sorted).value;
    assert sorted[i] in group;
  }

  /** Outside the Apache section, the text is that of a dependency of least name. */
  lemma RenderSectionTextOfFirstName(key: string, group: seq<LicenseInfo>)
    requires key != "Apache-2.0" && RenderSection(key, group).Ok?
    ensures exists d :: d in group && d.text == RenderSection(key, group).value.text
                        && forall e :: e in group ==> StrLe(d.name, e.name)
  {
    var sorted := ByName(group);
    ByNameSorted(group);
    FirstAcceptableTextMeaning(key, sorted);
    assert sorted[0] in group;
    StrLeIsTotalOrder();
    forall e | e in group ensures StrLe(sorted[0].name, e.name) {
      var k :| 0 <= k < |sorted| && sorted[k] == e;
      assert k == 0 || StrLe(sorted[0].name, sorted[k].name);
    }
  }

  /**
   * A section fails only when no text of its group is acceptable, which happens in the
   * Apache section alone, or when the text it picked holds a fence.
   */
  lemma RenderSectionErrors(key: string, group: seq<LicenseInfo>)
    requires group != []
    ensures RenderSection(key, group).Err? ==>
      || (&& RenderSection(key, group).error == NoApacheTemplate && key == "Apache-2.0"
          && forall d :: d in group ==> !AcceptableText(key, d.text))
      || RenderSection(key, group).error == FenceInLicenseText(key)
  {
    var sorted := ByName(group);
    if FirstAcceptableText(key, sorted).Err? {
      ByNameSorted(group);
      FirstAcceptableTextMeaning(key, sorted);
      forall d | d in group ensures !AcceptableText(key, d.text) {
        var k :| 0 <= k < |sorted| && sorted[k] == d;
      }
      assert group[0] in group;
    }
  }

  /** A section is written whenever some text of its group is acceptable and no text holds a fence. */
  lemma RenderSectionSucceeds(key: string, group: seq<LicenseInfo>, d: LicenseInfo)
    requires d in group && AcceptableText(key, d.text)
    requires forall e :: e in group ==> !Contains(e.text, "```")
    ensures RenderSection(key, group).Ok?
  {
    var sorted := ByName(group);
    ByNameSorted(group);
    var k :| 0 <= k < |sorted| && sorted[k] == d;
    FirstAcceptableTextFound(key, sorted, k);
    FirstAcceptableTextPicks(key, sorted);
    var i :| 0 <= i < |sorted| && sorted[i].text == FirstAcceptableText(key, sorted).value;
    assert sorted[i] in group;
  }

  /*
   * The whole report.
   */

  /** The list of sections, or the error of the first section that fails. */
  function AllOk<T>(parts: seq<Result<T, Error>>): Result<seq<T>, Error> {
    if parts == [] then Ok([])
    else
      var init :- AllOk(parts[..|parts| - 1]);
      var last :- parts[|parts| - 1];
      Ok(init + [last])
  }

  /** The list succeeds exactly when every part does, and then lists their values in order. */
  lemma {:induction false} AllOkSucceeds<T>(parts: seq<Result<T, Error>>)
    ensures AllOk(parts).Ok? <==> forall i :: 0 <= i < |parts| ==> parts[i].Ok?
    ensures AllOk(parts).Ok? ==>
      |AllOk(parts).value| == |parts| && forall i :: 0 <= i < |parts| ==> parts[i] == Ok(AllOk(parts).value[i])
  {
    if parts != [] {
      var prefix := parts[..|parts| - 1];
      AllOkSucceeds(prefix);
      assert forall i :: 0 <= i < |prefix| ==> prefix[i] == parts[i];
    }
  }

  /** A failing list fails with the error of the first part that fails. */
  lemma {:induction false} AllOkFailsFirst<T>(parts: seq<Result<T, Error>>)
    ensures AllOk(parts).Err? ==>
      exists i :: (0 <= i < |parts| && parts[i].Err? && AllOk(parts).error == parts[i].error
                   && forall k :: 0 <= k < i ==> parts[k].Ok?)
  {
    if parts != [] {
      var prefix := parts[..|parts| - 1];
      AllOkFailsFirst(prefix);
      AllOkSucceeds(prefix);
      assert forall i :: 0 <= i < |prefix| ==> prefix[i] == parts[i];
    }
  }

  /** One more part: the list grows by its value, or fails with its error if nothing failed before. */
  lemma AllOkStep<T>(parts: seq<Result<T, Error>>, i: nat)
    requires i < |parts|
    ensures AllOk(parts[..i + 1]) ==
      if AllOk(parts[..i]).Err? then AllOk(parts[..i])
      else if parts[i].Err? then Err(parts[i].error)
      else Ok(AllOk(parts[..i]).value + [parts[i].value])
  {
    assert parts[..i + 1][..i] == parts[..i];
  }

  /** Once a prefix of the parts fails, the rest are never looked at. */
  lemma {:induction false} AllOkFailureSticks<T>(parts: seq<Result<T, Error>>, n: nat)
    requires n <= |parts| && AllOk(parts[..n]).Err?
    ensures AllOk(parts) == AllOk(parts[..n])
    decreases |parts| - n
  {
    if n < |parts| {
      assert parts[..n + 1][..n] == parts[..n];
      AllOkFailureSticks(parts, n + 1);
    } else {
      assert parts[..n] == parts;
    }
  }

  /** Over a list of keys: the list succeeds exactly when every key's part does, and then holds each key's value in place. */
  lemma AllOkOver<T>(order: seq<string>, f: string -> Result<T, Error>)
    ensures AllOk(MapSeq(order, f)).Ok? <==> forall key :: key in order ==> f(key).Ok?
    ensures AllOk(MapSeq(order, f)).Ok? ==>
      && |AllOk(MapSeq(order, f)).value| == |order|
      && forall i :: 0 <= i < |order| ==> f(order[i]) == Ok(AllOk(MapSeq(order, f)).value[i])
  {
    AllOkSucceeds(MapSeq(order, f));
  }

  /** A line of the table of contents: a section's header and the anchor it links to. */
  datatype TocEntry = TocEntry(header: string, anchor: string)

  /** The report below its fixed preamble: the table of contents, then the sections in the same order. */
  datatype Summary = Summary(toc: seq<TocEntry>, sections: seq<Section>)

  /** The table-of-contents line of a key, from its group as collected. */
  function TocEntryFor(deps: seq<LicenseInfo>, key: string): TocEntry {
    var header := LicenseHeader(key, Members(deps, GroupKey, key));
    TocEntry(header, HeaderToAnchor(header))
  }

  /** `TocEntryFor` as a function of the key. */
  function TocEntries(deps: seq<LicenseInfo>): string -> TocEntry {
    key => TocEntryFor(deps, key)
  }

  /** The table of contents: one line per key, in the given order. */
  function TableOfContents(deps: seq<LicenseInfo>, order: seq<string>): seq<TocEntry> {
    MapSeq(order, TocEntries(deps))
  }

  /** The section of a key, from its group as collected. */
  function SectionFor(deps: seq<LicenseInfo>, key: string): Result<Section, Error> {
    RenderSection(key, Members(deps, GroupKey, key))
  }

  /** `SectionFor` as a function of the key. */
  function Sections(deps: seq<LicenseInfo>): string -> Result<Section, Error> {
    key => SectionFor(deps, key)
  }

  /** `print_dependency_summary(deps)`: the table of contents and the sections, or the first error. */
  function DependencySummary(deps: seq<LicenseInfo>): Result<Summary, Error> {
    var order := SectionOrder(deps);
    var sections :- AllOk(MapSeq(order, Sections(deps)));
    Ok(Summary(TableOfContents(deps, order), sections))
  }

  /** The sections are listed under exactly the keys of the grouping. */
  lemma SectionOrderKeys(deps: seq<LicenseInfo>)
    ensures forall k :: k in SectionOrder(deps) <==> k in KeysInOrder(deps, GroupKey)
  {
    var keys := KeysInOrder(deps, GroupKey);
    assert forall k :: k in SectionOrder(deps) <==> k in multiset(keys);
  }

  /** The report is written exactly when every group's section can be. */
  lemma SummarySucceeds(deps: seq<LicenseInfo>)
    ensures DependencySummary(deps).Ok? <==> forall key :: key in KeysInOrder(deps, GroupKey) ==> SectionFor(deps, key).Ok?
  {
    SectionOrderKeys(deps);
    AllOkOver(SectionOrder(deps), Sections(deps));
  }

  /** A report that fails stops at the first section, in section order, that fails. */
  lemma SummaryFailsFirst(deps: seq<LicenseInfo>)
    ensures DependencySummary(deps).Err? ==>
      exists i :: (0 <= i < |SectionOrder(deps)| && SectionFor(deps, SectionOrder(deps)[i]) == Err(DependencySummary(deps).error)
                   && forall k :: 0 <= k < i ==> SectionFor(deps, SectionOrder(deps)[k]).Ok?)
  {
    AllOkFailsFirst(MapSeq(SectionOrder(deps), Sections(deps)));
  }

  /** A key's table-of-contents line carries its section's header and that header's anchor. */
  lemma TocEntryOfSection(deps: seq<LicenseInfo>, key: string)
    requires SectionFor(deps, key).Ok?
    ensures TocEntryFor(deps, key) == TocEntry(SectionFor(deps, key).value.header, HeaderToAnchor(SectionFor(deps, key).value.header))
  {
    RenderSectionHeader(key, Members(deps, GroupKey, key));
  }

  /**
   * Each line of the table of contents names the section in the same place, and its anchor
   * is the anchor of that section's header.
   */
  lemma TocMatchesSections(deps: seq<LicenseInfo>)
    requires DependencySummary(deps).Ok?
    ensures var r := DependencySummary(deps).value;
      && |r.toc| == |r.sections| == |SectionOrder(deps)|
      && forall i :: 0 <= i < |r.toc| ==>
           r.toc[i].header == r.sections[i].header && r.toc[i].anchor == HeaderToAnchor(r.sections[i].header)
  {
    var order := SectionOrder(deps);
    var parts := MapSeq(order, Sections(deps));
    var r := DependencySummary(deps).value;
    assert r.toc == TableOfContents(deps, order) && r.sections == AllOk(parts).value;
    assert |r.sections| == |order| && forall i :: 0 <= i < |order| ==> SectionFor(deps, order[i]) == Ok(r.sections[i]) by {
      AllOkOver(order, Sections(deps));
    }
    forall i | 0 <= i < |order|
      ensures r.toc[i].header == r.sections[i].header && r.toc[i].anchor == HeaderToAnchor(r.sections[i].header)
    {
      assert r.toc[i] == TocEntryFor(deps, order[i]);
      TocEntryOfSection(deps, order[i]);
    }
  }

  /** A dependency's link is among the links of the section of its own key. */
  lemma CreditedInSection(deps: seq<LicenseInfo>, d: LicenseInfo)
    requires d in deps && SectionFor(deps, GroupKey(d)).Ok?
    ensures PackageLink(d) in SectionFor(deps, GroupKey(d)).value.links
  {
    var group := Members(deps, GroupKey, GroupKey(d));
    MembersMeaning(deps, GroupKey, GroupKey(d));
    RenderSectionHeader(GroupKey(d), group);
    LinksMeaning(group);
    var j :| 0 <= j < |group| && group[j] == d;
    assert PackageLink(group[j]) in SectionLinks(group);
  }

  /** Every dependency is credited: its link appears in the section of its own key. */
  lemma EveryDependencyCredited(deps: seq<LicenseInfo>, d: LicenseInfo)
    requires DependencySummary(deps).Ok? && d in deps
    ensures exists i :: (&& 0 <= i < |SectionOrder(deps)| && i < |DependencySummary(deps).value.sections|
                         && SectionOrder(deps)[i] == GroupKey(d) && PackageLink(d) in DependencySummary(deps).value.sections[i].links)
  {
    var order := SectionOrder(deps);
    var sections := DependencySummary(deps).value.sections;
    assert && |sections| == |order|
           && forall i :: 0 <= i < |order| ==> SectionFor(deps, order[i]) == Ok(sections[i])
    by {
      AllOkOver(order, Sections(deps));
    }
    assert GroupKey(d) in order by {
      SectionOrderKeys(deps);
      MembersMeaning(deps, GroupKey, GroupKey(d));
      KeysMeaning(deps, GroupKey, GroupKey(d));
    }
    var i :| 0 <= i < |order| && order[i] == GroupKey(d);
    CreditedInSection(deps, d);
  }

  /** The table of contents depends only on which dependencies there are, not on their order. */
  lemma TableOfContentsIndependent(d1: seq<LicenseInfo>, d2: seq<LicenseInfo>)
    requires multiset(d1) == multiset(d2)
    ensures TableOfContents(d1, SectionOrder(d1)) == TableOfContents(d2, SectionOrder(d2))
  {
    SectionOrderIndependent(d1, d2);
    var order := SectionOrder(d1);
    forall i | 0 <= i < |order| ensures TocEntryFor(d1, order[i]) == TocEntryFor(d2, order[i]) {
      MembersPermuted(d1, d2, GroupKey, order[i]);
      HeaderPermuted(order[i], Members(d1, GroupKey, order[i]), Members(d2, GroupKey, order[i]));
    }
  }

  /**
   * `sort_key` as the source computes it, reading the dict it filled: a key missing from
   * the dict would get an empty group, as a `defaultdict` gives.
   */
  function CollectedSortKeys(groups: map<string, seq<LicenseInfo>>): string -> SortKey {
    key => SortKeyFor(key, if key in groups then groups[key] else [])
  }

  /** Sorting the collected keys by the collected sort keys gives the section order. */
  lemma CollectedOrder(deps: seq<LicenseInfo>, keys: seq<string>, groups: map<string, seq<LicenseInfo>>)
    requires keys == KeysInOrder(deps, GroupKey)
    requires forall key :: key in groups <==> key in keys
    requires forall key :: key in groups ==> groups[key] == Members(deps, GroupKey, key)
    ensures SortBy(keys, ThenBy(CollectedSortKeys(groups), SortKeyLess, StrLe)) == SectionOrder(deps)
  {
    var le1, le2 := ThenBy(CollectedSortKeys(groups), SortKeyLess, StrLe), ThenBy(SortKeys(deps), SortKeyLess, StrLe);
    forall a, b | a in keys && b in keys ensures le1(a, b) == le2(a, b) {
    }
    SortByCongruent(keys, le1, le2);
  }

  /** One more line of the table of contents, from the group as collected. */
  lemma TocStep(deps: seq<LicenseInfo>, order: seq<string>, i: nat, group: seq<LicenseInfo>)
    requires i < |order| && group == Members(deps, GroupKey, order[i])
    ensures var header := LicenseHeader(order[i], group);
      TableOfContents(deps, order[..i + 1]) == TableOfContents(deps, order[..i]) + [TocEntry(header, HeaderToAnchor(header))]
  {
    MapSeqStep(order, TocEntries(deps), i);
  }

  /** The first loop of the report: one table-of-contents line per section. */
  method ListContents(deps: seq<LicenseInfo>, order: seq<string>, groups: map<string, seq<LicenseInfo>>) returns (toc: seq<TocEntry>)
    requires forall key :: key in order ==> key in groups && groups[key] == Members(deps, GroupKey, key)
    ensures toc == TableOfContents(deps, order)
  {
    toc := [];
    for i := 0 to |order|
      invariant toc == TableOfContents(deps, order[..i])
    {
      TocStep(deps, order, i, groups[order[i]]);
      var header := LicenseHeader(order[i], groups[order[i]]);
      toc := toc + [TocEntry(header, HeaderToAnchor(header))];
    }
    assert order[..|order|] == order;
  }

  /** The second loop of the report: write each section in order, stopping at the first that fails. */
  method WriteSections(deps: seq<LicenseInfo>, order: seq<string>, groups: map<string, seq<LicenseInfo>>)
    returns (r: Result<seq<Section>, Error>)
    requires forall key :: key in order ==> key in groups && groups[key] == Members(deps, GroupKey, key) && groups[key] != []
    ensures r == AllOk(MapSeq(order, Sections(deps)))
  {
    ghost var parts := MapSeq(order, Sections(deps));
    var sections := [];
    var i := 0;
    while i < |order|
      invariant i <= |order|
      invariant AllOk(parts[..i]) == Ok(sections)
    {
      var key := order[i];
      var sorted := ByName(groups[key]);
      var text := PickSectionText(key, sorted);
      AllOkStep(parts, i);
      if text.Err? {
        AllOkFailureSticks(parts, i + 1);
        return Err(text.error);
      }
      if Contains(text.value, "```") {
        AllOkFailureSticks(parts, i + 1);
        return Err(FenceInLicenseText(key));
      }
      sections := sections + [Section(LicenseHeader(key, sorted), SectionLinks(sorted), text.value)];
      i := i + 1;
    }
    assert parts[..i] == parts;
    return Ok(sections);
  }

  /**
   * `print_dependency_summary`: group the dependencies, sort the keys, list the table of
   * contents, then write the sections, stopping at the first failure.
   */
  method PrintDependencySummary(deps: seq<LicenseInfo>) returns (r: Result<Summary, Error>)
    ensures r == DependencySummary(deps)
  {
    var keys, groups := GroupByLicenseText(deps);
    var order := SortBy(keys, ThenBy(CollectedSortKeys(groups), SortKeyLess, StrLe));
    CollectedOrder(deps, keys, groups);
    SectionOrderKeys(deps);
    forall key | key in order ensures groups[key] != [] {
      KeysMeaning(deps, GroupKey, key);
    }
    var toc := ListContents(deps, order, groups);
    var sections := WriteSections(deps, order, groups);
    if sections.Err? {
      return Err(sections.error);
    }
    return Ok(Summary(toc, sections.value));
  }
}
