/** The version grammar of libmdbx/conanfile.py: the language of the regular expression, the strings the two printing
    functions build, and a deterministic parser that recognises the language. */
module Semver {
  import opened Octets

  /** The named groups; a group that takes no part in the match is none. */
  datatype Version = Version(major: Bytes, minor: Bytes, patch: Bytes, tweak: Option<Bytes>,
                             prerelease: Option<Bytes>, buildmetadata: Option<Bytes>)

  // ---------- the language ----------

  predicate Digit(c: Octet) { '0' <= c <= '9' }

  predicate LetterOrHyphen(c: Octet) { 'a' <= c <= 'z' || 'A' <= c <= 'Z' || c == '-' }

  predicate Digits(x: Bytes) { forall c :: c in x ==> Digit(c) }

  predicate IdChars(x: Bytes) { forall c :: c in x ==> Digit(c) || LetterOrHyphen(c) }

  /** `0|[1-9]\d*` */
  predicate Numeric(x: Bytes) { x == "0" || (x != [] && x[0] != '0' && Digits(x)) }

  /** `\d*[a-zA-Z-][0-9a-zA-Z-]*` */
  ghost predicate Alphanumeric(x: Bytes) {
    exists k :: 0 <= k < |x| && Digits(x[..k]) && LetterOrHyphen(x[k]) && IdChars(x[k + 1..])
  }

  datatype Kind = Prerelease | Build

  ghost predicate Identifier(kind: Kind, x: Bytes) {
    match kind
    case Prerelease => Numeric(x) || Alphanumeric(x)
    case Build => x != [] && IdChars(x)
  }

  /** A separator and what follows it, when something does. */
  function Suffix(c: Octet, tail: Option<Bytes>): Bytes {
    if tail.Some? then [c] + tail.value else []
  }

  /** Identifiers separated by dots. */
  function Dotted(ids: seq<Bytes>): Bytes
    requires ids != []
  {
    ids[0] + Suffix('.', if |ids| == 1 then None else Some(Dotted(ids[1..])))
  }

  ghost predicate Identifiers(kind: Kind, x: Bytes) {
    exists ids: seq<Bytes> :: ids != [] && (forall id :: id in ids ==> Identifier(kind, id)) && x == Dotted(ids)
  }

  ghost predicate ValidVersion(v: Version) {
    && Numeric(v.major) && Numeric(v.minor) && Numeric(v.patch)
    && (v.tweak.Some? ==> Numeric(v.tweak.value))
    && (v.prerelease.Some? ==> Identifiers(Prerelease, v.prerelease.value))
    && (v.buildmetadata.Some? ==> Identifiers(Build, v.buildmetadata.value))
  }

  /** What the groups and the literals between them spell. */
  function Text(v: Version): Bytes {
    Core(v) + Suffix('-', v.prerelease) + Suffix('+', v.buildmetadata)
  }

  function Core(v: Version): Bytes {
    v.major + Suffix('.', Some(v.minor + Suffix('.', Some(v.patch + Suffix('.', v.tweak)))))
  }

  function Optional(present: bool, c: Octet): Bytes { if present then [c] else [] }

  /** The expression accepts `s` with these groups: after an optional 'v', up to the end or one newline before it, which
      is where `$` matches. */
  ghost predicate Matches(s: Bytes, v: Version) {
    ValidVersion(v) &&
    exists prefixed, newline :: s == Optional(prefixed, 'v') + Text(v) + Optional(newline, '\n')
  }

  // ---------- printing ----------

  /** `semver_string`; a group holds a string, so comparing the tweak with the number 0 never drops it. */
  function SemverString(v: Version): Bytes {
    var s := v.major + "." + v.minor + "." + v.patch;
    var s := if v.tweak.Some? then s + "." + v.tweak.value else s;
    if v.prerelease.Some? && v.prerelease.value != "" then s + "-" + v.prerelease.value else s
  }

  function SemverStringWithBuildmetadata(v: Version): Bytes {
    var s := SemverString(v);
    if v.buildmetadata.Some? && v.buildmetadata.value != "" then s + "+" + v.buildmetadata.value else s
  }

  // ---------- a deterministic parser ----------

  /** Splits at the first `c`. */
  function Cut(c: Octet, s: Bytes): (Bytes, Option<Bytes>) {
    var n := IndexOf(c, s);
    if n == |s| then (s, None) else (s[..n], Some(s[n + 1..]))
  }

  predicate IsIdentifier(kind: Kind, x: Bytes) {
    x != [] && IdChars(x) && (kind.Prerelease? && Digits(x) ==> Numeric(x))
  }

  predicate AreIdentifiers(kind: Kind, x: Bytes)
    decreases |x|
  {
    var (id, rest) := Cut('.', x);
    IsIdentifier(kind, id) && (rest.Some? ==> AreIdentifiers(kind, rest.value))
  }

  function ParseCore(core: Bytes): Option<(Bytes, Bytes, Bytes, Option<Bytes>)> {
    var (major, rest) := Cut('.', core);
    if rest.None? then None
    else
      var (minor, rest) := Cut('.', rest.value);
      if rest.None? then None
      else
        var (patch, tweak) := Cut('.', rest.value);
        if Numeric(major) && Numeric(minor) && Numeric(patch) && (tweak.Some? ==> Numeric(tweak.value))
        then Some((major, minor, patch, tweak))
        else None
  }

  function Strip(s: Bytes): Bytes {
    var s := if s != [] && s[|s| - 1] == '\n' then s[..|s| - 1] else s;
    if s != [] && s[0] == 'v' then s[1..] else s
  }

  function ParseBare(s: Bytes): Option<Version> {
    var (main, build) := Cut('+', s);
    var (core, pre) := Cut('-', main);
    match ParseCore(core)
    case None => None
    case Some((major, minor, patch, tweak)) =>
      if (pre.Some? ==> AreIdentifiers(Prerelease, pre.value)) && (build.Some? ==> AreIdentifiers(Build, build.value))
      then Some(Version(major, minor, patch, tweak, pre, build))
      else None
  }

  /** `semver_parse`. */
  function Parse(s: Bytes): Option<Version> { ParseBare(Strip(s)) }

  // ---------- cutting and joining ----------

  lemma CutAt(c: Octet, head: Bytes, rest: Bytes)
    requires c !in head
    ensures Cut(c, head + [c] + rest) == (head, Some(rest))
  {
    var s := head + [c] + rest;
    IndexOfAt(c, head, rest);
    assert s[..|head|] == head && s[|head| + 1..] == rest;
  }

  lemma CutNowhere(c: Octet, head: Bytes)
    requires c !in head
    ensures Cut(c, head) == (head, None)
  {
    assert head[..|head|] == head;
    IndexOfUnique(c, head, |head|);
  }

  lemma CutJoined(c: Octet, head: Bytes, tail: Option<Bytes>)
    requires c !in head
    ensures Cut(c, head + Suffix(c, tail)) == (head, tail)
  {
    SuffixIsPrinted(head, c, tail);
    if tail.Some? {
      CutAt(c, head, tail.value);
    } else {
      CutNowhere(c, head);
    }
  }

  lemma JoinCut(c: Octet, s: Bytes)
    ensures var (head, tail) := Cut(c, s); c !in head && s == head + Suffix(c, tail)
  {
    IndexOfIsFirst(c, s);
  }

  // ---------- identifiers ----------

  lemma FirstLetter(x: Bytes) returns (k: nat)
    requires IdChars(x) && !Digits(x)
    ensures k < |x| && Digits(x[..k]) && LetterOrHyphen(x[k]) && IdChars(x[k + 1..])
  {
    if !Digit(x[0]) {
      k := 0;
    } else {
      assert x == [x[0]] + x[1..];
      var k' := FirstLetter(x[1..]);
      k := k' + 1;
      assert x[..k] == [x[0]] + x[1..][..k'];
      assert x[k + 1..] == x[1..][k' + 1..];
    }
  }

  lemma LetterInside(x: Bytes, k: nat)
    requires k < |x| && Digits(x[..k]) && LetterOrHyphen(x[k]) && IdChars(x[k + 1..])
    ensures IdChars(x) && !Digits(x)
  {
    assert x[k] in x;
    assert x == x[..k] + [x[k]] + x[k + 1..];
  }

  /** The alphanumeric identifiers are those of the characters allowed that are not all digits. */
  lemma AlphanumericIff(x: Bytes)
    ensures Alphanumeric(x) <==> IdChars(x) && !Digits(x)
  {
    if IdChars(x) && !Digits(x) {
      var k := FirstLetter(x);
    }
    if Alphanumeric(x) {
      var k :| 0 <= k < |x| && Digits(x[..k]) && LetterOrHyphen(x[k]) && IdChars(x[k + 1..]);
      LetterInside(x, k);
    }
  }

  lemma IsIdentifierIff(kind: Kind, x: Bytes)
    ensures IsIdentifier(kind, x) <==> Identifier(kind, x)
  {
    AlphanumericIff(x);
  }

  /** Cutting at dots finds the identifiers of a list. */
  lemma {:induction false} DottedIsRecognised(kind: Kind, ids: seq<Bytes>)
    requires ids != [] && forall id :: id in ids ==> Identifier(kind, id)
    ensures AreIdentifiers(kind, Dotted(ids))
    decreases |ids|
  {
    IsIdentifierIff(kind, ids[0]);
    CutJoined('.', ids[0], if |ids| == 1 then None else Some(Dotted(ids[1..])));
    if |ids| > 1 {
      DottedIsRecognised(kind, ids[1..]);
    }
  }

  lemma {:induction false} RecognisedIsDotted(kind: Kind, x: Bytes)
    requires AreIdentifiers(kind, x)
    ensures Identifiers(kind, x)
    decreases |x|
  {
    var (id, rest) := Cut('.', x);
    JoinCut('.', x);
    IsIdentifierIff(kind, id);
    if rest.Some? {
      RecognisedIsDotted(kind, rest.value);
      var tail: seq<Bytes> :| tail != [] && (forall i :: i in tail ==> Identifier(kind, i)) &&
                              rest.value == Dotted(tail);
      var ids := [id] + tail;
      assert ids[1..] == tail;
      assert x == Dotted(ids);
    } else {
      assert x == Dotted([id]);
    }
  }

  /** The recogniser accepts exactly the dotted lists of the grammar. */
  lemma AreIdentifiersIff(kind: Kind, x: Bytes)
    ensures AreIdentifiers(kind, x) <==> Identifiers(kind, x)
  {
    if Identifiers(kind, x) {
      var ids: seq<Bytes> :| ids != [] && (forall id :: id in ids ==> Identifier(kind, id)) && x == Dotted(ids);
      DottedIsRecognised(kind, ids);
    }
    if AreIdentifiers(kind, x) {
      RecognisedIsDotted(kind, x);
    }
  }

  lemma {:induction false} IdentifiersHaveNone(kind: Kind, x: Bytes, c: Octet)
    requires AreIdentifiers(kind, x) && (c == '+' || c == '\n')
    ensures x != [] && c !in x
    decreases |x|
  {
    var (id, rest) := Cut('.', x);
    JoinCut('.', x);
    if rest.Some? {
      IdentifiersHaveNone(kind, rest.value, c);
    }
  }

  lemma NumericHasNone(x: Bytes, c: Octet)
    requires Numeric(x) && !Digit(c)
    ensures x != [] && c !in x
  {
  }

  // ---------- the parser accepts exactly the language ----------

  lemma CoreParses(v: Version)
    requires ValidVersion(v)
    ensures ParseCore(Core(v)) == Some((v.major, v.minor, v.patch, v.tweak))
  {
    NumericHasNone(v.major, '.');
    NumericHasNone(v.minor, '.');
    NumericHasNone(v.patch, '.');
    var rest := v.patch + Suffix('.', v.tweak);
    CutJoined('.', v.patch, v.tweak);
    CutJoined('.', v.minor, Some(rest));
    CutJoined('.', v.major, Some(v.minor + Suffix('.', Some(rest))));
  }

  lemma ParsedCore(core: Bytes, v: Version)
    requires ParseCore(core) == Some((v.major, v.minor, v.patch, v.tweak))
    ensures core == Core(v)
  {
    var (major, rest) := Cut('.', core);
    JoinCut('.', core);
    var (minor, rest') := Cut('.', rest.value);
    JoinCut('.', rest.value);
    JoinCut('.', rest'.value);
  }

  lemma SuffixHasNone(d: Octet, tail: Option<Bytes>, c: Octet)
    requires c != d && (tail.Some? ==> c !in tail.value)
    ensures c !in Suffix(d, tail)
  {
  }

  lemma CoreHasNone(v: Version, c: Octet)
    requires ValidVersion(v) && !Digit(c) && c != '.'
    ensures c !in Core(v)
  {
    var rest := v.patch + Suffix('.', v.tweak);
    SuffixHasNone('.', v.tweak, c);
    SuffixHasNone('.', Some(rest), c);
    SuffixHasNone('.', Some(v.minor + Suffix('.', Some(rest))), c);
  }

  lemma TailsAreRecognised(v: Version)
    requires ValidVersion(v)
    ensures v.prerelease.Some? ==> AreIdentifiers(Prerelease, v.prerelease.value)
    ensures v.buildmetadata.Some? ==> AreIdentifiers(Build, v.buildmetadata.value)
  {
    if v.prerelease.Some? {
      AreIdentifiersIff(Prerelease, v.prerelease.value);
    }
    if v.buildmetadata.Some? {
      AreIdentifiersIff(Build, v.buildmetadata.value);
    }
  }

  lemma MainHasNone(v: Version, c: Octet)
    requires ValidVersion(v) && (c == '+' || c == '\n')
    ensures c !in Core(v) + Suffix('-', v.prerelease)
  {
    TailsAreRecognised(v);
    CoreHasNone(v, c);
    if v.prerelease.Some? {
      IdentifiersHaveNone(Prerelease, v.prerelease.value, c);
    }
  }

  lemma TextParses(v: Version)
    requires ValidVersion(v)
    ensures ParseBare(Text(v)) == Some(v)
  {
    MainHasNone(v, '+');
    CoreHasNone(v, '-');
    TailsAreRecognised(v);
    CutJoined('+', Core(v) + Suffix('-', v.prerelease), v.buildmetadata);
    CutJoined('-', Core(v), v.prerelease);
    CoreParses(v);
  }

  lemma ParsedIsText(s: Bytes, v: Version)
    requires ParseBare(s) == Some(v)
    ensures ValidVersion(v) && s == Text(v)
  {
    var (main, build) := Cut('+', s);
    JoinCut('+', s);
    var (core, pre) := Cut('-', main);
    JoinCut('-', main);
    ParsedCore(core, v);
    if pre.Some? {
      AreIdentifiersIff(Prerelease, pre.value);
    }
    if build.Some? {
      AreIdentifiersIff(Build, build.value);
    }
  }

  lemma TextIsBare(v: Version)
    requires ValidVersion(v)
    ensures Text(v) != [] && Text(v)[0] != 'v' && '\n' !in Text(v)
  {
    NumericHasNone(v.major, 'v');
    assert Text(v)[0] == v.major[0];
    MainHasNone(v, '\n');
    TailsAreRecognised(v);
    if v.buildmetadata.Some? {
      IdentifiersHaveNone(Build, v.buildmetadata.value, '\n');
    }
  }

  lemma StripWrapped(t: Bytes, prefixed: bool, newline: bool)
    requires t != [] && t[0] != 'v' && '\n' !in t
    ensures Strip(Optional(prefixed, 'v') + t + Optional(newline, '\n')) == t
  {
    var bare := Optional(prefixed, 'v') + t;
    var s := bare + Optional(newline, '\n');
    assert newline ==> s[..|s| - 1] == bare;
    assert !newline ==> s == bare && s[|s| - 1] in t;
    assert prefixed ==> bare[1..] == t;
    assert !prefixed ==> bare == t;
  }

  lemma WrapStripped(s: Bytes) returns (prefixed: bool, newline: bool)
    ensures s == Optional(prefixed, 'v') + Strip(s) + Optional(newline, '\n')
  {
    newline := s != [] && s[|s| - 1] == '\n';
    var bare := if newline then s[..|s| - 1] else s;
    prefixed := bare != [] && bare[0] == 'v';
    assert s == bare + Optional(newline, '\n');
    assert bare == Optional(prefixed, 'v') + Strip(s);
  }

  /** Parsing answers with exactly the groups with which the expression accepts the input, and with none when there are
      no such groups. */
  lemma ParseIff(s: Bytes, v: Version)
    ensures Parse(s) == Some(v) <==> Matches(s, v)
  {
    if Parse(s) == Some(v) {
      ParsedIsText(Strip(s), v);
      var prefixed, newline := WrapStripped(s);
    }
    if Matches(s, v) {
      var prefixed, newline :| s == Optional(prefixed, 'v') + Text(v) + Optional(newline, '\n');
      TextIsBare(v);
      StripWrapped(Text(v), prefixed, newline);
      TextParses(v);
    }
  }

  /** Although a prerelease may contain hyphens and build metadata both hyphens and dots, no input has two parses. */
  lemma ParseIsUnique(s: Bytes, v: Version, w: Version)
    requires Matches(s, v) && Matches(s, w)
    ensures v == w
  {
    ParseIff(s, v);
    ParseIff(s, w);
  }

  // ---------- printing what was parsed ----------

  lemma TailsAreNotEmpty(v: Version)
    requires ValidVersion(v)
    ensures v.prerelease != Some("") && v.buildmetadata != Some("")
  {
    TailsAreRecognised(v);
    if v.prerelease.Some? {
      IdentifiersHaveNone(Prerelease, v.prerelease.value, '+');
    }
    if v.buildmetadata.Some? {
      IdentifiersHaveNone(Build, v.buildmetadata.value, '+');
    }
  }

  lemma CoreIsPrinted(v: Version)
    ensures Core(v) == v.major + "." + v.minor + "." + v.patch + Suffix('.', v.tweak)
  {
  }

  lemma ReleaseIsPrinted(v: Version)
    requires v.prerelease != Some("")
    ensures SemverString(v) == Core(v) + Suffix('-', v.prerelease)
  {
    var numbers := v.major + "." + v.minor + "." + v.patch;
    CoreIsPrinted(v);
    SuffixIsPrinted(numbers, '.', v.tweak);
    SuffixIsPrinted(Core(v), '-', v.prerelease);
  }

  lemma SuffixIsPrinted(s: Bytes, c: Octet, tail: Option<Bytes>)
    ensures s + Suffix(c, tail) == if tail.Some? then s + [c] + tail.value else s
  {
  }

  /** On versions of the grammar the printing functions' tests for empty groups make no difference. */
  lemma PrintedIsText(v: Version)
    requires ValidVersion(v)
    ensures SemverStringWithBuildmetadata(v) == Text(v)
    ensures SemverString(v) == Text(v.(buildmetadata := None))
  {
    TailsAreNotEmpty(v);
    ReleaseIsPrinted(v);
    SuffixIsPrinted(SemverString(v), '+', v.buildmetadata);
    SuffixIsPrinted(SemverString(v), '+', None);
  }

  /** Printing a parsed version gives back the input without its leading 'v' and without the newline at its end. */
  lemma PrintParsed(s: Bytes)
    requires Parse(s).Some?
    ensures SemverStringWithBuildmetadata(Parse(s).value) == Strip(s)
  {
    ParsedIsText(Strip(s), Parse(s).value);
    PrintedIsText(Parse(s).value);
  }

  /** Without a newline at the end nothing but the 'v' is lost. */
  lemma PrintParsedExactly(s: Bytes)
    requires Parse(s).Some? && '\n' !in s
    ensures s != [] && s == Optional(s[0] == 'v', 'v') + SemverStringWithBuildmetadata(Parse(s).value)
  {
    PrintParsed(s);
  }

  /** Every version of the grammar is parsed back from its printed form; so is its form without metadata, but for the
      metadata. */
  lemma ParsePrinted(v: Version)
    requires ValidVersion(v)
    ensures Parse(SemverStringWithBuildmetadata(v)) == Some(v)
    ensures Parse(SemverString(v)) == Some(v.(buildmetadata := None))
  {
    PrintedIsText(v);
    PrintedParses(v);
    PrintedParses(v.(buildmetadata := None));
  }

  lemma StripNothing(t: Bytes)
    requires t != [] && t[0] != 'v' && '\n' !in t
    ensures Strip(t) == t
  {
    assert t[|t| - 1] in t;
  }

  lemma PrintedParses(v: Version)
    requires ValidVersion(v)
    ensures Parse(Text(v)) == Some(v)
  {
    TextIsBare(v);
    StripNothing(Text(v));
    TextParses(v);
  }

  /** Parsing, printing and parsing again changes nothing. */
  lemma ParsePrintParse(s: Bytes)
    requires Parse(s).Some?
    ensures Parse(SemverStringWithBuildmetadata(Parse(s).value)) == Parse(s)
  {
    ParsedIsText(Strip(s), Parse(s).value);
    ParsePrinted(Parse(s).value);
  }
}
