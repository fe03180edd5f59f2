/**
 * The line classifier of the Markdown schema parser: character classes, Python's
 * whitespace trimming, and one hand-written matcher per regular expression of
 * sdRDM/generator/markdownparser.py (MODULE_PATTERN ... OBJECT_NAME_PATTERN).
 *
 * Each matcher that needs backtracking or searching comes with a declarative
 * predicate `...MatchAt` saying when the regular expression matches at a given
 * position with given group boundaries; the matcher's contract states that it
 * returns the match the regex engine picks (leftmost, greedy) and nothing when
 * there is none.
 */
module Patterns {
  import opened Wrappers

  /** Python's `str.isspace()`: the characters `\s`, `strip()` and `rstrip()` treat as whitespace. */
  predicate IsSpace(c: char) {
    ('\t' <= c <= '\r') || ('\U{1C}' <= c <= '\U{1F}') || c == ' ' || c == '\U{85}' || c == '\U{A0}'
    || c == '\U{1680}' || ('\U{2000}' <= c <= '\U{200A}') || c == '\U{2028}' || c == '\U{2029}'
    || c == '\U{202F}' || c == '\U{205F}' || c == '\U{3000}'
  }

  /** `[A-Za-z]` */
  predicate IsAsciiLetter(c: char) {
    ('A' <= c <= 'Z') || ('a' <= c <= 'z')
  }

  /** `[A-Za-z\_]`, the class of attribute names and option keys. */
  predicate IsIdentChar(c: char) {
    IsAsciiLetter(c) || c == '_'
  }

  /** `[A-Za-z0-9]`, the class of parent names. */
  predicate IsAsciiAlnum(c: char) {
    IsAsciiLetter(c) || ('0' <= c <= '9')
  }

  /** Any character but a newline: what `.` matches. */
  predicate NotNewline(c: char) {
    c != '\n'
  }

  /** End of the longest run of `inClass` characters of `s` that starts at `i`:
      what a greedy `[...]*` consumes. */
  function RunEnd(s: string, i: nat, inClass: char -> bool): (e: nat)
    requires i <= |s|
    ensures i <= e <= |s|
    ensures forall k | i <= k < e :: inClass(s[k])
    ensures e < |s| ==> !inClass(s[e])
    decreases |s| - i
  {
    if i < |s| && inClass(s[i]) then RunEnd(s, i + 1, inClass) else i
  }

  /** Python `s.rstrip()`: `s` without its trailing whitespace. */
  function RStrip(s: string): (r: string)
    ensures |r| <= |s| && r == s[..|r|]
    ensures r == [] || !IsSpace(r[|r| - 1])
    ensures forall k | |r| <= k < |s| :: IsSpace(s[k])
    decreases |s|
  {
    if s != [] && IsSpace(s[|s| - 1]) then RStrip(s[..|s| - 1]) else s
  }

  /** The bounds of what Python `s.strip()` keeps: everything outside them is
      whitespace, and what they enclose starts and ends with a non-whitespace. */
  function StripBounds(s: string): (b: (nat, nat))
    ensures b.0 <= b.1 <= |s|
    ensures forall k | 0 <= k < b.0 :: IsSpace(s[k])
    ensures forall k | b.1 <= k < |s| :: IsSpace(s[k])
    ensures b.0 < b.1 ==> !IsSpace(s[b.0]) && !IsSpace(s[b.1 - 1])
  {
    var t := RStrip(s);
    var lo := RunEnd(t, 0, IsSpace);
    assert forall k | 0 <= k < |t| :: t[k] == s[k];
    (lo, |t|)
  }

  /** Python `s.strip()`. */
  function Strip(s: string): (r: string)
    ensures |r| <= |s|
    ensures r == [] || (!IsSpace(r[0]) && !IsSpace(r[|r| - 1]))
  {
    s[StripBounds(s).0..StripBounds(s).1]
  }

  /** Stripping finds exactly the text between a whitespace prefix and a whitespace
      suffix, when that text neither starts nor ends with whitespace. */
  lemma StripPadded(a: string, m: string, b: string)
    requires forall k | 0 <= k < |a| :: IsSpace(a[k])
    requires forall k | 0 <= k < |b| :: IsSpace(b[k])
    requires m == [] || (!IsSpace(m[0]) && !IsSpace(m[|m| - 1]))
    ensures Strip(a + m + b) == m
  {
    var s := a + m + b;
    var bounds := StripBounds(s);
    if m != [] {
      var lo, hi := bounds.0, bounds.1;
      assert s[|a|] == m[0] && s[|a| + |m| - 1] == m[|m| - 1];
      assert lo <= |a| && |a| + |m| <= hi;
      assert lo == |a| && hi == |a| + |m|;
      assert s[lo..hi] == m;
    }
  }

  /** Python `s.replace(c, "")`: every occurrence of `c` removed, the rest kept in order. */
  function RemoveChar(s: string, c: char): (r: string)
    ensures c !in r
    ensures |r| <= |s|
  {
    if s == [] then []
    else if s[0] == c then RemoveChar(s[1..], c)
    else [s[0]] + RemoveChar(s[1..], c)
  }

  /** Only `c` is removed: every other character of `s` survives, and nothing is added. */
  lemma {:induction false} RemoveCharKeeps(s: string, c: char)
    ensures forall x :: x in RemoveChar(s, c) <==> x in s && x != c
    ensures multiset(RemoveChar(s, c)) == multiset(s)[c := 0]
  {
    if s != [] {
      RemoveCharKeeps(s[1..], c);
      assert s == [s[0]] + s[1..];
    }
  }

  /** Removal works piece by piece, so the kept characters stay in their order. */
  lemma {:induction false} RemoveCharAppend(a: string, b: string, c: char)
    ensures RemoveChar(a + b, c) == RemoveChar(a, c) + RemoveChar(b, c)
  {
    if a == [] {
      assert a + b == b;
    } else {
      var ab := a + b;
      assert ab[0] == a[0] && ab[1..] == a[1..] + b;
      RemoveCharAppend(a[1..], b, c);
    }
  }

  /** A single character is dropped if it is `c` and kept otherwise. */
  lemma RemoveCharOne(x: char, c: char)
    ensures RemoveChar([x], c) == if x == c then [] else [x]
  {
    assert [x][1..] == [];
  }

  /** Removing a character that does not occur changes nothing. */
  lemma {:induction false} RemoveAbsentChar(s: string, c: char)
    requires c !in s
    ensures RemoveChar(s, c) == s
  {
    if s != [] {
      assert forall x | x in s[1..] :: x in s;
      RemoveAbsentChar(s[1..], c);
    }
  }

  /** MODULE_PATTERN `^#{1} `: the line starts with one hash and a space. */
  predicate IsModuleHeading(line: string) {
    |line| >= 2 && line[0] == '#' && line[1] == ' '
  }

  /** OBJECT_PATTERN `^#{2,3}`: the line starts with two hashes. */
  predicate IsObjectHeading(line: string) {
    |line| >= 2 && line[0] == '#' && line[1] == '#'
  }

  /** A module heading can never be an object heading (the second character differs). */
  lemma HeadingsDisjoint(line: string)
    ensures !(IsModuleHeading(line) && IsObjectHeading(line))
  {
  }

  /** The module name: the line with every `#` removed, then stripped. */
  function ModuleTitle(line: string): (r: string)
    ensures '#' !in r
    ensures r == [] || (!IsSpace(r[0]) && !IsSpace(r[|r| - 1]))
  {
    Strip(RemoveChar(line, '#'))
  }

  /** The title of a heading: whatever hashes and whitespace surround a title without
      hashes and without outer whitespace, the title is what comes out. */
  lemma ModuleTitleOf(a: string, title: string, b: string)
    requires forall k | 0 <= k < |a| :: a[k] == '#' || IsSpace(a[k])
    requires forall k | 0 <= k < |b| :: b[k] == '#' || IsSpace(b[k])
    requires '#' !in title
    requires title == [] || (!IsSpace(title[0]) && !IsSpace(title[|title| - 1]))
    ensures ModuleTitle(a + title + b) == title
  {
    RemoveCharAppend(a + title, b, '#');
    RemoveCharAppend(a, title, '#');
    RemoveAbsentChar(title, '#');
    var ra, rb := RemoveChar(a, '#'), RemoveChar(b, '#');
    RemoveCharKeeps(a, '#');
    RemoveCharKeeps(b, '#');
    assert forall k | 0 <= k < |ra| :: IsSpace(ra[k]) by {
      forall k | 0 <= k < |ra| ensures IsSpace(ra[k]) {
        assert ra[k] in ra;
      }
    }
    assert forall k | 0 <= k < |rb| :: IsSpace(rb[k]) by {
      forall k | 0 <= k < |rb| ensures IsSpace(rb[k]) {
        assert rb[k] in rb;
      }
    }
    StripPadded(ra, title, rb);
  }

  /** The usual form `# title`. */
  lemma ModuleTitleOfHeading(title: string)
    requires '#' !in title
    requires title == [] || (!IsSpace(title[0]) && !IsSpace(title[|title| - 1]))
    ensures IsModuleHeading("# " + title)
    ensures ModuleTitle("# " + title) == title
  {
    ModuleTitleOf("# ", title, []);
    assert "# " + title + [] == "# " + title;
  }

  /* ---------------------------------------------------------------------------
   * OBJECT_NAME_PATTERN `^\#{2,3}\s*([A-Za-z]*)\s*`
   * ------------------------------------------------------------------------- */

  /** The bounds of group 1 of OBJECT_NAME_PATTERN. The pattern is anchored and every
      part after the hashes may be empty, so it matches exactly the object headings;
      the greedy parts take a third hash if there is one, then all whitespace, then
      all letters. */
  function ObjectNameSpan(line: string): (r: Option<(nat, nat)>)
    ensures r.Some? <==> IsObjectHeading(line)
    ensures r.Some? ==>
              var (w, e) := r.value;
              2 <= w <= e <= |line|
              && (forall k | 2 <= k < w :: (k == 2 && line[k] == '#') || IsSpace(line[k]))
              && (w < |line| ==> !IsSpace(line[w]) && (w == 2 ==> line[w] != '#'))
              && (forall k | w <= k < e :: IsAsciiLetter(line[k]))
              && (e < |line| ==> !IsAsciiLetter(line[e]))
  {
    if !IsObjectHeading(line) then None
    else
      var h := if |line| > 2 && line[2] == '#' then 3 else 2;
      var w := RunEnd(line, h, IsSpace);
      var e := RunEnd(line, w, IsAsciiLetter);
      Some((w, e))
  }

  /** The object name of a heading line: `re.findall(OBJECT_NAME_PATTERN, line)[0]`. */
  function ObjectName(line: string): (r: Option<string>)
    ensures r.Some? <==> IsObjectHeading(line)
    ensures r.Some? ==> r.value == line[ObjectNameSpan(line).value.0..ObjectNameSpan(line).value.1]
    ensures r.Some? ==> forall k | 0 <= k < |r.value| :: IsAsciiLetter(r.value[k])
  {
    match ObjectNameSpan(line)
    case None => None
    case Some((w, e)) => Some(line[w..e])
  }

  /* ---------------------------------------------------------------------------
   * ATTRIBUTE_PATTERN `- __([A-Za-z\_]*)(\*?)__`
   * ------------------------------------------------------------------------- */

  /** ATTRIBUTE_PATTERN matches at `p` with group 1 ending at `nameEnd` and group 2
      ending at `starEnd`: `- __`, name characters, an optional `*`, then `__`. */
  predicate AttributeMatchAt(line: string, p: nat, nameEnd: nat, starEnd: nat) {
    p + 4 <= nameEnd <= starEnd && starEnd + 2 <= |line|
    && line[p] == '-' && line[p + 1] == ' ' && line[p + 2] == '_' && line[p + 3] == '_'
    && (forall k | p + 4 <= k < nameEnd :: IsIdentChar(line[k]))
    && (starEnd == nameEnd || (starEnd == nameEnd + 1 && line[nameEnd] == '*'))
    && line[starEnd] == '_' && line[starEnd + 1] == '_'
  }

  /** Backtracking over the end of the greedy name group, from `nameEnd` down to the
      empty name; at each length the optional star is tried before no star. */
  function TryNameEnd(line: string, p: nat, nameEnd: nat): (r: Option<(nat, nat)>)
    requires p + 4 <= nameEnd <= |line|
    requires line[p] == '-' && line[p + 1] == ' ' && line[p + 2] == '_' && line[p + 3] == '_'
    requires forall k | p + 4 <= k < nameEnd :: IsIdentChar(line[k])
    ensures r.Some? ==> AttributeMatchAt(line, p, r.value.0, r.value.1) && r.value.0 <= nameEnd
    ensures r.Some? ==>
              forall ne: nat, se: nat | ne <= nameEnd && AttributeMatchAt(line, p, ne, se) ::
                ne < r.value.0 || (ne == r.value.0 && se <= r.value.1)
    ensures r.None? ==> forall ne: nat, se: nat | ne <= nameEnd :: !AttributeMatchAt(line, p, ne, se)
    decreases nameEnd
  {
    if nameEnd + 2 < |line| && line[nameEnd] == '*' && line[nameEnd + 1] == '_' && line[nameEnd + 2] == '_' then
      Some((nameEnd, nameEnd + 1))
    else if nameEnd + 1 < |line| && line[nameEnd] == '_' && line[nameEnd + 1] == '_' then
      Some((nameEnd, nameEnd))
    else if nameEnd == p + 4 then
      None
    else
      TryNameEnd(line, p, nameEnd - 1)
  }

  /** The match of ATTRIBUTE_PATTERN at `p` that the regex engine picks: the longest
      name, and the star whenever the star can be taken. */
  function AttributeSpanAt(line: string, p: nat): (r: Option<(nat, nat)>)
    ensures r.Some? ==> AttributeMatchAt(line, p, r.value.0, r.value.1)
    ensures r.Some? ==>
              forall ne: nat, se: nat | AttributeMatchAt(line, p, ne, se) ::
                ne < r.value.0 || (ne == r.value.0 && se <= r.value.1)
    ensures r.None? ==> forall ne: nat, se: nat :: !AttributeMatchAt(line, p, ne, se)
  {
    if p + 4 <= |line| && line[p] == '-' && line[p + 1] == ' ' && line[p + 2] == '_' && line[p + 3] == '_' then
      TryNameEnd(line, p, RunEnd(line, p + 4, IsIdentChar))
    else
      None
  }

  /** `re.match(ATTRIBUTE_PATTERN, line)` succeeds. */
  predicate IsAttributeMarker(line: string) {
    AttributeSpanAt(line, 0).Some?
  }

  /** The leftmost match of ATTRIBUTE_PATTERN at or after `from`, as `(start, nameEnd,
      starEnd)`: the scan `re.findall` does before reporting its first match. */
  function FindAttributeFrom(line: string, from: nat): (r: Option<(nat, nat, nat)>)
    ensures r.Some? ==>
              from <= r.value.0 && AttributeSpanAt(line, r.value.0) == Some((r.value.1, r.value.2))
    ensures r.Some? ==>
              forall q: nat, ne: nat, se: nat | from <= q < r.value.0 :: !AttributeMatchAt(line, q, ne, se)
    ensures r.None? <==> forall q: nat, ne: nat, se: nat | from <= q :: !AttributeMatchAt(line, q, ne, se)
    decreases |line| + 1 - from
  {
    if from > |line| then None
    else match AttributeSpanAt(line, from)
      case Some((ne, se)) => Some((from, ne, se))
      case None => FindAttributeFrom(line, from + 1)
  }

  /** The captures `(name, required)` of `re.findall(ATTRIBUTE_PATTERN, line)[0]`. On an
      attribute marker line the first match is the one at the start of the line. */
  function FindAttribute(line: string): (r: Option<(string, string)>)
    ensures IsAttributeMarker(line) ==>
              var (ne, se) := AttributeSpanAt(line, 0).value;
              r == Some((line[4..ne], line[ne..se]))
    ensures r.Some? ==> r.value.1 == "" || r.value.1 == "*"
    ensures r.Some? ==> forall k | 0 <= k < |r.value.0| :: IsIdentChar(r.value.0[k])
    ensures r.None? <==> forall q: nat, ne: nat, se: nat :: !AttributeMatchAt(line, q, ne, se)
  {
    match FindAttributeFrom(line, 0)
    case None => None
    case Some((q, ne, se)) => Some((line[q + 4..ne], line[ne..se]))
  }

  /* ---------------------------------------------------------------------------
   * OPTION_PATTERN `([A-Za-z\_]*)\s?\:\s(.*)?`
   * ------------------------------------------------------------------------- */

  /** OPTION_PATTERN matches at `p` with the key ending at `keyEnd` and the colon at
      `colon`: key characters, an optional whitespace, a colon, a whitespace. */
  predicate OptionMatchAt(line: string, p: nat, keyEnd: nat, colon: nat) {
    p <= keyEnd <= colon && colon + 1 < |line|
    && (forall k | p <= k < keyEnd :: IsIdentChar(line[k]))
    && (colon == keyEnd || (colon == keyEnd + 1 && IsSpace(line[keyEnd])))
    && line[colon] == ':' && IsSpace(line[colon + 1])
  }

  /** OPTION_PATTERN at a fixed position. A match, if any, is unique: the key can only
      end where the run of key characters ends, since neither a colon nor a
      whitespace is a key character. */
  function OptionSpanAt(line: string, p: nat): (r: Option<(nat, nat)>)
    ensures r.Some? ==> OptionMatchAt(line, p, r.value.0, r.value.1)
    ensures forall ke: nat, co: nat | OptionMatchAt(line, p, ke, co) :: r == Some((ke, co))
  {
    if p > |line| then None
    else
      var ke := RunEnd(line, p, IsIdentChar);
      if ke + 2 < |line| && IsSpace(line[ke]) && line[ke + 1] == ':' && IsSpace(line[ke + 2]) then
        Some((ke, ke + 1))
      else if ke + 1 < |line| && line[ke] == ':' && IsSpace(line[ke + 1]) then
        Some((ke, ke))
      else
        None
  }

  /** The bounds of the leftmost match of OPTION_PATTERN. */
  datatype OptionSpan = OptionSpan(start: nat, keyEnd: nat, colon: nat)

  /** The leftmost match of OPTION_PATTERN at or after `from`. */
  function FindOptionFrom(line: string, from: nat): (r: Option<OptionSpan>)
    ensures r.Some? ==>
              from <= r.value.start && OptionMatchAt(line, r.value.start, r.value.keyEnd, r.value.colon)
    ensures r.Some? ==>
              forall q: nat, ke: nat, co: nat | from <= q < r.value.start :: !OptionMatchAt(line, q, ke, co)
    ensures r.None? <==> forall q: nat, ke: nat, co: nat | from <= q :: !OptionMatchAt(line, q, ke, co)
    decreases |line| + 1 - from
  {
    if from > |line| then None
    else match OptionSpanAt(line, from)
      case Some((ke, co)) => Some(OptionSpan(from, ke, co))
      case None => FindOptionFrom(line, from + 1)
  }

  /** The leftmost match of OPTION_PATTERN in `line`, the one `re.findall` reports first. */
  function FindOptionSpan(line: string): (r: Option<OptionSpan>)
    ensures r.Some? ==> OptionMatchAt(line, r.value.start, r.value.keyEnd, r.value.colon)
    ensures r.Some? ==> forall q: nat, ke: nat, co: nat | q < r.value.start :: !OptionMatchAt(line, q, ke, co)
    ensures r.None? <==> forall q: nat, ke: nat, co: nat :: !OptionMatchAt(line, q, ke, co)
  {
    FindOptionFrom(line, 0)
  }

  /** `re.findall(OPTION_PATTERN, line)` is not empty. */
  predicate IsOptionLine(line: string) {
    FindOptionSpan(line).Some?
  }

  /** `(.*)` from `from`: the text up to the next newline or the end of the line. */
  function RestOfLine(line: string, from: nat): (v: string)
    requires from <= |line|
    ensures from + |v| <= |line| && v == line[from..from + |v|]
    ensures '\n' !in v
    ensures from + |v| == |line| || line[from + |v|] == '\n'
  {
    var e := RunEnd(line, from, NotNewline);
    assert forall k | 0 <= k < e - from :: line[from..e][k] == line[from + k] && NotNewline(line[from + k]);
    line[from..e]
  }

  /** The captures `(key, value)` of `re.findall(OPTION_PATTERN, line)[0]`; the value
      is the rest of the line after the colon and its whitespace, up to a newline. */
  function FindOption(line: string): (r: Option<(string, string)>)
    ensures r.Some? <==> IsOptionLine(line)
    ensures r.Some? ==> forall k | 0 <= k < |r.value.0| :: IsIdentChar(r.value.0[k])
    ensures r.Some? ==> '\n' !in r.value.1
    ensures r.Some? ==>
              var m := FindOptionSpan(line).value;
              r.value == (line[m.start..m.keyEnd], RestOfLine(line, m.colon + 2))
  {
    match FindOptionSpan(line)
    case None => None
    case Some(m) => Some((line[m.start..m.keyEnd], RestOfLine(line, m.colon + 2)))
  }

  /* ---------------------------------------------------------------------------
   * SUPER_PATTERN `\[\_([A-Za-z0-9]*)\_\]`
   * ------------------------------------------------------------------------- */

  /** SUPER_PATTERN matches at `p` with group 1 ending at `nameEnd`: `[_`, letters and
      digits, then `_]`. */
  predicate SuperMatchAt(line: string, p: nat, nameEnd: nat) {
    p + 2 <= nameEnd && nameEnd + 1 < |line|
    && line[p] == '[' && line[p + 1] == '_'
    && (forall k | p + 2 <= k < nameEnd :: IsAsciiAlnum(line[k]))
    && line[nameEnd] == '_' && line[nameEnd + 1] == ']'
  }

  /** SUPER_PATTERN at a fixed position; the name group ends where the run of letters
      and digits ends, so a match is unique. */
  function SuperSpanAt(line: string, p: nat): (r: Option<nat>)
    ensures r.Some? ==> SuperMatchAt(line, p, r.value)
    ensures forall e: nat | SuperMatchAt(line, p, e) :: r == Some(e)
  {
    if p + 2 <= |line| && line[p] == '[' && line[p + 1] == '_' then
      var e := RunEnd(line, p + 2, IsAsciiAlnum);
      if e + 1 < |line| && line[e] == '_' && line[e + 1] == ']' then Some(e) else None
    else
      None
  }

  /** The leftmost match of SUPER_PATTERN at or after `from`, as `(start, nameEnd)`. */
  function FindSuperFrom(line: string, from: nat): (r: Option<(nat, nat)>)
    ensures r.Some? ==> from <= r.value.0 && SuperMatchAt(line, r.value.0, r.value.1)
    ensures r.Some? ==> forall q: nat, e: nat | from <= q < r.value.0 :: !SuperMatchAt(line, q, e)
    ensures r.None? <==> forall q: nat, e: nat | from <= q :: !SuperMatchAt(line, q, e)
    decreases |line| + 1 - from
  {
    if from > |line| then None
    else match SuperSpanAt(line, from)
      case Some(e) => Some((from, e))
      case None => FindSuperFrom(line, from + 1)
  }

  /** `re.findall(SUPER_PATTERN, line)`, reduced to what the parser reads of it: its
      first element, the parent named by the leftmost `[_Name_]`, if there is one. */
  function FindParent(line: string): (r: Option<string>)
    ensures r.None? <==> forall p: nat, e: nat :: !SuperMatchAt(line, p, e)
    ensures r.Some? ==>
              var (p, e) := FindSuperFrom(line, 0).value;
              r.value == line[p + 2..e] && SuperMatchAt(line, p, e)
              && forall q: nat, e': nat | q < p :: !SuperMatchAt(line, q, e')
    ensures r.Some? ==> forall k | 0 <= k < |r.value| :: IsAsciiAlnum(r.value[k])
  {
    match FindSuperFrom(line, 0)
    case None => None
    case Some((p, e)) => Some(line[p + 2..e])
  }
}
