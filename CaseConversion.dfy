/**
 * The case-conversion helpers of sdRDM/tools/utils.py, on ASCII text:
 * `snake_to_camel` (split on "_", capitalise every segment, an empty segment
 * becomes "_") and `camel_to_snake` (drop "@", two regular-expression rewrites
 * that put "_" between words, then lower-case).
 */
module CaseConversion {
  import Ascii
  import opened Patterns

  /* ---------------------------------------------------------------------------
   * snake_to_camel
   * ------------------------------------------------------------------------- */

  /** `"_".join(parts)` */
  function Join(parts: seq<string>): string
    requires |parts| >= 1
  {
    if |parts| == 1 then parts[0] else Join(parts[..|parts| - 1]) + "_" + parts[|parts| - 1]
  }

  /** `s.split("_")`: the segments between underscores, empty ones included; the empty
      string gives one empty segment. */
  function Split(s: string): (parts: seq<string>)
    ensures |parts| >= 1
    ensures forall k | 0 <= k < |parts| :: '_' !in parts[k]
    ensures Join(parts) == s
    ensures '_' !in s ==> parts == [s]
  {
    if s == [] then [[]]
    else
      var ps := Split(s[..|s| - 1]);
      var c := s[|s| - 1];
      assert s == s[..|s| - 1] + [c];
      if c == '_' then
        assert (ps + [[]])[..|ps|] == ps;
        ps + [[]]
      else
        var last := ps[|ps| - 1] + [c];
        assert (ps[..|ps| - 1] + [last])[..|ps| - 1] == ps[..|ps| - 1];
        ps[..|ps| - 1] + [last]
  }

  /** `x.capitalize()` on ASCII: the first letter upper case, the others lower case. */
  function Capitalize(x: string): (r: string)
    ensures |r| == |x|
    ensures r != [] ==> !Ascii.IsLower(r[0])
    ensures forall k | 1 <= k < |r| :: !Ascii.IsUpper(r[k])
    ensures forall k | 0 <= k < |r| :: r[k] == '_' <==> x[k] == '_'
    ensures r != [] ==> r[0] == Ascii.ToUpper(x[0])
    ensures forall k | 1 <= k < |r| :: r[k] == Ascii.ToLower(x[k])
  {
    if x == [] then [] else [Ascii.ToUpper(x[0])] + Ascii.Lower(x[1..])
  }

  /** `x.capitalize() or "_"`: an empty segment stands for the underscore it came from. */
  function CamelSegment(x: string): (r: string)
    ensures x == [] ==> r == "_"
    ensures x != [] ==> |r| == |x| && r[0] == Ascii.ToUpper(x[0])
    ensures x != [] ==> forall k | 1 <= k < |r| :: r[k] == Ascii.ToLower(x[k])
  {
    var c := Capitalize(x);
    if c != [] then c else "_"
  }

  /** `"".join(CamelSegment(x) for x in parts)` */
  function JoinSegments(parts: seq<string>): (r: string)
    ensures |r| >= |parts|
    ensures |parts| == 1 ==> r == CamelSegment(parts[0])
  {
    if parts == [] then []
    else
      var init := parts[..|parts| - 1];
      assert |parts| == 1 ==> init == [];
      JoinSegments(init) + CamelSegment(parts[|parts| - 1])
  }

  /** `snake_to_camel` */
  function SnakeToCamel(word: string): (r: string)
    ensures r != []
    ensures '_' !in word ==> r == CamelSegment(word)
  {
    JoinSegments(Split(word))
  }

  /** Concatenation is associative. Stated for any element type, so that the proofs
      about lists of strings need not compare the strings themselves. */
  lemma AppendAssoc<T>(x: seq<T>, y: seq<T>, z: seq<T>)
    ensures x + (y + z) == (x + y) + z
  {
  }

  /** A non-empty list is its front followed by its last element. */
  lemma FrontLast<T>(y: seq<T>)
    requires y != []
    ensures y == y[..|y| - 1] + [y[|y| - 1]]
  {
  }

  /** The front and last element of a concatenation with a non-empty right part. */
  lemma FrontLastAppend<T>(x: seq<T>, y: seq<T>)
    requires y != []
    ensures (x + y)[..|x + y| - 1] == x + y[..|y| - 1]
    ensures (x + y)[|x + y| - 1] == y[|y| - 1]
  {
  }

  /** One more segment adds its converted form at the end. */
  lemma JoinSegmentsSnoc(x: seq<string>, l: string)
    ensures JoinSegments(x + [l]) == JoinSegments(x) + CamelSegment(l)
  {
    FrontLastAppend(x, [l]);
  }

  /** Joining the converted segments of two lists one after the other is joining each
      list and concatenating. */
  lemma {:induction false} JoinSegmentsAppend(x: seq<string>, y: seq<string>)
    ensures JoinSegments(x + y) == JoinSegments(x) + JoinSegments(y)
    decreases |y|
  {
    if y == [] {
      assert x + y == x;
    } else {
      var init, l := y[..|y| - 1], y[|y| - 1];
      JoinSegmentsAppend(x, init);
      JoinSegmentsAppendSnoc(x, init, l);
      FrontLast(y);
    }
  }

  /** The inductive step of JoinSegmentsAppend: one more segment on the right. */
  lemma JoinSegmentsAppendSnoc(x: seq<string>, init: seq<string>, l: string)
    requires JoinSegments(x + init) == JoinSegments(x) + JoinSegments(init)
    ensures JoinSegments(x + (init + [l])) == JoinSegments(x) + JoinSegments(init + [l])
  {
    AppendAssoc(x, init, [l]);
    JoinSegmentsSnoc(x + init, l);
    JoinSegmentsSnoc(init, l);
  }

  /** `split("_")` of a word extended by "_": a new empty segment. */
  lemma SplitSnocUnderscore(u: string)
    ensures Split(u + ['_']) == Split(u) + [[]]
  {
    assert (u + ['_'])[..|u|] == u;
  }

  /** The segment list with `c` appended to its last segment. */
  function ExtendLastSegment(ps: seq<string>, c: char): seq<string>
    requires ps != []
  {
    ps[..|ps| - 1] + [ps[|ps| - 1] + [c]]
  }

  /** `split("_")` of a word extended by any other character: the last segment grows. */
  lemma SplitSnocOther(u: string, c: char)
    requires c != '_'
    ensures Split(u + [c]) == ExtendLastSegment(Split(u), c)
  {
    assert (u + [c])[..|u|] == u;
  }

  /** Extending the last of two segment lists extends the last of the right-hand list. */
  lemma ExtendLast(pa: seq<string>, pb: seq<string>, c: char)
    requires pb != []
    ensures ExtendLastSegment(pa + pb, c) == pa + ExtendLastSegment(pb, c)
  {
    FrontLastAppend(pa, pb);
    AppendAssoc(pa, pb[..|pb| - 1], [pb[|pb| - 1] + [c]]);
  }

  /** `split("_")` of two words joined by one "_" is the segments of the first followed
      by the segments of the second. */
  lemma {:induction false} SplitAppend(a: string, b: string)
    ensures Split(a + "_" + b) == Split(a) + Split(b)
    decreases |b|
  {
    if b == [] {
      assert a + "_" + b == a + ['_'];
      SplitSnocUnderscore(a);
      assert Split(b) == [[]];
    } else {
      var b', c := b[..|b| - 1], b[|b| - 1];
      SplitAppend(a, b');
      SplitAppendSnoc(a, b', c);
      FrontLast(b);
    }
  }

  /** The inductive step of SplitAppend: one more character on the right. */
  lemma SplitAppendSnoc(a: string, b: string, c: char)
    requires Split(a + "_" + b) == Split(a) + Split(b)
    ensures Split(a + "_" + (b + [c])) == Split(a) + Split(b + [c])
  {
    if c == '_' {
      SplitAppendUnderscore(a, b);
    } else {
      SplitAppendOther(a, b, c);
    }
  }

  /** The inductive step of SplitAppend for one more "_" on the right. */
  lemma SplitAppendUnderscore(a: string, b: string)
    requires Split(a + "_" + b) == Split(a) + Split(b)
    ensures Split(a + "_" + (b + ['_'])) == Split(a) + Split(b + ['_'])
  {
    var u := a + "_" + b;
    calc {
      Split(a + "_" + (b + ['_']));
    == { AppendAssoc(a + "_", b, ['_']); }
      Split(u + ['_']);
    == { SplitSnocUnderscore(u); }
      (Split(a) + Split(b)) + [[]];
    == { AppendAssoc(Split(a), Split(b), [[]]); }
      Split(a) + (Split(b) + [[]]);
    == { SplitSnocUnderscore(b); }
      Split(a) + Split(b + ['_']);
    }
  }

  /** The inductive step of SplitAppend for one more character other than "_". */
  lemma SplitAppendOther(a: string, b: string, c: char)
    requires c != '_'
    requires Split(a + "_" + b) == Split(a) + Split(b)
    ensures Split(a + "_" + (b + [c])) == Split(a) + Split(b + [c])
  {
    var u := a + "_" + b;
    calc {
      Split(a + "_" + (b + [c]));
    == { AppendAssoc(a + "_", b, [c]); }
      Split(u + [c]);
    == { SplitSnocOther(u, c); }
      ExtendLastSegment(Split(a) + Split(b), c);
    == { ExtendLast(Split(a), Split(b), c); }
      Split(a) + ExtendLastSegment(Split(b), c);
    == { SplitSnocOther(b, c); }
      Split(a) + Split(b + [c]);
    }
  }

  /** `snake_to_camel` works segment by segment: two words joined by one "_" convert to
      the concatenation of their conversions. With SnakeToCamelSingleSegment and
      SnakeToCamelEmpty this fixes the output on every word, for example
      "ab_cd" becomes "AbCd". */
  lemma SnakeToCamelAppend(a: string, b: string)
    ensures SnakeToCamel(a + "_" + b) == SnakeToCamel(a) + SnakeToCamel(b)
  {
    SplitAppend(a, b);
    JoinSegmentsAppend(Split(a), Split(b));
  }

  /** The number of underscores in `s`. */
  function Underscores(s: string): (n: nat)
    ensures n == 0 <==> '_' !in s
  {
    if s == [] then 0 else (if s[0] == '_' then 1 else 0) + Underscores(s[1..])
  }

  /** The number of empty segments in `parts`. */
  function EmptySegments(parts: seq<string>): nat {
    if parts == [] then 0
    else EmptySegments(parts[..|parts| - 1]) + (if parts[|parts| - 1] == [] then 1 else 0)
  }

  lemma {:induction false} UnderscoresConcat(a: string, b: string)
    ensures Underscores(a + b) == Underscores(a) + Underscores(b)
  {
    if a == [] {
      assert a + b == b;
    } else {
      assert (a + b)[0] == a[0] && (a + b)[1..] == a[1..] + b;
      UnderscoresConcat(a[1..], b);
    }
  }

  /** Every empty segment contributes exactly one underscore, and nothing else does. */
  lemma {:induction false} UnderscoresOfSegments(parts: seq<string>)
    requires forall k | 0 <= k < |parts| :: '_' !in parts[k]
    ensures Underscores(JoinSegments(parts)) == EmptySegments(parts)
  {
    if parts != [] {
      var init, last := parts[..|parts| - 1], parts[|parts| - 1];
      UnderscoresOfSegments(init);
      UnderscoresConcat(JoinSegments(init), CamelSegment(last));
      if last != [] {
        assert '_' !in Capitalize(last);
      }
    }
  }

  /** Each empty segment of the input, from a leading, trailing or doubled "_", turns
      into exactly one "_" of the output. */
  lemma SnakeToCamelUnderscores(word: string)
    ensures Underscores(SnakeToCamel(word)) == EmptySegments(Split(word))
  {
    UnderscoresOfSegments(Split(word));
  }

  /** No leading, trailing or doubled underscore. */
  predicate WellSeparated(word: string) {
    word != [] && word[0] != '_' && word[|word| - 1] != '_'
    && forall k | 0 <= k < |word| - 1 :: !(word[k] == '_' && word[k + 1] == '_')
  }

  /** Without a leading or doubled underscore, only the last segment can be empty, and it
      is empty exactly when the word ends with "_". */
  lemma {:induction false} SegmentsOfWellSeparated(s: string)
    requires s != [] && s[0] != '_'
    requires forall k | 0 <= k < |s| - 1 :: !(s[k] == '_' && s[k + 1] == '_')
    ensures EmptySegments(Split(s)) == (if s[|s| - 1] == '_' then 1 else 0)
    ensures Split(s)[|Split(s)| - 1] == [] <==> s[|s| - 1] == '_'
  {
    var ps := Split(s);
    if |s| == 1 {
      assert ps == [s];
      assert ps[..0] == [];
    } else {
      var init := s[..|s| - 1];
      var qs := Split(init);
      SegmentsOfWellSeparated(init);
      if s[|s| - 1] == '_' {
        assert ps == qs + [[]];
        assert ps[..|ps| - 1] == qs;
      } else {
        var last := qs[|qs| - 1] + [s[|s| - 1]];
        assert ps == qs[..|qs| - 1] + [last];
        assert ps[..|ps| - 1] == qs[..|qs| - 1];
        assert EmptySegments(qs) == EmptySegments(qs[..|qs| - 1]) + (if qs[|qs| - 1] == [] then 1 else 0);
      }
    }
  }

  /** A word without leading, trailing or doubled underscores comes out with none at all. */
  lemma SnakeToCamelNoUnderscore(word: string)
    requires WellSeparated(word)
    ensures '_' !in SnakeToCamel(word)
  {
    SegmentsOfWellSeparated(word);
    SnakeToCamelUnderscores(word);
  }

  /** A word with no underscore is one segment: it comes out capitalised. */
  lemma SnakeToCamelSingleSegment(word: string)
    requires '_' !in word && word != []
    ensures SnakeToCamel(word) == Capitalize(word)
  {
    assert Split(word) == [word];
    assert [word][..0] == [];
    assert CamelSegment(word) == Capitalize(word);
    assert JoinSegments([word]) == [] + Capitalize(word);
  }

  /** The empty word is one empty segment, so it comes out as a lone underscore. */
  lemma SnakeToCamelEmpty()
    ensures SnakeToCamel("") == "_"
  {
    assert Split("") == [[]];
    assert Split("")[..0] == [];
  }

  /* ---------------------------------------------------------------------------
   * camel_to_snake
   * ------------------------------------------------------------------------- */

  /** `re.sub("(.)([A-Z][a-z]+)", r"\1_\2", s)` from position `i`: at each position where
      a character other than a newline is followed by an upper-case letter and at least
      one lower-case letter, put "_" after that character and go on after the longest
      run of lower-case letters; elsewhere copy the character. */
  function SeparateWords(s: string, i: nat): (r: string)
    requires i <= |s|
    ensures forall c | c in r :: c in s[i..] || c == '_'
    ensures (forall k | i <= k < |s| :: !Ascii.IsUpper(s[k])) ==> r == s[i..]
    ensures i < |s| ==> r != [] && r[0] == s[i]
    ensures i + 1 < |s| ==> |r| > 1 && (r[1] == '_' || r[1] == s[i + 1])
    ensures i + 1 >= |s| ==> r == s[i..]
    ensures NoWordStart(r)
    decreases |s| - i
  {
    if i == |s| then []
    else if i + 2 < |s| && s[i] != '\n' && Ascii.IsUpper(s[i + 1]) && Ascii.IsLower(s[i + 2]) then
      var e := RunEnd(s, i + 2, Ascii.IsLower);
      var t := SeparateWords(s, e);
      SeparatedWordChars(s, i, e, t);
      SeparatedWordNoStart(s, i, e, t);
      [s[i], '_'] + s[i + 1..e] + t
    else
      var t := SeparateWords(s, i + 1);
      assert s[i..] == [s[i]] + s[i + 1..];
      CopiedNoStart(s, i, t);
      [s[i]] + t
  }

  /** The characters of a separated word and what follows it come from `s[i..]` or are
      the inserted "_". */
  lemma SeparatedWordChars(s: string, i: nat, e: nat, t: string)
    requires i + 1 < e <= |s|
    requires forall c | c in t :: c in s[e..] || c == '_'
    ensures forall c | c in [s[i], '_'] + s[i + 1..e] + t :: c in s[i..] || c == '_'
  {
    forall c | c in [s[i], '_'] + s[i + 1..e] + t ensures c in s[i..] || c == '_' {
      if c == s[i] {
        assert s[i..][0] == c;
      } else if c in s[i + 1..e] {
        var k :| i + 1 <= k < e && s[k] == c;
        assert s[i..][k - i] == c;
      } else if c in t && c != '_' {
        var k :| e <= k < |s| && s[k] == c;
        assert s[i..][k - i] == c;
      }
    }
  }

  /** No word start is left in a separated word and what follows it. */
  lemma SeparatedWordNoStart(s: string, i: nat, e: nat, t: string)
    requires i + 2 < e <= |s|
    requires Ascii.IsUpper(s[i + 1])
    requires forall k | i + 2 <= k < e :: Ascii.IsLower(s[k])
    requires e < |s| ==> t != [] && t[0] == s[e] && !Ascii.IsLower(s[e])
    requires NoWordStart(t)
    ensures NoWordStart([s[i], '_'] + s[i + 1..e] + t)
  {
    var p := [s[i], '_'] + s[i + 1..e];
    var r := p + t;
    forall k | 0 <= k < |r| - 2 ensures !WordStart(r[k], r[k + 1], r[k + 2]) {
      if k == 2 {
        assert r[k + 1] == s[i + 2];
      } else if 3 <= k < |p| {
        assert r[k] == s[i + k - 1];
      } else if k >= |p| {
        assert r[k] == t[k - |p|] && r[k + 1] == t[k - |p| + 1] && r[k + 2] == t[k - |p| + 2];
      }
    }
  }

  /** Copying a character that starts no word in front of a separated rest starts none. */
  lemma CopiedNoStart(s: string, i: nat, t: string)
    requires i < |s|
    requires !(i + 2 < |s| && s[i] != '\n' && Ascii.IsUpper(s[i + 1]) && Ascii.IsLower(s[i + 2]))
    requires i + 1 < |s| ==> t != [] && t[0] == s[i + 1]
    requires i + 2 < |s| ==> |t| > 1 && (t[1] == '_' || t[1] == s[i + 2])
    requires i + 2 >= |s| ==> t == s[i + 1..]
    requires NoWordStart(t)
    ensures NoWordStart([s[i]] + t)
  {
    var r := [s[i]] + t;
    forall k | 0 <= k < |r| - 2 ensures !WordStart(r[k], r[k + 1], r[k + 2]) {
      if k > 0 {
        assert r[k] == t[k - 1] && r[k + 1] == t[k] && r[k + 2] == t[k + 1];
      }
    }
  }

  /** No three neighbouring characters of `r` form a word start. */
  predicate NoWordStart(r: string) {
    forall k | 0 <= k < |r| - 2 :: !WordStart(r[k], r[k + 1], r[k + 2])
  }

  /** Three neighbouring characters that `(.)([A-Z][a-z]+)` would still separate: a first
      character that neither ends a run of lower-case letters nor is an inserted "_",
      then an upper-case and a lower-case letter. */
  predicate WordStart(a: char, b: char, c: char) {
    a != '\n' && a != '_' && !Ascii.IsLower(a) && Ascii.IsUpper(b) && Ascii.IsLower(c)
  }

  /** `re.sub("([a-z0-9])([A-Z])", r"\1_\2", s)` from position `i`: put "_" between a
      lower-case letter or digit and the upper-case letter after it, the matches not
      overlapping. */
  function SeparateLowerUpper(s: string, i: nat): (r: string)
    requires i <= |s|
    ensures forall c | c in r :: c in s[i..] || c == '_'
    ensures (forall k | i <= k < |s| :: !Ascii.IsUpper(s[k])) ==> r == s[i..]
    ensures i < |s| ==> r != [] && r[0] == s[i]
    ensures forall k | 0 <= k < |r| - 1 :: !(LowerOrDigit(r[k]) && Ascii.IsUpper(r[k + 1]))
    decreases |s| - i
  {
    if i == |s| then []
    else if i + 1 < |s| && LowerOrDigit(s[i]) && Ascii.IsUpper(s[i + 1]) then
      assert s[i..] == [s[i], s[i + 1]] + s[i + 2..];
      var t := SeparateLowerUpper(s, i + 2);
      var r := [s[i], '_', s[i + 1]] + t;
      assert forall k | 0 <= k < |r| - 1 :: !(LowerOrDigit(r[k]) && Ascii.IsUpper(r[k + 1])) by {
        forall k | 3 <= k < |r| - 1 ensures !(LowerOrDigit(r[k]) && Ascii.IsUpper(r[k + 1])) {
          assert r[k] == t[k - 3] && r[k + 1] == t[k - 2];
        }
      }
      r
    else
      assert s[i..] == [s[i]] + s[i + 1..];
      var t := SeparateLowerUpper(s, i + 1);
      var r := [s[i]] + t;
      assert forall k | 0 <= k < |r| - 1 :: !(LowerOrDigit(r[k]) && Ascii.IsUpper(r[k + 1])) by {
        forall k | 1 <= k < |r| - 1 ensures !(LowerOrDigit(r[k]) && Ascii.IsUpper(r[k + 1])) {
          assert r[k] == t[k - 1] && r[k + 1] == t[k];
        }
      }
      r
  }

  /** `[a-z0-9]` */
  predicate LowerOrDigit(c: char) {
    Ascii.IsLower(c) || Ascii.IsDigit(c)
  }

  /** The text before lower-casing: "@" dropped and the two rewrites applied. */
  function Separated(name: string): (r: string)
    ensures '@' !in r
    ensures forall k | 0 <= k < |r| - 1 :: !(LowerOrDigit(r[k]) && Ascii.IsUpper(r[k + 1]))
  {
    var s := RemoveChar(name, '@');
    var t := SeparateWords(s, 0);
    assert s[0..] == s && t[0..] == t;
    SeparateLowerUpper(t, 0)
  }

  /** `camel_to_snake` */
  function CamelToSnake(name: string): (r: string)
    ensures '@' !in r
    ensures forall k | 0 <= k < |r| :: !Ascii.IsUpper(r[k])
  {
    var u := Separated(name);
    var r := Ascii.Lower(u);
    assert forall k | 0 <= k < |r| :: r[k] != '@' by {
      forall k | 0 <= k < |r| ensures r[k] != '@' {
        assert u[k] in u;
      }
    }
    r
  }

  /** Text that is already snake case (no upper-case letter, no "@") is left unchanged. */
  lemma CamelToSnakeIdentity(name: string)
    requires '@' !in name
    requires forall k | 0 <= k < |name| :: !Ascii.IsUpper(name[k])
    ensures CamelToSnake(name) == name
  {
    RemoveAbsentChar(name, '@');
    assert name[0..] == name;
    var r := CamelToSnake(name);
    assert |r| == |name| && forall k | 0 <= k < |r| :: r[k] == name[k];
  }

  /** Converting twice is converting once. */
  lemma CamelToSnakeIdempotent(name: string)
    ensures CamelToSnake(CamelToSnake(name)) == CamelToSnake(name)
  {
    CamelToSnakeIdentity(CamelToSnake(name));
  }

  /** The first rewrite read one character at a time, the way the regular-expression
      scanner walks the text. `free` says that the character before `s` can open a
      match: it exists, is not a newline, and no match consumed it. `inRun` says that
      a match is still consuming its run of lower-case letters. An underscore goes in
      before an upper-case letter followed by a lower-case letter exactly when the
      character before it is free. */
  function WordBreaks(s: string, free: bool, inRun: bool): string
    decreases |s|
  {
    if s == [] then []
    else if inRun && Ascii.IsLower(s[0]) then [s[0]] + WordBreaks(s[1..], false, true)
    else if free && |s| >= 2 && Ascii.IsUpper(s[0]) && Ascii.IsLower(s[1]) then
      ['_', s[0]] + WordBreaks(s[1..], false, true)
    else [s[0]] + WordBreaks(s[1..], s[0] != '\n', false)
  }

  /** Once a match has consumed its lower-case run, the text after the run is read as
      from a fresh start. */
  lemma {:induction false} WordBreaksRun(s: string, k: nat, e: nat)
    requires k <= e <= |s|
    requires forall j | k <= j < e :: Ascii.IsLower(s[j])
    requires e < |s| ==> !Ascii.IsLower(s[e])
    ensures WordBreaks(s[k..], false, true) == s[k..e] + WordBreaks(s[e..], false, false)
    decreases e - k
  {
    if k == e {
      assert s[k..e] == [];
    } else {
      WordBreaksRun(s, k + 1, e);
      assert s[k..][1..] == s[k + 1..];
      assert s[k..e] == [s[k]] + s[k + 1..e];
    }
  }

  /** The character-by-character reading at a match: `s[i]`, "_", the upper-case
      letter, then the lower-case run is being consumed. */
  lemma WordBreaksAtMatch(s: string, i: nat)
    requires i + 2 < |s| && s[i] != '\n' && Ascii.IsUpper(s[i + 1]) && Ascii.IsLower(s[i + 2])
    ensures WordBreaks(s[i..], false, false) == [s[i], '_', s[i + 1]] + WordBreaks(s[i + 2..], false, true)
  {
    assert s[i..][1..] == s[i + 1..];
    assert s[i + 1..][1..] == s[i + 2..];
    assert WordBreaks(s[i + 1..], true, false) == ['_', s[i + 1]] + WordBreaks(s[i + 2..], false, true);
  }

  /** A match at `i`: both readings emit `s[i]`, "_", the matched word, and go on
      after the run. */
  lemma WordMatchBreaks(s: string, i: nat, e: nat)
    requires i + 2 < |s| && s[i] != '\n' && Ascii.IsUpper(s[i + 1]) && Ascii.IsLower(s[i + 2])
    requires e == RunEnd(s, i + 2, Ascii.IsLower)
    requires SeparateWords(s, e) == WordBreaks(s[e..], false, false)
    ensures SeparateWords(s, i) == WordBreaks(s[i..], false, false)
  {
    WordBreaksRun(s, i + 2, e);
    WordBreaksAtMatch(s, i);
    SeparateWordsAtMatch(s, i, e);
    Regroup(s[i], s[i + 1], s[i + 2..e], WordBreaks(s[e..], false, false));
    assert s[i + 1..e] == [s[i + 1]] + s[i + 2..e];
  }

  /** Sequence regrouping used by WordMatchBreaks. */
  lemma Regroup(a: char, b: char, u: string, w: string)
    ensures [a, '_', b] + (u + w) == [a, '_'] + ([b] + u) + w
  {
  }

  /** What the first rewrite emits at a position where its pattern matches. */
  lemma SeparateWordsAtMatch(s: string, i: nat, e: nat)
    requires i + 2 < |s| && s[i] != '\n' && Ascii.IsUpper(s[i + 1]) && Ascii.IsLower(s[i + 2])
    requires e == RunEnd(s, i + 2, Ascii.IsLower)
    ensures SeparateWords(s, i) == [s[i], '_'] + s[i + 1..e] + SeparateWords(s, e)
  {
  }

  /** No match at `i`: both readings copy `s[i]` and go on at `i + 1`. */
  lemma CopyBreaks(s: string, i: nat)
    requires i < |s|
    requires !(i + 2 < |s| && s[i] != '\n' && Ascii.IsUpper(s[i + 1]) && Ascii.IsLower(s[i + 2]))
    requires SeparateWords(s, i + 1) == WordBreaks(s[i + 1..], false, false)
    ensures SeparateWords(s, i) == WordBreaks(s[i..], false, false)
  {
    var x := s[i + 1..];
    calc {
      WordBreaks(s[i..], false, false);
    == { assert s[i..][1..] == x; }
      [s[i]] + WordBreaks(x, s[i] != '\n', false);
    ==
      [s[i]] + WordBreaks(x, false, false);
    }
  }

  /** The run-skipping rewrite and the character-by-character reading agree: the first
      rewrite of `camel_to_snake` is exactly WordBreaks. */
  lemma {:induction false} SeparateWordsIsWordBreaks(s: string, i: nat)
    requires i <= |s|
    ensures SeparateWords(s, i) == WordBreaks(s[i..], false, false)
    decreases |s| - i
  {
    if i < |s| {
      if i + 2 < |s| && s[i] != '\n' && Ascii.IsUpper(s[i + 1]) && Ascii.IsLower(s[i + 2]) {
        var e := RunEnd(s, i + 2, Ascii.IsLower);
        SeparateWordsIsWordBreaks(s, e);
        WordMatchBreaks(s, i, e);
      } else {
        SeparateWordsIsWordBreaks(s, i + 1);
        CopyBreaks(s, i);
      }
    }
  }

  /** `t` is `s` with single underscores inserted, each before an upper-case letter that
      is followed by a lower-case letter and comes after a character other than a
      newline (`prevOk` says whether the character before `s` is one): the only places
      where `(.)([A-Z][a-z]+)` can match. */
  predicate InsertedAtWordStarts(s: string, t: string, prevOk: bool)
    decreases |s|
  {
    if s == [] then t == []
    else
      (t != [] && t[0] == s[0] && InsertedAtWordStarts(s[1..], t[1..], s[0] != '\n'))
      || (prevOk && |s| >= 2 && Ascii.IsUpper(s[0]) && Ascii.IsLower(s[1])
          && |t| >= 2 && t[0] == '_' && t[1] == s[0] && InsertedAtWordStarts(s[1..], t[2..], true))
  }

  /** `t` is `s` with single underscores inserted, each before an upper-case letter
      that comes right after a lower-case letter or digit (`prev` says whether the
      character before `s` is one): the only places where `([a-z0-9])([A-Z])` matches. */
  predicate InsertedAfterLowerOrDigit(s: string, t: string, prev: bool)
    decreases |s|
  {
    if s == [] then t == []
    else
      (t != [] && t[0] == s[0] && InsertedAfterLowerOrDigit(s[1..], t[1..], LowerOrDigit(s[0])))
      || (prev && Ascii.IsUpper(s[0]) && |t| >= 2 && t[0] == '_' && t[1] == s[0]
          && InsertedAfterLowerOrDigit(s[1..], t[2..], false))
  }

  /** Both rewrites together: single underscores, each before an upper-case letter that
      either starts a word as in `InsertedAtWordStarts` or comes right after a lower-case
      letter or digit (`prevLD` says whether the character before `s` is one). */
  predicate InsertedAtBreaks(s: string, t: string, prevOk: bool, prevLD: bool)
    decreases |s|
  {
    if s == [] then t == []
    else
      (t != [] && t[0] == s[0] && InsertedAtBreaks(s[1..], t[1..], s[0] != '\n', LowerOrDigit(s[0])))
      || (Ascii.IsUpper(s[0]) && ((prevOk && |s| >= 2 && Ascii.IsLower(s[1])) || prevLD)
          && |t| >= 2 && t[0] == '_' && t[1] == s[0] && InsertedAtBreaks(s[1..], t[2..], true, false))
  }

  /** WordBreaks puts underscores only where the pattern can match. */
  lemma {:induction false} WordBreaksSites(s: string, free: bool, inRun: bool, prevOk: bool)
    requires free ==> prevOk
    ensures InsertedAtWordStarts(s, WordBreaks(s, free, inRun), prevOk)
    decreases |s|
  {
    if s != [] {
      var t := WordBreaks(s, free, inRun);
      if inRun && Ascii.IsLower(s[0]) {
        WordBreaksSites(s[1..], false, true, s[0] != '\n');
        assert t[1..] == WordBreaks(s[1..], false, true);
      } else if free && |s| >= 2 && Ascii.IsUpper(s[0]) && Ascii.IsLower(s[1]) {
        WordBreaksSites(s[1..], false, true, true);
        assert t[2..] == WordBreaks(s[1..], false, true);
      } else {
        WordBreaksSites(s[1..], s[0] != '\n', false, s[0] != '\n');
        assert t[1..] == WordBreaks(s[1..], s[0] != '\n', false);
      }
    }
  }

  /** The first rewrite inserts single underscores, and only where its pattern matches. */
  lemma SeparateWordsInserts(s: string, i: nat)
    requires i <= |s|
    ensures InsertedAtWordStarts(s[i..], SeparateWords(s, i), false)
  {
    SeparateWordsIsWordBreaks(s, i);
    WordBreaksSites(s[i..], false, false, false);
  }

  lemma {:induction false} SeparateLowerUpperInserts(s: string, i: nat, prev: bool)
    requires i <= |s|
    ensures InsertedAfterLowerOrDigit(s[i..], SeparateLowerUpper(s, i), prev)
    decreases |s| - i
  {
    if i < |s| {
      var t := SeparateLowerUpper(s, i);
      if i + 1 < |s| && LowerOrDigit(s[i]) && Ascii.IsUpper(s[i + 1]) {
        SeparateLowerUpperInserts(s, i + 2, false);
        assert s[i..][1..] == s[i + 1..] && s[i + 1..][1..] == s[i + 2..];
        assert t[1..][2..] == SeparateLowerUpper(s, i + 2);
        assert InsertedAfterLowerOrDigit(s[i + 1..], t[1..], true);
      } else {
        SeparateLowerUpperInserts(s, i + 1, LowerOrDigit(s[i]));
        assert s[i..][1..] == s[i + 1..];
      }
    }
  }

  /** The second rewrite never inserts twice before a letter: an underscore the first one
      put there is not a lower-case letter or digit. So the two insertions compose. */
  lemma {:induction false} InsertedCompose(a: string, b: string, c: string, prevOk: bool, prevLD: bool)
    requires InsertedAtWordStarts(a, b, prevOk) && InsertedAfterLowerOrDigit(b, c, prevLD)
    ensures InsertedAtBreaks(a, c, prevOk, prevLD)
    decreases |a|
  {
    if a != [] {
      if b != [] && b[0] == a[0] && InsertedAtWordStarts(a[1..], b[1..], a[0] != '\n') {
        if c != [] && c[0] == b[0] && InsertedAfterLowerOrDigit(b[1..], c[1..], LowerOrDigit(b[0])) {
          InsertedCompose(a[1..], b[1..], c[1..], a[0] != '\n', LowerOrDigit(a[0]));
        } else {
          InsertedCompose(a[1..], b[1..], c[2..], true, false);
        }
      } else {
        assert b[0] == '_' && b[1] == a[0] && !LowerOrDigit('_');
        assert InsertedAfterLowerOrDigit(b[1..], c[1..], false);
        assert b[1..][1..] == b[2..];
        InsertedCompose(a[1..], b[2..], c[2..], true, false);
      }
    }
  }

  /** The two rewrites of `camel_to_snake` only insert single underscores, each right
      before an upper-case letter of the "@"-free input that starts a word or follows a
      lower-case letter or digit. */
  lemma CamelToSnakeInserts(name: string)
    ensures InsertedAtBreaks(RemoveChar(name, '@'), Separated(name), false, false)
  {
    var s := RemoveChar(name, '@');
    var t := SeparateWords(s, 0);
    SeparateWordsInserts(s, 0);
    SeparateLowerUpperInserts(t, 0, false);
    assert s[0..] == s && t[0..] == t;
    InsertedCompose(s, t, Separated(name), false, false);
  }
}
