# sdRDM Markdown schema parser, modelled in Dafny

sdRDM (software-driven research data management) describes data models in a
restricted Markdown dialect:

- a module heading `# Name` is followed by a module docstring;
- an object heading `## Name` or `### Name [_Parent_]` is followed by an object
  docstring;
- an attribute marker `- __name__` (or `- __name*__` when the attribute is
  required) is followed by option lines `key: value`.

`MarkdownParser` in `sdRDM/generator/markdownparser.py` reads such a file in a
single pass, one line at a time. Each line is classified by a fixed list of
regular expressions, and the result sets the parser's `state`. `parse_line`
then acts on that state. It updates the parser's fields in place:

- `module_name` and `module_docstring`;
- the pending attribute dict `attr`;
- the current object dict `obj`;
- the output lists `objs`, `inherits` and `compositions`.

An attribute is finalised only when the next attribute marker, the next object
heading or the end of the file arrives. The end of the file is signalled by an
overloaded `__setattr__` that fires when `state` is assigned `END_OF_FILE`.
`sdRDM/tools/utils.py` adds two small name converters, `snake_to_camel` and
`camel_to_snake`.

The model has seven modules:

- `Wrappers` (`Wrappers.dfy`): `Option`, `Result` (with `:-` support) and
  `Outcome`, the success or exception of a step that returns nothing.
- `Ascii` (`Ascii.dfy`): the ASCII letter case used by `lower()` and
  `capitalize()`.
- `Patterns` (`Patterns.dfy`): Python's whitespace set, `strip`/`rstrip`, and one
  hand-written matcher per regular expression at `markdownparser.py:11-16`.
  - Each matcher comes with a declarative "the pattern matches here, with these
    group boundaries" predicate.
  - Each is proved greedy and leftmost, the way Python's `re` chooses a match.
- `ParserSpec` (`ParserSpec.dfy`): the parser's fields as one value
  (`Snapshot`), plus one function per step of the parser:
  - the classification (`Classify`);
  - `parse_line` (`ParseLineSpec`);
  - the end-of-file hook (`EndOfFileSpec`);
  - the loop (`Scan`);
  - `parse` (`ParseSpec`).

  A raised exception is a `Failure` carrying a `ParseError`. Dictionaries become
  datatypes:
  - an object dict is `EmptyObj` (the initial `{}`) or `Obj(name, docstring,
    attributes)`;
  - an attribute dict is a `map<string, string>`.
- `Markdown` (`MarkdownParser.dfy`): the class `MarkdownParser`.
  - Its fields are the Python fields, and every method updates them in place as
    the Python method does.
  - Each method is proved to leave the fields (`Snap()`) exactly as the
    corresponding `ParserSpec` function says.
  - `Parse` runs the loop of `parse` with a loop invariant tying the parser to
    `Scan`.
- `ParserProperties` (`ParserProperties.dfy`): what the parser guarantees, in
  two groups.
  - Line by line: the classification priority and the effect of each kind of
    line, attribute finalisation, dangling attribute markers, and where
    compositions are recorded.
  - Whole parse: the loop invariant `Inv`. From it follow the object count and
    names, and that every inheritance, composition and stored attribute is
    well formed.
- `CaseConversion` (`CaseConversion.dfy`): `snake_to_camel` and
  `camel_to_snake`, with their round-trip and shape properties.

The native type names (`DataTypes.__members__`) are a parameter `nativeTypes: set<string>`.

Some points of the dialect as the code reads it:

- An attribute marker is `- __name__`. A star inside the closing underscores
  (`- __name*__`) marks the attribute as required. The pending attribute then holds
  `required` as the string `"*"`, and as `""` otherwise.
- A composition is checked only when the next attribute marker arrives. So the
  last attribute of each object never produces one (`CompositionsOnlyAtMarkers`).
- Non-empty input without an object heading yields `objs == [{}]`, an unnamed
  object (`ObjectCountAndNames`).

## Model

| member | source | states |
|---|---|---|
| Patterns.RStrip | sdRDM/generator/markdownparser.py:54 | `rstrip()`: the result is a prefix of the line, ends in a non-whitespace character (or is empty), and only whitespace was removed |
| Patterns.StripBounds | sdRDM/generator/markdownparser.py:90 | the bounds `strip()` keeps: whitespace outside them, non-whitespace at both ends inside |
| Patterns.Strip | sdRDM/generator/markdownparser.py:90 | `strip()`: the result is empty or starts and ends with non-whitespace |
| Patterns.StripPadded | sdRDM/generator/markdownparser.py:90 | `strip()` of text that neither starts nor ends with whitespace, padded with whitespace on both sides, is exactly that text |
| Patterns.RemoveChar | sdRDM/generator/markdownparser.py:84 | `replace("#", "")`: the character no longer occurs and the result is no longer than the line |
| Patterns.RemoveCharKeeps | sdRDM/generator/markdownparser.py:84 | only the removed character disappears: every other character survives, as often as it occurred, and none is added |
| Patterns.RemoveCharAppend | sdRDM/generator/markdownparser.py:84 | removal works piece by piece, so the kept characters stay in their order |
| Patterns.RemoveCharOne | sdRDM/generator/markdownparser.py:84 | a single character is dropped exactly when it is the removed one |
| Patterns.RemoveAbsentChar | sdRDM/tools/utils.py:15 | removing a character that does not occur changes nothing |
| Patterns.ModuleTitle | sdRDM/generator/markdownparser.py:84 | the module name holds no `#` and has no surrounding whitespace |
| Patterns.ModuleTitleOf | sdRDM/generator/markdownparser.py:84 | for hashes and whitespace around a title that has no `#` and no outer whitespace, the module name is exactly that title |
| Patterns.ModuleTitleOfHeading | sdRDM/generator/markdownparser.py:11 | `# title` is a module heading whose name is `title` |
| Patterns.IsModuleHeading | sdRDM/generator/markdownparser.py:11 | MODULE_PATTERN: the line starts with one `#` and a space |
| Patterns.IsObjectHeading | sdRDM/generator/markdownparser.py:12 | OBJECT_PATTERN: the line starts with two `#` |
| Patterns.HeadingsDisjoint | sdRDM/generator/markdownparser.py:11-12 | no line is both a module heading and an object heading |
| Patterns.ObjectNameSpan | sdRDM/generator/markdownparser.py:16 | OBJECT_NAME_PATTERN matches exactly the object headings; the group is the greedy run of letters after the hashes and whitespace |
| Patterns.ObjectName | sdRDM/generator/markdownparser.py:150 | the captured object name exists exactly on object headings, is the text of the group that ObjectNameSpan fixes, and consists of ASCII letters |
| Patterns.AttributeSpanAt | sdRDM/generator/markdownparser.py:13 | ATTRIBUTE_PATTERN at a position: the longest name for which the pattern can close, preferring the star; none exactly when no group boundaries match |
| Patterns.IsAttributeMarker | sdRDM/generator/markdownparser.py:65 | `re.match(ATTRIBUTE_PATTERN, line)`: the pattern matches at the start of the line |
| Patterns.FindAttribute | sdRDM/generator/markdownparser.py:217 | `findall(ATTRIBUTE_PATTERN)[0]`: on a marker line the match at the start; `required` is `"*"` or `""`; none exactly when the pattern occurs nowhere |
| Patterns.OptionSpanAt | sdRDM/generator/markdownparser.py:14 | OPTION_PATTERN at a position: the key end and colon of a match there, which are unique |
| Patterns.FindOptionSpan | sdRDM/generator/markdownparser.py:14 | the leftmost match of OPTION_PATTERN: a match, no match starts further left, and none exactly when the pattern occurs nowhere |
| Patterns.IsOptionLine | sdRDM/generator/markdownparser.py:68 | `re.findall(OPTION_PATTERN, line)` is not empty: FindOptionSpan finds a match |
| Patterns.FindOption | sdRDM/generator/markdownparser.py:170 | `findall(OPTION_PATTERN)[0]`: present exactly on option lines; the key is the text of the leftmost match's key group (identifier characters); the value is the rest of the line after the colon and the following whitespace character, up to the end or the first newline |
| Patterns.RestOfLine | sdRDM/generator/markdownparser.py:14 | the `(.*)` group: the longest newline-free text starting at the given position |
| Patterns.FindParent | sdRDM/generator/markdownparser.py:151 | `findall(SUPER_PATTERN)[0]`: the leftmost `[_X_]`, alphanumeric; none exactly when the pattern occurs nowhere |
| ParserSpec.Classify | sdRDM/generator/markdownparser.py:58-69 | first match wins: module heading, object heading, attribute marker, option line; otherwise the state is kept |
| ParserSpec.CleanLines | sdRDM/generator/markdownparser.py:54 | the cleaned lines are non-empty, end in non-whitespace, and are no more than the raw lines |
| ParserSpec.CleanLinesAppend | sdRDM/generator/markdownparser.py:54 | lines are cleaned one at a time: cleaning a concatenation concatenates the cleaned parts, so the kept lines keep their order |
| ParserSpec.CleanLinesOne | sdRDM/generator/markdownparser.py:54 | a single line is kept with its trailing whitespace cut, unless nothing is left |
| ParserSpec.ParseSpec | sdRDM/generator/markdownparser.py:44-76 | `parse` from the lines `readlines()` returned: clean them, then ParseLines; its properties are ObjectCountAndNames, RelationsReferToObjects and BlankInputIsEmpty |
| ParserSpec.ParseLines | sdRDM/generator/markdownparser.py:55-76 | no lines give the fresh parser; otherwise Scan from the fresh parser, then the end-of-file hook (ScanFromInitial, EndOfFileNames) |
| ParserSpec.Scan | sdRDM/generator/markdownparser.py:58-74 | the loop over the lines, stopping at the first exception; ScanPreserves proves it keeps `Inv` |
| ParserSpec.Step | sdRDM/generator/markdownparser.py:58-71 | one iteration: classify, then `parse_line`; StepPreserves and CompositionsOnlyAtMarkers state its effect |
| ParserSpec.ParseLineSpec | sdRDM/generator/markdownparser.py:78-145 | `parse_line`: the branch of the current state; ParseLinePreserves proves every reachable branch keeps `Inv` |
| ParserSpec.ModuleHeadingSpec | sdRDM/generator/markdownparser.py:80-85 | NEW_MODULE: the title names the module and the state is INSIDE_MODULE (ModuleHeadingStep) |
| ParserSpec.ModuleDocstringSpec | sdRDM/generator/markdownparser.py:87-90 | INSIDE_MODULE: the stripped line is the docstring (ModuleDocstringLastWins) |
| ParserSpec.NewObjectSpec | sdRDM/generator/markdownparser.py:92-113 | NEW_OBJECT: finalise, append a non-empty object, start the named object (ObjectHeadingStep, NewObjectPreserves) |
| ParserSpec.ObjectDocstringSpec | sdRDM/generator/markdownparser.py:115-119 | INSIDE_OBJECT: a non-blank line replaces the object docstring when there is an object (ObjectDocstringLastWins) |
| ParserSpec.AttributePartSpec | sdRDM/generator/markdownparser.py:121-125 | INSIDE_ATTRIBUTE: the option is stored in the pending attribute (OptionLineSetsKey, PlainLineInsideAttributeFails) |
| ParserSpec.NewAttributeSpec | sdRDM/generator/markdownparser.py:127-137 | NEW_ATTRIBUTE: composition check, finalisation, new attribute (AttributeMarkerStep, NewAttributePreserves, DanglingAttributeMarkerFails) |
| ParserSpec.EndOfFileLineSpec | sdRDM/generator/markdownparser.py:139-145 | END_OF_FILE: the pending attribute appended unchecked and the object appended; a KeyError without an object |
| ParserSpec.EndOfFileSpec | sdRDM/generator/markdownparser.py:221-227 | the `__setattr__` hook: finalise and append the current object, whatever it is (EndOfFileNames, EndOfFileKeepsCompositions) |
| ParserSpec.MissingFrom | sdRDM/generator/markdownparser.py:193-195 | the filter keeps exactly the options the attribute lacks, and is empty exactly when it lacks none |
| ParserSpec.HasMandatoryOptions | sdRDM/generator/markdownparser.py:207-213 | `_check_mandatory_options`: the attribute is non-empty and has "description" and "type" |
| ParserSpec.MandatoryOptionsMissing | sdRDM/generator/markdownparser.py:190-213 | the check passes exactly when the attribute is non-empty and the filter of missing options is empty |
| ParserSpec.FinalizeAttribute | sdRDM/generator/markdownparser.py:182-205 | `_add_attribute_to_obj`: append a complete attribute, ignore an empty one, raise for an incomplete one (FinalizeAttributeRule, FinalizeKeepsObject) |
| ParserSpec.ParseObjectName | sdRDM/generator/markdownparser.py:147-166 | succeeds exactly on a heading with a non-empty name; an empty name is MalformedObjectHeader at that line; the parent is FindParent |
| ParserSpec.ParseAttributePart | sdRDM/generator/markdownparser.py:168-171 | succeeds exactly on option lines, adding the lower-cased key with its value; otherwise the `[0]` lookup fails |
| ParserSpec.CheckCompositions | sdRDM/generator/markdownparser.py:173-180 | one composition exactly when the type is non-empty and not native, naming the current object; a KeyError when there is no object |
| ParserSpec.SetUpNewAttribute | sdRDM/generator/markdownparser.py:215-219 | adds exactly the keys "name" and "required", storing the marker's name and its `"*"` or `""` flag; fails exactly when the marker pattern occurs nowhere |
| Markdown.MarkdownParser.constructor | sdRDM/generator/markdownparser.py:33-42 | every field at its dataclass default |
| Markdown.MarkdownParser.Parse | sdRDM/generator/markdownparser.py:44-76 | the loop ends with exactly the parser state ParseSpec describes, or with the exception it describes |
| Markdown.MarkdownParser.ParseLine | sdRDM/generator/markdownparser.py:78-145 | each state's branch changes the fields as ParseLineSpec says |
| Markdown.MarkdownParser.StartModule | sdRDM/generator/markdownparser.py:80-85 | the NEW_MODULE branch: the heading's title becomes the module name and the state INSIDE_MODULE, nothing else changes |
| Markdown.MarkdownParser.SetModuleDocstring | sdRDM/generator/markdownparser.py:87-90 | the INSIDE_MODULE branch: the stripped line replaces the module docstring, nothing else changes |
| Markdown.MarkdownParser.SetObjectDocstring | sdRDM/generator/markdownparser.py:115-119 | the INSIDE_OBJECT branch: a non-blank line replaces the current object's docstring; a blank line, or no object, changes nothing |
| Markdown.MarkdownParser.AppendLastAttribute | sdRDM/generator/markdownparser.py:139-145 | the END_OF_FILE branch: the pending attribute is appended unchecked and the object appended to `objs`; a KeyError when there is no object |
| Markdown.MarkdownParser.StartObject | sdRDM/generator/markdownparser.py:92-113 | the NEW_OBJECT branch: finalise, append a non-empty object, reset, name the new object |
| Markdown.MarkdownParser.StartAttribute | sdRDM/generator/markdownparser.py:127-137 | the NEW_ATTRIBUTE branch: check compositions, finalise, start the new attribute |
| Markdown.MarkdownParser.ParseObjectName | sdRDM/generator/markdownparser.py:147-166 | names the object and appends the inheritance whose child is that name |
| Markdown.MarkdownParser.ParseAttributePart | sdRDM/generator/markdownparser.py:168-171 | only `attr` changes, as ParseAttributePart says |
| Markdown.MarkdownParser.CheckCompositions | sdRDM/generator/markdownparser.py:173-180 | only `compositions` grows, as CheckCompositions says |
| Markdown.MarkdownParser.AddAttributeToObj | sdRDM/generator/markdownparser.py:182-213 | `obj` becomes the finalised object and `attr` becomes empty, or the exception FinalizeAttribute names |
| Markdown.MarkdownParser.SetUpNewAttribute | sdRDM/generator/markdownparser.py:215-219 | only `attr` changes, gaining name and required |
| Markdown.MarkdownParser.EndOfFileHook | sdRDM/generator/markdownparser.py:221-227 | finalise, append the current object whatever it is, then set the state |
| ParserProperties.FinalizeAttributeRule | sdRDM/generator/markdownparser.py:182-213 | a complete attribute is appended; an empty one is a no-op; an incomplete one with a name raises, listing exactly the missing options in the order description, type |
| ParserProperties.FinalizeKeepsObject | sdRDM/generator/markdownparser.py:190-191 | finalisation keeps the object's kind and name and adds only complete attributes |
| ParserProperties.ModuleHeadingStep | sdRDM/generator/markdownparser.py:80-85 | a module heading sets the module name and moves to INSIDE_MODULE, in any state |
| ParserProperties.ModuleDocstringLastWins | sdRDM/generator/markdownparser.py:87-90 | after a run of plain lines inside the module, the docstring is the last one, stripped |
| ParserProperties.ObjectDocstringLastWins | sdRDM/generator/markdownparser.py:115-119 | after a run of non-blank plain lines inside an object, the object's docstring is the last one, stripped, and nothing else changes |
| ParserProperties.ObjectHeadingStep | sdRDM/generator/markdownparser.py:100-113 | the exact result of an object heading; an inheritance is appended iff there is a `[_X_]`, with the new object as child; it fails iff finalisation fails or the name is empty |
| ParserProperties.OptionLineSetsKey | sdRDM/generator/markdownparser.py:168-171 | an option line sets `attr[key.lower()]`; no other entry and no other field changes |
| ParserProperties.PlainLineInsideAttributeFails | sdRDM/generator/markdownparser.py:121-125 | a plain line in INSIDE_ATTRIBUTE fails at the `[0]` lookup |
| ParserProperties.AttributeMarkerStep | sdRDM/generator/markdownparser.py:215-219 | after a marker the pending attribute is exactly `{name, required}` and the state is NEW_ATTRIBUTE |
| ParserProperties.MarkerAttributeIncomplete | sdRDM/generator/markdownparser.py:190-203 | `{name, required}` adds no composition and cannot be finalised: both mandatory options are missing |
| ParserProperties.DanglingAttributeMarkerFails | sdRDM/generator/markdownparser.py:127-137 | a marker followed by an object heading, another marker or a plain line, or by the end of the file, fails with the missing-fields error |
| ParserProperties.CompositionsOnlyAtMarkers | sdRDM/generator/markdownparser.py:127-137 | a step appends a composition iff it is in NEW_ATTRIBUTE and the pending attribute has a non-empty foreign type; no other step changes `compositions` |
| ParserProperties.EndOfFileKeepsCompositions | sdRDM/generator/markdownparser.py:221-225 | the end-of-file hook adds no composition and no inheritance |
| ParserProperties.InitialInv | sdRDM/generator/markdownparser.py:36-42 | the fresh parser satisfies the loop invariant and knows no object |
| ParserProperties.NewObjectPreserves | sdRDM/generator/markdownparser.py:100-113 | an object heading keeps the invariant and adds its name to the known objects |
| ParserProperties.NewAttributePreserves | sdRDM/generator/markdownparser.py:135-137 | an attribute marker keeps the invariant and the known objects |
| ParserProperties.OtherLinePreserves | sdRDM/generator/markdownparser.py:80-125 | the other branches keep the invariant and the known objects |
| ParserProperties.ParseLinePreserves | sdRDM/generator/markdownparser.py:78-145 | every branch reachable from `parse` keeps the invariant |
| ParserProperties.StepPreserves | sdRDM/generator/markdownparser.py:58-71 | one loop iteration keeps the invariant; the known objects grow exactly by the heading's name |
| ParserProperties.ScanPreserves | sdRDM/generator/markdownparser.py:58-74 | the loop keeps the invariant; the known objects grow by the names of the headings, in order |
| ParserProperties.ScanFromInitial | sdRDM/generator/markdownparser.py:55-74 | after the loop from a fresh parser, the known objects are the heading names |
| ParserProperties.EndOfFileNames | sdRDM/generator/markdownparser.py:221-225 | the hook turns the known objects into `objs`; `[{}]` when there was no heading |
| ParserProperties.ObjectCountAndNames | sdRDM/generator/markdownparser.py:100-113 | no lines give no objects; lines without a heading give `[{}]`; otherwise one named object per heading, in heading order |
| ParserProperties.RelationsReferToObjects | sdRDM/generator/markdownparser.py:163-180 | each inheritance child and composition container is an object of the result; each composition type is non-empty and not native; each stored attribute has description and type |
| ParserProperties.BlankInputIsEmpty | sdRDM/generator/markdownparser.py:54 | a file of blank lines parses to the fresh parser |
| Ascii.ToLower | sdRDM/generator/markdownparser.py:171 | an upper-case letter maps to the lower-case letter at the same place in the alphabet, which ToUpper maps back; everything else is unchanged |
| Ascii.ToUpper | sdRDM/tools/utils.py:11 | a lower-case letter maps to the upper-case letter at the same place in the alphabet; everything else is unchanged |
| Ascii.Lower | sdRDM/tools/utils.py:17 | `lower()` maps every character with ToLower and keeps the length |
| CaseConversion.Split | sdRDM/tools/utils.py:11 | `split("_")`: at least one segment, no segment contains "_", and joining with "_" gives the word back |
| CaseConversion.Capitalize | sdRDM/tools/utils.py:11 | `capitalize()`: same length; the first character is the input's first in upper case, every other is the input's in lower case; underscores where the input has them |
| CaseConversion.CamelSegment | sdRDM/tools/utils.py:11 | `x.capitalize() or "_"`: the empty segment becomes "_", any other its capitalised form |
| CaseConversion.JoinSegments | sdRDM/tools/utils.py:11 | the join has at least one character per segment, and a single segment joins to its own form; JoinSegmentsAppend makes it the concatenation of the segments' forms |
| CaseConversion.JoinSegmentsAppend | sdRDM/tools/utils.py:11 | `"".join` over two segment lists in turn is the concatenation of the two joins |
| CaseConversion.SplitSnocUnderscore | sdRDM/tools/utils.py:11 | `split("_")` of a word followed by "_" ends in a new empty segment |
| CaseConversion.SplitSnocOther | sdRDM/tools/utils.py:11 | `split("_")` of a word followed by any other character extends the last segment by that character |
| CaseConversion.SplitAppend | sdRDM/tools/utils.py:11 | `split("_")` of two words joined by one "_" is the segments of the first followed by those of the second |
| CaseConversion.SnakeToCamel | sdRDM/tools/utils.py:10-11 | `snake_to_camel`: the output is never empty, and a word without "_" maps to its capitalised segment; SnakeToCamelAppend gives the value on words with "_" |
| CaseConversion.SnakeToCamelAppend | sdRDM/tools/utils.py:10-11 | two words joined by one "_" convert to the concatenation of their conversions; with SnakeToCamelSingleSegment and SnakeToCamelEmpty this fixes the output on every word ("ab_cd" gives "AbCd") |
| CaseConversion.UnderscoresOfSegments | sdRDM/tools/utils.py:11 | the output has one underscore per empty segment |
| CaseConversion.SnakeToCamelUnderscores | sdRDM/tools/utils.py:11 | `snake_to_camel`: underscores in the output = empty segments of the input |
| CaseConversion.SegmentsOfWellSeparated | sdRDM/tools/utils.py:11 | without leading or doubled underscores, only a trailing underscore makes an empty segment |
| CaseConversion.SnakeToCamelNoUnderscore | sdRDM/tools/utils.py:11 | no leading, trailing or doubled underscore in, no underscore out |
| CaseConversion.SnakeToCamelSingleSegment | sdRDM/tools/utils.py:11 | a non-empty word without "_" maps to its capitalised form |
| CaseConversion.SnakeToCamelEmpty | sdRDM/tools/utils.py:11 | the empty word maps to "_" |
| CaseConversion.SeparateWords | sdRDM/tools/utils.py:16 | the first rewrite adds only underscores, is the identity on text without upper-case letters, keeps the first character, and leaves no match behind: no character other than a lower-case letter, a newline or "_" is followed by an upper-case and a lower-case letter |
| CaseConversion.SeparateLowerUpper | sdRDM/tools/utils.py:17 | the second rewrite adds only underscores, is the identity on text without upper-case letters, keeps the first character, and leaves no lower-case letter or digit directly before an upper-case letter |
| CaseConversion.Separated | sdRDM/tools/utils.py:15-17 | the text before lower-casing has no "@" and no lower-case letter or digit directly before an upper-case letter |
| CaseConversion.CamelToSnake | sdRDM/tools/utils.py:14-17 | `camel_to_snake` lower-cases Separated: the output has no "@" and no upper-case letter |
| CaseConversion.CamelToSnakeIdentity | sdRDM/tools/utils.py:14-17 | text with no upper-case letter and no "@" is unchanged |
| CaseConversion.CamelToSnakeIdempotent | sdRDM/tools/utils.py:14-17 | converting twice equals converting once |
| CaseConversion.SeparateWordsIsWordBreaks | sdRDM/tools/utils.py:16 | the first rewrite, which skips each matched word at once, equals WordBreaks, an independent reading of the same pattern one character at a time |
| CaseConversion.WordBreaksSites | sdRDM/tools/utils.py:16 | the character-by-character reading inserts single underscores, each before an upper-case letter that is followed by a lower-case letter and comes after a character other than a newline |
| CaseConversion.SeparateWordsInserts | sdRDM/tools/utils.py:16 | the first rewrite only inserts single underscores, each where `(.)([A-Z][a-z]+)` can match: before an upper-case letter that is followed by a lower-case letter and comes after a character other than a newline |
| CaseConversion.SeparateLowerUpperInserts | sdRDM/tools/utils.py:17 | the second rewrite only inserts underscores between a lower-case letter or digit and an upper-case letter |
| CaseConversion.InsertedCompose | sdRDM/tools/utils.py:16-17 | the two rewrites together still insert at most one underscore before each upper-case letter, and each only at a site one of the two patterns allows |
| CaseConversion.CamelToSnakeInserts | sdRDM/tools/utils.py:15-17 | Separated is the "@"-free input with single underscores inserted, each right before an upper-case letter that either starts a word (follows a non-newline character and precedes a lower-case letter) or follows a lower-case letter or digit |

## Left out

- RemoveChar: its own contract says only that the character is gone and that nothing grows. That every other character is kept, in number and in order, is stated by `RemoveCharKeeps`, `RemoveCharAppend` and `RemoveCharOne`, outside the function so that these facts do not enter every proof about a module heading.
- ModuleTitle: its own contract gives only the shape of the name. Its exact value, for hashes and whitespace around a title, is stated by `ModuleTitleOf`.
- CleanLines: its own contract gives only the shape of the kept lines. Which lines are kept, and in what order, is stated by `CleanLinesAppend` and `CleanLinesOne`.
- JoinSegments: its own contract gives a length bound and the one-segment case. That the join is the concatenation of the segments' forms is stated by `JoinSegmentsAppend`.
- SnakeToCamel: its own contract gives its value only on words without "_". Its value on every other word is stated by `SnakeToCamelAppend`, outside the function, because that proof needs induction over the split.
- SeparateWords: its own contract states "no match left behind" on the output, where an inserted "_" cannot be told from one that was in the input, and it skips a lower-case letter before an upper-case one (such a letter may end a word the rewrite has just consumed). The exact output is stated by `SeparateWordsIsWordBreaks`, and the sites of the insertions by `SeparateWordsInserts`.
- Separated: its own contract states only what the second rewrite leaves behind. The "no match left behind" property of the first rewrite is stated for `SeparateWords` alone; that the second rewrite keeps it is not proved. Where the underscores of both rewrites go in is stated by `CamelToSnakeInserts`.
- File access in `parse` (`os.path.exists`, `open().readlines()`, markdownparser.py:47-53): `Parse` starts from the list of lines that `readlines()` returned.
- `DataTypes` comes from `sdRDM.generator.codegen`. sdRDM/generator/codegen.py is not part of this model; its member names are the parameter `nativeTypes`.
- The ANSI-formatted text of the error messages is left out. An error is a `ParseError` value carrying the line index, the attribute name, the object name, the missing options, or the dictionary key whose lookup failed.
- Python exceptions: a failing step returns `Fail`/`Failure` and the partly updated parser is discarded. Python would leave it in whatever state the exception interrupted.
- `NoPatternMatch` stands for the IndexError of `re.findall(...)[0]`. It carries the line index, which Python's exception does not.
- Dictionary key order inside an attribute dict is not modelled (a `map`), and neither are `.copy()` and aliasing between `obj` and `objs`: values are copied implicitly.
- `FindParent` keeps only the first element of `re.findall(SUPER_PATTERN, line)`, the only one the parser reads.
- The END_OF_FILE branch of `parse_line` (markdownparser.py:139-145) is modelled but never reached: classification never yields END_OF_FILE (`Inv` states this).
- Letter case is ASCII only: `lower()` and `capitalize()` leave other characters unchanged; Python's Unicode case mapping is not modelled. Whitespace is Python's `str.isspace()` set.
- `YAMLDumper` (a PyYAML subclass) and `check_numeric` (Python's int/float parsing) in sdRDM/tools/utils.py.
- sdRDM/linking/utils.py (pydantic reflection, anytree, YAML/TOML output) and sdRDM/generator/abstractparser.py (an interface with no logic).
