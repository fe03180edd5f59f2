/**
 * The Markdown schema parser of sdRDM/generator/markdownparser.py, as values:
 * the parser's fields gathered in a `Snapshot`, and one function per step the
 * class takes. The class `MarkdownParser.MarkdownParser` is proved to follow
 * these functions; the lemmas of `ParserProperties` are stated about them.
 *
 * Python dictionaries become datatypes: an object dict is `EmptyObj` (the `{}`
 * the parser starts with) or `Obj(name, docstring, attributes)`; an attribute
 * dict is a `map<string, string>` holding "name", "required" and the lower-cased
 * option keys. An exception becomes a `Failure` carrying a `ParseError`.
 */
module ParserSpec {
  import opened Wrappers
  import opened Patterns
  import Ascii

  /** ValidatorState */
  datatype ValidatorState =
    | NewModule
    | InsideModule
    | NewObject
    | InsideObject
    | InsideAttribute
    | NewAttribute
    | EndOfFile
    | Idle

  /** An attribute dict: "name", "required" ("*" or "") and the options read so far. */
  type Attr = map<string, string>

  /** An object dict: `{}` or `{"attributes": [...], "name": ..., "docstring": ...}`. */
  datatype ObjDict =
    | EmptyObj
    | Obj(name: string, docstring: Option<string>, attributes: seq<Attr>)

  /** `{"parent": ..., "child": ...}` */
  datatype Inheritance = Inheritance(parent: string, child: string)

  /** `{"module": ..., "container": ...}`: the attribute type `referenced` is not a
      native type and is used inside the object `container`. */
  datatype Composition = Composition(referenced: string, container: string)

  /** The exceptions the parser raises. */
  datatype ParseError =
      /** ValueError: a heading with no object name (line index as in the message). */
    | MalformedObjectHeader(index: nat)
      /** ValueError: an attribute without all mandatory options. */
    | MissingMandatoryFields(attribute: string, objectName: string, missing: seq<string>)
      /** KeyError: a dictionary lookup of an absent key. */
    | MissingKey(key: string)
      /** IndexError: `re.findall(...)[0]` on a line where the pattern does not occur. */
    | NoPatternMatch(index: nat)

  /** The fields of a MarkdownParser. `moduleDocstring` is `None` while the Python
      attribute `module_docstring` has never been assigned. */
  datatype Snapshot = Snapshot(
    moduleName: string,
    moduleDocstring: Option<string>,
    state: ValidatorState,
    attr: Attr,
    obj: ObjDict,
    objs: seq<ObjDict>,
    inherits: seq<Inheritance>,
    compositions: seq<Composition>)

  /** A freshly constructed parser (the dataclass defaults). */
  const Initial: Snapshot := Snapshot("", None, Idle, map[], EmptyObj, [], [], [])

  /** MANDATORY_OPTIONS */
  const MandatoryOptions: seq<string> := ["description", "type"]

  /** `_check_mandatory_options`: the attribute is not empty and has every mandatory option. */
  predicate HasMandatoryOptions(attr: Attr) {
    attr != map[] && forall o | o in MandatoryOptions :: o in attr
  }

  /** `filter(lambda option: option not in attr.keys(), options)` */
  function MissingFrom(options: seq<string>, attr: Attr): (missing: seq<string>)
    ensures forall o :: o in missing <==> o in options && o !in attr
    ensures missing == [] <==> forall o | o in options :: o in attr
    ensures |missing| <= |options|
  {
    if options == [] then []
    else (if options[0] in attr then [] else [options[0]]) + MissingFrom(options[1..], attr)
  }

  /** The mandatory options `attr` lacks, in the order of MANDATORY_OPTIONS. */
  function MissingOptions(attr: Attr): seq<string> {
    MissingFrom(MandatoryOptions, attr)
  }

  /** An attribute passes `_check_mandatory_options` exactly when it is not empty and
      the filter of missing options comes back empty. */
  lemma MandatoryOptionsMissing(attr: Attr)
    ensures HasMandatoryOptions(attr) <==> attr != map[] && MissingOptions(attr) == []
  {
  }

  /** `_add_attribute_to_obj`: the current object once the pending attribute is added
      to it. The pending attribute is `{}` afterwards. */
  function FinalizeAttribute(attr: Attr, obj: ObjDict): Result<ObjDict, ParseError> {
    if HasMandatoryOptions(attr) then
      if obj.EmptyObj? then Failure(MissingKey("attributes"))
      else Success(obj.(attributes := obj.attributes + [attr]))
    else if attr != map[] then
      if "name" !in attr || obj.EmptyObj? then Failure(MissingKey("name"))
      else Failure(MissingMandatoryFields(attr["name"], obj.name, MissingOptions(attr)))
    else
      Success(obj)
  }

  /** `attr.get("type")` is truthy and not a member of `DataTypes`. */
  predicate HasForeignType(attr: Attr, nativeTypes: set<string>) {
    "type" in attr && attr["type"] != "" && attr["type"] !in nativeTypes
  }

  /** `_check_compositions`: the compositions the pending attribute adds. */
  function CheckCompositions(attr: Attr, obj: ObjDict, nativeTypes: set<string>): (r: Result<seq<Composition>, ParseError>)
    ensures r.Failure? <==> HasForeignType(attr, nativeTypes) && obj.EmptyObj?
    ensures r.Success? ==> |r.value| <= 1 && (r.value != [] <==> HasForeignType(attr, nativeTypes))
    ensures r.Success? && r.value != [] ==>
              r.value[0].referenced == attr["type"] && r.value[0].referenced !in nativeTypes
              && obj.Obj? && r.value[0].container == obj.name
  {
    if !HasForeignType(attr, nativeTypes) then Success([])
    else if obj.EmptyObj? then Failure(MissingKey("name"))
    else Success([Composition(attr["type"], obj.name)])
  }

  /** `_parse_object_name`: the object name and the parent of a heading line. */
  function ParseObjectName(line: string, index: nat): (r: Result<(string, Option<string>), ParseError>)
    ensures r.Success? <==> IsObjectHeading(line) && ObjectName(line).value != ""
    ensures r.Success? ==> r.value.0 == ObjectName(line).value && r.value.1 == FindParent(line)
    ensures IsObjectHeading(line) && ObjectName(line).value == "" ==> r == Failure(MalformedObjectHeader(index))
  {
    match ObjectName(line)
    case None => Failure(NoPatternMatch(index))
    case Some(name) =>
      if name == "" then Failure(MalformedObjectHeader(index)) else Success((name, FindParent(line)))
  }

  /** `_parse_attribute_part`: `attr[key.lower()] = value` for the first option on the line. */
  function ParseAttributePart(attr: Attr, line: string, index: nat): (r: Result<Attr, ParseError>)
    ensures r.Success? <==> IsOptionLine(line)
    ensures r.Failure? ==> r.error == NoPatternMatch(index)
    ensures r.Success? ==>
              var key := Ascii.Lower(FindOption(line).value.0);
              r.value.Keys == attr.Keys + {key} && r.value[key] == FindOption(line).value.1
  {
    match FindOption(line)
    case None => Failure(NoPatternMatch(index))
    case Some((key, value)) => Success(attr[Ascii.Lower(key) := value])
  }

  /** `_set_up_new_attribute`: `attr["name"]` and `attr["required"]` from the marker. */
  function SetUpNewAttribute(attr: Attr, line: string, index: nat): (r: Result<Attr, ParseError>)
    ensures r.Success? <==> FindAttribute(line).Some?
    ensures r.Failure? ==> r.error == NoPatternMatch(index)
    ensures r.Success? ==>
              && r.value.Keys == attr.Keys + {"name", "required"}
              && (r.value["required"] == "" || r.value["required"] == "*")
              && r.value["name"] == FindAttribute(line).value.0
              && r.value["required"] == FindAttribute(line).value.1
  {
    match FindAttribute(line)
    case None => Failure(NoPatternMatch(index))
    case Some((name, required)) => Success(attr["name" := name]["required" := required])
  }

  /** The line matches ATTRIBUTE_PATTERN at its start, for some group boundaries. */
  ghost predicate MatchesAttributePattern(line: string) {
    exists ne: nat, se: nat :: AttributeMatchAt(line, 0, ne, se)
  }

  /** OPTION_PATTERN occurs somewhere in the line. */
  ghost predicate ContainsOptionPattern(line: string) {
    exists q: nat, ke: nat, co: nat :: OptionMatchAt(line, q, ke, co)
  }

  /** The classification in `parse`: the first pattern that matches decides the new
      state; a line that matches none leaves the state as it was. */
  function Classify(line: string, s: ValidatorState): (r: ValidatorState)
    ensures IsModuleHeading(line) ==> r == NewModule
    ensures !IsModuleHeading(line) && IsObjectHeading(line) ==> r == NewObject
    ensures (!IsModuleHeading(line) && !IsObjectHeading(line) && MatchesAttributePattern(line))
            ==> r == NewAttribute
    ensures (!IsModuleHeading(line) && !IsObjectHeading(line) && !MatchesAttributePattern(line)
             && ContainsOptionPattern(line))
            ==> r == InsideAttribute
    ensures (!IsModuleHeading(line) && !IsObjectHeading(line) && !MatchesAttributePattern(line)
             && !ContainsOptionPattern(line))
            ==> r == s
  {
    if IsModuleHeading(line) then NewModule
    else if IsObjectHeading(line) then NewObject
    else if IsAttributeMarker(line) then NewAttribute
    else if IsOptionLine(line) then InsideAttribute
    else s
  }

  /** A line no pattern classifies. */
  predicate IsPlain(line: string) {
    !IsModuleHeading(line) && !IsObjectHeading(line) && !IsAttributeMarker(line) && !IsOptionLine(line)
  }

  /** `parse_line` in NEW_OBJECT: finalise the pending attribute, append the previous
      object if there is one, and start the object the heading names. */
  function NewObjectSpec(p: Snapshot, line: string, index: nat): Result<Snapshot, ParseError> {
    var obj :- FinalizeAttribute(p.attr, p.obj);
    var objs := if obj != EmptyObj then p.objs + [obj] else p.objs;
    var header :- ParseObjectName(line, index);
    var (name, parent) := header;
    var inherits := if parent.Some? then p.inherits + [Inheritance(parent.value, name)] else p.inherits;
    Success(p.(attr := map[], obj := Obj(name, None, []), objs := objs, inherits := inherits,
               state := InsideObject))
  }

  /** `parse_line` in NEW_ATTRIBUTE: record a composition, finalise the pending
      attribute, and start a new one from the marker. */
  function NewAttributeSpec(p: Snapshot, line: string, index: nat, nativeTypes: set<string>): Result<Snapshot, ParseError> {
    var added :- CheckCompositions(p.attr, p.obj, nativeTypes);
    var obj :- FinalizeAttribute(p.attr, p.obj);
    var attr :- SetUpNewAttribute(map[], line, index);
    Success(p.(compositions := p.compositions + added, obj := obj, attr := attr))
  }

  /** `parse_line` in NEW_MODULE: the heading without its hashes (`title`) names the module. */
  function ModuleHeadingSpec(p: Snapshot, title: string): Snapshot {
    p.(moduleName := title, state := InsideModule)
  }

  /** `parse_line` in INSIDE_MODULE: the stripped line replaces the module docstring. */
  function ModuleDocstringSpec(p: Snapshot, line: string): Snapshot {
    p.(moduleDocstring := Some(Strip(line)))
  }

  /** `parse_line` in INSIDE_OBJECT: a non-blank line replaces the object's docstring. */
  function ObjectDocstringSpec(p: Snapshot, line: string): Snapshot {
    if Strip(line) != "" && p.obj != EmptyObj then p.(obj := p.obj.(docstring := Some(Strip(line))))
    else p
  }

  /** `parse_line` in INSIDE_ATTRIBUTE: store the line's option in the pending attribute. */
  function AttributePartSpec(p: Snapshot, line: string, index: nat): Result<Snapshot, ParseError> {
    var attr :- ParseAttributePart(p.attr, line, index);
    Success(p.(attr := attr))
  }

  /** `parse_line` in END_OF_FILE: append the pending attribute, unchecked, and the object. */
  function EndOfFileLineSpec(p: Snapshot): Result<Snapshot, ParseError> {
    if p.obj.EmptyObj? then Failure(MissingKey("attributes"))
    else
      var obj := p.obj.(attributes := p.obj.attributes + [p.attr]);
      Success(p.(obj := obj, objs := p.objs + [obj]))
  }

  /** `parse_line`: what the parser does with a line in the state classification left it in. */
  function ParseLineSpec(p: Snapshot, line: string, index: nat, nativeTypes: set<string>): Result<Snapshot, ParseError> {
    match p.state
    case NewModule => Success(ModuleHeadingSpec(p, ModuleTitle(line)))
    case InsideModule => Success(ModuleDocstringSpec(p, line))
    case NewObject => NewObjectSpec(p, line, index)
    case InsideObject => Success(ObjectDocstringSpec(p, line))
    case InsideAttribute => AttributePartSpec(p, line, index)
    case NewAttribute => NewAttributeSpec(p, line, index, nativeTypes)
    case EndOfFile => EndOfFileLineSpec(p)
    case Idle => Success(p)
  }

  /** One iteration of the loop in `parse`: classify the line, then `parse_line`. */
  function Step(p: Snapshot, line: string, index: nat, nativeTypes: set<string>): Result<Snapshot, ParseError> {
    ParseLineSpec(p.(state := Classify(line, p.state)), line, index, nativeTypes)
  }

  /** The `__setattr__` hook run when `state` becomes END_OF_FILE: finalise the
      pending attribute and append the current object, whatever it is. */
  function EndOfFileSpec(p: Snapshot): Result<Snapshot, ParseError> {
    var obj :- FinalizeAttribute(p.attr, p.obj);
    Success(p.(attr := map[], obj := obj, objs := p.objs + [obj], state := EndOfFile))
  }

  /** The loop of `parse` over `lines[i..]`, without the end-of-file hook. */
  function Scan(p: Snapshot, lines: seq<string>, i: nat, nativeTypes: set<string>): Result<Snapshot, ParseError>
    requires i <= |lines|
    decreases |lines| - i
  {
    if i == |lines| then Success(p)
    else
      var q :- Step(p, lines[i], i, nativeTypes);
      Scan(q, lines, i + 1, nativeTypes)
  }

  /** The loop of `parse` over the cleaned lines, with the hook after the last one. */
  function ParseLines(lines: seq<string>, nativeTypes: set<string>): Result<Snapshot, ParseError> {
    if |lines| == 0 then Success(Initial)
    else
      var q :- Scan(Initial, lines, 0, nativeTypes);
      EndOfFileSpec(q)
  }

  /** `[line.rstrip() for line in lines if line.rstrip()]` */
  function CleanLines(raw: seq<string>): (lines: seq<string>)
    ensures |lines| <= |raw|
    ensures forall i | 0 <= i < |lines| :: lines[i] != [] && !IsSpace(lines[i][|lines[i]| - 1])
  {
    if raw == [] then []
    else (if RStrip(raw[0]) != [] then [RStrip(raw[0])] else []) + CleanLines(raw[1..])
  }

  /** Lines are cleaned one at a time: the kept lines keep their order. */
  lemma {:induction false} CleanLinesAppend(a: seq<string>, b: seq<string>)
    ensures CleanLines(a + b) == CleanLines(a) + CleanLines(b)
  {
    if a == [] {
      assert a + b == b;
    } else {
      var ab := a + b;
      assert ab[0] == a[0] && ab[1..] == a[1..] + b;
      CleanLinesAppend(a[1..], b);
    }
  }

  /** A single line is kept, with its trailing whitespace cut, unless that leaves nothing. */
  lemma CleanLinesOne(line: string)
    ensures CleanLines([line]) == if RStrip(line) == [] then [] else [RStrip(line)]
  {
    assert [line][1..] == [];
  }

  /** `MarkdownParser.parse`, from the lines `readlines()` returned. */
  function ParseSpec(raw: seq<string>, nativeTypes: set<string>): Result<Snapshot, ParseError> {
    ParseLines(CleanLines(raw), nativeTypes)
  }
}
