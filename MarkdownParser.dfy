/**
 * The MarkdownParser class of sdRDM/generator/markdownparser.py: a state machine
 * whose fields are updated in place, line by line. Every method is proved to do
 * what the corresponding function of `ParserSpec` says to the parser's fields,
 * seen together as `Snap()`; a raised exception is a returned `Fail`, after which
 * the parser is abandoned as in Python.
 */
module Markdown {
  import opened Wrappers
  import opened Patterns
  import opened ParserSpec
  import Ascii

  class MarkdownParser {
    /** `DataTypes.__members__`, the names of the native types. */
    const nativeTypes: set<string>

    var moduleName: string
    var moduleDocstring: Option<string>
    var state: ValidatorState
    var attr: Attr
    var obj: ObjDict
    var objs: seq<ObjDict>
    var inherits: seq<Inheritance>
    var compositions: seq<Composition>

    /** The parser's fields as one value. */
    function Snap(): Snapshot
      reads this
    {
      Snapshot(moduleName, moduleDocstring, state, attr, obj, objs, inherits, compositions)
    }

    /** `cls()`: every field at its dataclass default. */
    constructor (nativeTypes: set<string>)
      ensures this.nativeTypes == nativeTypes
      ensures Snap() == Initial
    {
      this.nativeTypes := nativeTypes;
      moduleName := "";
      moduleDocstring := None;
      state := Idle;
      attr := map[];
      obj := EmptyObj;
      objs := [];
      inherits := [];
      compositions := [];
    }

    /** `parse`, from the lines `readlines()` returned: clean them, classify each line,
        let `parse_line` handle it, and run the end-of-file hook after the last one. */
    static method Parse(rawLines: seq<string>, nativeTypes: set<string>) returns (r: Result<MarkdownParser, ParseError>)
      ensures r.Success? <==> ParseSpec(rawLines, nativeTypes).Success?
      ensures r.Success? ==>
                fresh(r.value) && r.value.nativeTypes == nativeTypes
                && r.value.Snap() == ParseSpec(rawLines, nativeTypes).value
      ensures r.Failure? ==> r.error == ParseSpec(rawLines, nativeTypes).error
    {
      var lines := CleanLines(rawLines);
      var parser := new MarkdownParser(nativeTypes);
      for index := 0 to |lines|
        invariant fresh(parser) && parser.nativeTypes == nativeTypes
        invariant index == 0 ==> parser.Snap() == Initial
        invariant index < |lines| ==>
                    Scan(parser.Snap(), lines, index, nativeTypes) == Scan(Initial, lines, 0, nativeTypes)
        invariant 0 < index == |lines| ==> ParseLines(lines, nativeTypes) == Success(parser.Snap())
      {
        var line := lines[index];
        ghost var before := parser.Snap();
        if IsModuleHeading(line) {
          parser.state := NewModule;
        } else if IsObjectHeading(line) {
          parser.state := NewObject;
        } else if IsAttributeMarker(line) {
          parser.state := NewAttribute;
        } else if IsOptionLine(line) {
          parser.state := InsideAttribute;
        }
        assert parser.Snap() == before.(state := Classify(line, before.state));
        var o := parser.ParseLine(line, index);
        if o.Fail? {
          assert Step(before, line, index, nativeTypes) == Failure(o.error);
          return Failure(o.error);
        }
        assert Step(before, line, index, nativeTypes) == Success(parser.Snap());
        assert Scan(before, lines, index, nativeTypes) == Scan(parser.Snap(), lines, index + 1, nativeTypes);
        if index == |lines| - 1 {
          o := parser.EndOfFileHook();
          if o.Fail? {
            return Failure(o.error);
          }
        }
      }
      return Success(parser);
    }

    /** `parse_line`: dispatch on the state the classification left. */
    method ParseLine(line: string, index: nat) returns (o: Outcome<ParseError>)
      modifies this
      ensures o == ParseLineSpec(old(Snap()), line, index, nativeTypes).ToOutcome()
      ensures o.Pass? ==> Snap() == ParseLineSpec(old(Snap()), line, index, nativeTypes).value
    {
      ghost var p := Snap();
      match state
      case NewModule =>
        o := StartModule(ModuleTitle(line));
      case InsideModule =>
        o := SetModuleDocstring(line);
      case NewObject =>
        o := StartObject(line, index);
      case InsideObject =>
        o := SetObjectDocstring(line);
      case InsideAttribute =>
        o := ParseAttributePart(line, index);
        assert AttributePartSpec(p, line, index).ToOutcome() == o;
      case NewAttribute =>
        o := StartAttribute(line, index);
      case EndOfFile =>
        o := AppendLastAttribute();
      case Idle =>
        o := Pass;
    }

    /** The NEW_MODULE branch of `parse_line`: the heading's title names the module. */
    method StartModule(title: string) returns (o: Outcome<ParseError>)
      modifies this
      ensures o == Pass
      ensures Snap() == ModuleHeadingSpec(old(Snap()), title)
    {
      moduleName := title;
      state := InsideModule;
      o := Pass;
    }

    /** The INSIDE_MODULE branch of `parse_line`: the stripped line becomes the module docstring. */
    method SetModuleDocstring(line: string) returns (o: Outcome<ParseError>)
      modifies this
      ensures o == Pass
      ensures Snap() == ModuleDocstringSpec(old(Snap()), line)
    {
      moduleDocstring := Some(Strip(line));
      o := Pass;
    }

    /** The INSIDE_OBJECT branch of `parse_line`: a non-blank line becomes the object's docstring. */
    method SetObjectDocstring(line: string) returns (o: Outcome<ParseError>)
      modifies this
      ensures o == Pass
      ensures Snap() == ObjectDocstringSpec(old(Snap()), line)
    {
      if Strip(line) != "" && obj != EmptyObj {
        obj := obj.(docstring := Some(Strip(line)));
      }
      o := Pass;
    }

    /** The END_OF_FILE branch of `parse_line`: append the pending attribute unchecked and
        the current object. */
    method AppendLastAttribute() returns (o: Outcome<ParseError>)
      modifies this
      ensures o == EndOfFileLineSpec(old(Snap())).ToOutcome()
      ensures o.Pass? ==> Snap() == EndOfFileLineSpec(old(Snap())).value
    {
      if obj.EmptyObj? {
        return Fail(MissingKey("attributes"));
      }
      obj := obj.(attributes := obj.attributes + [attr]);
      objs := objs + [obj];
      o := Pass;
    }

    /** The NEW_OBJECT branch of `parse_line`. */
    method StartObject(line: string, index: nat) returns (o: Outcome<ParseError>)
      modifies this
      ensures o == NewObjectSpec(old(Snap()), line, index).ToOutcome()
      ensures o.Pass? ==> Snap() == NewObjectSpec(old(Snap()), line, index).value
    {
      ghost var p := Snap();
      o := AddAttributeToObj();
      if o.Fail? {
        return;
      }
      ghost var finished := FinalizeAttribute(p.attr, p.obj).value;
      if obj != EmptyObj {
        objs := objs + [obj];
      }
      // {"attributes": []}: the name is filled in by ParseObjectName
      obj := Obj("", None, []);
      attr := map[];
      ghost var q := Snap();
      assert q == p.(attr := map[], obj := Obj("", None, []),
                     objs := if finished != EmptyObj then p.objs + [finished] else p.objs);
      o := ParseObjectName(line, index);
      if o.Fail? {
        return;
      }
      state := InsideObject;
      ghost var header := ParserSpec.ParseObjectName(line, index).value;
      assert NewObjectSpec(p, line, index)
             == Success(q.(obj := Obj(header.0, None, []), state := InsideObject,
                           inherits := if header.1.Some? then p.inherits + [Inheritance(header.1.value, header.0)]
                                       else p.inherits));
    }

    /** The NEW_ATTRIBUTE branch of `parse_line`. */
    method StartAttribute(line: string, index: nat) returns (o: Outcome<ParseError>)
      modifies this
      ensures o == NewAttributeSpec(old(Snap()), line, index, nativeTypes).ToOutcome()
      ensures o.Pass? ==> Snap() == NewAttributeSpec(old(Snap()), line, index, nativeTypes).value
    {
      o := CheckCompositions();
      if o.Fail? {
        return;
      }
      o := AddAttributeToObj();
      if o.Fail? {
        return;
      }
      o := SetUpNewAttribute(line, index);
    }

    /** `_parse_object_name`: name the new object and record its parent. */
    method ParseObjectName(line: string, index: nat) returns (o: Outcome<ParseError>)
      requires obj.Obj?
      modifies this
      ensures o == ParserSpec.ParseObjectName(line, index).ToOutcome()
      ensures o.Pass? ==>
                var (name, parent) := ParserSpec.ParseObjectName(line, index).value;
                Snap() == old(Snap()).(obj := old(obj).(name := name),
                                       inherits := old(inherits) + if parent.Some? then [Inheritance(parent.value, name)] else [])
    {
      var name := ObjectName(line);
      if name.None? {
        return Fail(NoPatternMatch(index));
      }
      var parent := FindParent(line);
      if name.value == "" {
        return Fail(MalformedObjectHeader(index));
      }
      obj := obj.(name := name.value);
      if parent.Some? {
        inherits := inherits + [Inheritance(parent.value, obj.name)];
      }
      o := Pass;
    }

    /** `_parse_attribute_part`: store the first option of the line in the pending attribute. */
    method ParseAttributePart(line: string, index: nat) returns (o: Outcome<ParseError>)
      modifies this
      ensures o == ParserSpec.ParseAttributePart(old(attr), line, index).ToOutcome()
      ensures o.Pass? ==> Snap() == old(Snap()).(attr := ParserSpec.ParseAttributePart(old(attr), line, index).value)
    {
      var found := FindOption(line);
      if found.None? {
        return Fail(NoPatternMatch(index));
      }
      var (key, value) := found.value;
      attr := attr[Ascii.Lower(key) := value];
      o := Pass;
    }

    /** `_check_compositions`: record the pending attribute's type if it is not native. */
    method CheckCompositions() returns (o: Outcome<ParseError>)
      modifies this
      ensures o == ParserSpec.CheckCompositions(old(attr), old(obj), nativeTypes).ToOutcome()
      ensures o.Pass? ==>
                Snap() == old(Snap()).(compositions := old(compositions)
                                                       + ParserSpec.CheckCompositions(old(attr), old(obj), nativeTypes).value)
    {
      if "type" !in attr || attr["type"] == "" {
        return Pass;
      }
      var dtype := attr["type"];
      if dtype !in nativeTypes {
        if obj.EmptyObj? {
          return Fail(MissingKey("name"));
        }
        compositions := compositions + [Composition(dtype, obj.name)];
      }
      o := Pass;
    }

    /** `_add_attribute_to_obj`: move the pending attribute into the current object,
        or fail if it lacks a mandatory option. */
    method AddAttributeToObj() returns (o: Outcome<ParseError>)
      modifies this
      ensures o == FinalizeAttribute(old(attr), old(obj)).ToOutcome()
      ensures o.Pass? ==> Snap() == old(Snap()).(obj := FinalizeAttribute(old(attr), old(obj)).value, attr := map[])
    {
      if HasMandatoryOptions(attr) {
        if obj.EmptyObj? {
          return Fail(MissingKey("attributes"));
        }
        obj := obj.(attributes := obj.attributes + [attr]);
      } else if attr != map[] {
        if "name" !in attr || obj.EmptyObj? {
          return Fail(MissingKey("name"));
        }
        return Fail(MissingMandatoryFields(attr["name"], obj.name, MissingOptions(attr)));
      }
      attr := map[];
      o := Pass;
    }

    /** `_set_up_new_attribute`: start the pending attribute from a marker line. */
    method SetUpNewAttribute(line: string, index: nat) returns (o: Outcome<ParseError>)
      modifies this
      ensures o == ParserSpec.SetUpNewAttribute(old(attr), line, index).ToOutcome()
      ensures o.Pass? ==> Snap() == old(Snap()).(attr := ParserSpec.SetUpNewAttribute(old(attr), line, index).value)
    {
      var found := FindAttribute(line);
      if found.None? {
        return Fail(NoPatternMatch(index));
      }
      var (name, required) := found.value;
      attr := attr["name" := name];
      attr := attr["required" := required];
      o := Pass;
    }

    /** The `__setattr__` hook, run when `state` is assigned END_OF_FILE: finalise the
        pending attribute and append the current object; then the assignment itself. */
    method EndOfFileHook() returns (o: Outcome<ParseError>)
      modifies this
      ensures o == EndOfFileSpec(old(Snap())).ToOutcome()
      ensures o.Pass? ==> Snap() == EndOfFileSpec(old(Snap())).value
    {
      o := AddAttributeToObj();
      if o.Fail? {
        return;
      }
      objs := objs + [obj];
      state := ValidatorState.EndOfFile;
    }
  }
}
