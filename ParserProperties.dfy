/**
 * What the Markdown schema parser guarantees, stated about the functions of
 * `ParserSpec` (which the class `Markdown.MarkdownParser` is proved to follow):
 * how each kind of line changes the parser, when finalisation fails, how many
 * objects a successful parse yields and that every relation it records refers to
 * one of them.
 */
module ParserProperties {
  import opened Wrappers
  import opened Patterns
  import opened ParserSpec

  /* ---------------------------------------------------------------------------
   * Object names
   * ------------------------------------------------------------------------- */

  /** The name of an object dict, if it has one. */
  function CurName(o: ObjDict): (r: seq<string>)
    ensures |r| <= 1
    ensures r == [] <==> o.EmptyObj?
  {
    if o.Obj? then [o.name] else []
  }

  /** The names of the objects in `objs`, in order. */
  function Names(objs: seq<ObjDict>): seq<string> {
    if objs == [] then [] else Names(objs[..|objs| - 1]) + CurName(objs[|objs| - 1])
  }

  /** The object names the parser has seen so far: finished objects, then the current one. */
  function Known(p: Snapshot): seq<string> {
    Names(p.objs) + CurName(p.obj)
  }

  /** The names of the object headings among `lines`, in order. */
  function HeadingNames(lines: seq<string>): (r: seq<string>)
    ensures |r| <= |lines|
  {
    if lines == [] then []
    else
      (if IsObjectHeading(lines[0]) then [ObjectName(lines[0]).value] else []) + HeadingNames(lines[1..])
  }

  /** Every entry of `objs` is a named object. */
  predicate AllNamed(objs: seq<ObjDict>) {
    forall k | 0 <= k < |objs| :: objs[k].Obj?
  }

  lemma {:induction false} NamesOfAllNamed(objs: seq<ObjDict>)
    requires AllNamed(objs)
    ensures |Names(objs)| == |objs|
    ensures forall k | 0 <= k < |objs| :: Names(objs)[k] == objs[k].name
  {
    if objs != [] {
      var init := objs[..|objs| - 1];
      assert AllNamed(init) by {
        forall k | 0 <= k < |init| ensures init[k].Obj? {
          assert init[k] == objs[k];
        }
      }
      NamesOfAllNamed(init);
    }
  }

  /* ---------------------------------------------------------------------------
   * The invariant of the main loop
   * ------------------------------------------------------------------------- */

  /** Every attribute stored in `o` carried both mandatory options. */
  predicate AttributesComplete(o: ObjDict) {
    o.Obj? ==> forall k | 0 <= k < |o.attributes| :: HasMandatoryOptions(o.attributes[k])
  }

  /** A composition the parser may record: a non-native, non-empty type used in a known object. */
  predicate CompositionOk(c: Composition, known: seq<string>, nativeTypes: set<string>) {
    c.container in known && c.referenced != "" && c.referenced !in nativeTypes
  }

  /** Every recorded inheritance names a known object as its child. */
  predicate InheritsOk(inherits: seq<Inheritance>, known: seq<string>) {
    forall h | h in inherits :: h.child in known
  }

  /** Every recorded composition is one the parser may record. */
  predicate CompositionsOk(compositions: seq<Composition>, known: seq<string>, nativeTypes: set<string>) {
    forall c | c in compositions :: CompositionOk(c, known, nativeTypes)
  }

  /** Finished objects are named and hold only complete attributes. */
  predicate ObjsOk(objs: seq<ObjDict>) {
    AllNamed(objs) && forall k | 0 <= k < |objs| :: AttributesComplete(objs[k])
  }

  /** What holds of the parser between two lines of a parse that has not failed. */
  predicate Inv(p: Snapshot, nativeTypes: set<string>) {
    && p.state != EndOfFile
    && (p.obj.EmptyObj? ==> p.objs == [])
    && ObjsOk(p.objs)
    && AttributesComplete(p.obj)
    && InheritsOk(p.inherits, Known(p))
    && CompositionsOk(p.compositions, Known(p), nativeTypes)
  }

  lemma InitialInv(nativeTypes: set<string>)
    ensures Inv(Initial, nativeTypes)
    ensures Known(Initial) == []
  {
  }

  /** Finalising the pending attribute keeps the object's name and kind, and only ever
      adds a complete attribute. */
  lemma FinalizeKeepsObject(attr: Attr, obj: ObjDict)
    requires FinalizeAttribute(attr, obj).Success?
    ensures var o := FinalizeAttribute(attr, obj).value;
            CurName(o) == CurName(obj) && (AttributesComplete(obj) ==> AttributesComplete(o))
  {
  }

  /** The name a line contributes when it is an object heading. */
  function HeadingName(line: string): seq<string> {
    if IsObjectHeading(line) then [ObjectName(line).value] else []
  }

  /** The NEW_OBJECT step keeps the invariant and adds the heading's name. */
  lemma {:induction false} NewObjectPreserves(p: Snapshot, line: string, index: nat, nativeTypes: set<string>)
    requires Inv(p, nativeTypes) && IsObjectHeading(line)
    requires NewObjectSpec(p, line, index).Success?
    ensures var q := NewObjectSpec(p, line, index).value;
            Inv(q, nativeTypes) && Known(q) == Known(p) + [ObjectName(line).value]
  {
    var obj := FinalizeAttribute(p.attr, p.obj).value;
    FinalizeKeepsObject(p.attr, p.obj);
    var q := NewObjectSpec(p, line, index).value;
    var name := ObjectName(line).value;
    assert q.obj == Obj(name, None, []);
    if obj != EmptyObj {
      assert q.objs == p.objs + [obj];
      assert (p.objs + [obj])[..|p.objs|] == p.objs;
      assert Names(q.objs) == Names(p.objs) + CurName(obj);
    } else {
      assert q.objs == p.objs == [];
    }
    assert Names(q.objs) == Known(p);
    assert Known(q) == Known(p) + [name];
    forall h | h in q.inherits ensures h.child in Known(q) {
      if h !in p.inherits {
        assert h.child == name;
      }
    }
  }

  /** The NEW_ATTRIBUTE step keeps the invariant and the known names. */
  lemma NewAttributePreserves(p: Snapshot, line: string, index: nat, nativeTypes: set<string>)
    requires Inv(p, nativeTypes)
    requires NewAttributeSpec(p, line, index, nativeTypes).Success?
    ensures var q := NewAttributeSpec(p, line, index, nativeTypes).value;
            Inv(q, nativeTypes) && Known(q) == Known(p)
  {
    FinalizeKeepsObject(p.attr, p.obj);
  }

  /** `parse_line` keeps the invariant, whatever state classification left. */
  lemma {:induction false} ParseLinePreserves(p: Snapshot, line: string, index: nat, nativeTypes: set<string>)
    requires Inv(p, nativeTypes) && (p.state == NewObject ==> IsObjectHeading(line))
    requires ParseLineSpec(p, line, index, nativeTypes).Success?
    ensures var q := ParseLineSpec(p, line, index, nativeTypes).value;
            Inv(q, nativeTypes) && Known(q) == Known(p) + (if p.state == NewObject then [ObjectName(line).value] else [])
  {
    match p.state
    case NewObject =>
      NewObjectPreserves(p, line, index, nativeTypes);
    case NewAttribute =>
      NewAttributePreserves(p, line, index, nativeTypes);
    case _ =>
      OtherLinePreserves(p, line, index, nativeTypes);
  }

  /** The states of `parse_line` that do not touch the objects. */
  lemma OtherLinePreserves(p: Snapshot, line: string, index: nat, nativeTypes: set<string>)
    requires Inv(p, nativeTypes) && p.state != NewObject && p.state != NewAttribute
    requires ParseLineSpec(p, line, index, nativeTypes).Success?
    ensures var q := ParseLineSpec(p, line, index, nativeTypes).value;
            Inv(q, nativeTypes) && Known(q) == Known(p)
  {
    var q := ParseLineSpec(p, line, index, nativeTypes).value;
    SameObjectsPreserve(p, q, nativeTypes);
  }

  /** A step that leaves the objects and relations alone (up to a docstring) keeps the invariant. */
  lemma SameObjectsPreserve(p: Snapshot, q: Snapshot, nativeTypes: set<string>)
    requires Inv(p, nativeTypes) && q.state != EndOfFile
    requires q.objs == p.objs && q.inherits == p.inherits && q.compositions == p.compositions
    requires q.obj == p.obj || (p.obj.Obj? && q.obj.Obj? && q.obj == p.obj.(docstring := q.obj.docstring))
    ensures Inv(q, nativeTypes) && Known(q) == Known(p)
  {
    assert CurName(q.obj) == CurName(p.obj);
  }

  /** One iteration of the loop of `parse` keeps the invariant, and the known names grow
      by the name of the line exactly when it is an object heading. */
  lemma {:induction false} StepPreserves(p: Snapshot, line: string, index: nat, nativeTypes: set<string>)
    requires Inv(p, nativeTypes)
    requires Step(p, line, index, nativeTypes).Success?
    ensures var q := Step(p, line, index, nativeTypes).value;
            Inv(q, nativeTypes) && Known(q) == Known(p) + HeadingName(line)
  {
    HeadingsDisjoint(line);
    var p' := p.(state := Classify(line, p.state));
    assert Known(p') == Known(p);
    assert p'.state == NewObject <==> IsObjectHeading(line);
    ParseLinePreserves(p', line, index, nativeTypes);
  }

  /** The loop of `parse` from line `i` on keeps the invariant and adds the names of the
      remaining object headings. */
  lemma {:induction false} ScanPreserves(p: Snapshot, lines: seq<string>, i: nat, nativeTypes: set<string>)
    requires i <= |lines| && Inv(p, nativeTypes)
    requires Scan(p, lines, i, nativeTypes).Success?
    ensures var q := Scan(p, lines, i, nativeTypes).value;
            Inv(q, nativeTypes) && Known(q) == Known(p) + HeadingNames(lines[i..])
    decreases |lines| - i
  {
    if i < |lines| {
      StepPreserves(p, lines[i], i, nativeTypes);
      var q := Step(p, lines[i], i, nativeTypes).value;
      assert Scan(p, lines, i, nativeTypes) == Scan(q, lines, i + 1, nativeTypes);
      ScanPreserves(q, lines, i + 1, nativeTypes);
      var r := Scan(q, lines, i + 1, nativeTypes).value;
      var a, b, c := Known(p), HeadingName(lines[i]), HeadingNames(lines[i + 1..]);
      assert lines[i..][0] == lines[i] && lines[i..][1..] == lines[i + 1..];
      assert HeadingNames(lines[i..]) == b + c;
      assert Known(r) == (a + b) + c;
      ConcatAssoc(a, b, c);
    } else {
      assert lines[i..] == [];
    }
  }

  lemma ConcatAssoc(a: seq<string>, b: seq<string>, c: seq<string>)
    ensures (a + b) + c == a + (b + c)
  {
  }

  /** The end-of-file hook appends the finalised current object; the names of the
      objects are then exactly the names known before it. */
  lemma {:induction false} EndOfFileNames(p: Snapshot, nativeTypes: set<string>)
    requires Inv(p, nativeTypes)
    requires EndOfFileSpec(p).Success?
    ensures var r := EndOfFileSpec(p).value;
            Names(r.objs) == Known(p)
            && (p.obj.Obj? ==> AllNamed(r.objs))
            && (p.obj.EmptyObj? ==> r.objs == [EmptyObj])
            && (forall k | 0 <= k < |r.objs| :: AttributesComplete(r.objs[k]))
            && r.inherits == p.inherits && r.compositions == p.compositions
  {
    var obj := FinalizeAttribute(p.attr, p.obj).value;
    FinalizeKeepsObject(p.attr, p.obj);
    var r := EndOfFileSpec(p).value;
    assert r.objs == p.objs + [obj];
    assert (p.objs + [obj])[..|p.objs|] == p.objs;
    if p.obj.EmptyObj? {
      assert obj == EmptyObj;
    }
  }

  /* ---------------------------------------------------------------------------
   * What a successful parse yields
   * ------------------------------------------------------------------------- */

  /** The loop over non-empty input, before the end-of-file hook. */
  lemma {:induction false} ScanFromInitial(lines: seq<string>, nativeTypes: set<string>)
    requires lines != [] && ParseLines(lines, nativeTypes).Success?
    ensures Scan(Initial, lines, 0, nativeTypes).Success?
    ensures var q := Scan(Initial, lines, 0, nativeTypes).value;
            && Inv(q, nativeTypes) && Known(q) == HeadingNames(lines)
            && ParseLines(lines, nativeTypes) == EndOfFileSpec(q)
  {
    InitialInv(nativeTypes);
    ScanPreserves(Initial, lines, 0, nativeTypes);
    assert lines[0..] == lines;
  }

  /** The number of objects: none for no lines, the single `{}` for lines without an
      object heading, and otherwise one named object per heading, in heading order. */
  lemma ObjectCountAndNames(lines: seq<string>, nativeTypes: set<string>)
    requires ParseLines(lines, nativeTypes).Success?
    ensures var r := ParseLines(lines, nativeTypes).value;
            && (lines == [] ==> r.objs == [])
            && (lines != [] && HeadingNames(lines) == [] ==> r.objs == [EmptyObj])
            && (HeadingNames(lines) != [] ==>
                  AllNamed(r.objs) && |r.objs| == |HeadingNames(lines)|
                  && forall k | 0 <= k < |r.objs| :: r.objs[k].name == HeadingNames(lines)[k])
  {
    if lines != [] {
      ScanFromInitial(lines, nativeTypes);
      var q := Scan(Initial, lines, 0, nativeTypes).value;
      EndOfFileNames(q, nativeTypes);
      var r := ParseLines(lines, nativeTypes).value;
      if HeadingNames(lines) == [] {
        assert CurName(q.obj) == [];
      } else {
        assert q.obj.Obj? by {
          if q.obj.EmptyObj? {
            NamesOfAllNamed(q.objs);
          }
        }
        NamesOfAllNamed(r.objs);
      }
    }
  }

  /** Every `{"parent", "child"}` names an object of the result as its child; every
      composition names one as its container and a non-empty, non-native type; and every
      stored attribute has a description and a type. */
  lemma RelationsReferToObjects(lines: seq<string>, nativeTypes: set<string>)
    requires ParseLines(lines, nativeTypes).Success?
    ensures var r := ParseLines(lines, nativeTypes).value;
            && (forall h | h in r.inherits :: h.child in Names(r.objs))
            && (forall c | c in r.compositions :: CompositionOk(c, Names(r.objs), nativeTypes))
            && (forall k | 0 <= k < |r.objs| :: AttributesComplete(r.objs[k]))
  {
    if lines != [] {
      ScanFromInitial(lines, nativeTypes);
      var q := Scan(Initial, lines, 0, nativeTypes).value;
      EndOfFileNames(q, nativeTypes);
    }
  }

  /** A file of blank lines is no file at all: the fresh parser comes back unchanged. */
  lemma {:induction false} BlankInputIsEmpty(raw: seq<string>, nativeTypes: set<string>)
    requires forall k | 0 <= k < |raw| :: forall c | c in raw[k] :: IsSpace(c)
    ensures CleanLines(raw) == []
    ensures ParseSpec(raw, nativeTypes) == Success(Initial)
  {
    if raw != [] {
      BlankInputIsEmpty(raw[1..], nativeTypes);
    }
  }

  /* ---------------------------------------------------------------------------
   * Single lines
   * ------------------------------------------------------------------------- */

  /** A module heading names the module and opens its docstring, whatever the state. */
  lemma ModuleHeadingStep(p: Snapshot, line: string, index: nat, nativeTypes: set<string>)
    requires IsModuleHeading(line)
    ensures Step(p, line, index, nativeTypes)
            == Success(p.(moduleName := ModuleTitle(line), state := InsideModule))
  {
  }

  /** Inside the module, each plain line replaces the docstring: after a run of plain
      lines the docstring is the last of them, stripped. */
  lemma {:induction false} ModuleDocstringLastWins(p: Snapshot, lines: seq<string>, i: nat, nativeTypes: set<string>)
    requires p.state == InsideModule && i < |lines|
    requires forall k | i <= k < |lines| :: IsPlain(lines[k])
    ensures Scan(p, lines, i, nativeTypes)
            == Success(p.(moduleDocstring := Some(Strip(lines[|lines| - 1]))))
    decreases |lines| - i
  {
    var q := p.(moduleDocstring := Some(Strip(lines[i])));
    assert Step(p, lines[i], i, nativeTypes) == Success(q);
    if i + 1 < |lines| {
      ModuleDocstringLastWins(q, lines, i + 1, nativeTypes);
    }
  }

  /** Inside an object, each non-blank plain line replaces the object's docstring:
      after a run of them the docstring is the last one, stripped. */
  lemma {:induction false} ObjectDocstringLastWins(p: Snapshot, lines: seq<string>, i: nat, nativeTypes: set<string>)
    requires p.state == InsideObject && p.obj.Obj? && i < |lines|
    requires forall k | i <= k < |lines| :: IsPlain(lines[k]) && Strip(lines[k]) != ""
    ensures Scan(p, lines, i, nativeTypes)
            == Success(p.(obj := p.obj.(docstring := Some(Strip(lines[|lines| - 1])))))
    decreases |lines| - i
  {
    var q := p.(obj := p.obj.(docstring := Some(Strip(lines[i]))));
    assert Step(p, lines[i], i, nativeTypes) == Success(q);
    if i + 1 < |lines| {
      ObjectDocstringLastWins(q, lines, i + 1, nativeTypes);
    }
  }

  /** An object heading: the pending attribute is finalised into the current object,
      which joins `objs` unless it is `{}`; a fresh object named by the heading starts;
      a `[_Parent_]` annotation records the new object as the child. It fails exactly
      when finalisation fails or the heading has no name. */
  lemma ObjectHeadingStep(p: Snapshot, line: string, index: nat, nativeTypes: set<string>)
    requires IsObjectHeading(line)
    ensures var r := Step(p, line, index, nativeTypes);
            var fin := FinalizeAttribute(p.attr, p.obj);
            var name := ObjectName(line).value;
            && (fin.Failure? ==> r == Failure(fin.error))
            && (fin.Success? && name == "" ==> r == Failure(MalformedObjectHeader(index)))
            && (fin.Success? && name != "" ==>
                  && r.Success?
                  && r.value.obj == Obj(name, None, [])
                  && r.value.attr == map[]
                  && r.value.state == InsideObject
                  && r.value.objs == p.objs + (if fin.value != EmptyObj then [fin.value] else [])
                  && r.value.inherits
                     == p.inherits + (if FindParent(line).Some? then [Inheritance(FindParent(line).value, name)] else [])
                  && r.value.compositions == p.compositions
                  && r.value.moduleName == p.moduleName
                  && r.value.moduleDocstring == p.moduleDocstring)
  {
    HeadingsDisjoint(line);
  }

  /** An option line: `attr[key.lower()] = value`; no other entry of `attr` and no other
      field changes, except that the state becomes INSIDE_ATTRIBUTE. */
  lemma OptionLineSetsKey(p: Snapshot, line: string, index: nat, nativeTypes: set<string>)
    requires !IsModuleHeading(line) && !IsObjectHeading(line) && !IsAttributeMarker(line)
    requires IsOptionLine(line)
    ensures var (key, value) := FindOption(line).value;
            var r := Step(p, line, index, nativeTypes);
            && r == Success(p.(state := InsideAttribute, attr := p.attr[Ascii.Lower(key) := value]))
            && r.value.attr[Ascii.Lower(key)] == value
            && (forall k | k != Ascii.Lower(key) :: (k in r.value.attr <==> k in p.attr))
            && (forall k | k != Ascii.Lower(key) && k in p.attr :: r.value.attr[k] == p.attr[k])
  {
    var q := p.(state := Classify(line, p.state));
    assert q.state == InsideAttribute;
    var (key, value) := FindOption(line).value;
    assert ParseAttributePart(q.attr, line, index) == Success(p.attr[Ascii.Lower(key) := value]);
    assert Step(p, line, index, nativeTypes) == AttributePartSpec(q, line, index);
  }

  /** A plain line while reading options fails: OPTION_PATTERN has no first match. */
  lemma PlainLineInsideAttributeFails(p: Snapshot, line: string, index: nat, nativeTypes: set<string>)
    requires p.state == InsideAttribute && IsPlain(line)
    ensures Step(p, line, index, nativeTypes) == Failure(NoPatternMatch(index))
  {
  }

  /** An attribute marker starts a pending attribute holding only "name" and "required". */
  lemma AttributeMarkerStep(p: Snapshot, line: string, index: nat, nativeTypes: set<string>)
    requires !IsModuleHeading(line) && !IsObjectHeading(line) && IsAttributeMarker(line)
    requires Step(p, line, index, nativeTypes).Success?
    ensures var (name, required) := FindAttribute(line).value;
            var q := Step(p, line, index, nativeTypes).value;
            && q.state == NewAttribute
            && q.attr == map["name" := name, "required" := required]
            && (required == "" || required == "*")
  {
  }

  /** The error a dangling marker `- __name__` produces once it is finalised. */
  function DanglingError(name: string, obj: ObjDict): ParseError {
    if obj.Obj? then MissingMandatoryFields(name, obj.name, MandatoryOptions) else MissingKey("name")
  }

  /** An attribute marker with no option line after it: the next object heading, marker
      or plain line fails, and so does the end of the input, because finalisation finds
      neither mandatory option. */
  lemma {:induction false} DanglingAttributeMarkerFails(p: Snapshot, marker: string, line: string,
                                                      i: nat, j: nat, nativeTypes: set<string>)
    requires !IsModuleHeading(marker) && !IsObjectHeading(marker) && IsAttributeMarker(marker)
    requires Step(p, marker, i, nativeTypes).Success?
    requires !IsModuleHeading(line) && (IsObjectHeading(line) || IsAttributeMarker(line) || !IsOptionLine(line))
    ensures var q := Step(p, marker, i, nativeTypes).value;
            var e := DanglingError(FindAttribute(marker).value.0, q.obj);
            && Step(q, line, j, nativeTypes) == Failure(e)
            && EndOfFileSpec(q) == Failure(e)
  {
    AttributeMarkerStep(p, marker, i, nativeTypes);
    var q := Step(p, marker, i, nativeTypes).value;
    var (name, required) := FindAttribute(marker).value;
    MarkerAttributeIncomplete(name, required, q.obj, nativeTypes);
    HeadingsDisjoint(line);
    var c := Classify(line, q.state);
    assert c == NewObject || c == NewAttribute;
  }

  /** A pending attribute that holds only "name" and "required" adds no composition and
      cannot be finalised. */
  lemma MarkerAttributeIncomplete(name: string, required: string, obj: ObjDict, nativeTypes: set<string>)
    ensures var a := map["name" := name, "required" := required];
            && CheckCompositions(a, obj, nativeTypes) == Success([])
            && FinalizeAttribute(a, obj) == Failure(DanglingError(name, obj))
  {
    var a := map["name" := name, "required" := required];
    assert "name" in a && a != map[];
    assert "description" !in a && "type" !in a;
    assert !HasMandatoryOptions(a);
    assert MandatoryOptions[1..] == ["type"] && ["type"][1..] == [];
    assert MissingOptions(a) == MandatoryOptions;
  }

  /** Compositions are recorded only at attribute markers (and plain lines left in
      NEW_ATTRIBUTE): one exactly when the pending attribute has a non-empty foreign type.
      Object headings and the end of the input never add one. */
  lemma CompositionsOnlyAtMarkers(p: Snapshot, line: string, index: nat, nativeTypes: set<string>)
    requires Step(p, line, index, nativeTypes).Success?
    ensures var q := Step(p, line, index, nativeTypes).value;
            if Classify(line, p.state) == NewAttribute && HasForeignType(p.attr, nativeTypes) then
              p.obj.Obj? && q.compositions == p.compositions + [Composition(p.attr["type"], p.obj.name)]
            else
              q.compositions == p.compositions
  {
  }

  lemma EndOfFileKeepsCompositions(p: Snapshot)
    requires EndOfFileSpec(p).Success?
    ensures EndOfFileSpec(p).value.compositions == p.compositions
    ensures EndOfFileSpec(p).value.inherits == p.inherits
  {
  }

  /* ---------------------------------------------------------------------------
   * Attribute finalisation
   * ------------------------------------------------------------------------- */

  /** `_add_attribute_to_obj`: a complete attribute is appended, an empty one is ignored,
      and any other one fails, naming exactly the missing mandatory options in the order
      of MANDATORY_OPTIONS. */
  lemma FinalizeAttributeRule(attr: Attr, obj: ObjDict)
    ensures attr == map[] ==> FinalizeAttribute(attr, obj) == Success(obj)
    ensures HasMandatoryOptions(attr) && obj.Obj? ==>
              FinalizeAttribute(attr, obj) == Success(obj.(attributes := obj.attributes + [attr]))
    ensures attr != map[] && !HasMandatoryOptions(attr) && "name" in attr && obj.Obj? ==>
              && FinalizeAttribute(attr, obj).Failure?
              && var e := FinalizeAttribute(attr, obj).error;
              && e.MissingMandatoryFields? && e.attribute == attr["name"] && e.objectName == obj.name
              && e.missing != []
              && (forall o :: o in e.missing <==> o in MandatoryOptions && o !in attr)
              && (e.missing == ["description", "type"] || e.missing == ["description"] || e.missing == ["type"])
  {
    assert MandatoryOptions[1..] == ["type"] && ["type"][1..] == [];
    assert MissingOptions(attr) == (if "description" in attr then [] else ["description"])
                                   + MissingFrom(["type"], attr);
  }
}
