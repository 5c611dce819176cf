/** The validator generated from attribute definitions, and the two passes a save makes through it. */
module AttributeSchema {
  import opened Prelude
  import opened Texts

  /** What a request body can hold; `NaN` and the infinities are numbers no schema accepts. */
  datatype Json =
    | JUndefined | JNull | JBool(b: bool) | JNumber(n: real) | JNotFinite
    | JString(s: string) | JArray(items: seq<Json>) | JObject(fields: map<string, Json>)

  datatype AttributeType = TEXT | NUMBER | SELECT | MULTI_SELECT | BOOLEAN

  datatype Rule = Rule(key: string, title: string, kind: AttributeType, options: seq<string>, isRequired: bool)

  /** Why one attribute, or the bag itself, was refused. */
  datatype Issue = Missing(key: string) | Wrong(key: string) | Unknown(key: string) | NotAnObject

  type Values = map<string, Json>

  const TEXT_MAX_LENGTH := 200

  /** Nothing was given, in the shapes a browser sends it. */
  predicate IsAbsent(value: Json) {
    value.JUndefined? || value.JNull? || value == JString("") || value == JArray([])
  }

  function StripAbsent(input: Json): Json {
    if !input.JObject? then input
    else JObject(map key | key in input.fields && !IsAbsent(input.fields[key]) :: input.fields[key])
  }

  predicate Chosen(options: seq<string>, value: Json) { value.JString? && value.s in options }

  /** The schema of one attribute: the normalised value, or nothing when the value is refused. */
  function Parse(rule: Rule, value: Json): Option<Json> {
    match rule.kind
    case TEXT => if value.JString? && |Trim(value.s)| <= TEXT_MAX_LENGTH then Some(JString(Trim(value.s))) else None
    case NUMBER => if value.JNumber? then Some(value) else None
    case SELECT => if Chosen(rule.options, value) then Some(value) else None
    case MULTI_SELECT =>
      if value.JArray? && (forall i :: 0 <= i < |value.items| ==> Chosen(rule.options, value.items[i]))
         && |Elements(value.items)| == |value.items|
      then Some(value) else None
    case BOOLEAN => if value.JBool? then Some(value) else None
  }

  /** `Object.fromEntries(rules.map(...))`: a later rule of the same key replaces an earlier one. */
  function Shape(rules: seq<Rule>): map<string, Rule> {
    if rules == [] then map[] else Shape(rules[..|rules| - 1])[rules[|rules| - 1].key := rules[|rules| - 1]]
  }

  function IssuesOf(shape: map<string, Rule>, fields: Values): set<Issue> {
    (set key | key in shape && key !in fields && shape[key].isRequired :: Missing(key))
    + (set key | key in shape && key in fields && Parse(shape[key], fields[key]).None? :: Wrong(key))
    + (set key | key in fields && key !in shape :: Unknown(key))
  }

  /** The verdict on a whole bag: strict about keys, absent values stripped first. */
  function Validate(rules: seq<Rule>, input: Json): Result<Values, set<Issue>> {
    var stripped := StripAbsent(input);
    if !stripped.JObject? then Err({NotAnObject})
    else Judge(Shape(rules), stripped.fields)
  }

  function Judge(shape: map<string, Rule>, fields: Values): Result<Values, set<Issue>> {
    var issues := IssuesOf(shape, fields);
    if issues != {} then Err(issues)
    else
      Clean(shape, fields);
      Ok(map key | key in fields :: Parse(shape[key], fields[key]).value)
  }

  lemma {:induction false} Clean(shape: map<string, Rule>, fields: Values)
    requires IssuesOf(shape, fields) == {}
    ensures forall key :: key in fields ==> key in shape && Parse(shape[key], fields[key]).Some?
    ensures forall key :: key in shape && shape[key].isRequired ==> key in fields
  {
    forall key | key in fields ensures key in shape && Parse(shape[key], fields[key]).Some? {
      assert Unknown(key) !in IssuesOf(shape, fields);
      assert Wrong(key) !in IssuesOf(shape, fields);
    }
    forall key | key in shape && shape[key].isRequired ensures key in fields {
      assert Missing(key) !in IssuesOf(shape, fields);
    }
  }

  /** The relaxed rules of the first pass: every attribute may be left out. */
  function WithoutRequired(rules: seq<Rule>): seq<Rule> {
    seq(|rules|, i requires 0 <= i < |rules| => rules[i].(isRequired := false))
  }

  datatype SaveRefusal = Invalid(issues: set<Issue>) | AttributesRequired(missing: set<Issue>)

  /** A draft may be incomplete but never wrong; what goes on sale must also be complete. */
  function ValidatedAttributes(rules: seq<Rule>, values: Json, requireAll: bool): Result<Values, SaveRefusal> {
    match Validate(WithoutRequired(rules), values)
    case Err(issues) => Err(Invalid(issues))
    case Ok(draft) =>
      if !requireAll then Ok(draft)
      else match Validate(rules, values)
        case Ok(complete) => Ok(complete)
        case Err(issues) => Err(AttributesRequired(issues))
  }

  // ------------------------------------------------------------- the passes

  lemma {:induction false} ShapeRelaxed(rules: seq<Rule>)
    ensures Shape(WithoutRequired(rules)).Keys == Shape(rules).Keys
    ensures forall key :: key in Shape(rules) ==>
                Shape(WithoutRequired(rules))[key] == Shape(rules)[key].(isRequired := false)
  {
    if rules != [] {
      var n := |rules| - 1;
      ShapeRelaxed(rules[..n]);
      assert WithoutRequired(rules)[..n] == WithoutRequired(rules[..n]);
      assert WithoutRequired(rules)[n] == rules[n].(isRequired := false);
    }
  }

  /** Key by key, what makes a bag acceptable and what the answer holds. */
  lemma {:induction false} AcceptedMeans(rules: seq<Rule>, input: Json)
    ensures Validate(rules, input).Ok?
       <==> && input.JObject?
            && (forall key :: key in input.fields && !IsAbsent(input.fields[key]) ==>
                                key in Shape(rules) && Parse(Shape(rules)[key], input.fields[key]).Some?)
            && (forall key :: key in Shape(rules) && Shape(rules)[key].isRequired ==>
                                key in input.fields && !IsAbsent(input.fields[key]))
    ensures Validate(rules, input).Ok? ==>
              forall key :: key in Validate(rules, input).value <==> key in input.fields && !IsAbsent(input.fields[key])
    ensures Validate(rules, input).Ok? ==>
              forall key :: key in Validate(rules, input).value ==>
                              Some(Validate(rules, input).value[key]) == Parse(Shape(rules)[key], input.fields[key])
  {
    if input.JObject? {
      var shape, fields := Shape(rules), StripAbsent(input).fields;
      if IssuesOf(shape, fields) == {} { Clean(shape, fields); }
    }
  }

  /** What each type takes, and what is stored of it: text trimmed, to 200 characters; everything else as it came. */
  lemma {:induction false} ParseExact(rule: Rule, value: Json)
    ensures rule.kind == TEXT ==>
              Parse(rule, value) == if value.JString? && |Trim(value.s)| <= 200 then Some(JString(Trim(value.s)))
                  else None
    ensures rule.kind == NUMBER ==> Parse(rule, value) == if value.JNumber? then Some(value) else None
    ensures rule.kind == BOOLEAN ==> Parse(rule, value) == if value.JBool? then Some(value) else None
    ensures rule.kind == SELECT ==>
              (Parse(rule, value) == Some(value) <==> exists i :: 0 <= i < |rule.options|
                                                                  && value == JString(rule.options[i]))
    ensures rule.kind == MULTI_SELECT ==>
              (Parse(rule, value) == Some(value) <==>
                 && value.JArray? && Distinct(value.items)
                 && forall k :: 0 <= k < |value.items| ==>
                      exists i :: 0 <= i < |rule.options| && value.items[k] == JString(rule.options[i]))
    ensures rule.kind == SELECT || rule.kind == MULTI_SELECT ==> Parse(rule, value) == Some(value)
                                                                 || Parse(rule, value) == None
  {
    if rule.kind == MULTI_SELECT && value.JArray? {
      if Distinct(value.items) { DistinctCardinality(value.items); }
      if |Elements(value.items)| == |value.items| { CardinalityDistinct(value.items); }
    }
  }

  /** Undefined, null, the empty text and the empty list are as if the key were not there; nothing else is. */
  lemma {:induction false} AbsentExact(value: Json)
    ensures IsAbsent(value) <==> value in {JUndefined, JNull, JString(""), JArray([])}
  {
  }

  lemma {:induction false} AbsentIsMissing(rules: seq<Rule>, fields: Values, key: string)
    requires key in fields && IsAbsent(fields[key])
    ensures Validate(rules, JObject(fields)) == Validate(rules, JObject(map k | k in fields && k != key :: fields[k]))
  {
    var without := map k | k in fields && k != key :: fields[k];
    assert StripAbsent(JObject(fields)).fields == StripAbsent(JObject(without)).fields;
  }

  /** The issues of a refused bag: not an object; or each key unknown, each value wrong, each required key missing. */
  lemma {:induction false} IssuesExact(rules: seq<Rule>, input: Json, issue: Issue)
    requires Validate(rules, input).Err?
    ensures !input.JObject? ==> Validate(rules, input).error == {NotAnObject}
    ensures input.JObject? ==>
              (issue in Validate(rules, input).error <==>
                 match issue
                 case Unknown(key) => key in input.fields && !IsAbsent(input.fields[key]) && key !in Shape(rules)
                 case Wrong(key) => key in input.fields && !IsAbsent(input.fields[key]) && key in Shape(rules)
                                    && Parse(Shape(rules)[key], input.fields[key]) == None
                 case Missing(key) => key in Shape(rules) && Shape(rules)[key].isRequired
                                      && (key !in input.fields || IsAbsent(input.fields[key]))
                 case NotAnObject => false)
  {
  }

  /** Of several rules of one key the last counts. */
  lemma {:induction false} ShapeExact(rules: seq<Rule>, i: nat)
    requires i < |rules| && forall j :: i < j < |rules| ==> rules[j].key != rules[i].key
    ensures rules[i].key in Shape(rules) && Shape(rules)[rules[i].key] == rules[i]
  {
    if i < |rules| - 1 { ShapeExact(rules[..|rules| - 1], i); }
  }

  /** The required attributes nobody filled in: no key, or a value that says nothing. */
  ghost function Unfilled(rules: seq<Rule>, input: Json): set<Issue>
    requires input.JObject?
  {
    set key | key in Shape(rules) && Shape(rules)[key].isRequired
              && (key !in input.fields || IsAbsent(input.fields[key])) :: Missing(key)
  }

  lemma {:induction false} StrictIssues(rules: seq<Rule>, input: Json)
    requires input.JObject?
    ensures var fields := StripAbsent(input).fields;
            IssuesOf(Shape(rules), fields) == IssuesOf(Shape(WithoutRequired(rules)), fields) + Unfilled(rules, input)
  {
    ShapeRelaxed(rules);
    var fields := StripAbsent(input).fields;
    var shape, relaxed := Shape(rules), Shape(WithoutRequired(rules));
    forall key | key in shape && key in fields
      ensures Parse(shape[key], fields[key]) == Parse(relaxed[key], fields[key]) {
      RequiredIrrelevant(shape[key], fields[key]);
    }
    forall issue ensures issue in IssuesOf(shape, fields)
    <==> issue in IssuesOf(relaxed, fields) + Unfilled(rules, input) {
      StrictIssue(rules, input, issue);
    }
  }

  lemma {:induction false} StrictIssue(rules: seq<Rule>, input: Json, issue: Issue)
    requires input.JObject? && Shape(WithoutRequired(rules)).Keys == Shape(rules).Keys
    requires forall key :: key in Shape(rules) ==>
                 Shape(WithoutRequired(rules))[key] == Shape(rules)[key].(isRequired := false)
    requires forall key :: key in Shape(rules) && key in StripAbsent(input).fields ==>
                             Parse(Shape(rules)[key], StripAbsent(input).fields[key])
                                 == Parse(Shape(WithoutRequired(rules))[key], StripAbsent(input).fields[key])
    ensures var fields := StripAbsent(input).fields;
            issue in IssuesOf(Shape(rules), fields)
            <==> issue in IssuesOf(Shape(WithoutRequired(rules)), fields) + Unfilled(rules, input)
  {
    match issue
    case Missing(key) =>
    case Wrong(key) =>
    case Unknown(key) =>
    case NotAnObject =>
  }

  lemma {:induction false} RequiredIrrelevant(rule: Rule, value: Json)
    ensures Parse(rule.(isRequired := false), value) == Parse(rule, value)
  {
  }

  /**
   * Draft and publish agree: once the relaxed rules accept, the strict rules refuse exactly the required
   * attributes left unfilled, and if there are none both passes return the same values.
   */
  lemma {:induction false} PassesAgree(rules: seq<Rule>, input: Json)
    requires Validate(WithoutRequired(rules), input).Ok?
    ensures input.JObject?
    ensures Validate(rules, input)
         == if Unfilled(rules, input) == {} then Validate(WithoutRequired(rules), input)
             else Err(Unfilled(rules, input))
  {
    StrictIssues(rules, input);
    var fields := StripAbsent(input).fields;
    var shape, relaxed := Shape(rules), Shape(WithoutRequired(rules));
    assert IssuesOf(relaxed, fields) == {};
    assert IssuesOf(shape, fields) == Unfilled(rules, input);
    if Unfilled(rules, input) == {} {
      Clean(shape, fields);
      Clean(relaxed, fields);
      ShapeRelaxed(rules);
      forall key | key in fields ensures Parse(shape[key], fields[key]) == Parse(relaxed[key], fields[key]) {
        RequiredIrrelevant(shape[key], fields[key]);
      }
      assert Validate(rules, input).value == Validate(WithoutRequired(rules), input).value;
    }
  }

  /** A value that is wrong in a draft is wrong on sale: relaxing only ever removes the unfilled. */
  lemma {:induction false} DraftRefusalStands(rules: seq<Rule>, input: Json)
    requires Validate(WithoutRequired(rules), input).Err?
    ensures Validate(rules, input).Err?
    ensures Validate(rules, input).error
         == if input.JObject? then Validate(WithoutRequired(rules), input).error + Unfilled(rules, input)
             else {NotAnObject}
  {
    if input.JObject? { StrictIssues(rules, input); }
  }

  /** The refusal named for publishing never names anything but an unfilled required attribute. */
  lemma {:induction false} RequiredRefusalNamesOnlyMissing(rules: seq<Rule>, input: Json)
    requires ValidatedAttributes(rules, input, true).Err?
    requires ValidatedAttributes(rules, input, true).error.AttributesRequired?
    ensures input.JObject? && ValidatedAttributes(rules, input, true).error.missing == Unfilled(rules, input) != {}
    ensures ValidatedAttributes(rules, input, false).Ok?
  {
    PassesAgree(rules, input);
  }

  /** On sale and in a draft a bag is stored as the same values. */
  lemma {:induction false} SavedAlike(rules: seq<Rule>, input: Json)
    requires ValidatedAttributes(rules, input, true).Ok?
    ensures ValidatedAttributes(rules, input, false) == ValidatedAttributes(rules, input, true)
  {
    PassesAgree(rules, input);
  }

  // ---------------------------------------------------------- saving again

  lemma {:induction false} ParseAgain(rule: Rule, value: Json)
    requires Parse(rule, value).Some?
    ensures Parse(rule, Parse(rule, value).value) == Parse(rule, value)
    ensures IsAbsent(Parse(rule, value).value) && !IsAbsent(value) ==> Parse(rule, value).value == JString("")
                                                                       && rule.kind.TEXT?
  {
    if rule.kind.TEXT? { TextAgain(value.s); } else { assert Parse(rule, value).value == value; }
  }

  lemma {:induction false} TextAgain(s: string)
    ensures Trim(Trim(s)) == Trim(s)
  {
    TrimIdempotent(s);
  }

  /** An accepted value that trimmed to nothing. */
  ghost predicate Blanked(values: Values, key: string) { key in values && values[key] == JString("") }

  ghost function Unblanked(values: Values): Values {
    map key | key in values && values[key] != JString("") :: values[key]
  }

  lemma {:induction false} AcceptedValues(rules: seq<Rule>, input: Json)
    requires Validate(rules, input).Ok?
    ensures var values := Validate(rules, input).value;
            forall key :: key in values ==>
                            && key in Shape(rules)
                            && Parse(Shape(rules)[key], values[key]) == Some(values[key])
                            && (IsAbsent(values[key]) ==> values[key] == JString("") && Shape(rules)[key].kind.TEXT?)
  {
    AcceptedMeans(rules, input);
    var values := Validate(rules, input).value;
    forall key | key in values
      ensures key in Shape(rules)
      ensures Parse(Shape(rules)[key], values[key]) == Some(values[key])
      ensures IsAbsent(values[key]) ==> values[key] == JString("") && Shape(rules)[key].kind.TEXT?
    {
      ParseAgain(Shape(rules)[key], input.fields[key]);
    }
  }

  /** The required attributes whose stored value is the empty string. */
  ghost function Lost(shape: map<string, Rule>, values: Values): set<Issue> {
    set key | key in shape && shape[key].isRequired && Blanked(values, key) :: Missing(key)
  }

  lemma {:induction false} StoredIssues(shape: map<string, Rule>, values: Values)
    requires forall key :: key in values ==> key in shape && Parse(shape[key], values[key]) == Some(values[key])
    requires forall key :: key in shape && shape[key].isRequired ==> key in values
    ensures IssuesOf(shape, Unblanked(values)) == Lost(shape, values)
  {
    var fields := Unblanked(values);
    NothingWrong(shape, values);
    MissingAreLost(shape, values);
    assert IssuesOf(shape, fields) == Lost(shape, values) + {} + {};
  }

  lemma {:induction false} NothingWrong(shape: map<string, Rule>, values: Values)
    requires forall key :: key in values ==> key in shape && Parse(shape[key], values[key]) == Some(values[key])
    ensures (set key | key in shape && key in Unblanked(values) && Parse(shape[key], Unblanked(values)[key]).None? ::
                 Wrong(key)) == {}
    ensures (set key | key in Unblanked(values) && key !in shape :: Unknown(key)) == {}
  {
    assert forall key :: key in Unblanked(values) ==> key in values && Unblanked(values)[key] == values[key];
  }

  lemma {:induction false} MissingAreLost(shape: map<string, Rule>, values: Values)
    requires forall key :: key in shape && shape[key].isRequired ==> key in values
    ensures (set key | key in shape && key !in Unblanked(values) && shape[key].isRequired ::
                 Missing(key)) == Lost(shape, values)
  {
    assert forall key :: key in shape && shape[key].isRequired ==>
        (key !in Unblanked(values) <==> Blanked(values, key));
  }

  lemma {:induction false} JudgedAgain(shape: map<string, Rule>, values: Values)
    requires forall key :: key in values ==> key in shape && Parse(shape[key], values[key]) == Some(values[key])
    requires forall key :: key in shape && shape[key].isRequired ==> key in values
    ensures Judge(shape, Unblanked(values)) == if Lost(shape, values) == {} then Ok(Unblanked(values))
                else Err(Lost(shape, values))
  {
    StoredIssues(shape, values);
    if Lost(shape, values) == {} {
      Clean(shape, Unblanked(values));
      assert Judge(shape, Unblanked(values)).value == Unblanked(values);
    }
  }

  /** The verdict on an accepted result presented again. */
  ghost function Again(rules: seq<Rule>, values: Values): Result<Values, set<Issue>> {
    if Lost(Shape(rules), values) == {} then Ok(Unblanked(values)) else Err(Lost(Shape(rules), values))
  }

  /**
   * Validating an accepted result again returns it unchanged, except for text that was only white space:
   * that was stored as the empty string, which the next save drops, and refuses when it was required.
   */
  lemma {:induction false} Revalidation(rules: seq<Rule>, input: Json)
    requires Validate(rules, input).Ok?
    ensures Validate(rules, JObject(Validate(rules, input).value)) == Again(rules, Validate(rules, input).value)
  {
    var values := Validate(rules, input).value;
    AcceptedMeans(rules, input);
    AcceptedValues(rules, input);
    assert StripAbsent(JObject(values)).fields == Unblanked(values);
    JudgedAgain(Shape(rules), values);
  }

  lemma {:induction false} ParseBlank(rule: Rule, value: Json)
    requires !IsAbsent(value)
    ensures Parse(rule, value) == Some(JString(""))
       <==> rule.kind.TEXT? && value.JString? && value.s != "" && forall i :: 0 <= i < |value.s| ==> IsSpace(value.s[i])
  {
    if value.JString? { TrimBlank(value.s); }
  }

  /** A text field that is typed in but says nothing: white space only. */
  ghost predicate BlankText(rules: seq<Rule>, fields: Values, key: string) {
    && key in fields && key in Shape(rules) && Shape(rules)[key].kind.TEXT?
    && fields[key].JString? && fields[key].s != ""
    && forall i :: 0 <= i < |fields[key].s| ==> IsSpace(fields[key].s[i])
  }

  lemma {:induction false} BlankedIff(rules: seq<Rule>, input: Json, key: string)
    requires Validate(rules, input).Ok?
    ensures Blanked(Validate(rules, input).value, key) <==> input.JObject? && BlankText(rules, input.fields, key)
  {
    AcceptedMeans(rules, input);
    if input.JObject? && key in input.fields && !IsAbsent(input.fields[key]) {
      ParseBlank(Shape(rules)[key], input.fields[key]);
    }
  }

  lemma {:induction false} StoredAgain(rules: seq<Rule>, input: Json)
    requires Validate(rules, input).Ok?
    ensures Validate(rules, JObject(Validate(rules, input).value)) == Validate(rules, input)
       <==> forall key :: key in Validate(rules, input).value ==> !Blanked(Validate(rules, input).value, key)
  {
    Revalidation(rules, input);
    var values := Validate(rules, input).value;
    if forall key :: key in values ==> !Blanked(values, key) { NothingBlanked(rules, values); }
    if !forall key :: key in values ==> !Blanked(values, key) {
      var key :| key in values && Blanked(values, key);
      assert key !in Unblanked(values);
    }
  }

  lemma {:induction false} NothingBlanked(rules: seq<Rule>, values: Values)
    requires forall key :: key in values ==> !Blanked(values, key)
    ensures Unblanked(values) == values && Lost(Shape(rules), values) == {}
  {
  }

  /** Saving again is a no-op exactly when no text field was typed in with white space only. */
  lemma {:induction false} StableIff(rules: seq<Rule>, input: Json)
    requires Validate(rules, input).Ok?
    ensures input.JObject?
    ensures Validate(rules, JObject(Validate(rules, input).value)) == Validate(rules, input)
       <==> forall key :: key in input.fields ==> !BlankText(rules, input.fields, key)
  {
    AcceptedMeans(rules, input);
    StoredAgain(rules, input);
    forall key ensures Blanked(Validate(rules, input).value, key) <==> BlankText(rules, input.fields, key) {
      BlankedIff(rules, input, key);
    }
  }

  function Material(title: string): seq<Rule> { [Rule("material", title, TEXT, [], true)] }

  lemma {:induction false} MaterialShape(title: string)
    ensures Shape(Material(title)) == map["material" := Material(title)[0]]
  {
    assert Material(title)[..0] == [];
  }

  /** A bag of one attribute, judged by its one rule. */
  lemma {:induction false} OneAttribute(rules: seq<Rule>, key: string, rule: Rule, value: Json, parsed: Json)
    requires Shape(rules) == map[key := rule] && !IsAbsent(value) && Parse(rule, value) == Some(parsed)
    ensures var judged := Validate(rules, JObject(map[key := value])); judged.Ok? && judged.value == map[key := parsed]
  {
    var fields := map[key := value];
    assert StripAbsent(JObject(fields)).fields == fields;
    OneJudged(key, rule, value, parsed);
  }

  lemma {:induction false} OneFits(shape: map<string, Rule>, fields: Values, key: string)
    requires shape.Keys == {key} && fields.Keys == {key} && Parse(shape[key], fields[key]).Some?
    ensures IssuesOf(shape, fields) == {}
  {
    var missing := set k | k in shape && k !in fields && shape[k].isRequired :: Missing(k);
    var wrong := set k | k in shape && k in fields && Parse(shape[k], fields[k]).None? :: Wrong(k);
    var unknown := set k | k in fields && k !in shape :: Unknown(k);
    assert missing == {} && wrong == {} && unknown == {};
  }

  lemma {:induction false} OneJudged(key: string, rule: Rule, value: Json, parsed: Json)
    requires Parse(rule, value) == Some(parsed)
    ensures Judge(map[key := rule], map[key := value]).Ok?
    ensures Judge(map[key := rule], map[key := value]).value == map[key := parsed]
  {
    OneFits(map[key := rule], map[key := value], key);
  }

  lemma {:induction false} BlankAccepted(title: string)
    ensures var judged := Validate(Material(title), JObject(map["material" := JString(" ")]));
            judged.Ok? && judged.value == map["material" := JString("")]
  {
    MaterialShape(title);
    TrimBlank(" ");
    OneAttribute(Material(title), "material", Material(title)[0], JString(" "), JString(""));
  }

  lemma {:induction false} BlankLost(title: string)
    ensures var judged := Validate(Material(title), JObject(map["material" := JString("")]));
            judged.Err? && judged.error == {Missing("material")}
  {
    MaterialShape(title);
    var stripped := StripAbsent(JObject(map["material" := JString("")]));
    assert stripped.fields == map[];
    assert IssuesOf(Shape(Material(title)), map[]) == {Missing("material")};
  }

  /** A required text attribute is satisfied by a single space, and the stored bag then fails its next save. */
  lemma {:induction false} BlankSatisfiesRequired(title: string)
    ensures var rules := [Rule("material", title, TEXT, [], true)];
            && Validate(rules, JObject(map["material" := JString(" ")])) == Ok(map["material" := JString("")])
            && Validate(rules, JObject(map["material" := JString("")])) == Err({Missing("material")})
  {
    BlankAccepted(title);
    BlankLost(title);
  }
}
