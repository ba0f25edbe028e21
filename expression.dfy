/**
 * The expression compiler as the object it is: the constructor fills the
 * identity fields, parses the sections into the groupBy strings and the three
 * sets, and builds the rule text. Every method is proved to compute what the
 * functions of DslSpec say.
 */
module Expressions {
  import opened Results
  import opened JavaStrings
  import opened AlertsModel
  import opened DslSpec

  class Expression {
    var name: string
    var alerterId: string
    var expression: Option<string>
    var tenantId: string
    var source: string
    var dataId: string

    var drlGroupByDeclare: string
    var drlGroupByObject: string
    var drlGroupByConstraint: string
    var drlEventConstraints: set<string>
    var drlFunctions: set<string>
    var drlFunctionsConstraints: set<string>

    var drl: string

    /** The orders in which buildDrl visited the three sets. */
    ghost var eventOrder: seq<string>
    ghost var functionOrder: seq<string>
    ghost var constraintOrder: seq<string>

    /** The compiled state as a value. */
    function Model(): Compiled
      reads this`name, this`alerterId, this`expression, this`tenantId, this`source, this`dataId
      reads this`drlGroupByDeclare, this`drlGroupByObject, this`drlGroupByConstraint
      reads this`drlEventConstraints, this`drlFunctions, this`drlFunctionsConstraints
      requires expression.Some?
    {
      Compiled(name, alerterId, expression.value, tenantId, source, dataId,
        drlGroupByDeclare, drlGroupByObject, drlGroupByConstraint,
        drlEventConstraints, drlFunctions, drlFunctionsConstraints)
    }

    /** The rule text is built from the compiled state, each set listed once. */
    ghost predicate Rendered()
      reads this
    {
      && expression.Some?
      && Enumerates(eventOrder, drlEventConstraints)
      && Enumerates(functionOrder, drlFunctions)
      && Enumerates(constraintOrder, drlFunctionsConstraints)
      && drl == RuleText(Model(), eventOrder, functionOrder, constraintOrder)
    }

    /** The field initialisers and the identity assignments that precede any check. */
    constructor Init(trigger: Trigger, condition: ExternalCondition)
      ensures name == trigger.name + "-" + condition.conditionId && alerterId == condition.alerterId
      ensures expression == condition.expression && dataId == condition.dataId
      ensures tenantId == trigger.tenantId && source == trigger.source
      ensures drlEventConstraints == {} && drlFunctions == {EventsFunction} && drlFunctionsConstraints == {}
      ensures drlGroupByDeclare == [] && drlGroupByObject == [] && drlGroupByConstraint == [] && drl == []
    {
      drlEventConstraints := {};
      drlFunctions := {EventsFunction};
      drlFunctionsConstraints := {};
      drlGroupByDeclare, drlGroupByObject, drlGroupByConstraint, drl := [], [], [], [];
      eventOrder, functionOrder, constraintOrder := [], [], [];
      name := trigger.name + "-" + condition.conditionId;
      alerterId := condition.alerterId;
      expression := condition.expression;
      tenantId := trigger.tenantId;
      source := trigger.source;
      dataId := condition.dataId;
    }

    /**
     * The three steps each clause parser starts with: find the last `)`,
     * take the text after the keyword up to it, and trim it.
     */
    static method ClauseText(section: string, keyword: string, missing: ExprError) returns (r: Result<string, ExprError>)
      ensures r == ClauseBody(section, keyword, missing)
    {
      LastIndexOfFinds(section, ')');
      var endSection := LastIndexOf(section, ')');
      if endSection.None? {
        return Failure(missing);
      }
      if endSection.value < |keyword| {
        return Failure(IndexOutOfBounds);
      }
      r := Success(Trim(section[|keyword|..endSection.value]));
    }

    /**
     * parseGroupBy: on success the three groupBy strings are the compiled
     * ones and the join constraint joins the event constraints; on failure
     * nothing has changed.
     */
    method ParseGroupBy(section: string) returns (err: Option<ExprError>)
      modifies this`drlGroupByObject, this`drlGroupByConstraint, this`drlGroupByDeclare, this`drlEventConstraints
      ensures var g := GroupByClause(section, tenantId, source, dataId);
        && (g.Failure? ==> err == Some(g.error) && unchanged(this))
        && (g.Success? ==>
              && err.None?
              && drlGroupByObject == g.value.groupObject
              && drlGroupByConstraint == g.value.constraint
              && drlGroupByDeclare == g.value.declare
              && drlEventConstraints == old(drlEventConstraints) + {g.value.constraint})
    {
      var body := ClauseText(section, GroupByToken, InvalidGroupBy);
      if body.Failure? {
        return Some(body.error);
      }
      err := ParseGroupKey(body.value);
    }

    /** parseGroupBy from the trimmed text inside `groupBy( ... )` on. */
    method ParseGroupKey(innerSection: string) returns (err: Option<ExprError>)
      modifies this`drlGroupByObject, this`drlGroupByConstraint, this`drlGroupByDeclare, this`drlEventConstraints
      ensures var g := GroupByKey(innerSection, tenantId, source, dataId);
        && (g.Failure? ==> err == Some(g.error) && unchanged(this))
        && (g.Success? ==>
              && err.None?
              && drlGroupByObject == g.value.groupObject
              && drlGroupByConstraint == g.value.constraint
              && drlGroupByDeclare == g.value.declare
              && drlEventConstraints == old(drlEventConstraints) + {g.value.constraint})
    {
      var tags := false;
      if StartsWith(innerSection, TagsToken) {
        tags := true;
      }
      var field: string;
      if tags {
        field := innerSection[|TagsToken|..];
      } else {
        field := innerSection;
      }
      var madeType := MakeType(field);
      if madeType.Failure? {
        return Some(madeType.error);
      }
      var typeName := madeType.value;
      drlGroupByObject := typeName + " ( $" + field + " : " + field + " )";
      if tags {
        drlGroupByConstraint := " tags[ \"" + field + "\" ] == $" + field + " ";
      } else {
        drlGroupByConstraint := " " + field + " == $" + field + " ";
      }
      drlEventConstraints := drlEventConstraints + {drlGroupByConstraint};
      DeclareGroupType(typeName, field, tags);
      err := None;
    }

    /** The declaration of the group type and its extraction rule, in the three steps parseGroupBy takes. */
    method DeclareGroupType(typeName: string, field: string, tags: bool)
      modifies this`drlGroupByDeclare
      ensures drlGroupByDeclare == GroupByDeclare(typeName, field, tags, tenantId, source, dataId)
    {
      drlGroupByDeclare :=
        "  declare " + typeName + " " + field + " : String end \n" +
        "  rule \"Extract " + field + "\" \n" +
        "  when \n" +
        "    Event ( tenantId == \"" + tenantId + "\", \n" +
        "            dataSource == \"" + source + "\", \n" +
        "            dataId == \"" + dataId + "\", \n" +
        "            $" + field + " : ";
      if tags {
        drlGroupByDeclare := drlGroupByDeclare + ("tags[ \"" + field + "\" ] != null ) \n ");
      } else {
        drlGroupByDeclare := drlGroupByDeclare + (field + " != null ) \n ");
      }
      drlGroupByDeclare := drlGroupByDeclare + (
        "   not " + typeName + " ( " + field + " == $" + field + " ) \n " +
        " then \n " +
        "   insert ( new " + typeName + " ( $" + field + " ) ); \n " +
        " end \n ");
    }
 
    /**
     * replaceTags: each tag reference the pattern finds, searching on from
     * the end of the previous one, is replaced everywhere in the text by the
     * engine's lookup of that tag.
     */
    static method ReplaceTags(str: string) returns (newStr: string)
      ensures newStr == TagsReplaced(str)
    {
      newStr := str;
      var index := 0;
      var found := FindTag(str, index);
      while found.Some?
        invariant index <= |str|
        invariant found == FindTag(str, index)
        invariant ApplyTagRewrites(newStr, ScanTags(str, index)) == TagsReplaced(str)
        decreases |str| - index
      {
        var m := found.value;
        assert ScanTags(str, index) == [m] + ScanTags(str, m.end);
        index := m.end;
        newStr := ReplaceAll(newStr, m.text, "tags[\"" + m.name + "\"]");
        found := FindTag(str, index);
      }
    }

    /**
     * parseFilter: every comma-separated fragment of the filter section,
     * its tag references rewritten, becomes an event constraint.
     */
    method ParseFilter(section: string) returns (err: Option<ExprError>)
      modifies this`drlEventConstraints
      ensures FilterClause(section).Failure? ==> err == Some(FilterClause(section).error) && unchanged(this)
      ensures FilterClause(section).Success? ==>
        err.None? && drlEventConstraints == old(drlEventConstraints) + FilterClause(section).value
    {
      var body := ClauseText(section, FilterToken, InvalidFilter);
      if body.Failure? {
        return Some(body.error);
      }
      var pieces := Split(body.value, CommaToken);
      AddFilterConstraints(pieces);
      err := None;
    }

    /** The loop of parseFilter over the fragments. */
    method AddFilterConstraints(pieces: seq<string>)
      modifies this`drlEventConstraints
      ensures drlEventConstraints == old(drlEventConstraints) + FilterConstraints(pieces)
    {
      var filterConstraints := new string[|pieces|](k requires 0 <= k < |pieces| => pieces[k]);
      for i := 0 to filterConstraints.Length
        invariant forall k | i <= k < |pieces| :: filterConstraints[k] == pieces[k]
        invariant drlEventConstraints == old(drlEventConstraints) + FilterConstraints(pieces[..i])
      {
        if Contains(filterConstraints[i], TagsToken) {
          filterConstraints[i] := ReplaceTags(filterConstraints[i]);
        }
        drlEventConstraints := drlEventConstraints + {filterConstraints[i]};
        FilterConstraintsPrefix(pieces, i);
      }
      assert pieces[..|pieces|] == pieces;
    }

    /**
     * processCountTags: the tag named after the first `count.tags.` gets a
     * tag-set function, and the text refers to that set's size.
     */
    method ProcessCountTags(str: string) returns (r: Result<string, ExprError>)
      requires Contains(str, CountTagsToken)
      modifies this`drlFunctions
      ensures CountTags(str).Failure? ==> r == Failure(CountTags(str).error) && unchanged(this)
      ensures CountTags(str).Success? ==>
        && r == Success(CountTags(str).value.text)
        && drlFunctions == old(drlFunctions) + {CollectSetFunction(CountTags(str).value.field)}
    {
      IndexOfFinds(str, CountTagsToken, 0);
      var start := IndexOf(str, CountTagsToken, 0).value;
      var end := IndexOfChar(str, ' ', start);
      if end.None? {
        return Failure(IndexOutOfBounds);
      }
      IndexOfCharFinds(str, ' ', start);
      CountTagsTokenHasNoSpace();
      TokenThenField(str, CountTagsToken, start, end.value);
      var countTags := str[start..end.value];
      var field := countTags[|CountTagsToken|..];
      drlFunctions := drlFunctions + {"$" + field + "Set : collectSet($event.getTags().get(\"" + field + "\") )"};
      r := Success(ReplaceAll(str, countTags, "$" + field + "Set.size"));
    }

    /**
     * parseHaving: every comma-separated fragment of the having section is
     * rewritten (firstTime, lastTime, count.tags, count, in that order),
     * registering what it needs, and its trimmed text becomes a
     * post-aggregate constraint. A fragment whose count.tags cannot be read
     * aborts.
     */
    method ParseHaving(section: string) returns (err: Option<ExprError>)
      modifies this`drlEventConstraints, this`drlFunctions, this`drlFunctionsConstraints
      ensures HavingClause(section).Failure? ==> err == Some(HavingClause(section).error)
      ensures HavingClause(section).Success? ==>
        && err.None?
        && drlEventConstraints == old(drlEventConstraints) + HavingClause(section).value.events
        && drlFunctions == old(drlFunctions) + HavingClause(section).value.functions
        && drlFunctionsConstraints == old(drlFunctionsConstraints) + HavingClause(section).value.constraints
    {
      var body := ClauseText(section, HavingToken, InvalidHaving);
      if body.Failure? {
        return Some(body.error);
      }
      var pieces := Split(body.value, CommaToken);
      err := AddHavingConstraints(pieces);
    }

    /** The loop of parseHaving over the fragments. */
    method AddHavingConstraints(pieces: seq<string>) returns (err: Option<ExprError>)
      modifies this`drlEventConstraints, this`drlFunctions, this`drlFunctionsConstraints
      ensures HavingFragments(pieces).Failure? ==> err == Some(HavingFragments(pieces).error)
      ensures HavingFragments(pieces).Success? ==>
        && err.None?
        && drlEventConstraints == old(drlEventConstraints) + HavingFragments(pieces).value.events
        && drlFunctions == old(drlFunctions) + HavingFragments(pieces).value.functions
        && drlFunctionsConstraints == old(drlFunctionsConstraints) + HavingFragments(pieces).value.constraints
    {
      ghost var rs := FragmentResults(pieces);
      ghost var merged := Having({}, {}, {});
      var havingConstraints := new string[|pieces|](k requires 0 <= k < |pieces| => pieces[k]);
      for i := 0 to havingConstraints.Length
        invariant forall k | i <= k < |pieces| :: havingConstraints[k] == pieces[k]
        invariant Merge(rs[..i]) == Success(merged)
        invariant drlEventConstraints == old(drlEventConstraints) + merged.events
        invariant drlFunctions == old(drlFunctions) + merged.functions
        invariant drlFunctionsConstraints == old(drlFunctionsConstraints) + merged.constraints
      {
        FragmentResultsAt(pieces, i);
        var rewritten := AddHavingFragment(havingConstraints[i]);
        if rewritten.Failure? {
          HavingFragmentFails(pieces, i);
          return Some(rewritten.error);
        }
        havingConstraints[i] := rewritten.value;
        MergePrefix(rs, i);
        merged := Having(merged.constraints + {rs[i].value.text}, merged.events + rs[i].value.events,
          merged.functions + rs[i].value.functions);
      }
      assert rs[..|rs|] == rs;
      assert HavingFragments(pieces) == Success(merged);
      err := None;
    }

    /**
     * One iteration of parseHaving's loop: the fragment is rewritten and its
     * trimmed text becomes a post-aggregate constraint.
     */
    method AddHavingFragment(fragment: string) returns (r: Result<string, ExprError>)
      modifies this`drlEventConstraints, this`drlFunctions, this`drlFunctionsConstraints
      ensures HavingFragment(fragment).Failure? ==> r == Failure(HavingFragment(fragment).error)
      ensures HavingFragment(fragment).Success? ==>
        && r.Success?
        && drlEventConstraints == old(drlEventConstraints) + HavingFragment(fragment).value.events
        && drlFunctions == old(drlFunctions) + HavingFragment(fragment).value.functions
        && drlFunctionsConstraints == old(drlFunctionsConstraints) + {HavingFragment(fragment).value.text}
    {
      r := RewriteHavingFragment(fragment);
      if r.Success? {
        assert HavingFragment(fragment).Success?;
        drlFunctionsConstraints := drlFunctionsConstraints + {Trim(r.value)};
      } else {
        assert HavingFragment(fragment).Failure?;
      }
    }

    /**
     * The body of parseHaving's loop for one fragment: the checks for
     * firstTime, lastTime, count.tags and count, in that order, each
     * registering what it needs; the text is returned untrimmed.
     */
    method RewriteHavingFragment(fragment: string) returns (r: Result<string, ExprError>)
      modifies this`drlEventConstraints, this`drlFunctions
      ensures HavingFragment(fragment).Failure? ==> r == Failure(HavingFragment(fragment).error)
      ensures HavingFragment(fragment).Success? ==>
        && r.Success? && Trim(r.value) == HavingFragment(fragment).value.text
        && drlEventConstraints == old(drlEventConstraints) + HavingFragment(fragment).value.events
        && drlFunctions == old(drlFunctions) + HavingFragment(fragment).value.functions
    {
      var text := TimeChecks(fragment);
      r := CountChecks(text, TimeSteps(fragment), old(drlFunctions));
    }

    /** The firstTime and lastTime checks of one having fragment. */
    method TimeChecks(fragment: string) returns (text: string)
      modifies this`drlEventConstraints, this`drlFunctions
      ensures text == TimeSteps(fragment).text
      ensures drlEventConstraints == old(drlEventConstraints) + TimeSteps(fragment).events
      ensures drlFunctions == old(drlFunctions) + TimeSteps(fragment).functions
    {
      text := fragment;
      ghost var w := Rewrite(fragment, {}, {});
      if Contains(text, FirstTimeToken) {
        text := ReplaceAll(text, FirstTimeToken, FirstTimeVariable);
        drlEventConstraints := drlEventConstraints + {CtimeConstraint};
        drlFunctions := drlFunctions + {FirstTimeFunction};
      }
      w := TimeStep(w, FirstTimeToken, FirstTimeVariable, FirstTimeFunction);
      assert text == w.text && drlEventConstraints == old(drlEventConstraints) + w.events && drlFunctions == old(drlFunctions) + w.functions;
      if Contains(text, LastTimeToken) {
        text := ReplaceAll(text, LastTimeToken, LastTimeVariable);
        drlEventConstraints := drlEventConstraints + {CtimeConstraint};
        drlFunctions := drlFunctions + {LastTimeFunction};
      }
    }

    /**
     * The count.tags and count checks of one having fragment, whose text so
     * far is `w.text` and whose functions so far are `w.functions` on top of
     * `base`.
     */
    method CountChecks(text: string, ghost w: Rewrite, ghost base: set<string>) returns (r: Result<string, ExprError>)
      requires text == w.text && drlFunctions == base + w.functions
      modifies this`drlFunctions
      ensures CountTagsStep(w).Failure? ==> r == Failure(CountTagsStep(w).error)
      ensures CountTagsStep(w).Success? ==>
        && r == Success(CountStep(CountTagsStep(w).value).text)
        && drlFunctions == base + CountStep(CountTagsStep(w).value).functions
    {
      var current := text;
      ghost var v := w;
      if Contains(current, CountTagsToken) {
        var processed := ProcessCountTags(current);
        if processed.Failure? {
          return Failure(processed.error);
        }
        ghost var c := CountTags(current).value;
        current := processed.value;
        v := Rewrite(c.text, w.events, w.functions + {CollectSetFunction(c.field)});
      }
      assert CountTagsStep(w) == Success(v);
      assert current == v.text && drlFunctions == base + v.functions;
      if Contains(current, CountToken) {
        current := ReplaceAll(current, CountToken, CountVariable);
        drlFunctions := drlFunctions + {CountFunction};
      }
      r := Success(current);
    }
 
    /**
     * One of buildDrl's three iterations: every element of the set, in the
     * set's iteration order, after `indent`, with `, \n` written after each
     * element that has a successor.
     */
    static method ListItems(items: set<string>, indent: string) returns (text: string, ghost order: seq<string>)
      ensures Enumerates(order, items) && text == Listing(order, indent)
    {
      text := [];
      order := [];
      var rest := items;
      while rest != {}
        invariant rest <= items
        invariant forall x :: x in order <==> x in items && x !in rest
        invariant forall i, j | 0 <= i < j < |order| :: order[i] != order[j]
        invariant text == Listing(order, indent) + (if order != [] && rest != {} then ItemSeparator else [])
        decreases |rest|
      {
        var item :| item in rest;
        ListingSnoc(order, item, indent);
        assert item !in order;
        DistinctSnoc(order, item);
        rest := rest - {item};
        text := text + indent + item;
        order := order + [item];
        if rest != {} {
          text := text + ItemSeparator;
        }
      }
    }

    /**
     * buildDrl: the rule text from the compiled state, each of the three
     * sets listed in its iteration order.
     */
    method BuildDrl()
      requires expression.Some?
      modifies this`drl, this`eventOrder, this`functionOrder, this`constraintOrder
      ensures Rendered() && Model() == old(Model())
    {
      var compiled := Model();
      var events, functions, constraints;
      events, eventOrder := ListItems(drlEventConstraints, Blank + Blank);
      functions, functionOrder := ListItems(drlFunctions, Blank);
      constraints, constraintOrder := ListItems(drlFunctionsConstraints, Blank);
      drl := RuleHead(compiled) + events + "); \n" + functions + "; \n" + constraints + RuleTail(compiled);
      assert Model() == compiled;
    }

    /**
     * The constructor's checks and parsers, in the constructor's order, on a
     * freshly initialised object; `t` and `c` are what it was built from.
     */
    method Parse(ghost t: Trigger, ghost c: ExternalCondition) returns (err: Option<ExprError>)
      requires name == t.name + "-" + c.conditionId && alerterId == c.alerterId && expression == c.expression
      requires tenantId == t.tenantId && source == t.source && dataId == c.dataId
      requires drlEventConstraints == {} && drlFunctions == {EventsFunction} && drlFunctionsConstraints == {}
      modifies this`drlGroupByObject, this`drlGroupByConstraint, this`drlGroupByDeclare
      modifies this`drlEventConstraints, this`drlFunctions, this`drlFunctionsConstraints
      ensures err.Some? ==> Compile(Some(t), Some(c)) == Failure(err.value)
      ensures err.None? ==> Compile(Some(t), Some(c)).Success? && expression.Some? && Model() == Compile(Some(t), Some(c)).value
    {
      if IsEmpty(expression) {
        return Some(EmptyExpression);
      }
      var section := Split(expression.value, SeparatorToken);
      if |section| < 3 || |section| > 4 {
        return Some(WrongSections);
      }
      if section[0] != EventToken {
        return Some(MissingEvent);
      }
      if !StartsWith(section[1], GroupByToken) {
        return Some(MissingGroupBy);
      }
      assert ShapeError(section).None?;
      err := ParseSections(section, t, c);
    }

    /** The constructor from parseGroupBy on, once the section count and the first two keywords have been checked. */
    method ParseSections(section: seq<string>, ghost t: Trigger, ghost c: ExternalCondition) returns (err: Option<ExprError>)
      requires 3 <= |section| <= 4
      requires name == t.name + "-" + c.conditionId && alerterId == c.alerterId && expression == c.expression
      requires expression.Some?
      requires tenantId == t.tenantId && source == t.source && dataId == c.dataId
      requires drlEventConstraints == {} && drlFunctions == {EventsFunction} && drlFunctionsConstraints == {}
      modifies this`drlGroupByObject, this`drlGroupByConstraint, this`drlGroupByDeclare
      modifies this`drlEventConstraints, this`drlFunctions, this`drlFunctionsConstraints
      ensures err.Some? ==> CompileSections(t, c, section) == Failure(err.value)
      ensures err.None? ==> CompileSections(t, c, section).Success? && Model() == CompileSections(t, c, section).value
    {
      ghost var g := GroupByClause(section[1], tenantId, source, dataId);
      err := ParseGroupBy(section[1]);
      if err.Some? {
        return;
      }
      if |section| == 3 && !StartsWith(section[2], HavingToken) {
        return Some(MissingHaving);
      }
      if |section| == 4 && !StartsWith(section[2], FilterToken) && !StartsWith(section[3], HavingToken) {
        return Some(MissingFilterAndHaving);
      }
      assert KeywordError(section).None?;
      assert CompileSections(t, c, section) == AssembleSections(t, c, c.expression.value, section, g.value);
      if |section| == 3 {
        err := ParseHavingSection(section, t, c, g.value);
      } else {
        err := ParseFilterAndHaving(section, t, c, g.value);
      }
    }

    /** The having section of a three-section expression, after every check has passed. */
    method ParseHavingSection(section: seq<string>, ghost t: Trigger, ghost c: ExternalCondition, ghost g: GroupBy)
      returns (err: Option<ExprError>)
      requires |section| == 3
      requires name == t.name + "-" + c.conditionId && alerterId == c.alerterId && expression == c.expression
      requires expression.Some?
      requires tenantId == t.tenantId && source == t.source && dataId == c.dataId
      requires drlGroupByObject == g.groupObject && drlGroupByConstraint == g.constraint && drlGroupByDeclare == g.declare
      requires drlEventConstraints == {g.constraint}
      requires drlFunctions == {EventsFunction} && drlFunctionsConstraints == {}
      modifies this`drlEventConstraints, this`drlFunctions, this`drlFunctionsConstraints
      ensures err.Some? ==> Assemble(t, c, c.expression.value, g, Success({}), HavingClause(section[2])) == Failure(err.value)
      ensures err.None? ==>
        && Assemble(t, c, c.expression.value, g, Success({}), HavingClause(section[2])).Success?
        && Model() == Assemble(t, c, c.expression.value, g, Success({}), HavingClause(section[2])).value
    {
      err := ParseHaving(section[2]);
      if err.None? {
        assert drlEventConstraints == {g.constraint} + {} + HavingClause(section[2]).value.events;
        assert drlFunctionsConstraints == HavingClause(section[2]).value.constraints;
      }
    }

    /** The filter and having sections of a four-section expression, after every check has passed. */
    method ParseFilterAndHaving(section: seq<string>, ghost t: Trigger, ghost c: ExternalCondition, ghost g: GroupBy)
      returns (err: Option<ExprError>)
      requires |section| == 4
      requires name == t.name + "-" + c.conditionId && alerterId == c.alerterId && expression == c.expression
      requires expression.Some?
      requires tenantId == t.tenantId && source == t.source && dataId == c.dataId
      requires drlGroupByObject == g.groupObject && drlGroupByConstraint == g.constraint && drlGroupByDeclare == g.declare
      requires drlEventConstraints == {g.constraint}
      requires drlFunctions == {EventsFunction} && drlFunctionsConstraints == {}
      modifies this`drlEventConstraints, this`drlFunctions, this`drlFunctionsConstraints
      ensures err.Some? ==> Assemble(t, c, c.expression.value, g, FilterClause(section[2]), HavingClause(section[3])) == Failure(err.value)
      ensures err.None? ==>
        && Assemble(t, c, c.expression.value, g, FilterClause(section[2]), HavingClause(section[3])).Success?
        && Model() == Assemble(t, c, c.expression.value, g, FilterClause(section[2]), HavingClause(section[3])).value
    {
      err := ParseFilter(section[2]);
      if err.Some? {
        assert FilterClause(section[2]).Failure?;
        return;
      }
      err := ParseHaving(section[3]);
      if err.Some? {
        assert HavingClause(section[3]).Failure?;
      } else {
        assert drlFunctionsConstraints == HavingClause(section[3]).value.constraints;
      }
    }

    /**
     * The constructor Expression(trigger, condition): it fails exactly where
     * the compiler refuses the expression, with the same error, and
     * otherwise yields a new object holding the compiled state and its rule
     * text.
     */
    static method Create(trigger: Option<Trigger>, condition: Option<ExternalCondition>) returns (r: Result<Expression, ExprError>)
      ensures r.Failure? ==> Compile(trigger, condition) == Failure(r.error)
      ensures r.Success? ==>
        && Compile(trigger, condition).Success?
        && fresh(r.value) && r.value.Rendered()
        && r.value.Model() == Compile(trigger, condition).value
    {
      if trigger.None? || condition.None? {
        return Failure(NullArgument);
      }
      var e := new Expression.Init(trigger.value, condition.value);
      var err := e.Parse(trigger.value, condition.value);
      if err.Some? {
        return Failure(err.value);
      }
      e.BuildDrl();
      r := Success(e);
    }
  }
}
