/**
 * IsPojo: a matcher over an object's zero-argument accessors. It holds the
 * object's class and an insertion-ordered map from accessor name to the
 * sub-matcher the accessor's result must satisfy; it reports every failing
 * accessor, not only the first, and describes itself as an indented block.
 *
 * Reflection is abstracted: the matched object is a flag saying whether it
 * is an instance of the class, and a map from method name to what invoking
 * that method does.
 */
module PojoMatcher {
  import opened Strings
  import opened OrderedMap
  import opened Hamcrest

  /** The Class object: getName() and getSimpleName(). */
  datatype Class = Class(name: string, simpleName: string)

  /** What cls.getMethod(name).invoke(item) does: return a value, or throw
      NoSuchMethodException, IllegalAccessException, or an
      InvocationTargetException whose cause has this canonical class name
      and message. */
  datatype Outcome<V> =
    | Returned(value: V)
    | NoSuchMethod
    | IllegalAccess
    | InvocationTarget(causeName: string, causeMessage: string)

  /** The object being matched. */
  datatype Target<V> = Target(isInstance: bool, methods: map<string, Outcome<V>>)

  /** The reflective call; a name the object has no method for is a
      NoSuchMethodException. */
  function Invoke<V>(item: Target<V>, name: string): Outcome<V>
  {
    if name in item.methods then item.methods[name] else NoSuchMethod
  }

  type Binding<!V> = Entry<string, Matcher<V>>

  /** An IsPojo matcher: the class and the bindings, in insertion order. */
  datatype IsPojo<!V> = IsPojo(cls: Class, methodMatchers: seq<Binding<V>>)

  /** Every IsPojo the builder produces binds each accessor name once. */
  predicate Valid<V>(p: IsPojo<V>)
  {
    DistinctKeys(p.methodMatchers)
  }

  /** ImmutableMap.Builder.build() refuses a key that was put twice with an
      IllegalArgumentException. */
  datatype BuildError = DuplicateKey(key: string)

  datatype Result<T> = Success(value: T) | Failure(error: BuildError)

  // -----------------------------------------------------------------------
  // Builder

  /** pojo(cls): a matcher for cls with no bindings. */
  function Pojo<V>(cls: Class): (p: IsPojo<V>)
    ensures Valid(p) && p.cls == cls
    ensures Keys(p.methodMatchers) == []
  {
    IsPojo(cls, [])
  }

  /** where(methodName, matcher): a new matcher whose bindings are the
      receiver's, in the same order, followed by the new one. The receiver
      is a value and is not changed. Re-binding a name fails, as
      ImmutableMap.Builder does. */
  function Where<V>(p: IsPojo<V>, methodName: string, matcher: Matcher<V>): (r: Result<IsPojo<V>>)
    ensures r.Failure? <==> methodName in Keys(p.methodMatchers)
    ensures r.Failure? ==> r.error == DuplicateKey(methodName)
    ensures r.Success? ==>
      && r.value.cls == p.cls
      && Keys(r.value.methodMatchers) == Keys(p.methodMatchers) + [methodName]
      && r.value.methodMatchers[..|p.methodMatchers|] == p.methodMatchers
      && (forall k :: Get(r.value.methodMatchers, k) ==
            if k == methodName then Some(matcher) else Get(p.methodMatchers, k))
      && (Valid(p) ==> Valid(r.value))
  {
    if methodName in Keys(p.methodMatchers) then
      Failure(DuplicateKey(methodName))
    else
      AppendFresh(p.methodMatchers, methodName, matcher);
      Success(IsPojo(p.cls, p.methodMatchers + [Entry(methodName, matcher)]))
  }

  /** The accessor name withProperty derives from a property name: "get"
      followed by the property in upper camel case. */
  function AccessorName(property: string): (name: string)
    ensures |name| == 3 + |property| && name[..3] == "get"
    ensures |property| > 0 ==> name[3] == ToUpperAscii(property[0]) && name[4..] == property[1..]
    ensures IsLowerCamel(property) ==> LowerCamel(name[3..]) == property
  {
    var upper := UpperCamel(property);
    CamelRoundTrip(property);
    assert ("get" + upper)[3..] == upper;
    "get" + upper
  }

  /** withProperty(property, matcher): where() on the derived accessor name. */
  function WithProperty<V>(p: IsPojo<V>, property: string, matcher: Matcher<V>): (r: Result<IsPojo<V>>)
    ensures r.Failure? <==> AccessorName(property) in Keys(p.methodMatchers)
    ensures r.Failure? ==> r.error == DuplicateKey(AccessorName(property))
    ensures r.Success? ==>
      && r.value.cls == p.cls
      && Keys(r.value.methodMatchers) == Keys(p.methodMatchers) + [AccessorName(property)]
      && r.value.methodMatchers[..|p.methodMatchers|] == p.methodMatchers
      && (forall k :: Get(r.value.methodMatchers, k) ==
            if k == AccessorName(property) then Some(matcher) else Get(p.methodMatchers, k))
      && (Valid(p) ==> Valid(r.value))
  {
    Where(p, AccessorName(property), matcher)
  }

  /** describeMethod: how the report names an accessor. */
  function DescribeMethod(name: string): string
  {
    name + "()"
  }

  /** Distinct accessors are named distinctly in the report. */
  lemma DescribeMethodInjective(a: string, b: string)
    requires DescribeMethod(a) == DescribeMethod(b)
    ensures a == b
  {
    assert |a| == |b|;
    assert a == DescribeMethod(a)[..|a|];
  }

  // -----------------------------------------------------------------------
  // Evaluator (matchesSafely)

  /** One recorded mismatch: the text its Consumer<Description> appends is
      given by MismatchText. */
  datatype Mismatch =
    | MatcherMismatch(text: string)
    | WasNotAccessible
    | ThrewException(causeName: string, causeMessage: string)
    | DidNotExist

  function MismatchText(m: Mismatch): string
  {
    match m
    case MatcherMismatch(text) => text
    case WasNotAccessible => "was not accessible"
    case ThrewException(name, message) => "threw an exception: " + name + ": " + message
    case DidNotExist => "did not exist"
  }

  /** The mismatch a binding records for an accessor outcome, if any. */
  function Check<V>(matcher: Matcher<V>, outcome: Outcome<V>): (r: Option<Mismatch>)
    ensures r.None? <==> outcome.Returned? && matcher.matches(outcome.value)
  {
    match outcome
    case Returned(v) =>
      if matcher.matches(v) then None else Some(MatcherMismatch(matcher.describeMismatch(v)))
    case IllegalAccess => Some(WasNotAccessible)
    case InvocationTarget(name, message) => Some(ThrewException(name, message))
    case NoSuchMethod => Some(DidNotExist)
  }

  /** The mismatch a binding records for the object, if any. */
  function CheckBinding<V>(b: Binding<V>, item: Target<V>): Option<Mismatch>
  {
    Check(b.value, Invoke(item, b.key))
  }

  /** A binding records nothing exactly when the object has the accessor
      and the accessor's result satisfies the binding's matcher; a missing
      accessor always records a mismatch. */
  lemma BindingRecordsNothing<V>(b: Binding<V>, item: Target<V>)
    ensures CheckBinding(b, item).None? <==>
      && b.key in item.methods
      && item.methods[b.key].Returned?
      && b.value.matches(item.methods[b.key].value)
  {
  }

  /** The mismatch map after visiting the given bindings in order, each
      failure put into an insertion-ordered map under its accessor name. */
  function Mismatches<V>(bindings: seq<Binding<V>>, item: Target<V>): seq<Entry<string, Mismatch>>
  {
    if |bindings| == 0 then []
    else
      var last := bindings[|bindings| - 1];
      var done := Mismatches(bindings[..|bindings| - 1], item);
      match CheckBinding(last, item)
      case None => done
      case Some(m) => Put(done, last.key, m)
  }

  /** The mismatch map as describeNestedMismatches receives it: accessor
      name and the text its entry appends. */
  function Rendered(ms: seq<Entry<string, Mismatch>>): (r: seq<Entry<string, string>>)
    ensures |r| == |ms|
    ensures forall i :: 0 <= i < |ms| ==> r[i] == Entry(ms[i].key, MismatchText(ms[i].value))
  {
    if |ms| == 0 then [] else [Entry(ms[0].key, MismatchText(ms[0].value))] + Rendered(ms[1..])
  }

  /** What each of the four accessor outcomes records. */
  lemma ClassifyOutcome<V>(matcher: Matcher<V>, outcome: Outcome<V>)
    ensures outcome.Returned? && !matcher.matches(outcome.value) ==>
      MismatchText(Check(matcher, outcome).value) == matcher.describeMismatch(outcome.value)
    ensures outcome.IllegalAccess? ==>
      MismatchText(Check(matcher, outcome).value) == "was not accessible"
    ensures outcome.InvocationTarget? ==>
      MismatchText(Check(matcher, outcome).value) ==
        "threw an exception: " + outcome.causeName + ": " + outcome.causeMessage
    ensures outcome.NoSuchMethod? ==>
      MismatchText(Check(matcher, outcome).value) == "did not exist"
  {
  }

  /** The indices of the failing bindings, in binding order. */
  ghost function FailingIndices<V>(bindings: seq<Binding<V>>, item: Target<V>): (idx: seq<nat>)
    ensures forall k :: 0 <= k < |idx| ==>
      idx[k] < |bindings| && CheckBinding(bindings[idx[k]], item).Some?
    ensures forall k, l :: 0 <= k < l < |idx| ==> idx[k] < idx[l]
    ensures forall i :: 0 <= i < |bindings| && CheckBinding(bindings[i], item).Some? ==> i in idx
  {
    if |bindings| == 0 then []
    else
      var n := |bindings| - 1;
      var idx := FailingIndices(bindings[..n], item);
      assert forall i :: 0 <= i < n ==> bindings[..n][i] == bindings[i];
      if CheckBinding(bindings[n], item).Some? then idx + [n] else idx
  }

  /** Entry k of ms is the mismatch of binding idx[k], under its name. */
  ghost predicate Follows<V>(ms: seq<Entry<string, Mismatch>>, idx: seq<nat>, bindings: seq<Binding<V>>, item: Target<V>)
  {
    && |ms| == |idx|
    && forall k :: 0 <= k < |ms| ==>
         && idx[k] < |bindings|
         && ms[k].key == bindings[idx[k]].key
         && CheckBinding(bindings[idx[k]], item) == Some(ms[k].value)
  }

  lemma FollowsExtend<V>(ms: seq<Entry<string, Mismatch>>, idx: seq<nat>, bindings: seq<Binding<V>>, item: Target<V>, m: Mismatch)
    requires |bindings| > 0
    requires Follows(ms, idx, bindings[..|bindings| - 1], item)
    requires CheckBinding(bindings[|bindings| - 1], item) == Some(m)
    ensures Follows(ms + [Entry(bindings[|bindings| - 1].key, m)], idx + [|bindings| - 1], bindings, item)
  {
    var n := |bindings| - 1;
    forall k | 0 <= k < |ms| ensures idx[k] < n && bindings[..n][idx[k]] == bindings[idx[k]] {
    }
  }

  lemma FollowsWiden<V>(ms: seq<Entry<string, Mismatch>>, idx: seq<nat>, bindings: seq<Binding<V>>, item: Target<V>)
    requires |bindings| > 0
    requires Follows(ms, idx, bindings[..|bindings| - 1], item)
    ensures Follows(ms, idx, bindings, item)
  {
    var n := |bindings| - 1;
    forall k | 0 <= k < |ms| ensures idx[k] < n && bindings[..n][idx[k]] == bindings[idx[k]] {
    }
  }

  /** The name of the last binding is not yet a key of a map that follows
      the bindings before it, because binding names are distinct. */
  lemma FollowsKeyFresh<V>(ms: seq<Entry<string, Mismatch>>, idx: seq<nat>, bindings: seq<Binding<V>>, item: Target<V>)
    requires |bindings| > 0 && DistinctKeys(bindings)
    requires Follows(ms, idx, bindings[..|bindings| - 1], item)
    ensures bindings[|bindings| - 1].key !in Keys(ms)
  {
    var n := |bindings| - 1;
    forall k | 0 <= k < |ms| ensures Keys(ms)[k] != bindings[n].key {
      assert Keys(ms)[k] == bindings[..n][idx[k]].key == bindings[idx[k]].key;
    }
  }

  /** Every binding is attempted, and the mismatch map holds one entry per
      failing binding, under its name, in binding order: the
      insertion-ordered map never overwrites, because the names are
      distinct. */
  lemma {:induction false} MismatchesFollowBindings<V>(bindings: seq<Binding<V>>, item: Target<V>)
    requires DistinctKeys(bindings)
    ensures Follows(Mismatches(bindings, item), FailingIndices(bindings, item), bindings, item)
  {
    if |bindings| > 0 {
      var n := |bindings| - 1;
      var init := bindings[..n];
      DistinctKeysPrefix(bindings, n);
      MismatchesFollowBindings(init, item);
      var done := Mismatches(init, item);
      var idx := FailingIndices(init, item);
      match CheckBinding(bindings[n], item)
      case None =>
        assert Mismatches(bindings, item) == done && FailingIndices(bindings, item) == idx;
        FollowsWiden(done, idx, bindings, item);
      case Some(m) =>
        assert Mismatches(bindings, item) == Put(done, bindings[n].key, m);
        assert FailingIndices(bindings, item) == idx + [n];
        FollowsKeyFresh(done, idx, bindings, item);
        PutFresh(done, bindings[n].key, m);
        FollowsExtend(done, idx, bindings, item, m);
    }
  }

  /** The mismatch map's keys are binding names. */
  lemma MismatchKeysAreBindingKeys<V>(bindings: seq<Binding<V>>, item: Target<V>)
    requires DistinctKeys(bindings)
    ensures forall k :: k in Keys(Mismatches(bindings, item)) ==> k in Keys(bindings)
  {
    var ms := Mismatches(bindings, item);
    var idx := FailingIndices(bindings, item);
    MismatchesFollowBindings(bindings, item);
    forall k | k in Keys(ms) ensures k in Keys(bindings) {
      var j :| 0 <= j < |ms| && Keys(ms)[j] == k;
      assert idx[j] < |bindings| && ms[j].key == bindings[idx[j]].key;
      assert Keys(bindings)[idx[j]] == k;
    }
  }

  /** The mismatch map is empty exactly when every binding's accessor
      returned a value its matcher accepts. */
  lemma NoMismatchIffAllMatch<V>(bindings: seq<Binding<V>>, item: Target<V>)
    requires DistinctKeys(bindings)
    ensures |Mismatches(bindings, item)| == 0 <==>
      forall i :: 0 <= i < |bindings| ==>
        var outcome := Invoke(item, bindings[i].key);
        outcome.Returned? && bindings[i].value.matches(outcome.value)
  {
    MismatchesFollowBindings(bindings, item);
    var idx := FailingIndices(bindings, item);
    forall i | 0 <= i < |bindings| {
      ClassifyOutcome(bindings[i].value, Invoke(item, bindings[i].key));
    }
    if |idx| > 0 {
      assert CheckBinding(bindings[idx[0]], item).Some?;
    }
  }

  /** When exactly one binding fails, the map holds exactly its entry. */
  lemma SingleMismatch<V>(bindings: seq<Binding<V>>, item: Target<V>, j: nat)
    requires DistinctKeys(bindings)
    requires j < |bindings| && CheckBinding(bindings[j], item).Some?
    requires forall i :: 0 <= i < |bindings| && i != j ==> CheckBinding(bindings[i], item).None?
    ensures Mismatches(bindings, item) ==
      [Entry(bindings[j].key, CheckBinding(bindings[j], item).value)]
  {
    MismatchesFollowBindings(bindings, item);
    var idx := FailingIndices(bindings, item);
    assert j in idx;
    assert forall k :: 0 <= k < |idx| ==> idx[k] == j;
    assert |idx| == 1;
  }

  /** matchesSafely(item, mismatchDescription). The nested-mismatch layout
      of DescriptionUtils is the parameter describeNestedMismatches, given
      the binding names in order, the mismatch map and describeMethod. */
  method MatchesSafely<V>(
    p: IsPojo<V>,
    item: Target<V>,
    mismatchDescription: Description,
    describeNestedMismatches: (seq<string>, seq<Entry<string, string>>, string -> string) -> string)
    returns (matched: bool)
    modifies mismatchDescription
    ensures !item.isInstance ==>
      && !matched
      && mismatchDescription.text == old(mismatchDescription.text) + "not an instance of " + p.cls.name
    ensures item.isInstance ==> matched == (|Mismatches(p.methodMatchers, item)| == 0)
    ensures item.isInstance && matched ==>
      mismatchDescription.text == old(mismatchDescription.text)
    ensures item.isInstance && !matched ==>
      mismatchDescription.text == old(mismatchDescription.text) + p.cls.simpleName + " " +
        describeNestedMismatches(
          Keys(p.methodMatchers), Rendered(Mismatches(p.methodMatchers, item)), DescribeMethod)
  {
    if !item.isInstance {
      mismatchDescription.AppendText("not an instance of " + p.cls.name);
      return false;
    }

    var mismatches: seq<Entry<string, Mismatch>> := [];
    var i := 0;
    while i < |p.methodMatchers|
      invariant 0 <= i <= |p.methodMatchers|
      invariant mismatches == Mismatches(p.methodMatchers[..i], item)
      invariant mismatchDescription.text == old(mismatchDescription.text)
    {
      var methodName := p.methodMatchers[i].key;
      var matcher := p.methodMatchers[i].value;
      assert p.methodMatchers[..i + 1][..i] == p.methodMatchers[..i];
      // the try/catch: a returned value the matcher rejects, or one of the
      // three reflective exceptions, records a mismatch under the name
      match Check(matcher, Invoke(item, methodName)) {
        case Some(mismatch) =>
          mismatches := Put(mismatches, methodName, mismatch);
        case None =>
      }
      i := i + 1;
    }
    assert p.methodMatchers[..i] == p.methodMatchers;

    if |mismatches| != 0 {
      mismatchDescription.AppendText(p.cls.simpleName);
      mismatchDescription.AppendText(" ");
      mismatchDescription.AppendText(
        describeNestedMismatches(Keys(p.methodMatchers), Rendered(mismatches), DescribeMethod));
      return false;
    }
    return true;
  }

  // -----------------------------------------------------------------------
  // Renderer (describeTo, indentDescription)

  /** What describeTo writes for one binding: the accessor, then the
      sub-matcher's own description re-indented, then a newline. */
  function BindingText<V>(b: Binding<V>): string
  {
    "  " + b.key + "(): " + Indent(b.value.description) + "\n"
  }

  function BodyText<V>(bindings: seq<Binding<V>>): string
  {
    if |bindings| == 0 then ""
    else BodyText(bindings[..|bindings| - 1]) + BindingText(bindings[|bindings| - 1])
  }

  /** The whole text describeTo appends. */
  function Expectation<V>(p: IsPojo<V>): string
  {
    p.cls.simpleName + " {\n" + BodyText(p.methodMatchers) + "}"
  }

  /** The lines one binding contributes: the accessor with the first line
      of the sub-matcher's description, then the description's other lines,
      two spaces further in. */
  function BindingLines<V>(b: Binding<V>): seq<string>
  {
    var lines := Split(b.value.description);
    ["  " + b.key + "(): " + lines[0]] + PrefixAll("  ", lines[1..])
  }

  function BodyLines<V>(bindings: seq<Binding<V>>): seq<string>
  {
    if |bindings| == 0 then []
    else BodyLines(bindings[..|bindings| - 1]) + BindingLines(bindings[|bindings| - 1])
  }

  /** indentDescription(description, innerDescription). */
  method IndentDescription(description: Description, innerDescription: Description)
    modifies description
    ensures description.text ==
      old(description.text) + Indent(old(innerDescription.text)) + "\n"
  {
    var inner := innerDescription.text;
    description.AppendText(Indent(inner));
    description.AppendText("\n");
  }

  lemma BodyTextPrefix<V>(bindings: seq<Binding<V>>, i: nat)
    requires i < |bindings|
    ensures BodyText(bindings[..i + 1]) == BodyText(bindings[..i]) + BindingText(bindings[i])
  {
    assert bindings[..i + 1][..i] == bindings[..i];
  }

  /** The text describeTo has written after one more binding. */
  lemma DescribedOneMore<V>(header: string, before: string, bindings: seq<Binding<V>>, i: nat)
    requires i < |bindings| && before == header + BodyText(bindings[..i])
    ensures before + BindingText(bindings[i]) == header + BodyText(bindings[..i + 1])
  {
    BodyTextPrefix(bindings, i);
  }

  /** The body of describeTo's loop for one binding: the accessor, then
      the sub-matcher's description, written to a fresh StringDescription
      and re-indented. */
  method DescribeBinding<V>(description: Description, methodName: string, matcher: Matcher<V>)
    modifies description
    ensures description.text == old(description.text) + BindingText(Entry(methodName, matcher))
  {
    description.AppendText("  ");
    description.AppendText(methodName);
    description.AppendText("(): ");
    var innerDescription := new Description();
    innerDescription.AppendText(matcher.description);
    assert innerDescription.text == matcher.description;
    IndentDescription(description, innerDescription);
    assert description.text ==
      old(description.text) + ("  " + methodName + "(): " + Indent(matcher.description) + "\n");
  }

  /** describeTo(description). */
  method DescribeTo<V>(p: IsPojo<V>, description: Description)
    modifies description
    ensures description.text == old(description.text) + Expectation(p)
  {
    description.AppendText(p.cls.simpleName);
    description.AppendText(" {\n");
    ghost var header := description.text;
    var i := 0;
    while i < |p.methodMatchers|
      invariant 0 <= i <= |p.methodMatchers|
      invariant description.text == header + BodyText(p.methodMatchers[..i])
    {
      var methodName := p.methodMatchers[i].key;
      var matcher := p.methodMatchers[i].value;
      ghost var before := description.text;
      DescribeBinding(description, methodName, matcher);
      assert Entry(methodName, matcher) == p.methodMatchers[i];
      DescribedOneMore(header, before, p.methodMatchers, i);
      i := i + 1;
    }
    assert p.methodMatchers[..i] == p.methodMatchers;
    description.AppendText("}");
    assert old(description.text) + p.cls.simpleName + " {\n" + BodyText(p.methodMatchers) + "}" ==
      old(description.text) + Expectation(p);
  }

  /** With no bindings the description is the simple name and an empty
      pair of braces on two lines. */
  lemma ExpectationOfPojo<V>(cls: Class)
    ensures Expectation(Pojo<V>(cls)) == cls.simpleName + " {\n}"
  {
  }

  /** Adding a binding with where() adds its text just before the closing
      brace and leaves the text of the earlier bindings in place. */
  lemma ExpectationOfWhere<V>(p: IsPojo<V>, methodName: string, matcher: Matcher<V>)
    requires Where(p, methodName, matcher).Success?
    ensures Expectation(Where(p, methodName, matcher).value) ==
      p.cls.simpleName + " {\n" + BodyText(p.methodMatchers) +
      "  " + methodName + "(): " + Indent(matcher.description) + "\n}"
  {
    var q := Where(p, methodName, matcher).value;
    var n := |p.methodMatchers|;
    assert q.methodMatchers[..n] == p.methodMatchers;
    assert q.methodMatchers[n] == Entry(methodName, matcher);
  }

  lemma BindingTextLines<V>(b: Binding<V>)
    requires '\n' !in b.key
    ensures Split("  " + b.key + "(): " + Indent(b.value.description)) == BindingLines(b)
  {
    var head := "  " + b.key + "(): ";
    var desc := b.value.description;
    assert '\n' !in head by {
      assert '\n' !in "  " && '\n' !in "(): ";
    }
    SplitNoNewline(head);
    SplitAppend(head, Indent(desc));
    IndentedSplit(desc);
    var lines, out := Split(desc), Split(Indent(desc));
    assert out[0] == lines[0] && out[1..] == PrefixAll("  ", lines[1..]);
    assert Fuse([head], out) == [head + out[0]] + out[1..];
  }

  lemma {:induction false} BodyTextLines<V>(bindings: seq<Binding<V>>, tail: string)
    requires forall i :: 0 <= i < |bindings| ==> '\n' !in bindings[i].key
    ensures Split(BodyText(bindings) + tail) == BodyLines(bindings) + Split(tail)
  {
    if |bindings| == 0 {
      assert BodyText(bindings) + tail == tail;
    } else {
      var n := |bindings| - 1;
      var init, b := bindings[..n], bindings[n];
      var x := "  " + b.key + "(): " + Indent(b.value.description);
      assert BodyText(bindings) + tail == BodyText(init) + (x + "\n" + tail);
      BodyTextLines(init, x + "\n" + tail);
      SplitAtNewline(x, tail);
      BindingTextLines(b);
    }
  }

  /** The lines of the description: the simple name with an opening brace,
      then each binding's lines in binding order, then the closing brace. */
  lemma ExpectationLines<V>(p: IsPojo<V>)
    requires '\n' !in p.cls.simpleName
    requires forall i :: 0 <= i < |p.methodMatchers| ==> '\n' !in p.methodMatchers[i].key
    ensures Split(Expectation(p)) ==
      [p.cls.simpleName + " {"] + BodyLines(p.methodMatchers) + ["}"]
  {
    var head := p.cls.simpleName + " {";
    var body := BodyText(p.methodMatchers);
    assert Expectation(p) == head + "\n" + (body + "}");
    SplitAtNewline(head, body + "}");
    BodyTextLines(p.methodMatchers, "}");
    SplitNoNewline(head);
    SplitNoNewline("}");
  }

  lemma {:induction false} SingleLineBodyLines<V>(bindings: seq<Binding<V>>)
    requires forall i :: 0 <= i < |bindings| ==> '\n' !in bindings[i].value.description
    ensures |BodyLines(bindings)| == |bindings|
    ensures forall i :: 0 <= i < |bindings| ==>
      BodyLines(bindings)[i] == "  " + bindings[i].key + "(): " + bindings[i].value.description
  {
    if |bindings| > 0 {
      var n := |bindings| - 1;
      var init := bindings[..n];
      assert forall i :: 0 <= i < n ==> init[i] == bindings[i];
      SingleLineBodyLines(init);
      SplitNoNewline(bindings[n].value.description);
      var line := "  " + bindings[n].key + "(): " + bindings[n].value.description;
      assert BindingLines(bindings[n]) == [line];
      var body, prev := BodyLines(bindings), BodyLines(init);
      assert body == prev + [line];
      forall i | 0 <= i < |bindings|
        ensures body[i] == "  " + bindings[i].key + "(): " + bindings[i].value.description
      {
        if i < n {
          assert body[i] == prev[i] && init[i] == bindings[i];
        }
      }
    }
  }

  /** When no name or description spans lines, the description has exactly
      one line per binding between the opening and the closing line. */
  lemma OneLinePerBinding<V>(p: IsPojo<V>)
    requires '\n' !in p.cls.simpleName
    requires forall i :: 0 <= i < |p.methodMatchers| ==>
      '\n' !in p.methodMatchers[i].key && '\n' !in p.methodMatchers[i].value.description
    ensures var lines := Split(Expectation(p));
      && |lines| == |p.methodMatchers| + 2
      && lines[0] == p.cls.simpleName + " {"
      && lines[|lines| - 1] == "}"
      && forall i :: 0 <= i < |p.methodMatchers| ==>
           lines[i + 1] == "  " + p.methodMatchers[i].key + "(): " + p.methodMatchers[i].value.description
  {
    ExpectationLines(p);
    SingleLineBodyLines(p.methodMatchers);
  }
}
