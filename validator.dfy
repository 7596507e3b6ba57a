/**
 * The tag-driven struct validator: a record's fields carry `validate` tags
 * such as `len:4;in:a,b,c`; each (rule, argument) pair names one of four
 * built-in rules, and every rule violation found becomes one error in an
 * ordered list. Go's reflection is replaced by the explicit `Value` datatype.
 */
module Validator {
  import opened Wrappers
  import opened Strings
  import opened Strconv

  // ---------------------------------------------------------------- errors

  /** The three sentinel errors, each with its message. */
  datatype Sentinel = ErrNotStruct | ErrInvalidValidatorSyntax | ErrValidateForUnexportedFields
  {
    function Message(): (m: string)
      ensures |m| > 0
    {
      match this
      case ErrNotStruct => "wrong argument given, should be a struct"
      case ErrInvalidValidatorSyntax => "invalid validator syntax"
      case ErrValidateForUnexportedFields => "validation for unexported field is not allowed"
    }
  }

  /** One rule violation; it wraps the sentinel the rule returned. */
  datatype ValidationError = ValidationError(err: Sentinel)

  /** The concatenated messages of `errs`, in list order, with no separator. */
  function Text(errs: seq<ValidationError>): string
  {
    if errs == [] then "" else Text(errs[..|errs| - 1]) + errs[|errs| - 1].err.Message()
  }

  /** The aggregate error `Validate` returns. */
  datatype ValidationErrors = ValidationErrors(list: seq<ValidationError>)
  {
    /** `ValidationErrors.Error()`: the messages of all contained errors, concatenated. */
    method Error() returns (errors: string)
      ensures errors == Text(list)
    {
      errors := "";
      for k := 0 to |list|
        invariant errors == Text(list[..k])
      {
        assert list[..k + 1][..k] == list[..k];
        errors := errors + list[k].err.Message();
      }
      assert list[..|list|] == list;
    }
  }

  // ---------------------------------------------------------------- values

  /** A reflected Go value, reduced to the kinds the rules tell apart. */
  datatype Value =
    | Int(i: Int64)               // kind reflect.Int
    | Str(s: string)              // kind reflect.String
    | Slice(elems: seq<Value>)    // kind reflect.Slice
    | Struct(fields: seq<Field>)  // kind reflect.Struct
    | Other                       // every other kind (int64, uint, reflect.Ptr, arrays, maps, ...)

  /** A struct field: its value and its `validate` tag (`""` when it has none). */
  datatype Field = Field(value: Value, tag: string)

  // ---------------------------------------------------------------- rules

  /** `len`: the string's code-point count must equal the argument. */
  function LenValid(value: Value, sizeM: string): (r: Option<Sentinel>)
    ensures Atoi(sizeM).None? ==> r == Some(ErrInvalidValidatorSyntax)
    ensures Atoi(sizeM).Some? && !value.Str? ==> r == Some(ErrInvalidValidatorSyntax)
    ensures Atoi(sizeM).Some? && value.Str? ==>
      (r.None? <==> |value.s| == Atoi(sizeM).value) &&
      (r.Some? ==> r == Some(ErrValidateForUnexportedFields))
  {
    match Atoi(sizeM)
    case None => Some(ErrInvalidValidatorSyntax)
    case Some(sizeNew) =>
      if !value.Str? then Some(ErrInvalidValidatorSyntax)
      else if |value.s| != sizeNew then Some(ErrValidateForUnexportedFields)
      else None
  }

  /** `min`: a string's byte length, or an int's value, must be at least the argument. */
  function MinValid(value: Value, sizeMin: string): (r: Option<Sentinel>)
    ensures Atoi(sizeMin).None? ==> r == Some(ErrInvalidValidatorSyntax)
    ensures Atoi(sizeMin).Some? && value.Str? ==> (r.None? <==> ByteLen(value.s) >= Atoi(sizeMin).value)
    ensures Atoi(sizeMin).Some? && value.Int? ==> (r.None? <==> value.i >= Atoi(sizeMin).value)
    ensures Atoi(sizeMin).Some? && !value.Str? && !value.Int? ==> r.None?
    ensures Atoi(sizeMin).Some? && r.Some? ==> r == Some(ErrValidateForUnexportedFields)
  {
    match Atoi(sizeMin)
    case None => Some(ErrInvalidValidatorSyntax)
    case Some(size) =>
      match value
      case Str(s) => if ByteLen(s) < size then Some(ErrValidateForUnexportedFields) else None
      case Int(i) => if i < size then Some(ErrValidateForUnexportedFields) else None
      case _ => None
  }

  /** `max`: a string's byte length, or an int's value, must be at most the argument. */
  function MaxValid(value: Value, sizeMax: string): (r: Option<Sentinel>)
    ensures Atoi(sizeMax).None? ==> r == Some(ErrInvalidValidatorSyntax)
    ensures Atoi(sizeMax).Some? && value.Str? ==> (r.None? <==> ByteLen(value.s) <= Atoi(sizeMax).value)
    ensures Atoi(sizeMax).Some? && value.Int? ==> (r.None? <==> value.i <= Atoi(sizeMax).value)
    ensures Atoi(sizeMax).Some? && !value.Str? && !value.Int? ==> r.None?
    ensures Atoi(sizeMax).Some? && r.Some? ==> r == Some(ErrValidateForUnexportedFields)
  {
    match Atoi(sizeMax)
    case None => Some(ErrInvalidValidatorSyntax)
    case Some(size) =>
      match value
      case Str(s) => if ByteLen(s) > size then Some(ErrValidateForUnexportedFields) else None
      case Int(i) => if i > size then Some(ErrValidateForUnexportedFields) else None
      case _ => None
  }

  /**
   * The whole-list form of `ConvertToArrayInt`: every string parsed by `Atoi`,
   * or `None` as soon as one of them does not parse.
   */
  function ParseInts(t: seq<string>): (r: Option<seq<Int64>>)
    ensures r.Some? <==> forall k :: 0 <= k < |t| ==> Atoi(t[k]).Some?
    ensures r.Some? ==> |r.value| == |t| && forall k :: 0 <= k < |t| ==> Atoi(t[k]) == Some(r.value[k])
  {
    if t == [] then Some([])
    else
      var head := Atoi(t[0]);
      var tail := ParseInts(t[1..]);
      assert forall k :: 1 <= k < |t| ==> t[k] == t[1..][k - 1];
      if head.Some? && tail.Some? then Some([head.value] + tail.value) else None
  }

  /**
   * `in`: the value must equal one of the comma-separated candidates. Every
   * failure, including a value of another kind, is a syntax error.
   */
  function InValid(value: Value, tag: string): (r: Option<Sentinel>)
    ensures r != Some(ErrValidateForUnexportedFields) && r != Some(ErrNotStruct)
    ensures value.Int? ==>
      (r.None? <==> ParseInts(Split(tag, ',')).Some? && value.i in ParseInts(Split(tag, ',')).value)
    ensures value.Str? ==> (r.None? <==> value.s != "" && value.s in Split(tag, ','))
    ensures !value.Int? && !value.Str? ==> r.Some?
  {
    var arr := Split(tag, ',');
    match value
    case Int(i) =>
      (match ParseInts(arr)
       case None => Some(ErrInvalidValidatorSyntax)
       case Some(arrNew) => if i in arrNew then None else Some(ErrInvalidValidatorSyntax))
    case Str(s) =>
      if s == "" then Some(ErrInvalidValidatorSyntax)
      else if s in arr then None
      else Some(ErrInvalidValidatorSyntax)
    case _ => Some(ErrInvalidValidatorSyntax)
  }

  /** The four rule implementations behind the `Validator` interface. */
  datatype Rule = ValidateLen | ValidateMin | ValidateMax | ValidateIn
  {
    /** The name under which the rule is registered. */
    function Name(): string
    {
      match this
      case ValidateLen => "len"
      case ValidateMin => "min"
      case ValidateMax => "max"
      case ValidateIn => "in"
    }

    /** `Validator.Valid`: `None` is a nil error. No rule ever reports `ErrNotStruct`. */
    function Valid(value: Value, arg: string): (r: Option<Sentinel>)
      ensures r != Some(ErrNotStruct)
    {
      match this
      case ValidateLen => LenValid(value, arg)
      case ValidateMin => MinValid(value, arg)
      case ValidateMax => MaxValid(value, arg)
      case ValidateIn => InValid(value, arg)
    }
  }

  /** The rule registry, keyed by rule name. */
  const Validators: map<string, Rule> :=
    map["len" := ValidateLen, "min" := ValidateMin, "max" := ValidateMax, "in" := ValidateIn]

  /**
   * `Validators[name]`: every rule is found under its own name, and a name
   * that is not one of the four gives `None` (a nil `Validator`).
   */
  function Lookup(name: string): (r: Option<Rule>)
    ensures forall rule: Rule :: rule.Name() == name ==> r == Some(rule)
    ensures r.Some? ==> r.value.Name() == name
  {
    if name in Validators then Some(Validators[name]) else None
  }

  // ---------------------------------------------------------------- helpers

  /** `Contains`: nil when `needle` occurs in `t`, a syntax error otherwise. */
  method Contains<T(==)>(t: seq<T>, needle: T) returns (err: Option<Sentinel>)
    ensures err.None? <==> needle in t
    ensures err.Some? ==> err == Some(ErrInvalidValidatorSyntax)
  {
    for k := 0 to |t|
      invariant needle !in t[..k]
    {
      if t[k] == needle {
        return None;
      }
    }
    assert t[..|t|] == t;
    return Some(ErrInvalidValidatorSyntax);
  }

  /**
   * `ConvertToArrayInt`: parses every string into a freshly allocated array;
   * on the first string that does not parse it returns a nil list and a syntax error.
   */
  method ConvertToArrayInt(t: seq<string>) returns (ints: seq<Int64>, err: Option<Sentinel>)
    ensures err.None? <==> forall k :: 0 <= k < |t| ==> Atoi(t[k]).Some?
    ensures err.None? ==> |ints| == |t| && forall k :: 0 <= k < |t| ==> Atoi(t[k]) == Some(ints[k])
    ensures err.Some? ==> err == Some(ErrInvalidValidatorSyntax) && ints == []
    ensures err.None? <==> ParseInts(t).Some?
    ensures err.None? ==> ints == ParseInts(t).value
  {
    var t2 := new Int64[|t|];
    for idx := 0 to |t|
      invariant forall k :: 0 <= k < idx ==> Atoi(t[k]) == Some(t2[k])
    {
      var j := Atoi(t[idx]);
      if j.None? {
        return [], Some(ErrInvalidValidatorSyntax);
      }
      t2[idx] := j.value;
    }
    ints := t2[..];
    assert ints == ParseInts(t).value by {
      forall k | 0 <= k < |t| ensures ints[k] == ParseInts(t).value[k] {
        assert Atoi(t[k]) == Some(ParseInts(t).value[k]);
      }
    }
    return ints, None;
  }

  // ---------------------------------------------------------------- tags

  /** The pieces of every string in `pieces` split on `sep`, in order. */
  function SplitAll(pieces: seq<string>, sep: char): (tokens: seq<string>)
    ensures |tokens| == |pieces| + CountAll(pieces, sep)
    ensures forall k :: 0 <= k < |tokens| ==> sep !in tokens[k]
  {
    if pieces == [] then [] else Split(pieces[0], sep) + SplitAll(pieces[1..], sep)
  }

  lemma {:induction false} SplitAllAppend(a: seq<string>, b: seq<string>, sep: char)
    ensures SplitAll(a + b, sep) == SplitAll(a, sep) + SplitAll(b, sep)
  {
    if a == [] {
      assert a + b == b;
    } else {
      assert (a + b)[1..] == a[1..] + b;
      SplitAllAppend(a[1..], b, sep);
    }
  }

  /** No token split out of pieces that avoid `d` contains `d`. */
  lemma {:induction false} SplitAllAvoids(pieces: seq<string>, sep: char, d: char)
    requires forall k :: 0 <= k < |pieces| ==> d !in pieces[k]
    ensures forall k :: 0 <= k < |SplitAll(pieces, sep)| ==> d !in SplitAll(pieces, sep)[k]
  {
    if pieces != [] {
      SplitAllAvoids(pieces[1..], sep, d);
      var head := Split(pieces[0], sep);
      SplitWithin(pieces[0], sep, d);
      var tokens := SplitAll(pieces, sep);
      forall k | 0 <= k < |tokens| ensures d !in tokens[k] {
        if k < |head| {
          assert tokens[k] == head[k];
        } else {
          assert tokens[k] == SplitAll(pieces[1..], sep)[k - |head|];
        }
      }
    }
  }

  /**
   * The token list `ParseValidator` builds: the tag split on `;`, each clause
   * split on `:`. There is one token more than there are separators.
   */
  function ParseTag(tag: string): (tags: seq<string>)
    ensures |tags| == 1 + Count(tag, ';') + Count(tag, ':')
  {
    CountAcrossSplit(tag, ';', ':');
    SplitAll(Split(tag, ';'), ':')
  }

  /** No token of a parsed tag contains either separator. */
  lemma ParseTagPlainTokens(tag: string)
    ensures forall k :: 0 <= k < |ParseTag(tag)| ==> ';' !in ParseTag(tag)[k] && ':' !in ParseTag(tag)[k]
  {
    SplitAllAvoids(Split(tag, ';'), ':', ';');
  }

  /** `ParseValidator`: appends the `:`-pieces of each `;`-clause to one flat list. */
  method ParseValidator(string2: string) returns (tags: seq<string>)
    ensures tags == ParseTag(string2)
  {
    var curTags := Split(string2, ';');
    tags := [];
    for k := 0 to |curTags|
      invariant tags == SplitAll(curTags[..k], ':')
    {
      SplitAllAppend(curTags[..k], [curTags[k]], ':');
      assert curTags[..k + 1] == curTags[..k] + [curTags[k]];
      assert SplitAll([curTags[k]], ':') == Split(curTags[k], ':') + SplitAll([], ':');
      tags := tags + Split(curTags[k], ':');
    }
    assert curTags[..|curTags|] == curTags;
  }

  // ---------------------------------------------------------------- the walk

  /**
   * Errors collected by a part of the walk, or `None` when that part panics
   * (an unregistered rule name, or a rule without an argument).
   */
  function Then(a: Option<seq<ValidationError>>, b: Option<seq<ValidationError>>): Option<seq<ValidationError>>
  {
    if a.Some? && b.Some? then Some(a.value + b.value) else None
  }

  lemma ThenUnit(a: Option<seq<ValidationError>>)
    ensures Then(Some([]), a) == a && Then(a, Some([])) == a
  {
    if a.Some? {
      assert [] + a.value == a.value + [] == a.value;
    }
  }

  lemma ThenAssociative(a: Option<seq<ValidationError>>, b: Option<seq<ValidationError>>, c: Option<seq<ValidationError>>)
    ensures Then(Then(a, b), c) == Then(a, Then(b, c))
  {
    if a.Some? && b.Some? && c.Some? {
      Associative(a.value, b.value, c.value);
    }
  }

  /** The error one rule application contributes: one when it fails, none when it passes. */
  function Check(rule: Rule, value: Value, arg: string): seq<ValidationError>
  {
    match rule.Valid(value, arg)
    case None => []
    case Some(e) => [ValidationError(e)]
  }

  /** One rule applied to every element of a slice, in element order. */
  function EachErrors(rule: Rule, arg: string, elems: seq<Value>): seq<ValidationError>
  {
    if elems == [] then [] else Check(rule, elems[0], arg) + EachErrors(rule, arg, elems[1..])
  }

  /** Checking `xs + ys` element by element is checking `xs`, then `ys`. */
  lemma {:induction false} EachErrorsAppend(rule: Rule, arg: string, xs: seq<Value>, ys: seq<Value>)
    ensures EachErrors(rule, arg, xs + ys) == EachErrors(rule, arg, xs) + EachErrors(rule, arg, ys)
  {
    if xs == [] {
      assert xs + ys == ys;
    } else {
      assert (xs + ys)[0] == xs[0];
      assert (xs + ys)[1..] == xs[1..] + ys;
      EachErrorsAppend(rule, arg, xs[1..], ys);
      Associative(Check(rule, xs[0], arg), EachErrors(rule, arg, xs[1..]), EachErrors(rule, arg, ys));
    }
  }

  /**
   * A slice field: each (rule, argument) pair in tag order, each applied to
   * every element. An empty slice applies nothing and so cannot panic.
   */
  function SliceErrors(tags: seq<string>, elems: seq<Value>): Option<seq<ValidationError>>
    decreases |tags|
  {
    if tags == [] || elems == [] then Some([])
    else if |tags| == 1 || Lookup(tags[0]).None? then None
    else Then(Some(EachErrors(Lookup(tags[0]).value, tags[1], elems)), SliceErrors(tags[2..], elems))
  }

  /** A scalar field with an even token list: each (rule, argument) pair in tag order. */
  function ScalarErrors(tags: seq<string>, value: Value): Option<seq<ValidationError>>
    requires |tags| % 2 == 0
    decreases |tags|
  {
    if tags == [] then Some([])
    else if Lookup(tags[0]).None? then None
    else Then(Some(Check(Lookup(tags[0]).value, value, tags[1])), ScalarErrors(tags[2..], value))
  }

  /**
   * The errors a field holding `value` contributes under the token list `tags`;
   * a scalar field with an odd token list contributes none.
   */
  function TagErrors(value: Value, tags: seq<string>): Option<seq<ValidationError>>
  {
    if value.Slice? then SliceErrors(tags, value.elems)
    else if |tags| % 2 == 0 then ScalarErrors(tags, value)
    else Some([])
  }

  /** The errors one field contributes under its parsed tag. */
  function FieldErrors(f: Field): Option<seq<ValidationError>>
  {
    TagErrors(f.value, ParseTag(f.tag))
  }

  /** The errors of all fields, in field order. */
  function FieldsErrors(fields: seq<Field>): Option<seq<ValidationError>>
  {
    if fields == [] then Some([]) else Then(FieldErrors(fields[0]), FieldsErrors(fields[1..]))
  }

  /** What remains of one field's walk once the pairs before token `j` are done. */
  ghost function PairsFrom(value: Value, tags: seq<string>, j: nat): Option<seq<ValidationError>>
    requires j % 2 == 0
  {
    if j >= |tags| then Some([])
    else if value.Slice? then SliceErrors(tags[j..], value.elems)
    else if |tags| % 2 == 0 then ScalarErrors(tags[j..], value)
    else Some([])
  }

  lemma EvenBelowEven(j: nat, n: nat)
    requires j % 2 == 0 && n % 2 == 0 && j < n
    ensures j + 1 < n
  {
  }

  /** One step of the token loop: the pair at `j` contributes its errors, then the rest follows. */
  lemma PairsFromStep(value: Value, tags: seq<string>, j: nat)
    requires j % 2 == 0 && j + 1 < |tags| && Lookup(tags[j]).Some?
    requires value.Slice? || |tags| % 2 == 0
    ensures PairsFrom(value, tags, j) == Then(Some(
      if value.Slice? then EachErrors(Lookup(tags[j]).value, tags[j + 1], value.elems)
      else Check(Lookup(tags[j]).value, value, tags[j + 1])), PairsFrom(value, tags, j + 2))
  {
    if value.Slice? {
      SliceStep(value.elems, tags, j);
    } else {
      ScalarStep(value, tags, j);
    }
  }

  lemma SliceStep(elems: seq<Value>, tags: seq<string>, j: nat)
    requires j % 2 == 0 && j + 1 < |tags| && Lookup(tags[j]).Some?
    ensures PairsFrom(Slice(elems), tags, j) ==
      Then(Some(EachErrors(Lookup(tags[j]).value, tags[j + 1], elems)), PairsFrom(Slice(elems), tags, j + 2))
  {
    var rest := tags[j..];
    assert rest[0] == tags[j] && rest[1] == tags[j + 1];
    assert rest[2..] == tags[j + 2..];
    var here := EachErrors(Lookup(tags[j]).value, tags[j + 1], elems);
    if elems == [] {
      assert here == [];
      assert PairsFrom(Slice(elems), tags, j + 2) == Some([]);
      ThenUnit(PairsFrom(Slice(elems), tags, j + 2));
    } else {
      assert SliceErrors(rest[2..], elems) == PairsFrom(Slice(elems), tags, j + 2);
    }
  }

  lemma ScalarStep(value: Value, tags: seq<string>, j: nat)
    requires !value.Slice? && |tags| % 2 == 0
    requires j % 2 == 0 && j + 1 < |tags| && Lookup(tags[j]).Some?
    ensures PairsFrom(value, tags, j) ==
      Then(Some(Check(Lookup(tags[j]).value, value, tags[j + 1])), PairsFrom(value, tags, j + 2))
  {
    var rest := tags[j..];
    assert rest[0] == tags[j] && rest[1] == tags[j + 1];
    assert rest[2..] == tags[j + 2..];
    assert |rest| % 2 == 0 && |rest[2..]| % 2 == 0;
    ThenUnit(Some(Check(Lookup(tags[j]).value, value, tags[j + 1])));
    assert ScalarErrors(rest[2..], value) == PairsFrom(value, tags, j + 2);
  }

  /**
   * The innermost loop of `Validate`: the pair at token `j` applied to each
   * element in turn. The rule is looked up, and its argument read, once per
   * element, so an empty slice never panics.
   */
  method ApplyToElements(tags: seq<string>, j: nat, elems: seq<Value>) returns (errors: seq<ValidationError>, panics: bool)
    ensures panics <==> elems != [] && (j + 1 >= |tags| || Lookup(tags[j]).None?)
    ensures !panics && elems != [] ==> errors == EachErrors(Lookup(tags[j]).value, tags[j + 1], elems)
    ensures !panics && elems == [] ==> errors == []
  {
    errors := [];
    for i := 0 to |elems|
      invariant i > 0 ==> j + 1 < |tags| && Lookup(tags[j]).Some?
      invariant i > 0 ==> errors == EachErrors(Lookup(tags[j]).value, tags[j + 1], elems[..i])
      invariant i == 0 ==> errors == []
    {
      var validator := if j < |tags| then Lookup(tags[j]) else None;
      if validator.None? || j + 1 >= |tags| {
        return errors, true;
      }
      var err := validator.value.Valid(elems[i], tags[j + 1]);
      if err.Some? {
        errors := errors + [ValidationError(err.value)];
      }
      EachErrorsAppend(validator.value, tags[j + 1], elems[..i], [elems[i]]);
      assert elems[..i + 1] == elems[..i] + [elems[i]];
    }
    assert elems[..|elems|] == elems;
    return errors, false;
  }

  /** The scalar branch of `Validate`'s token loop: the pair at token `j` applied to the field itself. */
  method ApplyToScalar(tags: seq<string>, j: nat, curField: Value) returns (errors: seq<ValidationError>, panics: bool)
    requires j + 1 < |tags|
    ensures panics <==> Lookup(tags[j]).None?
    ensures !panics ==> errors == Check(Lookup(tags[j]).value, curField, tags[j + 1])
  {
    var validator := Lookup(tags[j]);
    if validator.None? {
      return [], true;
    }
    var err := validator.value.Valid(curField, tags[j + 1]);
    errors := [];
    if err.Some? {
      errors := errors + [ValidationError(err.value)];
    }
    return errors, false;
  }

  /**
   * The loop of `Validate` over one field's tokens, two at a time: a slice's
   * elements are checked under each rule in turn; a scalar is checked only
   * when the token count is even. `panics` reports a nil validator or a
   * missing argument met on the way.
   */
  method ApplyRules(curField: Value, tags: seq<string>) returns (errors: seq<ValidationError>, panics: bool)
    ensures panics <==> TagErrors(curField, tags).None?
    ensures !panics ==> TagErrors(curField, tags) == Some(errors)
  {
    errors := [];
    assert tags[0..] == tags;
    ThenUnit(TagErrors(curField, tags));
    var j := 0;
    while j < |tags|
      invariant j % 2 == 0 && j <= |tags| + 1
      invariant Then(Some(errors), PairsFrom(curField, tags, j)) == TagErrors(curField, tags)
    {
      assert (j + 2) % 2 == 0;
      if curField.Slice? {
        var pairErrors, pairPanics := ApplyToElements(tags, j, curField.elems);
        if pairPanics {
          return errors, true;
        }
        if curField.elems == [] {
          assert PairsFrom(curField, tags, j) == Some([]) == PairsFrom(curField, tags, j + 2);
        } else {
          PairsFromStep(curField, tags, j);
          ThenAssociative(Some(errors), Some(pairErrors), PairsFrom(curField, tags, j + 2));
        }
        errors := errors + pairErrors;
      } else if |tags| % 2 == 0 {
        EvenBelowEven(j, |tags|);
        var pairErrors, pairPanics := ApplyToScalar(tags, j, curField);
        if pairPanics {
          return errors, true;
        }
        PairsFromStep(curField, tags, j);
        ThenAssociative(Some(errors), Some(pairErrors), PairsFrom(curField, tags, j + 2));
        errors := errors + pairErrors;
      }
      j := j + 2;
    }
    ThenUnit(Some(errors));
    return errors, false;
  }

  /** What `Validate` returns: nil, a sentinel error, the aggregate error, or a run-time panic. */
  datatype Outcome = Nil | Failed(err: Sentinel) | Invalid(errors: ValidationErrors) | Panic

  /** One iteration of `Validate`'s loop: field `i` either panics or appends its errors. */
  lemma FieldsStep(errors: seq<ValidationError>, fields: seq<Field>, i: nat)
    requires i < |fields|
    requires Then(Some(errors), FieldsErrors(fields[i..])) == FieldsErrors(fields)
    ensures FieldErrors(fields[i]).None? ==> FieldsErrors(fields).None?
    ensures FieldErrors(fields[i]).Some? ==>
      Then(Some(errors + FieldErrors(fields[i]).value), FieldsErrors(fields[i + 1..])) == FieldsErrors(fields)
  {
    assert fields[i..][1..] == fields[i + 1..];
    ThenAssociative(Some(errors), FieldErrors(fields[i]), FieldsErrors(fields[i + 1..]));
  }

  /**
   * `Validate`: a non-struct gets `ErrNotStruct` before any field is read;
   * a struct gets nil exactly when no field produced an error, and otherwise
   * the complete list of errors in field, rule and element order.
   */
  method Validate(v: Value) returns (r: Outcome)
    ensures !v.Struct? ==> r == Failed(ErrNotStruct)
    ensures v.Struct? && FieldsErrors(v.fields).None? ==> r == Panic
    ensures v.Struct? && FieldsErrors(v.fields) == Some([]) ==> r == Nil
    ensures v.Struct? && FieldsErrors(v.fields).Some? && FieldsErrors(v.fields).value != [] ==>
      r == Invalid(ValidationErrors(FieldsErrors(v.fields).value))
  {
    if !v.Struct? {
      return Failed(ErrNotStruct);
    }
    var fields := v.fields;
    var errors: seq<ValidationError> := [];
    assert fields[0..] == fields;
    ThenUnit(FieldsErrors(fields));
    for i := 0 to |fields|
      invariant Then(Some(errors), FieldsErrors(fields[i..])) == FieldsErrors(fields)
    {
      FieldsStep(errors, fields, i);
      var tags := ParseValidator(fields[i].tag);
      var fieldErrors, panics := ApplyRules(fields[i].value, tags);
      if panics {
        return Panic;
      }
      errors := errors + fieldErrors;
    }
    assert fields[|fields|..] == [];
    ThenUnit(Some(errors));
    if |errors| == 0 {
      return Nil;
    }
    return Invalid(ValidationErrors(errors));
  }
}
