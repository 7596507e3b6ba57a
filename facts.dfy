/**
 * Properties of the validator model: how tags are tokenised, in which order
 * errors appear, when the walk panics, how the rules relate to each other,
 * and how the aggregate error renders.
 */
module ValidatorFacts {
  import opened Wrappers
  import opened Strings
  import opened Strconv
  import opened Validator

  // ------------------------------------------------------------ error text

  /** Rendering a concatenation of error lists renders each list in turn. */
  lemma {:induction false} TextAppend(a: seq<ValidationError>, b: seq<ValidationError>)
    ensures Text(a + b) == Text(a) + Text(b)
    decreases |b|
  {
    if b == [] {
      assert a + b == a;
      assert Text(a) + Text(b) == Text(a);
    } else {
      var b', last := b[..|b| - 1], b[|b| - 1];
      assert b == b' + [last];
      TextAppend(a, b');
      TextAppendStep(a, b', last);
    }
  }

  /** The inductive step of `TextAppend`: one more error at the end of `b`. */
  lemma TextAppendStep(a: seq<ValidationError>, b: seq<ValidationError>, e: ValidationError)
    requires Text(a + b) == Text(a) + Text(b)
    ensures Text(a + (b + [e])) == Text(a) + Text(b + [e])
  {
    Associative(a, b, [e]);
    TextSnoc(a + b, e);
    TextSnoc(b, e);
    Associative(Text(a), Text(b), e.err.Message());
  }


  /** Appending one error appends its message. */
  lemma TextSnoc(errs: seq<ValidationError>, e: ValidationError)
    ensures Text(errs + [e]) == Text(errs) + e.err.Message()
  {
    var s := errs + [e];
    assert s[..|s| - 1] == errs;
  }

  /** Every message is non-empty, so the text is empty exactly when there is no error. */
  lemma {:induction false} TextEmptyIff(errs: seq<ValidationError>)
    ensures |Text(errs)| >= |errs|
    ensures Text(errs) == "" <==> errs == []
  {
    if errs != [] {
      TextEmptyIff(errs[..|errs| - 1]);
    }
  }

  /** Two errors render as their two messages back to back. */
  lemma TextOfTwo()
    ensures Text([ValidationError(ErrInvalidValidatorSyntax), ValidationError(ErrValidateForUnexportedFields)])
      == "invalid validator syntax" + "validation for unexported field is not allowed"
  {
    var errs := [ValidationError(ErrInvalidValidatorSyntax), ValidationError(ErrValidateForUnexportedFields)];
    assert errs[..1] == [ValidationError(ErrInvalidValidatorSyntax)];
    assert errs[..1][..0] == [];
  }

  // ------------------------------------------------------------ tag parsing

  /** An untagged field has one empty token. */
  lemma ParseTagEmpty()
    ensures ParseTag("") == [""]
  {
    assert Split("", ';') == [""];
    assert SplitAll([""], ':') == Split("", ':') + SplitAll([], ':');
  }

  /** Two clauses joined by `;` give the tokens of the first clause, then those of the second. */
  lemma ParseTagAround(t1: string, t2: string)
    ensures ParseTag(t1 + ";" + t2) == ParseTag(t1) + ParseTag(t2)
  {
    SplitAround(t1, t2, ';');
    SplitAllAppend(Split(t1, ';'), Split(t2, ';'), ':');
  }

  /** `len:4;in:a,b,c` gives `len`, `4`, `in`, `a,b,c`: commas stay inside the argument. */
  lemma ParseTagExample()
    ensures ParseTag("len:4;in:a,b,c") == ["len", "4", "in", "a,b,c"]
  {
    assert "len:4;in:a,b,c" == "len" + ":" + "4" + ";" + "in" + ":" + "a,b,c";
    TwoClauses("len", "4", "in", "a,b,c");
  }

  /** A tag of two clauses gives the two names and arguments in order. */
  lemma TwoClauses(n1: string, a1: string, n2: string, a2: string)
    requires ';' !in n1 && ':' !in n1 && ';' !in a1 && ':' !in a1
    requires ';' !in n2 && ':' !in n2 && ';' !in a2 && ':' !in a2
    ensures ParseTag(n1 + ":" + a1 + ";" + n2 + ":" + a2) == [n1, a1, n2, a2]
  {
    var c1, c2 := n1 + ":" + a1, n2 + ":" + a2;
    assert n1 + ":" + a1 + ";" + n2 + ":" + a2 == c1 + ";" + c2;
    ClauseTokens(n1, a1);
    ClauseTokens(n2, a2);
    ParseTagAround(c1, c2);
  }

  /** A single clause `name:arg` whose parts avoid both separators gives the two tokens. */
  lemma ClauseTokens(name: string, arg: string)
    requires ';' !in name && ':' !in name && ';' !in arg && ':' !in arg
    ensures ParseTag(name + ":" + arg) == [name, arg]
  {
    var c := name + ":" + arg;
    assert ';' !in c by {
      forall k | 0 <= k < |c| ensures c[k] != ';' {
        if k < |name| { assert c[k] == name[k]; }
        else if k > |name| { assert c[k] == arg[k - |name| - 1]; }
      }
    }
    SplitWithoutSeparator(c, ';');
    SplitAround(name, arg, ':');
    SplitWithoutSeparator(name, ':');
    SplitWithoutSeparator(arg, ':');
    assert SplitAll([c], ':') == Split(c, ':') + SplitAll([], ':');
  }

  /** One `rule:argument` clause of a tag. */
  datatype Clause = Clause(name: string, arg: string)

  predicate PlainClauses(clauses: seq<Clause>)
  {
    forall k :: 0 <= k < |clauses| ==>
      ';' !in clauses[k].name && ':' !in clauses[k].name && ';' !in clauses[k].arg && ':' !in clauses[k].arg
  }

  /** The tag `name0:arg0;name1:arg1;...`. */
  function FormatTag(clauses: seq<Clause>): string
    requires |clauses| > 0
  {
    if |clauses| == 1 then clauses[0].name + ":" + clauses[0].arg
    else clauses[0].name + ":" + clauses[0].arg + ";" + FormatTag(clauses[1..])
  }

  /** The tokens a clause list stands for: each clause's name, then its argument. */
  function ClauseTokenList(clauses: seq<Clause>): seq<string>
  {
    if clauses == [] then [] else [clauses[0].name, clauses[0].arg] + ClauseTokenList(clauses[1..])
  }

  /**
   * Parsing a tag of the form `name:arg;name:arg;...`, whose names and
   * arguments contain neither separator, yields exactly the alternating names
   * and arguments.
   */
  lemma {:induction false} TagRoundTrip(clauses: seq<Clause>)
    requires |clauses| > 0 && PlainClauses(clauses)
    ensures ParseTag(FormatTag(clauses)) == ClauseTokenList(clauses)
    ensures |ParseTag(FormatTag(clauses))| == 2 * |clauses|
  {
    ClauseTokens(clauses[0].name, clauses[0].arg);
    if |clauses| > 1 {
      TagRoundTrip(clauses[1..]);
      ParseTagAround(clauses[0].name + ":" + clauses[0].arg, FormatTag(clauses[1..]));
      assert clauses[0].name + ":" + clauses[0].arg + ";" + FormatTag(clauses[1..])
        == (clauses[0].name + ":" + clauses[0].arg) + ";" + FormatTag(clauses[1..]);
    }
  }

  // ------------------------------------------------------------ order of errors

  /** Errors of `a + b` are those of the fields of `a`, then those of `b`; a panic anywhere is a panic. */
  lemma {:induction false} FieldOrder(a: seq<Field>, b: seq<Field>)
    ensures FieldsErrors(a + b) == Then(FieldsErrors(a), FieldsErrors(b))
  {
    if a == [] {
      assert a + b == b;
      ThenUnit(FieldsErrors(b));
    } else {
      assert (a + b)[0] == a[0];
      assert (a + b)[1..] == a[1..] + b;
      FieldOrder(a[1..], b);
      ThenAssociative(FieldErrors(a[0]), FieldsErrors(a[1..]), FieldsErrors(b));
    }
  }

  /** For a slice, the rules of `t1` (whole pairs) are all applied before those of `t2`. */
  lemma {:induction false} SliceRuleOrder(t1: seq<string>, t2: seq<string>, elems: seq<Value>)
    requires |t1| % 2 == 0
    ensures SliceErrors(t1 + t2, elems) == Then(SliceErrors(t1, elems), SliceErrors(t2, elems))
    decreases |t1|
  {
    if t1 == [] {
      assert t1 + t2 == t2;
      ThenUnit(SliceErrors(t2, elems));
    } else if elems == [] {
      var none: seq<ValidationError> := [];
      assert none + none == none;
    } else {
      var t := t1 + t2;
      assert t[0] == t1[0] && t[1] == t1[1];
      assert t[2..] == t1[2..] + t2;
      SliceRuleOrder(t1[2..], t2, elems);
      if Lookup(t1[0]).Some? {
        ThenAssociative(Some(EachErrors(Lookup(t1[0]).value, t1[1], elems)), SliceErrors(t1[2..], elems), SliceErrors(t2, elems));
      }
    }
  }

  /** For a scalar, the rules of `t1` are applied before those of `t2`. */
  lemma {:induction false} ScalarRuleOrder(t1: seq<string>, t2: seq<string>, value: Value)
    requires |t1| % 2 == 0 && |t2| % 2 == 0
    ensures ScalarErrors(t1 + t2, value) == Then(ScalarErrors(t1, value), ScalarErrors(t2, value))
    decreases |t1|
  {
    if t1 == [] {
      assert t1 + t2 == t2;
      ThenUnit(ScalarErrors(t2, value));
    } else {
      var t := t1 + t2;
      assert t[0] == t1[0] && t[1] == t1[1];
      assert t[2..] == t1[2..] + t2;
      ScalarRuleOrder(t1[2..], t2, value);
      if Lookup(t1[0]).Some? {
        ThenAssociative(Some(Check(Lookup(t1[0]).value, value, t1[1])), ScalarErrors(t1[2..], value), ScalarErrors(t2, value));
      }
    }
  }

  /**
   * Clauses are checked in tag order: for two well-formed tags joined by `;`,
   * the field gets the errors of the first tag, then those of the second.
   */
  lemma ClauseOrder(value: Value, t1: string, t2: string)
    requires |ParseTag(t1)| % 2 == 0 && |ParseTag(t2)| % 2 == 0
    ensures FieldErrors(Field(value, t1 + ";" + t2)) == Then(FieldErrors(Field(value, t1)), FieldErrors(Field(value, t2)))
  {
    ParseTagAround(t1, t2);
    TagOrder(value, ParseTag(t1), ParseTag(t2));
  }

  /** The token-list form of `ClauseOrder`: two even token lists are applied one after the other. */
  lemma TagOrder(value: Value, x: seq<string>, y: seq<string>)
    requires |x| % 2 == 0 && |y| % 2 == 0
    ensures TagErrors(value, x + y) == Then(TagErrors(value, x), TagErrors(value, y))
  {
    if value.Slice? {
      SliceRuleOrder(x, y, value.elems);
    } else {
      assert |x + y| % 2 == 0;
      ScalarRuleOrder(x, y, value);
    }
  }

  /** A rule produces no error on a slice exactly when every element passes it. */
  lemma {:induction false} EachErrorsEmptyIff(rule: Rule, arg: string, elems: seq<Value>)
    ensures EachErrors(rule, arg, elems) == [] <==> forall m :: 0 <= m < |elems| ==> rule.Valid(elems[m], arg).None?
  {
    if elems != [] {
      EachErrorsEmptyIff(rule, arg, elems[1..]);
      assert forall m :: 1 <= m < |elems| ==> elems[m] == elems[1..][m - 1];
    }
  }

  /** A slice with exactly one failing element gets exactly one error: the one that element's check returned. */
  lemma OneFailingElement(rule: Rule, arg: string, elems: seq<Value>, k: nat)
    requires k < |elems|
    requires rule.Valid(elems[k], arg).Some?
    requires forall m :: 0 <= m < |elems| && m != k ==> rule.Valid(elems[m], arg).None?
    ensures EachErrors(rule, arg, elems) == [ValidationError(rule.Valid(elems[k], arg).value)]
  {
    PassingRun(rule, arg, elems, 0, k);
    PassingRun(rule, arg, elems, k + 1, |elems|);
    AroundElement(rule, arg, elems, k);
  }

  /** A run of elements that all pass produces no error. */
  lemma PassingRun(rule: Rule, arg: string, elems: seq<Value>, lo: nat, hi: nat)
    requires lo <= hi <= |elems|
    requires forall m :: lo <= m < hi ==> rule.Valid(elems[m], arg).None?
    ensures EachErrors(rule, arg, elems[lo..hi]) == []
  {
    var run := elems[lo..hi];
    forall m | 0 <= m < |run| ensures rule.Valid(run[m], arg).None? {
      assert run[m] == elems[lo + m];
    }
    EachErrorsEmptyIff(rule, arg, run);
  }

  /** The errors of a slice are those before element `k`, then element `k`'s, then those after it. */
  lemma AroundElement(rule: Rule, arg: string, elems: seq<Value>, k: nat)
    requires k < |elems|
    ensures EachErrors(rule, arg, elems) ==
      EachErrors(rule, arg, elems[0..k]) + Check(rule, elems[k], arg) + EachErrors(rule, arg, elems[k + 1..|elems|])
  {
    var before, after := elems[0..k], elems[k + 1..|elems|];
    assert elems == before + [elems[k]] + after;
    EachErrorsAppend(rule, arg, before + [elems[k]], after);
    EachErrorsAppend(rule, arg, before, [elems[k]]);
    assert EachErrors(rule, arg, [elems[k]]) == Check(rule, elems[k], arg) + EachErrors(rule, arg, []);
  }

  // ------------------------------------------------------------ odd tags and panics

  /**
   * A scalar field whose tag has an even number of separators (an odd number
   * of tokens) is skipped: no rule is applied and no error is produced.
   */
  lemma OddTagScalarSkipped(f: Field)
    requires !f.value.Slice?
    requires (Count(f.tag, ';') + Count(f.tag, ':')) % 2 == 0
    ensures FieldErrors(f) == Some([])
  {
    var tags := ParseTag(f.tag);
    OddSuccessor(Count(f.tag, ';') + Count(f.tag, ':'));
    OddTokensSkipped(f.value, tags);
  }

  lemma OddSuccessor(n: int)
    requires n % 2 == 0
    ensures (1 + n) % 2 == 1
  {
  }

  lemma OddTokensSkipped(value: Value, tags: seq<string>)
    requires !value.Slice? && |tags| % 2 == 1
    ensures TagErrors(value, tags) == Some([])
  {
  }

  /** An untagged scalar or empty slice contributes nothing; an untagged non-empty slice panics. */
  lemma UntaggedField(value: Value)
    ensures FieldErrors(Field(value, "")) == if value.Slice? && value.elems != [] then None else Some([])
  {
    ParseTagEmpty();
  }

  /** A record whose fields are all untagged, and none a non-empty slice, produces no error. */
  lemma {:induction false} UntaggedRecord(fields: seq<Field>)
    requires forall k :: 0 <= k < |fields| ==>
      fields[k].tag == "" && !(fields[k].value.Slice? && fields[k].value.elems != [])
    ensures FieldsErrors(fields) == Some([])
  {
    if fields != [] {
      assert fields[0] == Field(fields[0].value, "");
      UntaggedField(fields[0].value);
      assert forall k :: 0 <= k < |fields| - 1 ==> fields[1..][k] == fields[k + 1];
      UntaggedRecord(fields[1..]);
      ThenUnit(Some([]));
    }
  }

  /** The pair starting at token `k` cannot be applied: it has no argument or an unregistered name. */
  predicate BadClause(tags: seq<string>, k: int)
  {
    0 <= k < |tags| && k % 2 == 0 && (k + 1 == |tags| || Lookup(tags[k]).None?)
  }

  lemma {:induction false} SlicePanicsIff(tags: seq<string>, elems: seq<Value>)
    ensures SliceErrors(tags, elems).None? <==> elems != [] && exists k :: BadClause(tags, k)
    decreases |tags|
  {
    if tags == [] || elems == [] {
    } else if |tags| == 1 || Lookup(tags[0]).None? {
      assert BadClause(tags, 0);
    } else {
      SlicePanicsIff(tags[2..], elems);
      ShiftBadClause(tags);
    }
  }

  lemma {:induction false} ScalarPanicsIff(tags: seq<string>, value: Value)
    requires |tags| % 2 == 0
    ensures ScalarErrors(tags, value).None? <==> exists k :: BadClause(tags, k)
    decreases |tags|
  {
    if tags == [] {
    } else if Lookup(tags[0]).None? {
      assert BadClause(tags, 0);
    } else {
      ScalarPanicsIff(tags[2..], value);
      ShiftBadClause(tags);
    }
  }

  /** With the first pair applicable, the bad pairs are exactly those of the remaining tokens. */
  lemma ShiftBadClause(tags: seq<string>)
    requires |tags| >= 2 && Lookup(tags[0]).Some?
    ensures (exists k :: BadClause(tags, k)) <==> (exists k :: BadClause(tags[2..], k))
  {
    if exists k :: BadClause(tags, k) {
      var k :| BadClause(tags, k);
      assert tags[2..][k - 2] == tags[k];
      assert BadClause(tags[2..], k - 2);
    }
    if exists k :: BadClause(tags[2..], k) {
      var k :| BadClause(tags[2..], k);
      assert tags[2..][k] == tags[k + 2];
      assert BadClause(tags, k + 2);
    }
  }

  /**
   * When a field panics: a slice with at least one element, or a scalar with
   * an even token list, whose tokens hold a pair without an argument or with
   * an unregistered rule name.
   */
  lemma FieldPanicsIff(f: Field)
    ensures FieldErrors(f).None? <==>
      (if f.value.Slice? then f.value.elems != [] else |ParseTag(f.tag)| % 2 == 0)
      && exists k :: BadClause(ParseTag(f.tag), k)
  {
    var tags := ParseTag(f.tag);
    if f.value.Slice? {
      SlicePanicsIff(tags, f.value.elems);
    } else if |tags| % 2 == 0 {
      ScalarPanicsIff(tags, f.value);
    }
  }

  /** A field whose tag is a list of `name:arg` clauses with registered names never panics. */
  lemma WellFormedTagNeverPanics(value: Value, clauses: seq<Clause>)
    requires |clauses| > 0 && PlainClauses(clauses)
    requires forall k :: 0 <= k < |clauses| ==> clauses[k].name in Validators
    ensures FieldErrors(Field(value, FormatTag(clauses))).Some?
  {
    TagRoundTrip(clauses);
    RegisteredNames(clauses);
    FieldPanicsIff(Field(value, FormatTag(clauses)));
  }

  /** The token list of clauses with registered names has no bad pair. */
  lemma RegisteredNames(clauses: seq<Clause>)
    requires forall k :: 0 <= k < |clauses| ==> clauses[k].name in Validators
    ensures forall k :: !BadClause(ClauseTokenList(clauses), k)
  {
    var tokens := ClauseTokenList(clauses);
    TokenNames(clauses);
    forall k ensures !BadClause(tokens, k) {
      if 0 <= k < |tokens| && k % 2 == 0 {
        assert tokens[k] == clauses[k / 2].name;
        assert k + 1 != |tokens|;
      }
    }
  }

  /** In the token list of a clause list, token `2p` is the name of clause `p`. */
  lemma {:induction false} TokenNames(clauses: seq<Clause>)
    ensures |ClauseTokenList(clauses)| == 2 * |clauses|
    ensures forall k :: 0 <= k < |ClauseTokenList(clauses)| && k % 2 == 0 ==>
      ClauseTokenList(clauses)[k] == clauses[k / 2].name
  {
    if clauses != [] {
      TokenNames(clauses[1..]);
      var tokens := ClauseTokenList(clauses);
      var rest := ClauseTokenList(clauses[1..]);
      forall k | 0 <= k < |tokens| && k % 2 == 0
        ensures tokens[k] == clauses[k / 2].name
      {
        if k >= 2 {
          assert tokens[k] == rest[k - 2];
          assert (k - 2) / 2 == k / 2 - 1;
          assert clauses[1..][(k - 2) / 2] == clauses[k / 2];
        }
      }
    }
  }

  // ------------------------------------------------------------ the rules

  /** What `min` and `max` compare: a string's byte length or an int's value. */
  function Measure(value: Value): int
    requires value.Int? || value.Str?
  {
    if value.Int? then value.i else ByteLen(value.s)
  }

  /** `min:lo` and `max:hi` both pass exactly when the measure lies in `[lo, hi]`. */
  lemma MinMaxWindow(value: Value, lo: string, hi: string)
    requires value.Int? || value.Str?
    requires Atoi(lo).Some? && Atoi(hi).Some?
    ensures MinValid(value, lo).None? && MaxValid(value, hi).None? <==>
      Atoi(lo).value <= Measure(value) <= Atoi(hi).value
  {
  }

  /** A malformed bound is a syntax error for `len`, `min` and `max`, whatever the value. */
  lemma MalformedBound(value: Value, arg: string)
    requires Atoi(arg).None?
    ensures ValidateLen.Valid(value, arg) == Some(ErrInvalidValidatorSyntax)
    ensures ValidateMin.Valid(value, arg) == Some(ErrInvalidValidatorSyntax)
    ensures ValidateMax.Valid(value, arg) == Some(ErrInvalidValidatorSyntax)
  {
  }

  /**
   * On an ASCII string, where bytes and code points coincide, `len:n` passes
   * exactly when both `min:n` and `max:n` pass.
   */
  lemma LenMatchesBoundsOnAscii(s: string, n: string)
    requires forall k :: 0 <= k < |s| ==> s[k] as int < 0x80
    requires Atoi(n).Some?
    ensures LenValid(Str(s), n).None? <==> MinValid(Str(s), n).None? && MaxValid(Str(s), n).None?
  {
  }

  /** `len` counts code points while `max` counts bytes: `é` has length 1 but two bytes. */
  lemma LenAndMaxDisagree()
    ensures LenValid(Str("\U{e9}"), "1") == None
    ensures MaxValid(Str("\U{e9}"), "1") == Some(ErrValidateForUnexportedFields)
  {
    assert Unsigned("1") == "1";
    assert DigitsValue("1") == 1 by { assert "1"[..0] == ""; }
  }

  /** A string containing a comma can never equal a candidate of `in`. */
  lemma InRejectsComma(s: string, tag: string)
    requires ',' in s
    ensures InValid(Str(s), tag) == Some(ErrInvalidValidatorSyntax)
  {
    var arr := Split(tag, ',');
    forall k | 0 <= k < |arr| ensures arr[k] != s {
      assert ',' !in arr[k];
    }
  }

  /** For `in:c1,c2,...` with comma-free candidates, a non-empty string passes exactly when it is a candidate. */
  lemma InStringCandidates(s: string, cands: seq<string>)
    requires |cands| > 0
    requires forall k :: 0 <= k < |cands| ==> ',' !in cands[k]
    ensures InValid(Str(s), Join(cands, ',')).None? <==> s != "" && s in cands
  {
    JoinSplit(cands, ',');
  }

  /** The decimal spellings of a list of integers. */
  function Spellings(ns: seq<Int64>): (r: seq<string>)
    ensures |r| == |ns|
    ensures forall k :: 0 <= k < |ns| ==> r[k] == Itoa(ns[k])
  {
    if ns == [] then [] else [Itoa(ns[0])] + Spellings(ns[1..])
  }

  /**
   * For `in:` followed by comma-free candidates that parse to the integers
   * `ns`, in any spelling `Atoi` accepts, an int passes exactly when it is one of them.
   */
  lemma InIntCandidates(i: Int64, cands: seq<string>, ns: seq<Int64>)
    requires |cands| > 0 && |cands| == |ns|
    requires forall k :: 0 <= k < |cands| ==> ',' !in cands[k] && Atoi(cands[k]) == Some(ns[k])
    ensures InValid(Int(i), Join(cands, ',')).None? <==> i in ns
  {
    JoinSplit(cands, ',');
    var parsed := ParseInts(cands);
    assert parsed.Some?;
    assert parsed.value == ns by {
      forall k | 0 <= k < |ns| ensures parsed.value[k] == ns[k] {
        assert Atoi(cands[k]) == Some(parsed.value[k]);
      }
    }
  }

  /** In particular, for candidates written by `Itoa`. */
  lemma InIntSpellings(i: Int64, ns: seq<Int64>)
    requires |ns| > 0
    ensures InValid(Int(i), Join(Spellings(ns), ',')).None? <==> i in ns
  {
    var cands := Spellings(ns);
    forall k | 0 <= k < |cands| ensures ',' !in cands[k] && Atoi(cands[k]) == Some(ns[k]) {
      assert cands[k] == Itoa(ns[k]);
      AtoiItoa(ns[k]);
    }
    InIntCandidates(i, cands, ns);
  }

  /** Examples of each rule. */
  lemma RuleExamples()
    ensures LenValid(Str("hello"), "5") == None
    ensures LenValid(Str("hi"), "5") == Some(ErrValidateForUnexportedFields)
    ensures MinValid(Int(2), "3") == Some(ErrValidateForUnexportedFields)
    ensures MinValid(Int(3), "3") == None && MinValid(Int(10), "3") == None
    ensures MaxValid(Int(11), "10") == Some(ErrValidateForUnexportedFields)
    ensures MaxValid(Int(10), "10") == None
    ensures MinValid(Int(7), "abc") == Some(ErrInvalidValidatorSyntax)
    ensures InValid(Str(""), "foo,bar") == Some(ErrInvalidValidatorSyntax)
  {
    assert Unsigned("5") == "5" && Unsigned("3") == "3";
    assert DigitsValue("5") == 5 by { assert "5"[..0] == ""; }
    assert DigitsValue("3") == 3 by { assert "3"[..0] == ""; }
    assert Unsigned("10") == "10";
    assert DigitsValue("10") == 10 by { assert "10"[..1] == "1"; assert "1"[..0] == ""; }
    assert !AllDigits(Unsigned("abc")) by { assert Unsigned("abc")[0] == 'a'; }
  }

  /** `in:1,2,3` accepts 2 and rejects 4 with a syntax error. */
  lemma InIntExample()
    ensures InValid(Int(2), "1,2,3") == None
    ensures InValid(Int(4), "1,2,3") == Some(ErrInvalidValidatorSyntax)
  {
    var ns: seq<Int64> := [1, 2, 3];
    assert Itoa(1) == "1" && Itoa(2) == "2" && Itoa(3) == "3";
    assert Spellings(ns) == ["1", "2", "3"];
    assert Join(["1", "2", "3"], ',') == "1,2,3";
    InIntSpellings(2, ns);
    InIntSpellings(4, ns);
  }

  /** A `min:2` slice of three ints with one below the bound gets exactly one error. */
  lemma SliceExample()
    ensures FieldErrors(Field(Slice([Int(5), Int(1), Int(3)]), "min:2"))
      == Some([ValidationError(ErrValidateForUnexportedFields)])
  {
    var elems := [Int(5), Int(1), Int(3)];
    MinClauseExample();
    MinElementsExample();
    OneClauseSlice("min", "2", elems);
  }

  /** A slice under a single registered clause gets that rule's errors on its elements. */
  lemma OneClauseSlice(name: string, arg: string, elems: seq<Value>)
    requires name in Validators
    ensures SliceErrors([name, arg], elems) == Some(EachErrors(Validators[name], arg, elems))
  {
    var tags := [name, arg];
    assert tags[2..] == [];
    ThenUnit(Some(EachErrors(Validators[name], arg, elems)));
  }

  lemma MinElementsExample()
    ensures EachErrors(ValidateMin, "2", [Int(5), Int(1), Int(3)]) == [ValidationError(ErrValidateForUnexportedFields)]
  {
    var elems := [Int(5), Int(1), Int(3)];
    MinTwoExample();
    OneFailingElement(ValidateMin, "2", elems, 1);
  }

  lemma MinClauseExample()
    ensures ParseTag("min:2") == ["min", "2"]
  {
    assert "min:2" == "min" + ":" + "2";
    ClauseTokens("min", "2");
  }

  lemma MinTwoExample()
    ensures MinValid(Int(5), "2") == None && MinValid(Int(3), "2") == None
    ensures MinValid(Int(1), "2") == Some(ErrValidateForUnexportedFields)
  {
    assert Unsigned("2") == "2";
    assert DigitsValue("2") == 2 by { assert "2"[..0] == ""; }
  }
}
