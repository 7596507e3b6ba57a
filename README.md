# Tag-driven struct validator, modelled in Dafny

The Go package `validator` checks the fields of a struct against rules
written in each field's `validate` tag, for example `len:4;in:a,b,c`.
`Validate(v)` behaves as follows:

- If `v` is not a struct, it returns `ErrNotStruct`.
- Otherwise it goes through the fields in declaration order. Each field's
  tag is split into tokens by `ParseValidator`: first on `;`, then each piece
  on `:`.
- The tokens are read in pairs (rule name, argument). The names are looked
  up in the registry `Validators`, which holds `len`, `min`, `max` and `in`.
- Each failing check appends one `ValidationError` to a list. `Validate`
  returns nil when the list is empty, and the whole list otherwise.
- `ValidationErrors.Error()` renders the list as the concatenation of its
  messages.

How the rules are applied:
- On a slice field, each pair is applied to every element, pair after pair.
- On a scalar field, the pairs are applied only when the number of tokens
  is even; with an odd number the field is skipped.
- The code never checks that a name is registered, nor that a pair has an
  argument. Either case makes the program panic:
  - on a slice field, only if the slice has at least one element;
  - on a scalar field, only if the token count is even (a missing argument
    cannot occur there).

What each rule checks:
- `len` compares a string's number of code points with its argument.
- `min` and `max` compare a string's length in *bytes*, or an `int`'s value,
  with their argument. They accept every other kind.
- `in` requires an `int` or a non-empty string that equals one of the
  comma-separated candidates.
- A rule violation is reported with the sentinel
  `ErrValidateForUnexportedFields`. A malformed argument, an unsupported
  kind, or a value missing from `in` is reported with
  `ErrInvalidValidatorSyntax`.

The model is split into modules:
- `Wrappers`: `Option`.
- `Strings`: `strings.Split` and `strings.Join` with a one-character
  separator, and UTF-8 byte length.
- `Strconv`: `strconv.Atoi` and `strconv.Itoa` for a 64-bit `int`.
- `Validator`: the errors, the reflected values, the four rules, tag
  parsing, and the walk. The source's loops are methods, each proved against
  a specification function:
  - `Validate` against `FieldsErrors`, and its per-field loop `ApplyRules`
    against `TagErrors`, which is built from `SliceErrors` for a slice
    field and `ScalarErrors` otherwise; those apply `EachErrors` (a rule on
    every element) and `Check` (one rule application, one error or none);
  - `ParseValidator` against `ParseTag`;
  - `ValidationErrors.Error` against `Text`;
  - `ConvertToArrayInt` against `ParseInts`, which is built from `Atoi`;
  - `Contains` against sequence membership (`in`).
- `ValidatorFacts`: the properties of the model.

A panic is an explicit outcome. In the specification functions it is
`None`; `Validate` returns `Panic`.

Behaviour a reader of the tag format may not expect, all of it as the code
does it:

- **Tag example.** The tag `len:4;in:a,b,c` is not split on commas by the
  parser. It yields `len`, `4`, `in`, `a,b,c`; the `in` rule does the comma
  split itself (`ParseTagExample`).
- **Order of errors.** A slice's errors come from the first pair over all
  elements, then from the second pair over all elements. They are not
  grouped element by element (`SliceRuleOrder`, `EachErrorsAppend`).
- **Untagged fields.** An untagged field is not ignored in every case. A
  missing tag is `""`, which parses to the single token `""`. A non-empty
  slice without a tag therefore panics on the missing argument
  (`UntaggedField`). An untagged record is valid only when it has no
  non-empty slice field (`UntaggedRecord`).
- **Negative `len` argument.** The argument of `len` is not required to be
  non-negative. A negative argument parses, and then no string can match it.

## Model

| member | source | states |
|---|---|---|
| Strings.Split | validator.go:76-79 | `strings.Split` with a one-character separator: there is one piece more than there are separators, and no piece contains the separator |
| Strings.SplitJoin | validator.go:76 | joining the pieces of a split with the same separator gives back the string |
| Strings.JoinSplit | validator.go:147 | splitting candidates joined by a separator none of them contains gives back exactly those candidates |
| Strings.SplitAround | validator.go:76 | splitting `a;b` gives the pieces of `a` followed by those of `b` |
| Strings.SplitWithin | validator.go:79 | a character absent from a string is absent from every piece of its split |
| Strings.CountAcrossSplit | validator.go:76-79 | splitting on `;` keeps every `:`: the pieces hold as many as the tag |
| Strings.ByteLen | validator.go:111 | Go's `len(s)` lies between the code-point count and four times it, and equals the code-point count exactly when `s` is ASCII |
| Strconv.Atoi | validator.go:88 | a value is returned only for the syntax `[+-]?[0-9]+`, and every such literal of at most 18 characters parses |
| Strconv.AtoiItoa | validator.go:187 | `Atoi` reads back exactly the integer `Itoa` wrote, for every 64-bit integer |
| Strconv.LeadingZero | validator.go:88 | a leading `0` does not change the value of a run of digits |
| Strconv.AtoiPlusAndLeadingZero | validator.go:88 | a `+` sign, or a leading zero after an optional `-`, before a non-empty run of digits gives the same result as the digits alone with the same sign |
| Validator.Sentinel.Message | validator.go:11-13 | every sentinel has a non-empty message |
| Validator.ValidationErrors.Error | validator.go:28-35 | the loop returns the messages of all errors concatenated in list order, without separators |
| Validator.LenValid | validator.go:87-99 | syntax error for an unparsable argument or a non-string value; otherwise passes exactly when the code-point count equals the argument, and fails with the violation sentinel |
| Validator.MinValid | validator.go:104-120 | syntax error for an unparsable argument; a string passes exactly when its byte length is at least the bound, an int when its value is; every other kind passes; a failure is the violation sentinel |
| Validator.MaxValid | validator.go:125-141 | as `min`, with "at most" in place of "at least" |
| Validator.ParseInts | validator.go:184-194 | the candidates parse exactly when every one is a decimal integer, and then element by element into their values |
| Validator.InValid | validator.go:146-173 | an int passes exactly when all candidates parse and it is one of them; a string exactly when it is non-empty and one of the comma-separated candidates; other kinds fail; every failure is a syntax error |
| Validator.Rule.Valid | validator.go:24-26 | no rule ever reports `ErrNotStruct` |
| Validator.Lookup | validator.go:19-20 | each of the four rules is found under its own name (`len`, `min`, `max`, `in`), and whatever is found is the rule of that name, so no other name is registered |
| Validator.Contains | validator.go:175-182 | nil exactly when the needle occurs in the list, otherwise the syntax error |
| Validator.ConvertToArrayInt | validator.go:184-194 | no error exactly when every string parses (exactly when `ParseInts` succeeds), and then the array holds the values in order, which is `ParseInts`' list; otherwise a nil list and the syntax error |
| Validator.SplitAll | validator.go:78-80 | splitting each clause on `:` yields one token per clause plus one per `:`, none containing `:` |
| Validator.SplitAllAppend | validator.go:78-80 | the tokens of two clause lists are those of the first followed by those of the second |
| Validator.SplitAllAvoids | validator.go:79 | tokens split from clauses without a character do not contain it |
| Validator.ParseTag | validator.go:75-82 | a tag yields one token more than it has `;` and `:` separators |
| Validator.ParseTagPlainTokens | validator.go:75-82 | no token of a parsed tag contains `;` or `:` |
| Validator.ParseValidator | validator.go:75-82 | the nested split loop yields exactly the token list `ParseTag` describes |
| Validator.EachErrorsAppend | validator.go:54-59 | checking the elements `xs + ys` yields the errors of `xs`, then those of `ys` |
| Validator.ApplyToElements | validator.go:54-59 | the element loop panics exactly when the slice is non-empty and the pair lacks an argument or names no registered rule; otherwise it returns the rule's errors on the elements in order |
| Validator.ApplyToScalar | validator.go:60-65 | the scalar branch panics exactly when the name is unregistered; otherwise it returns the rule's error on the field, if any |
| Validator.ApplyRules | validator.go:51-67 | the token loop panics exactly when the field specification does, and otherwise returns exactly its errors |
| Validator.Validate | validator.go:37-73 | non-struct input gives `ErrNotStruct`; otherwise a panic, nil, or the full error list of all fields in order, exactly as the field specification determines |
| ValidatorFacts.TextAppend | validator.go:28-35 | the rendering of two concatenated error lists is the concatenation of their renderings |
| ValidatorFacts.TextEmptyIff | validator.go:28-35 | the rendering is at least as long as the list, and empty exactly when there is no error |
| ValidatorFacts.TextOfTwo | validator.go:28-35 | two errors render as their two messages back to back |
| ValidatorFacts.ParseTagEmpty | validator.go:75-82 | an untagged field parses to the single empty token |
| ValidatorFacts.ParseTagAround | validator.go:75-82 | the tokens of `t1;t2` are those of `t1` followed by those of `t2` |
| ValidatorFacts.ClauseTokens | validator.go:75-82 | a clause `name:arg` with separator-free parts parses to `[name, arg]` |
| ValidatorFacts.TwoClauses | validator.go:75-82 | a two-clause tag parses to its two names and arguments in order |
| ValidatorFacts.ParseTagExample | validator.go:75-82 | `len:4;in:a,b,c` parses to `len`, `4`, `in`, `a,b,c` |
| ValidatorFacts.TagRoundTrip | validator.go:75-82 | a tag written in the `name:arg;name:arg` grammar parses back to exactly its alternating names and arguments |
| ValidatorFacts.FieldOrder | validator.go:44-68 | the errors of fields `a + b` are those of `a`, then those of `b`; a panic in either is a panic |
| ValidatorFacts.SliceRuleOrder | validator.go:51-59 | on a slice, all errors of the earlier rule pairs come before those of the later ones |
| ValidatorFacts.ScalarRuleOrder | validator.go:51-65 | on a scalar, the errors of the earlier rule pairs come before those of the later ones |
| ValidatorFacts.TagOrder | validator.go:51-67 | two even token lists contribute their errors one after the other |
| ValidatorFacts.ClauseOrder | validator.go:49-67 | a field tagged `t1;t2` with even token counts gets the errors of `t1`, then those of `t2` |
| ValidatorFacts.EachErrorsEmptyIff | validator.go:54-59 | a rule adds no error to a slice exactly when every element passes it |
| ValidatorFacts.OneFailingElement | validator.go:54-59 | a slice with exactly one failing element gets exactly one error, that element's |
| ValidatorFacts.OddTagScalarSkipped | validator.go:60 | a scalar whose tag has an even number of separators (an odd number of tokens) is skipped with no error |
| ValidatorFacts.UntaggedField | validator.go:49-67 | an untagged field contributes no error, except that a non-empty untagged slice panics |
| ValidatorFacts.UntaggedRecord | validator.go:44-68 | a record whose fields are all untagged and none a non-empty slice has no error |
| ValidatorFacts.SlicePanicsIff | validator.go:53-59 | a slice's walk panics exactly when the slice is non-empty and some pair lacks an argument or names no rule |
| ValidatorFacts.ScalarPanicsIff | validator.go:60-61 | an even scalar walk panics exactly when some pair names no registered rule |
| ValidatorFacts.FieldPanicsIff | validator.go:51-67 | a field panics exactly when it is applied at all (a non-empty slice, or a scalar with an even token count) and some pair is bad |
| ValidatorFacts.WellFormedTagNeverPanics | validator.go:51-67 | a tag of the form `name:arg;name:arg;...` with registered names never panics, whatever the field's value |
| ValidatorFacts.MinMaxWindow | validator.go:104-141 | `min:lo` and `max:hi` both pass exactly when the byte length or int value lies in `[lo, hi]` |
| ValidatorFacts.MalformedBound | validator.go:88-129 | an unparsable bound makes `len`, `min` and `max` report a syntax error, never a violation, for every kind |
| ValidatorFacts.LenMatchesBoundsOnAscii | validator.go:95 | on an ASCII string, `len:n` passes exactly when both `min:n` and `max:n` pass |
| ValidatorFacts.LenAndMaxDisagree | validator.go:132 | `é` passes `len:1` but fails `max:1`, because `len` counts code points and `max` bytes |
| ValidatorFacts.InRejectsComma | validator.go:147-168 | a string containing a comma never passes `in` |
| ValidatorFacts.InStringCandidates | validator.go:160-168 | with comma-free candidates, a string passes `in` exactly when it is non-empty and one of them |
| ValidatorFacts.InIntCandidates | validator.go:150-159 | with comma-free candidates that `Atoi` parses to the integers `ns`, in any accepted spelling, an int passes `in` exactly when it is one of `ns` |
| ValidatorFacts.InIntSpellings | validator.go:150-159 | with candidates written by `Itoa`, an int passes `in` exactly when it is one of them |
| ValidatorFacts.RuleExamples | validator.go:87-173 | `len:5` passes `hello` and fails `hi`; `min:3` fails 2 and passes 3 and 10; `max:10` fails 11 and passes 10; `min:abc` is a syntax error; `in` rejects `""` |
| ValidatorFacts.InIntExample | validator.go:150-159 | `in:1,2,3` accepts 2 and rejects 4 with a syntax error |
| ValidatorFacts.SliceExample | validator.go:53-59 | a `min:2` slice `[5, 1, 3]` gets exactly one violation |

## Left out

- Reflection is replaced by the `Value` datatype. Only the kinds the rules
  tell apart are kept: `int`, `string`, slice and struct. Every other kind
  (`int64`, `uint`, `reflect.Ptr`, arrays, maps, ...) is `Other`, which every rule
  treats as the code treats an unhandled kind.
- Field names and the exported/unexported distinction are left out. The
  code reads every field alike and never checks accessibility, so the model
  does too.
- `Validate(nil)` is not representable: an untyped nil has no `Value`.
- The `fmt.Println` inside `ValidationErrors.Error()` is left out. It is
  output to standard out and does not affect the returned string.
- `Validator.Outcome.Panic` does not distinguish the run-time errors behind
  a panic: a nil `Validator` interface, or an index `tags[j+1]` out of range.
- Go strings are modelled as sequences of code points, so invalid UTF-8 is
  not modelled. `[]rune(s)` would map each invalid byte to U+FFFD.
- `int` is modelled as 64 bits wide (`Strconv.Int64`). A 32-bit platform,
  with its smaller `Atoi` range, is not modelled.
- Identity of the `github.com/pkg/errors` values, and their stack traces,
  are left out. Sentinels are compared by name.
- `Validator.ApplyRules`, `Validator.ApplyToElements` and
  `Validator.ApplyToScalar` are the nested loops of `Validate`, written as
  methods of their own. Their bodies keep the statements of the loops they
  model.
- Strconv.Atoi: its contract states accepted syntax and the 18-character
  fast path, not the exact 64-bit range boundary. The body performs Go's
  range check. The round-trip `Strconv.AtoiItoa` pins the value for every
  64-bit integer, and `Strconv.AtoiPlusAndLeadingZero` for spellings with a
  `+` sign, a leading zero, or `-` followed by a leading zero. Spellings
  with several leading zeros follow by applying it repeatedly, but no
  lemma states that outright.
