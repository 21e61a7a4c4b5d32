# WebRadio signature interpreter and string cores, in Dafny

WebRadio plays the audio of a video page. To get the stream URL it:
- scans the page's `url_encoded_fmt_stream_map` for the lowest-quality stream;
- percent-decodes that stream's `url` and ciphered signature `s`;
- deciphers the signature by running the page's player script through a small
  interpreter of its own (`JavascriptEngine.cpp`).

This project models that interpreter and the string and state cores around it,
and proves what they compute.

- **Expression pool** (module `JsPool`). The process-wide pool is a class
  `ExpressionPool` over a `seq<Expr>`. An operand is a slot index, as a
  `PtrExpression` is. `Push` appends. `Reset` rebinds one slot in place, so
  every handle with that index sees the new expression. `GetNothing` hands out
  the one shared `Nothing` slot. `Interpret` runs an expression against the
  pool and is proved equal to the pure evaluator.
- **Expressions** (module `JsExpr`). `Eval` is the meaning of `interpret()` for
  each expression kind: `Str`, `Reverse`, `Splice`, `Indexed`, `Modulo`,
  `Length`, `Assign`, `AssignIndexed`, `Nothing`, and a parsed `Function`
  (`Routine`).
  - Operands are always parsed before the expression that uses them, so every
    slot refers only to lower slots (`WellFormed`). This is what makes
    evaluation terminate.
  - Evaluation may rewrite slots: `Assign` rebinds its target, and `Splice`
    stores its clamped start.
- **Classifier** (module `JsPatterns`). Each pattern of `Rgx` is a
  hand-written decomposition of the statement text. `Classify` is the
  if / else-if chain of `parseCode`: a local variable, then an integer literal,
  then `AssignMethod`, `AssignIndexed`, `AssignAny`, `Indexed`, `MethodCall`,
  `DefineFromIndexed`, `Modulo`, `InstanceProperty`. The first match wins.
- **Routine** (module `JsFunction`). `Function` is a class with the fields
  `_varMap`, `_fnMap` and `_stack`.
  - `SetArguments` binds parameters positionally.
  - `ParseStatement` turns a statement into pool expressions, rule by rule.
  - `ParseRoutineCall` finds `var X = { f: function(..){..} }` in the script and
    caches its routines under `"X.f"`.
  - `ParseBody` parses the `;`-separated body in order.
  - `Interpret` runs the statements and returns the last one's value.
- **Parsed statements** (module `JsParsed`). `Parsed` states, per rule of
  `Classify`, the expression `parseCode` builds for a statement, recursively
  down to its operands. `Names` states what its slot refers to: a variable's
  own slot, or the shared `Nothing` for an unknown name. `CountValue` and
  `SpliceCounts` give the start and the delete count of a `splice`. `Total`
  says which statements parse whatever the pool holds.
  - Parsing a statement may evaluate a `splice` count, which may rewrite
    slots. `Grows` bounds what a parse may change: only the variables'
    slots, `Nothing` and the slots the parse itself pushed. Every other slot
    of an earlier statement is kept, so what `Parsed` stated about it stays
    true (`ParsedKept`).
- **Entry points** (module `JsEngine`): `findSignatureFnName`, `findFunction`
  and `decipherSignature`.
- **Split helpers** (module `JsText`): `split` and `isInteger`.
- **HTTP string logic** (module `Http`): `hexToInt`, `decode`, `Url`, and the
  Cookie header built by `getResponseCookies`.
- **Stream-map scanner** (module `HtmlParser`): `findLowestQuality` and `parse`.
- **Basename helpers** (module `Utils`): the constexpr helpers of `Utils.hpp`.
- **Audio state** (module `Audio`): the packet `ObjectPool` and the in-memory
  byte source `CustomAvioContext` with its `read` and `seek`.
- **Shared helpers** (module `Text`): the `std::string` searches, `strtoull`,
  `to_string`, and the character classes.

## How the model reads the code

- **Undefined behaviour is an outcome.** The C++ has several undefined spots.
  Each makes evaluation `Undefined` (the `Outcome` datatype) rather than being
  excluded by a precondition, because the interpreter reaches them on inputs
  the script controls:
  - reading past the terminating NUL in `Indexed`;
  - `%` by zero in `Modulo`;
  - `front()` of an empty splice item;
  - `AssignIndexed::interpret`, which has no `return` statement;
  - `back()` of an empty statement list;
  - `Function::interpret` on an empty statement list, which flows off its end;
  - `setArguments` reading past the last argument;
  - `static_cast<Function*>` of a slot that holds no `Function`.
- **`str[idx]` at `idx == size()`** of a const string is the terminating NUL.
  `Indexed` therefore yields `"\0"` there, and is undefined only beyond it.
- **Duplicate parameter names.** `setArguments` inserts into a `std::map`
  with `args[_varMap.size()]`. A duplicate name is not inserted again, but the
  argument is still read, so the binding is positional only while names are
  distinct (`BindingsOfDistinct`).
- **`Nothing` is a real slot.** An `Assign` whose target resolves to `Nothing`
  rebinds that shared slot. After that, every later `Nothing` reads the
  assigned value. This is modelled as is (`AssignThenRead`, `GetNothing`).
- **`reverse` and `splice` wrap an `Assign`.** Both store their result into the
  instance by returning an `Assign`. In `name = recv.reverse()`, the outer
  `Assign` stores that inner `Assign`'s value, `""`, into `name`
  (`NestedAssignStoresEmpty`).
- **Splice items** are the raw argument texts, quotes included. Each one's
  first character is inserted at the same position, so they end up in reverse
  argument order (`SpliceShape`). The start and the delete count are parsed and
  evaluated when the statement is parsed, with an empty script.
- **`DefineFromIndexed` is dead code.** Its pattern contains a `=`, and
  `AssignAny`, tried before it, matches every text holding a `=`
  (`NeverDefineFromIndexed`). Its branch would also fall through to `Nothing`.
- **Argument evaluation order.** C++ leaves it unspecified in the constructor
  calls of `parseCode` (`new AssignIndexed(parseCode(from), parseCode(to),
  parseCode(index))`). The model parses the operands left to right, as written.
- **Regular expressions.** Each regular expression is a decomposition around
  its anchor character (`=`, `[`, `.`, `%`): greedy `.*` groups run to the last
  occurrence, and `[[:alnum:]]` runs are maximal. A search returns the match at
  the first anchor position that fits (`FirstFit`/`Search`). ECMAScript `.`
  does not match line breaks, so a function body ends at the last `}` of its
  line. Every routine body therefore holds no line break, and neither does any
  statement text cut from it (`FunctionTailAt`, `FindFunction`,
  `SplitNoLineBreaks`); the statement patterns, whose `.*` groups could not
  cross a line break either, are only ever applied to such texts.
- **Nesting fuel.** Parsing a call to another routine parses that routine's
  body on the spot. Scripts whose routines call each other without end would
  exhaust the C++ stack. A `fuel` parameter bounds the nesting depth, and
  running out of it is `Undefined`.
- **`size_t` arithmetic** is written out where it matters:
  - `find(...) + 4` on npos in `parse`;
  - `find(";") + 1` on npos in `getResponseCookies`, which wraps to 0 so that
    value contributes nothing;
  - `size() - 1` on an empty URL, where `substr` then throws, so `ParseUrl`
    gives `None`;
  - the `int64_t` offset stored in the `size_t` cursor by `seek`.
- **`decode` digit order.** `decode` reads its two hex digits with two
  `++it` calls on the iterator. They are indeterminately sequenced, so the
  order is unspecified (not undefined). The model takes the intended order,
  first digit in the high nibble.
- **`decode` shifts a negative digit.** `hexToInt` returns a signed `char`.
  It is negative for a byte 0x80..0xFF and for a first digit below `'0'`
  (`"%%41"` gives `'%' - '0'`, which is -11). `decode` then computes
  `hexToInt(...) << 4` on a negative `int`. That shift is undefined before
  C++20 and defined as two's complement from C++20 on; GCC and MSVC already
  shift that way. The model shifts as two's complement (`DecodedByte`)
  instead of making the case undefined.

## Model

| member | source | states |
|---|---|---|
| Text.StrToULL | WebRadio/JavascriptEngine.cpp:252-253 | `strtoull` of any text is a `size_t` value |
| Text.StrToULLOfDecimal | WebRadio/JavascriptEngine.cpp:272 | reading back with `strtoull` what `std::to_string` wrote gives the value again |
| Text.ReversedTwice | WebRadio/JavascriptEngine.cpp:156-163 | the character reversal of the reversal is the original string |
| JsText.Split | WebRadio/JavascriptEngine.cpp:406-434 | the loop hands `op` exactly the pieces of the specification, in order: none for `""`, else every delimiter-separated piece including a trailing empty one |
| JsText.SplitJoin | WebRadio/JavascriptEngine.cpp:406-429 | joining the pieces with the delimiter gives the input back, and no piece contains the delimiter |
| JsText.SplitCount | WebRadio/JavascriptEngine.cpp:406-429 | `""` gives zero pieces; otherwise k delimiters give k+1 pieces |
| JsText.SplitShorter | WebRadio/JavascriptEngine.cpp:406-429 | no piece is longer than the input |
| JsText.IsInteger | WebRadio/JavascriptEngine.cpp:436-439 | true exactly when every character is a decimal digit, so also for `""` |
| JsExpr.Eval | WebRadio/JavascriptEngine.cpp:123-345 | evaluating a slot keeps the pool's size and well-formedness and leaves every later slot untouched |
| JsExpr.EvalStack | WebRadio/JavascriptEngine.cpp:776-786 | running a routine's statements keeps the pool's size and well-formedness and leaves the slots from the routine's own on untouched |
| JsExpr.EvalWithin | WebRadio/JavascriptEngine.cpp:123-345 | evaluating a slot of a closed region (slots whose operands stay inside it) changes no slot outside the region, keeps it closed, and a slot that held a string or `Nothing` still holds one |
| JsExpr.EvalStackWithin | WebRadio/JavascriptEngine.cpp:776-786 | the same for running a list of statements of a closed region |
| JsExpr.InsertedAtReverses | WebRadio/JavascriptEngine.cpp:196-204 | inserting each item's first character at one position leaves them in reverse argument order |
| JsExpr.SpliceShape | WebRadio/JavascriptEngine.cpp:184-206 | `Splice` keeps the text before the clamped start, then the items' first characters reversed, then the text after the erased part; length is \|s\| - removed + #items |
| JsExpr.LengthRoundTrip | WebRadio/JavascriptEngine.cpp:268-273 | the decimal text `Length` yields reads back as the operand's size |
| JsExpr.IndexedAt | WebRadio/JavascriptEngine.cpp:221-231 | with a decimal index, `Indexed` yields `s[idx]` inside the string, NUL at `idx == size`, and is undefined beyond |
| JsExpr.ModuloOfDecimals | WebRadio/JavascriptEngine.cpp:245-256 | `Modulo` of two decimal texts is defined exactly when the divisor is not 0, and is then the decimal text of the remainder |
| JsExpr.ReverseReverse | WebRadio/JavascriptEngine.cpp:156-163 | `Reverse(Reverse(x))` over a `Str` slot gives its text back and changes no slot |
| JsExpr.AssignThenRead | WebRadio/JavascriptEngine.cpp:290-296 | after an `Assign` runs, it has yielded `""` and its target slot (possibly the shared `Nothing`) reads the source's value |
| JsExpr.NestedAssignStoresEmpty | WebRadio/JavascriptEngine.cpp:595-597 | an `Assign` whose source is itself an `Assign` stores `""` into its target |
| JsExpr.StoreChar | WebRadio/JavascriptEngine.cpp:316-328 | the write of `AssignIndexed` changes only character idx, to the source's first character; the length is kept (not used by `Eval`, which makes the whole `AssignIndexed` undefined) |
| JsPool.ExpressionPool.constructor | WebRadio/JavascriptEngine.cpp:58-60 | the pool starts empty, with no `Nothing` slot yet |
| JsPool.ExpressionPool.Push | WebRadio/JavascriptEngine.cpp:79-83 | appends one slot and returns its index; every earlier slot is unchanged |
| JsPool.ExpressionPool.Reset | WebRadio/JavascriptEngine.cpp:114-119 | replaces slot id only |
| JsPool.ExpressionPool.GetNothing | WebRadio/JavascriptEngine.cpp:343-348 | the first call pushes one `Nothing`; every later call returns that same slot and pushes nothing |
| JsPool.ExpressionPool.Interpret | WebRadio/JavascriptEngine.cpp:123-340 | the string returned and the pool afterwards are exactly those of `Eval` |
| JsPool.ExpressionPool.InterpretStack | WebRadio/JavascriptEngine.cpp:776-786 | the loop over the statements returns the last one's value and leaves the pool as `EvalStack` says |
| JsPatterns.ParamsAt | WebRadio/JavascriptEngine.cpp:357 | the argument group of `_fnParams` is the text between the parentheses |
| JsPatterns.AssignMethodMatch | WebRadio/JavascriptEngine.cpp:381 | a match is an `AssignMethod` rule whose groups are shorter than the statement |
| JsPatterns.AssignIndexedMatch | WebRadio/JavascriptEngine.cpp:388 | a match is an `AssignIndexed` rule whose groups are shorter than the statement |
| JsPatterns.AssignAnyMatch | WebRadio/JavascriptEngine.cpp:382 | a match is an `AssignAny` rule whose groups are shorter than the statement |
| JsPatterns.IndexedMatch | WebRadio/JavascriptEngine.cpp:386 | a match is an `Indexed` rule whose groups are shorter than the statement |
| JsPatterns.MethodCallMatch | WebRadio/JavascriptEngine.cpp:383 | a match is a `MethodCall` rule whose groups are shorter than the statement |
| JsPatterns.DefineFromIndexedMatch | WebRadio/JavascriptEngine.cpp:387 | a match is a `DefineFromIndexed` rule whose groups are shorter than the statement |
| JsPatterns.ModuloMatch | WebRadio/JavascriptEngine.cpp:389 | a match is a `Modulo` rule whose groups are shorter than the statement |
| JsPatterns.InstancePropertyMatch | WebRadio/JavascriptEngine.cpp:384 | a match is an `InstanceProperty` rule whose groups are shorter than the statement |
| JsPatterns.Classify | WebRadio/JavascriptEngine.cpp:561-764 | a local variable exactly when the text names one; an integer exactly when it does not and is all digits; unrecognised exactly when, in addition, no pattern of the chain matches |
| JsPatterns.AssignAnyMatchesEquals | WebRadio/JavascriptEngine.cpp:363 | `(.*)=(.*)` matches every text holding a `=` |
| JsPatterns.DefineFromIndexedShadowed | WebRadio/JavascriptEngine.cpp:710 | whenever `DefineFromIndexed` would match, `AssignAny` matches too |
| JsPatterns.NeverDefineFromIndexed | WebRadio/JavascriptEngine.cpp:710-738 | no statement is ever classified `DefineFromIndexed`: the branch is dead |
| JsPatterns.AssignmentsClassified | WebRadio/JavascriptEngine.cpp:572-620 | a statement holding `=` is a variable or one of the three assignment rules; no later rule is tried on it |
| JsPatterns.AssignAnySplit | WebRadio/JavascriptEngine.cpp:612-619 | `AssignAny` splits at the last `=`: target, `=`, source recompose the statement and the source holds no `=` |
| JsPatterns.AssignAnyOfJoin | WebRadio/JavascriptEngine.cpp:363 | a target, `=` and a source without `=` are split back into that same target and source |
| JsPatterns.ModuloSplit | WebRadio/JavascriptEngine.cpp:739-744 | `Modulo` splits at a `%` with non-empty sides that recompose the statement |
| JsPatterns.LastBrace | WebRadio/JavascriptEngine.cpp:372-373 | the greedy `(.*)\}` ends the body at the last `}` of the range |
| JsPatterns.FunctionTailAt | WebRadio/JavascriptEngine.cpp:372-373 | a matched `function(params){body}` tail ends after the separator and inside the script |
| JsPatterns.DefineFunctionAt | WebRadio/JavascriptEngine.cpp:375-376 | a matched definition ends inside the script, so the iterator's next search starts further on |
| JsPatterns.SignatureFnAt | WebRadio/JavascriptEngine.cpp:810 | a captured routine name is non-empty and alphanumeric |
| JsPatterns.SignatureFnOf | WebRadio/JavascriptEngine.cpp:807-815 | a script with `"signature",NAME(` and no earlier `"signature"` names NAME |
| JsFunction.BindFrom | WebRadio/JavascriptEngine.cpp:477-481 | insertion keeps names already bound and binds new ones only to given arguments |
| JsFunction.BindFromDistinct | WebRadio/JavascriptEngine.cpp:477-481 | with distinct names and enough arguments, the i-th new name gets the argument after those already used |
| JsFunction.BindFromTooFew | WebRadio/JavascriptEngine.cpp:480 | with distinct names and too few arguments, some name reads past the last argument |
| JsFunction.BindingsOfDistinct | WebRadio/JavascriptEngine.cpp:474-482 | with distinct parameters, binding is defined exactly when there are enough arguments, and then parameter i is bound to argument i |
| JsFunction.BindingsIn | WebRadio/JavascriptEngine.cpp:474-482 | the scope only names the argument slots |
| JsFunction.Function.constructor | WebRadio/JavascriptEngine.cpp:458-467 | the name, parameters and body are kept; the scope and the statement list start empty |
| JsFunction.Function.SetArguments | WebRadio/JavascriptEngine.cpp:474-482 | defined exactly when the binding is; the scope is then that binding; `_fnMap` and `_stack` unchanged |
| JsFunction.Function.ParseMethodCall | WebRadio/JavascriptEngine.cpp:492-553 | `split`/`join` return the instance and push nothing; `reverse` pushes `Reverse` of the instance then an `Assign` of it back into the instance; `length` pushes `Length` of the instance; `splice` pushes `Splice` then `Assign` into the instance, and is defined whenever `SpliceCounts` is; anything else is the shared `Nothing` |
| JsFunction.Function.ParseSplice | WebRadio/JavascriptEngine.cpp:513-551 | a `Splice` of the instance over the raw argument texts from the third on, assigned back into the instance; whenever the first two arguments are literals or variables (`SpliceCounts` defined), it is defined and its start and delete count are those `SpliceCounts` gives |
| JsFunction.Function.ParseSpliceArgs | WebRadio/JavascriptEngine.cpp:519-546 | the argument loop yields the items from the third argument on; whenever the first two arguments are literals or variables it is defined, with the start and delete count `SpliceCounts` gives |
| JsFunction.Function.ParseCount | WebRadio/JavascriptEngine.cpp:527-537 | a literal or variable count argument is parsed and evaluated to `strtoull` of its text, with the pool `CountValue` gives |
| JsParsed.CountValueOfParsed | WebRadio/JavascriptEngine.cpp:527-537 | the value and pool `CountValue` predicts are those of evaluating the slot the argument was parsed to |
| JsParsed.SpliceCountsOf | WebRadio/JavascriptEngine.cpp:519-546 | the counts the argument loop leaves are `SpliceCounts`: the start from the first argument, the delete count from the second in the pool the first left, 0 when missing |
| JsParsed.SpliceBuilt | WebRadio/JavascriptEngine.cpp:547-550 | a `Splice` of the instance followed by the `Assign` of it into the instance is the `splice` result |
| JsParsed.MethodResultKept | WebRadio/JavascriptEngine.cpp:492-553 | a method call's expression survives the slots pushed after it |
| JsFunction.Function.ParseCode | WebRadio/JavascriptEngine.cpp:556-765 | the result is what `Parsed` states for the statement: the slot it names (`Names`) and, recursively down to every operand, the expression built (`RuleBuilds`); a variable gives its own slot with no push, an integer a new `Str` of its text; defined whenever the statement is `Total` (calls no routine of an object outside the scope, and every `splice` in it has literal counts); the pool changes only as `Grows` allows |
| JsFunction.Function.ParseOperands | WebRadio/JavascriptEngine.cpp:600-627 | one slot per operand text, and slot k is operand k parsed as `Parsed` states (`AllParsed`): a literal a `Str` of its text, a method operand its method result, and so on; what an earlier operand built survives the parsing of the later ones; defined whenever every operand is `Total` |
| JsFunction.Function.ParseCompound | WebRadio/JavascriptEngine.cpp:600-628 | `a[i]=b`, `a=b`, `a[i]` and `a%b` build the `AssignIndexed`, `Assign`, `Indexed` or `Modulo` expression over the slots of the source, target, index and operands, each parsed as `Parsed` states; defined whenever the statement is `Total` |
| JsParsed.CompoundParsed | WebRadio/JavascriptEngine.cpp:600-628 | the expression of a compound rule over slots naming its operands is what `Parsed` describes |
| JsFunction.Function.ParseAssignMethod | WebRadio/JavascriptEngine.cpp:572-599 | with both names in scope, an `Assign` into the variable's slot whose source is the method call's result on the instance, defined unless it is a `splice` whose `SpliceCounts` is undefined; with either name missing, the shared `Nothing` |
| JsParsed.AssignMethodStoresEmpty | WebRadio/JavascriptEngine.cpp:595-597 | `name = recv.reverse()` and `name = recv.splice(...)` store `""` into name, because the method's own result is an `Assign` |
| JsParsed.AssignToUnknownTarget | WebRadio/JavascriptEngine.cpp:612-620 | an `a=b` whose target is no variable and no pattern assigns into the shared `Nothing`, which then reads b's value |
| JsPatterns.KeyFreeNoMatch | WebRadio/JavascriptEngine.cpp:561-764 | a text with no `=`, `[`, `.` or `%` matches none of the statement patterns |
| JsPatterns.NoDotNoMethod | WebRadio/JavascriptEngine.cpp:381 | a text without `.` matches no method assignment |
| JsPatterns.NoCloseEqualsNoElement | WebRadio/JavascriptEngine.cpp:388 | a text without `]=` matches no element assignment |
| JsPatterns.AssignAnyClassified | WebRadio/JavascriptEngine.cpp:572-620 | a statement that is no variable, no literal, no method assignment and no element assignment but holds `=` is an `AssignAny` |
| JsPatterns.DeclarationUnrecognized | WebRadio/JavascriptEngine.cpp:561-764 | the text `var NAME` is unrecognised in any scope that does not name it |
| JsPatterns.DeclarationFromIndexClassified | WebRadio/JavascriptEngine.cpp:612-620 | `var c=a[0]` is an `AssignAny` with target `var c` and source `a[0]` |
| JsParsed.DeclarationTargetsNothing | WebRadio/JavascriptEngine.cpp:612-620 | `var c=a[0]` assigns the element into the shared `Nothing`; `c` is never bound |
| JsParsed.AllParsedGrows | WebRadio/JavascriptEngine.cpp:768-774 | parsing one more statement keeps what the earlier statements built and adds what the new one built |
| JsParsed.ParsedKept | WebRadio/JavascriptEngine.cpp:768-774 | what `Parsed` states about a statement survives every later parse that leaves its own slots alone (`Framed`) |
| JsParsed.NamesKept | WebRadio/JavascriptEngine.cpp:343-348 | once the shared `Nothing` exists it stays, so what a slot names survives later parsing |
| JsParsed.Pushed | WebRadio/JavascriptEngine.cpp:79-83 | pushing an expression over slots of the statement's region keeps the parse frame (`Grows`), the new slot is the statement's own, and every older slot is kept |
| JsParsed.CompoundPushed | WebRadio/JavascriptEngine.cpp:600-628 | pushing a compound expression over its parsed operands gives what `Parsed` states for the statement, within the frame |
| JsParsed.SplicePushed | WebRadio/JavascriptEngine.cpp:547-550 | pushing the `Splice` and the `Assign` gives the `splice` method result, within the frame |
| JsParsed.GrowsThroughEval | WebRadio/JavascriptEngine.cpp:527-537 | evaluating a `splice` count at parse time rewrites no slot of an earlier statement, and the variables keep holding strings |
| JsParsed.GrowsThroughCall | WebRadio/JavascriptEngine.cpp:698-702 | parsing a called routine's body in its own scope changes, seen from the caller, only what a statement's parse may |
| JsParsed.TotalOperands | WebRadio/JavascriptEngine.cpp:600-627 | the operands of a `Total` compound statement are `Total` |
| JsParsed.LiteralCountsDefined | WebRadio/JavascriptEngine.cpp:527-537 | integer-literal `splice` counts are defined whatever the pool holds |
| JsFunction.Function.ParseStatement | WebRadio/JavascriptEngine.cpp:556-765 | per rule of `Classify`, what `Parsed` states: a variable gives its slot, an integer a new `Str`, each compound rule its expression over its operands parsed, a method call on a variable its method result, a routine call a new `Routine` slot or `Nothing`; an unknown name inside a matched rule, or an unrecognised statement, gives the shared `Nothing`; defined whenever the statement is `Total` |
| JsFunction.Function.ParseSimpleStatement | WebRadio/JavascriptEngine.cpp:561-571 | a variable gives its own slot, an integer a new `Str` of its text (and an unrecognised statement the shared `Nothing` of line 764); always defined |
| JsFunction.Function.ParseAssignStatement | WebRadio/JavascriptEngine.cpp:572-599 | `name = recv.method(args)` is what `Parsed` states, defined whenever it is `Total`; either name missing gives the shared `Nothing` |
| JsFunction.Function.ParseCallStatement | WebRadio/JavascriptEngine.cpp:629-764 | `recv.method(args)` and `recv.property` are what `Parsed` states, defined whenever `Total`; an unknown object with no cached routine and no definition, or an unknown property owner, gives the shared `Nothing` |
| JsFunction.Function.ParseInstanceCall | WebRadio/JavascriptEngine.cpp:704-708 | with recv in scope, the method result on recv's slot, as `Parsed` states, defined whenever `Total` |
| JsFunction.FirstNamed | WebRadio/JavascriptEngine.cpp:653-668 | the definition found has the name asked for; none is found only when no definition has it |
| JsFunction.FirstNamedAt | WebRadio/JavascriptEngine.cpp:653-668 | the first definition carrying a name is the one `FirstNamed` finds |
| JsFunction.FirstDefinitionNamed | WebRadio/JavascriptEngine.cpp:653-668 | the slot cached for `"X.f"` holds a copy of the first definition named f |
| JsFunction.RoutineEntered | WebRadio/JavascriptEngine.cpp:658-668 | one step of the insertion loop keeps every key already cached and enters the new definition only when its key is new |
| JsFunction.Function.AddRoutines | WebRadio/JavascriptEngine.cpp:653-668 | every definition is pushed as a `Routine`; each new `"X.f"` key names the slot of the first definition called f, because `insert` keeps an existing key; keys already present keep their slot |
| JsFunction.Function.ArgumentSlots | WebRadio/JavascriptEngine.cpp:683-697 | one slot per argument: a variable's own slot, otherwise a new `Str` of the text |
| JsFunction.Function.RoutineSlot | WebRadio/JavascriptEngine.cpp:636-680 | a cached `"X.f"` gives its slot and pushes nothing; otherwise a slot exactly when `var X = {...}` exists and defines f, and then it holds the first definition of f |
| JsFunction.Function.ParseRoutineCall | WebRadio/JavascriptEngine.cpp:636-703 | no cached routine and no `var X = {...}` gives `Nothing`; otherwise the result is a new routine with the name, parameters and body of the cached template, or of the first definition of f in `var X = {...}` |
| JsFunction.Function.CallRoutine | WebRadio/JavascriptEngine.cpp:698-702 | the call is a copy of the template routine with its body parsed, one statement per `;` piece |
| JsFunction.Function.ParseNext | WebRadio/JavascriptEngine.cpp:772 | one statement is appended to the list; its slot is its text parsed (`Parsed`) while the earlier statements keep what they built (`AllParsed`); defined whenever the text is `Total` |
| JsFunction.Function.ParseBody | WebRadio/JavascriptEngine.cpp:768-774 | one statement per `;` piece is appended; the slot appended k-th is piece k parsed as `Parsed` states (`AllParsed`), so the order is the text's; defined exactly when the statement list ends up non-empty, which every non-empty list of `Total` pieces does; the result is the last statement |
| JsFunction.Function.Interpret | WebRadio/JavascriptEngine.cpp:776-786 | defined exactly when `EvalStack` is, with its value and pool; undefined leaves the pool alone |
| JsEngine.FindSignatureFnName | WebRadio/JavascriptEngine.cpp:807-821 | empty exactly when the pattern finds no name; otherwise alphanumeric |
| JsEngine.FindFunction | WebRadio/JavascriptEngine.cpp:789-805 | a found definition carries fnName, a missing one is the empty `Function()`; the body holds no line break |
| JsEngine.FindFunctionOf | WebRadio/JavascriptEngine.cpp:789-805 | when the first occurrence of fnName is followed by `=function(vars){code}`, with vars made of parameter characters, code on one line and no `}` after it on that line, the result is exactly `Function(vars, code)` named fnName |
| JsEngine.FunctionTailOf | WebRadio/JavascriptEngine.cpp:794-800 | the `\s*[=:]\s*function\((\s*[[:alnum:]]*[\s,[:alnum:]]*)\)\{(.*)\}` tail laid out as `=function(vars){code}` captures vars and code and ends after the closing brace |
| JsPatterns.SplitNoLineBreaks | WebRadio/JavascriptEngine.cpp:768-774 | the `;` pieces of a text without line breaks hold none either |
| JsEngine.Engine.constructor | WebRadio/JavascriptEngine.cpp:792 | before the first call, the static pattern is not built |
| JsEngine.Engine.FindFunctionAsWritten | WebRadio/JavascriptEngine.cpp:789-805 | the first call fixes the pattern's name; every call searches with that first name |
| JsEngine.StaleFindSameName | WebRadio/JavascriptEngine.cpp:792 | while the name never changes, the as-written search agrees with the intended one |
| JsEngine.NoDefinitionWithoutName | WebRadio/JavascriptEngine.cpp:794 | a name that never occurs has no definition |
| JsEngine.SecondScriptDefinesCd | WebRadio/JavascriptEngine.cpp:792 | `cd=function(a){a}` defines `cd` with parameter `a` and body `a` |
| JsEngine.StaleFindMissesRenamedRoutine | WebRadio/JavascriptEngine.cpp:792 | after a first call for `ab`, the as-written search misses `cd` in a script that defines it |
| JsEngine.DecipherSignature | WebRadio/JavascriptEngine.cpp:823-831 | undefined when the routine is not found; a defined result means the routine exists, its parameters bind to the one signature, and its body has statements |
| Utils.EndChars | WebRadio/Utils.hpp:33-36 | the position of the first NUL at or after p |
| Utils.RFindSlash | WebRadio/Utils.hpp:38-41 | one past the last `/` at or before p, which must exist |
| Utils.HasSlash | WebRadio/Utils.hpp:43-48 | true exactly when a `/` occurs before the terminating NUL |
| Utils.FileName | WebRadio/Utils.hpp:50-54 | the suffix after the last `/`, which holds no `/`; the whole string when there is no `/` |
| Http.HexToInt | WebRadio/Http.cpp:34-38 | `0`..`9` map to 0..9 and `A`..`F` to 10..15; with a signed `char`, bytes 0x80..0xFF take the digit branch; the result is a byte |
| Http.HighByteDigit | WebRadio/Http.cpp:34-38 | `%` followed by the byte 0xC3 and `A` decodes to `:` (0x3A), since 0xC3 is negative as a signed `char`, under a two's complement `<< 4` of that negative value |
| Http.DecodedByte | WebRadio/Http.cpp:51 | the decoded character is a byte, with a negative digit value shifted as two's complement |
| Http.Decode | WebRadio/Http.cpp:43-59 | the loop computes the decoding of the whole range |
| Http.DecodedAdvance | WebRadio/Http.cpp:47-57 | one step of the loop keeps "output so far, then the decoding of the rest, is the decoding of the whole": a `%` with two characters after it adds one byte and skips three, a `+` adds nothing, any other character is copied |
| Http.DecodedShorter | WebRadio/Http.cpp:47-57 | decoding never lengthens the text |
| Http.DecodedPlain | WebRadio/Http.cpp:53-56 | text without `%` is copied in order with every `+` dropped |
| Http.PercentAtEnd | WebRadio/Http.cpp:49 | a `%` with fewer than two characters after it is copied literally |
| Http.HexDigitRoundTrip | WebRadio/Http.cpp:37 | `hexToInt` reads back every upper-case hex digit |
| Http.ByteRoundTrip | WebRadio/Http.cpp:51 | the two upper-case digits of a byte decode to that byte |
| Http.DecodeEncoded | WebRadio/Http.cpp:43-59 | `decode` undoes upper-case percent-encoding of every byte string |
| Http.DefaultUrl | WebRadio/Http.cpp:234-237 | the default `Url` is empty |
| Http.ParseUrl | WebRadio/Http.cpp:239-261 | fails (throws) exactly on the empty string |
| Http.ParseUrlWithPath | WebRadio/Http.cpp:241-260 | with `//` and a later `/`, the host is the text between them and the target the suffix from that `/` |
| Http.ParseUrlNoPath | WebRadio/Http.cpp:252-260 | with no `/` after the host start, the target is the last character and the host stops before it |
| Http.CookiePrefix | WebRadio/Http.cpp:200 | the prefix up to and including the first `;`; nothing when there is no `;` |
| Http.JoinedPrefixesEnd | WebRadio/Http.cpp:198-202 | the concatenated prefixes are empty or end with `;` |
| Http.GetResponseCookies | WebRadio/Http.cpp:193-209 | the concatenated prefixes with their final `;` removed, or empty |
| HtmlParser.QualityOf | WebRadio/HtmlParser.cpp:11 | `Quality(i)` is the enumerator with value i |
| HtmlParser.FindLowestQuality | WebRadio/HtmlParser.cpp:15-24 | the first of small, medium, hd found from beginStreams, with its position; HD with npos when none is; endStreams is not used |
| HtmlParser.SigEndsAfterMarker | WebRadio/HtmlParser.cpp:57-62 | the signature's end is at least six characters past `0026s=` |
| HtmlParser.Parse | WebRadio/HtmlParser.cpp:28-69 | empty without the tag; keys within `{"url","s"}`; `url` exactly when a quality is found, decoded from after `url=` up to the next terminator; `s` exactly when `0026s=` follows, and only with `url` |
| Audio.ObjectPool.constructor | WebRadio/Audio.cpp:48-51 | nothing handed out yet |
| Audio.ObjectPool.Acquire | WebRadio/Audio.cpp:67-81 | the last released object first; else the next ready slot, `_pos` + 1; else a new object appended to `_used`; `_pos <= _size` kept |
| Audio.ObjectPool.Release | WebRadio/Audio.cpp:83-86 | the object goes on top of the free list; `_pos` and `_used` unchanged |
| Audio.ReleaseThenAcquire | WebRadio/Audio.cpp:69-86 | acquiring right after releasing p returns p and restores the pool |
| Audio.CustomAvioContext.constructor | WebRadio/Audio.cpp:183-191 | the cursor starts at 0 |
| Audio.Read | WebRadio/Audio.cpp:198-214 | null gives -1; otherwise copies min(remaining, bufferSize) bytes from the cursor and advances it by that count |
| Audio.Seek | WebRadio/Audio.cpp:216-234 | null gives -1; `AVIO_SEEKABLE_NORMAL` moves the cursor to the offset; `AVSEEK_SIZE` reports the size; anything else gives -1 |

## Left out

- The `std::regex` engine: each pattern is a hand-written decomposition, and the greedy and first-position choices are stated per pattern in `JsPatterns`.
- `Split` and `Join` expression classes (`JavascriptEngine.cpp` 133-147): `parseMethodCall` never creates them, since `split` and `join` return the instance itself.
- Raw-pointer ownership: the `delete` in `reset`, the pool destructor, `Function` move semantics and the leaked `Function` objects.
- `LOG` output, and the commented-out `main` of `JavascriptEngine.cpp`.
- `Http::Client` networking and futures (`Http.cpp` 63-229, except the string logic of `getResponseCookies`), because it is asynchronous network I/O. `getResponseCookies` takes the Set-Cookie values as a parameter.
- `extractVideoUrl` and `main` (`HtmlParser.cpp`, `WebRadio.cpp`): network futures, timeouts, file dumps and command-line handling.
- The `findLowestQuality` / `parse` copy in `WebRadio.cpp` (46-106): identical to `HtmlParser.cpp` apart from returning `std::map` instead of `std::unordered_map`, which the `map` of the model covers. It is modelled by the `HtmlParser` members.
- Audio playback (`playAudio`, `audioCallback`, `FFmpegWrapper`), because it is SDL and FFmpeg foreign calls over floating-point samples. `getPool` is the static instance of `ObjectPool`.
- `Utils.cpp` (`Logger`, `saveFile`, `readFile`): file I/O.
- JsFunction.Function.ParseRoutineCall: nesting depth is bounded by `fuel`; a script nesting deeper than the fuel is `Undefined` here, where the C++ would keep recursing (and, without end, overflow its stack).
- JsEngine.DecipherSignature: states when the result is undefined and what a defined result implies about the routine, not the deciphered string itself, which is `Interpret`'s `EvalStack` value. It is built on the corrected `FindFunction`, which searches for the name of each call; the C++ (`JavascriptEngine.cpp` 792) searches every later call, whatever its name, for the routine name of the first one (see Findings and `Engine.FindFunctionAsWritten`).
- JsFunction.Function.ParseStatement: for a call to a routine of another object it states only that the slot holds a `Routine` or is the shared `Nothing`; what that routine holds is stated on `ParseRoutineCall`.
- JsFunction.Function.ParseCode: promises a defined result only for `Total` statements. A call of a routine of an object outside the scope can be `Undefined` (fuel, too few arguments, an empty body), and a `splice` whose first two arguments are other statements is parsed and evaluated without a promise of definedness.
- JsFunction.Function.ParseSpliceArgs: describes the start and the delete count only when the first two arguments are literals or variables of the scope (`SpliceCounts`); other statements there are parsed and evaluated too, but their counts are not described.
- JsFunction.Function.ParseCount: states the value read only for a literal or a variable of the scope (`CountValue`); for any other statement it states only that the pool grows within the frame.
- JsFunction.Function.ParseSplice: states the start and the delete count only when the first two arguments are literals or variables (`CountValue`); any other statement there is parsed and evaluated too, but its value is not described.
- Audio.Read: requires the remaining size to fit an `int` and the cursor not to be past the end. Beyond that, the C++ `static_cast<int>` of the remaining size is implementation-defined, and the result can be a negative `memcpy` count.
- Http.DecodedByte: a negative digit value is shifted as two's complement (defined from C++20 on, and what GCC and MSVC do); before C++20 that `<< 4` is undefined, and the model does not treat it as undefined.
- Http.HighByteDigit: the stated `:` rests on that two's complement shift of the negative value of 0xC3.
- The `#include`d headers contain declarations only.

## Findings

| source | as written | input that shows it | evidently intended | confidence | as-written member | corrected member |
|---|---|---|---|---|---|---|
| WebRadio/JavascriptEngine.cpp:792 | the pattern of `findFunction` is a function-local `static`, built from the `fnName` of the first call only | deciphering with a script whose routine is `ab`, then with `cd=function(a){a}`: the second lookup searches for `ab` and returns the empty `Function` | build the pattern from the `fnName` of each call | not executed | JsEngine.StaleFindMissesRenamedRoutine | JsEngine.FindFunction |
