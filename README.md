# Constructor property promotion, modelled in Dafny

PHP CS Fixer's `ConstructorPropertyPromotionFixer` rewrites a PHP 8 class
whose constructor only copies its arguments into same-named properties. It
turns such a class into one that uses constructor property promotion:

- the property declaration, with its visibility keyword, type and default, is
  copied over the argument's variable token;
- the visibility keyword is retagged as a promoted-property keyword;
- the `$this->name = $name;` statement is removed from the constructor body;
- the property declaration is removed, together with its doc comment and one
  whitespace token before it.

The repository has two versions of the fixer:

- `ConstructorPropertyPromotionFixer.php`, the current one: the token
  collection is a field of the fixer object;
- `ConstructorPromotionFixer.php`, the earlier one: the collection is passed
  to every method, `isCandidate` has no PHP version gate, a property without a
  visibility keyword aborts the whole fix, and each argument is recorded as
  `[name => nameIndex]`.

The model has seven files:

- `tokens.dfy` (module `Tokenizer`) models the token collection by its
  observable effect. A token is an optional kind tag and its text. The module
  has the forward and backward scans, `findBlockEnd`, `findSequence`, and the
  edits `clearAt`, `clearRange`, `insertAt` and `clearEmptyTokens`. The
  mutable collection is the class `Tokens`, whose `items` field its methods
  reassign. The file ends with locality lemmas: a scan that ends inside a
  prefix does not depend on what follows it.
- `promotion_spec.dfy` (module `PromotionSpec`) holds:
  - the pure helpers of the fixers (id conversion, token conversion,
    assignment search, visibility lookup, insert tokens, the two clear
    helpers, class-data extraction);
  - a functional specification of the whole `applyFix`, parameterised by
    `Generation` (`Earlier` or `Current`).

  An exception that escapes `applyFix` is a `Failure`. The one exception the
  current file catches becomes a skip.
- `property_promotion_fixer.dfy` (class
  `PropertyPromotionFixer.ConstructorPropertyPromotionFixer`) and
  `promotion_fixer.dfy` (class `PromotionFixer.ConstructorPromotionFixer`)
  are the two fixers as imperative code:
  - `applyFix` is two nested count-down loops that edit the collection in
    place;
  - `extractClassData` is a loop that fills the class table;
  - `findPropertyVisibilityIndex` is a count-down loop.

  Each method is proved to compute its function in `PromotionSpec`,
  including the exact state the collection is left in when an exception
  escapes.
- `promotion_lemmas.dfy` (module `PromotionLemmas`) proves the properties of
  that specification. They cover:
  - when an argument is skipped;
  - the exact effect of one promotion;
  - last-wins class data and constructor detection;
  - that a class without a constructor aborts;
  - that a file without `$this` is untouched;
  - compaction;
  - that the current version agrees with the earlier one except where the
    earlier one throws for a missing visibility keyword.
- `promotion_locality.dfy` (module `PromotionLocality`) proves why the
  right-to-left order keeps classes independent. A class whose offsets,
  scans and edits all lie in a prefix `l` is promoted the same whatever
  follows `l`, and the tokens after `l` are carried along unchanged.
- `argument_independence.dfy` (module `ArgumentIndependence`) proves when
  two arguments of one constructor, handled right to left, are each
  promoted as if alone.

The property declaration is cleared up to
`getNextTokenOfKind($propertyIndex, [T_STRING, ";"])`
(ConstructorPropertyPromotionFixer.php:95). The `T_STRING` there is a bare
integer, not the prototype `[T_STRING]`. `Token::equals` never matches an
integer against a token, so the search ends at the first `;`. This holds even
after a `null`, `true` or constant default. The model's prototype `BareId`
matches nothing, and `PromotionSpec.StatementEndIsSemicolon` states the
result.

Two inputs are results of code that is not part of this model. The classy
elements of `TokensAnalyzer::getClassyElements` are a `seq<ClassyElement>`.
The argument lists of `FunctionsAnalyzer::getFunctionArguments` are a
function from a method's name offset to its arguments. `\PHP_VERSION_ID` is
a parameter.

## Model

| member | source | states |
|---|---|---|
| Tokenizer.NextTokenOfKind | src/Fixer/ClassNotation/ConstructorPropertyPromotionFixer.php:95 | the result is the first offset after `i` whose token matches one of the prototypes; None means no later token matches |
| Tokenizer.NextMeaningful | src/Fixer/ClassNotation/ConstructorPropertyPromotionFixer.php:143 | the result is the first offset after `i` that is neither empty, whitespace nor a comment; None means there is none |
| Tokenizer.PrevNonWhitespace | src/Fixer/ClassNotation/ConstructorPropertyPromotionFixer.php:251 | the result is the last offset before `i` whose token is not whitespace, with only whitespace between; None means there is none |
| Tokenizer.FindBlockEnd | src/Fixer/ClassNotation/ConstructorPropertyPromotionFixer.php:82 | the `}` returned balances the `{` at `start`: braces balance to zero at it and stay open at every earlier offset; None, for a `{` at `start`, means the braces stay open to the end of the stream |
| Tokenizer.FindSequence | src/Fixer/ClassNotation/ConstructorPropertyPromotionFixer.php:167-178 | the result is the leftmost match of the pattern starting in `[from, until]`, each next token being the next meaningful one; None means no start offset matches |
| Tokenizer.ChainFromIsChain | src/Fixer/ClassNotation/ConstructorPropertyPromotionFixer.php:167-178 | the offsets after a match's first token form a chain: each is the next meaningful token after the one before |
| Tokenizer.ChainFromMatches | src/Fixer/ClassNotation/ConstructorPropertyPromotionFixer.php:167-178 | each of those offsets lies after the start and within the bound, and its token equals its prototype |
| Tokenizer.ChainFromComplete | src/Fixer/ClassNotation/ConstructorPropertyPromotionFixer.php:167-178 | conversely, any chain after `i` whose tokens match the prototypes within the bound is the one found, so the search misses no match |
| Tokenizer.FindSequenceComplete | src/Fixer/ClassNotation/ConstructorPropertyPromotionFixer.php:167-178 | a match at `m` with no match starting between `from` and `m` is the one `findSequence` returns |
| Tokenizer.OccurrenceShifted | src/Fixer/ClassNotation/ConstructorPropertyPromotionFixer.php:167-178 | a match read in a stream that holds its tokens `n` offsets later is the same match, every offset moved on by `n` |
| Tokenizer.WithoutEmpty | src/Fixer/ClassNotation/ConstructorPropertyPromotionFixer.php:115 | compaction never lengthens the stream and leaves no empty token |
| Tokenizer.InsertedIndexing | src/Fixer/ClassNotation/ConstructorPropertyPromotionFixer.php:111 | `insertAt` puts the inserted tokens at `[i, i + n)` and moves every old token at or after `i` right by `n` |
| Tokenizer.Tokens.ClearAt | src/Fixer/ClassNotation/ConstructorPropertyPromotionFixer.php:110 | the token at `i` becomes empty and nothing else changes |
| Tokenizer.Tokens.ClearRange | src/Fixer/ClassNotation/ConstructorPropertyPromotionFixer.php:246 | the inclusive range becomes empty and the length is kept |
| Tokenizer.Tokens.InsertAt | src/Fixer/ClassNotation/ConstructorPropertyPromotionFixer.php:111 | the tokens are spliced in before offset `i` |
| Tokenizer.Tokens.ClearEmptyTokens | src/Fixer/ClassNotation/ConstructorPropertyPromotionFixer.php:115 | the loop leaves exactly the non-empty tokens, in order |
| Tokenizer.FindBlockEndLocal | src/Fixer/ClassNotation/ConstructorPropertyPromotionFixer.php:82 | a block end found inside a prefix is found whatever follows the prefix |
| Tokenizer.FindSequenceLocal | src/Fixer/ClassNotation/ConstructorPropertyPromotionFixer.php:167-178 | a search bounded inside a prefix gives the same result whatever follows the prefix |
| PromotionSpec.ConvertPropertyVisibilityIdToPromotedPropertyId | src/Fixer/ClassNotation/ConstructorPropertyPromotionFixer.php:206-224 | public, protected and private map to their promoted tags, and the tag maps back; every other id throws InvalidArgumentException |
| PromotionSpec.ConvertVisibilityToken | src/Fixer/ClassNotation/ConstructorPropertyPromotionFixer.php:197-204 | succeeds exactly for visibility keywords, which keep their text and get the promoted tag; every other token throws the InvalidArgumentException, an id-less one from `new Token(["", …])` |
| PromotionSpec.PromotedOrKept | src/Fixer/ClassNotation/ConstructorPropertyPromotionFixer.php:188-194 | the copied token is a promotion of the original: same text, retagged if a visibility keyword, otherwise identical |
| PromotionSpec.StripSigil | src/Fixer/ClassNotation/ConstructorPropertyPromotionFixer.php:165 | the result has no `$` |
| PromotionSpec.ExtractVariableAssignmentSequence | src/Fixer/ClassNotation/ConstructorPropertyPromotionFixer.php:163-179 | a found match is the leftmost one starting in `[from, until]`: six offsets within the range holding `$this`, `->`, the sigil-less name, `=`, `$name` and `;`, each the next meaningful token after the one before; None means no start offset in the range matches |
| PromotionSpec.VisibilityIndex | src/Fixer/ClassNotation/ConstructorPropertyPromotionFixer.php:226-238 | the largest offset in `[p - 6, p - 1]` holding public, protected or private; None (the RuntimeException) means there is none or an offset in the window does not exist |
| PromotionSpec.DeclarationEnd | src/Fixer/ClassNotation/ConstructorPropertyPromotionFixer.php:183-186 | the copied range ends at the property name, or, when the next meaningful token is `=`, at the meaningful token after it, or at offset 0 when the `=` is the last meaningful token (`range` reads the null offset as 0); it fails (`MissingIndex`) exactly when the name has no next meaningful token |
| PromotionSpec.CreatePropertyPromotionInsertTokens | src/Fixer/ClassNotation/ConstructorPropertyPromotionFixer.php:181-195 | succeeds exactly when the declaration end exists; the copy has one token per offset from the visibility keyword through the declaration end, counting down when that end lies below the keyword as `range` does, each a promotion of its original |
| PromotionSpec.TerminatedDeclarationEnd | src/Fixer/ClassNotation/ConstructorPropertyPromotionFixer.php:183-186 | when a `;` follows the property name, the declaration end exists and lies from the name through that `;` |
| PromotionSpec.TerminatedInsertTokens | src/Fixer/ClassNotation/ConstructorPropertyPromotionFixer.php:181-195 | then the copy is not empty, runs upwards from the keyword with one promoted token per offset, and ends inside the stream |
| PromotionSpec.ClearedVariableAssignment | src/Fixer/ClassNotation/ConstructorPropertyPromotionFixer.php:240-247 | empties `[from, until]`, plus `from - 1` exactly when it is whitespace; fails exactly when `from` is 0 |
| PromotionSpec.DocBlockStart | src/Fixer/ClassNotation/ConstructorPropertyPromotionFixer.php:251-254 | moves the start back to a doc comment separated from it by whitespace only, and otherwise keeps it |
| PromotionSpec.ClearedClassProperty | src/Fixer/ClassNotation/ConstructorPropertyPromotionFixer.php:249-260 | empties the declaration from its doc-comment start, plus one preceding whitespace token; fails exactly when that start is offset 0 |
| PromotionSpec.ExtractFunctionArguments | src/Fixer/ClassNotation/ConstructorPropertyPromotionFixer.php:156-161 | one entry per analysed argument, under its name, resolving to its name offset (as `nameIndex` now, as `[name => nameIndex]` in ConstructorPromotionFixer.php:149-154) |
| PromotionSpec.ClassTable.Put | src/Fixer/ClassNotation/ConstructorPropertyPromotionFixer.php:135 | writing a class record sets that record and keeps every other one; a new class index is appended to the key order |
| PromotionSpec.AddElement | src/Fixer/ClassNotation/ConstructorPropertyPromotionFixer.php:129-151 | one loop step keeps the table well-formed |
| PromotionSpec.ExtractClassData | src/Fixer/ClassNotation/ConstructorPropertyPromotionFixer.php:123-154 | the table produced is well-formed: every class index appears once in the key order |
| PromotionSpec.ExtractFailurePersists | src/Fixer/ClassNotation/ConstructorPropertyPromotionFixer.php:143-144 | once a method element has no next token, `extractClassData` throws whatever elements follow |
| PromotionSpec.Lower | src/Fixer/ClassNotation/ConstructorPropertyPromotionFixer.php:145 | `strtolower`: no ASCII capital letter is left and every other character is kept in place; `PromotionLemmas.LowerIdempotent` and `PromotionLemmas.LowerOfConstruct` state the rest |
| PromotionSpec.Promote | src/Fixer/ClassNotation/ConstructorPropertyPromotionFixer.php:104-111 | the edits for one argument never shorten the stream, and can fail only on a missing offset |
| PromotionSpec.PromoteParameter | src/Fixer/ClassNotation/ConstructorPropertyPromotionFixer.php:102-111 | the promotion of a found argument never shortens the stream and can fail only on a missing offset; its effect is `PromotionLemmas.PromotionEffect` |
| PromotionSpec.StatementEndIsSemicolon | src/Fixer/ClassNotation/ConstructorPropertyPromotionFixer.php:95 | the declaration end searched for with `[T_STRING, ";"]` is the first `;` after the property name; None means no `;` follows |
| PromotionSpec.StepParameter | src/Fixer/ClassNotation/ConstructorPropertyPromotionFixer.php:85-111 | one step of the inner loop never shortens the stream |
| PromotionSpec.StepArguments | src/Fixer/ClassNotation/ConstructorPropertyPromotionFixer.php:84 | the inner loop never shortens the stream |
| PromotionSpec.StepClass | src/Fixer/ClassNotation/ConstructorPropertyPromotionFixer.php:81-84 | one step of the outer loop never shortens the stream |
| PromotionSpec.StepClasses | src/Fixer/ClassNotation/ConstructorPropertyPromotionFixer.php:80 | the outer loop never shortens the stream |
| PromotionSpec.ArgumentFailurePersists | src/Fixer/ClassNotation/ConstructorPropertyPromotionFixer.php:84-111 | an exception thrown for a later argument ends the inner loop: the earlier arguments are not visited |
| PromotionSpec.ClassFailurePersists | src/Fixer/ClassNotation/ConstructorPropertyPromotionFixer.php:80-113 | an exception thrown for a later class ends the outer loop: the earlier classes are not visited |
| PromotionSpec.Fix | src/Fixer/ClassNotation/ConstructorPropertyPromotionFixer.php:75-116 | a fix that does not throw leaves no empty token; one that throws leaves the stream at least as long as it was, its partial edits kept and nothing compacted; `PromotionLemmas.FixGenerations`, `PromotionLemmas.FixWithoutThis` and `PromotionLemmas.MissingConstructorAborts` state its other properties |
| PropertyPromotionFixer.ConstructorPropertyPromotionFixer.constructor | src/Fixer/ClassNotation/ConstructorPropertyPromotionFixer.php:77 | a new fixer holds no token collection until `applyFix` sets it |
| PropertyPromotionFixer.ConstructorPropertyPromotionFixer.IsCandidate | src/Fixer/ClassNotation/ConstructorPropertyPromotionFixer.php:118-121 | true exactly when the PHP version id is at least 80000 and a class, a function and a variable token all occur |
| PropertyPromotionFixer.ConstructorPropertyPromotionFixer.ExtractClassData | src/Fixer/ClassNotation/ConstructorPropertyPromotionFixer.php:123-154 | the loop computes `extractClassData` of the specification, throwing exactly where it does |
| PropertyPromotionFixer.ConstructorPropertyPromotionFixer.FindPropertyVisibilityIndex | src/Fixer/ClassNotation/ConstructorPropertyPromotionFixer.php:226-238 | the count-down loop returns the nearest visibility keyword in the six-token window, or None where the source throws |
| PropertyPromotionFixer.ConstructorPropertyPromotionFixer.ClearVariableAssignment | src/Fixer/ClassNotation/ConstructorPropertyPromotionFixer.php:240-247 | the collection becomes the cleared stream, or is left untouched when offset `from - 1` does not exist |
| PropertyPromotionFixer.ConstructorPropertyPromotionFixer.ClearClassProperty | src/Fixer/ClassNotation/ConstructorPropertyPromotionFixer.php:249-260 | the collection becomes the cleared stream, or is left untouched when the start has no predecessor |
| PropertyPromotionFixer.ConstructorPropertyPromotionFixer.ApplyFix | src/Fixer/ClassNotation/ConstructorPropertyPromotionFixer.php:75-116 | the fixer keeps the collection it was given, which ends as the specification's pass of the current version; an escaping exception leaves it as it was at the throw |
| PropertyPromotionFixer.ConstructorPropertyPromotionFixer.PromoteArguments | src/Fixer/ClassNotation/ConstructorPropertyPromotionFixer.php:84-112 | the right-to-left inner loop computes the specification's inner loop |
| PropertyPromotionFixer.ConstructorPropertyPromotionFixer.PromoteArgument | src/Fixer/ClassNotation/ConstructorPropertyPromotionFixer.php:85-111 | one argument: skipped when unknown or unassigned, skipped when the visibility lookup throws (caught), otherwise promoted, the declaration cleared through its `;`; equal to the specification's step |
| PropertyPromotionFixer.ConstructorPropertyPromotionFixer.Promote | src/Fixer/ClassNotation/ConstructorPropertyPromotionFixer.php:104-111 | clear the assignment, clear the property, clear the variable token, insert the copy: the specification's edits |
| PromotionFixer.ConstructorPromotionFixer.IsCandidate | src/Fixer/ClassNotation/ConstructorPromotionFixer.php:109-112 | true exactly when a class, a function and a variable token all occur, with no version condition |
| PromotionFixer.ConstructorPromotionFixer.ExtractClassData | src/Fixer/ClassNotation/ConstructorPromotionFixer.php:114-145 | the loop computes the specification's `extractClassData` of the earlier version |
| PromotionFixer.ConstructorPromotionFixer.FindPropertyVisibilityIndex | src/Fixer/ClassNotation/ConstructorPromotionFixer.php:219-231 | the same six-token window as the current version; None is the RuntimeException |
| PromotionFixer.ConstructorPromotionFixer.ClearVariableAssignment | src/Fixer/ClassNotation/ConstructorPromotionFixer.php:233-240 | the passed collection becomes the cleared stream, or is left untouched when `from - 1` does not exist |
| PromotionFixer.ConstructorPromotionFixer.ClearClassProperty | src/Fixer/ClassNotation/ConstructorPromotionFixer.php:242-253 | the passed collection becomes the cleared stream, or is left untouched when the start has no predecessor |
| PromotionFixer.ConstructorPromotionFixer.ApplyFix | src/Fixer/ClassNotation/ConstructorPromotionFixer.php:69-107 | the passed collection ends as the specification's pass of the earlier version, where a missing visibility keyword ends the fix |
| PromotionFixer.ConstructorPromotionFixer.PromoteArguments | src/Fixer/ClassNotation/ConstructorPromotionFixer.php:78-103 | the right-to-left inner loop computes the specification's inner loop of the earlier version |
| PromotionFixer.ConstructorPromotionFixer.PromoteArgument | src/Fixer/ClassNotation/ConstructorPromotionFixer.php:79-102 | one argument, the declaration cleared through its `;`; the visibility lookup's exception escapes as `NoVisibility`; equal to the specification's step |
| PromotionFixer.ConstructorPromotionFixer.Promote | src/Fixer/ClassNotation/ConstructorPromotionFixer.php:94-102 | the edits for one argument, at the offset `$index[$name]` |
| PromotionLemmas.StepParameterSkips | src/Fixer/ClassNotation/ConstructorPropertyPromotionFixer.php:85-101 | an argument leaves the stream unchanged with nothing thrown exactly when its property is unknown, its assignment is absent, or (current version) its visibility keyword is missing |
| PromotionLemmas.PromotionEffect | src/Fixer/ClassNotation/ConstructorPropertyPromotionFixer.php:102-111 | a successful promotion puts the copy of the declaration at the argument's offset with the emptied variable token after it; it empties exactly the assignment, the declaration from its doc comment through its `;`, and the whitespace token before each; every other token is kept, shifted past the copy |
| PromotionLemmas.PromoteEffect | src/Fixer/ClassNotation/ConstructorPropertyPromotionFixer.php:104-111 | the three edits, stated on the offsets of the stream before them: the copy, the emptied variable token, exactly the cleared offsets emptied, every other token kept |
| PromotionLemmas.ClearedTwice | src/Fixer/ClassNotation/ConstructorPropertyPromotionFixer.php:104-109 | clearing the assignment and then the declaration empties exactly the assignment, the declaration from its doc comment, and the whitespace before each |
| PromotionLemmas.NullDefaultDeclaration | tests/Fixer/ClassNotation/ConstructorPromotionFixerTest.php:162-181 | for `private ?bool $bar = null;` the copy ends at `null` and the clear at the `;` |
| PromotionLemmas.DanglingDefault | src/Fixer/ClassNotation/ConstructorPropertyPromotionFixer.php:95-109 | when `=` is the last meaningful token after the property name, the copy exists but no `;` follows: the assignment is cleared and then the declaration clear throws `MissingIndex` |
| PromotionLemmas.ParameterGenerations | src/Fixer/ClassNotation/ConstructorPromotionFixer.php:91 | for one argument the current version does what the earlier one does, except that it skips where the earlier one throws for a missing visibility keyword |
| PromotionLemmas.ArgumentsGenerations | src/Fixer/ClassNotation/ConstructorPromotionFixer.php:78-103 | the two versions' inner loops agree unless the earlier one throws `NoVisibility` |
| PromotionLemmas.ClassesGenerations | src/Fixer/ClassNotation/ConstructorPromotionFixer.php:74-104 | the two versions' outer loops agree unless the earlier one throws `NoVisibility` |
| PromotionLemmas.ExtractGenerations | src/Fixer/ClassNotation/ConstructorPromotionFixer.php:114-154 | the two versions extract the same class data, up to the shape of the argument entries |
| PromotionLemmas.FixGenerations | src/Fixer/ClassNotation/ConstructorPromotionFixer.php:69-107 | whenever the earlier `applyFix` does not throw for a missing visibility keyword, the current one computes exactly the same stream and outcome |
| PromotionLemmas.CandidateGenerations | src/Fixer/ClassNotation/ConstructorPropertyPromotionFixer.php:118-121 | the current file is a candidate exactly when the earlier one is (src/Fixer/ClassNotation/ConstructorPromotionFixer.php:109-112) and the PHP version id is at least 80000 |
| PromotionLemmas.LowerIdempotent | src/Fixer/ClassNotation/ConstructorPropertyPromotionFixer.php:145 | lower-casing twice is lower-casing once |
| PromotionLemmas.LowerOfConstruct | src/Fixer/ClassNotation/ConstructorPropertyPromotionFixer.php:145 | `__CONSTRUCT` and `__Construct` lower to `__construct`, so they name the constructor |
| PromotionLemmas.AddElementFails | src/Fixer/ClassNotation/ConstructorPropertyPromotionFixer.php:143-144 | one step throws exactly for a method element with no next meaningful token |
| PromotionLemmas.AddElementProperties | src/Fixer/ClassNotation/ConstructorPropertyPromotionFixer.php:134-137 | a property element sets its name to its offset in its class and changes no other entry |
| PromotionLemmas.AddElementConstructor | src/Fixer/ClassNotation/ConstructorPropertyPromotionFixer.php:143-150 | a method named `__construct` in any case sets its class's constructor and arguments; nothing else changes a constructor |
| PromotionLemmas.AddElementRecords | src/Fixer/ClassNotation/ConstructorPropertyPromotionFixer.php:134-150 | a class gets a record exactly when a property or a constructor of it is seen |
| PromotionLemmas.ExtractFails | src/Fixer/ClassNotation/ConstructorPropertyPromotionFixer.php:123-154 | `extractClassData` throws exactly when some method element has no next meaningful token |
| PromotionLemmas.RecordedClasses | src/Fixer/ClassNotation/ConstructorPropertyPromotionFixer.php:123-154 | a class is in the table exactly when it has a property or a `__construct` method |
| PromotionLemmas.PropertyRecorded | src/Fixer/ClassNotation/ConstructorPropertyPromotionFixer.php:134-137 | a class has a property entry under a name exactly when it declares a property of that name |
| PromotionLemmas.PropertyLastWins | src/Fixer/ClassNotation/ConstructorPropertyPromotionFixer.php:135 | the offset recorded for a property is that of its last declaration in the class |
| PromotionLemmas.ConstructorRecorded | src/Fixer/ClassNotation/ConstructorPropertyPromotionFixer.php:143-150 | a class has a constructor exactly when one of its methods is named `__construct`, compared in lower case |
| PromotionLemmas.ConstructorLastWins | src/Fixer/ClassNotation/ConstructorPropertyPromotionFixer.php:149-150 | the recorded constructor is the last `__construct` method of the class, with that method's analysed arguments |
| PromotionLemmas.MissingConstructorFails | src/Fixer/ClassNotation/ConstructorPropertyPromotionFixer.php:81 | a class record without a constructor among the classes makes the outer loop throw |
| PromotionLemmas.MissingConstructorAborts | src/Fixer/ClassNotation/ConstructorPropertyPromotionFixer.php:78-81 | a class that declares a property but has no `__construct` makes `applyFix` throw, whatever other classes the file has |
| PromotionLemmas.ArgumentsWithoutThis | src/Fixer/ClassNotation/ConstructorPropertyPromotionFixer.php:84-92 | without `$this` in the stream no argument's assignment is found, so the inner loop changes nothing |
| PromotionLemmas.ClassesWithoutThis | src/Fixer/ClassNotation/ConstructorPropertyPromotionFixer.php:80-113 | without `$this` the outer loop changes nothing: it passes or throws on the original stream |
| PromotionLemmas.FixWithoutThis | src/Fixer/ClassNotation/ConstructorPropertyPromotionFixer.php:75-116 | without `$this`, `applyFix` only drops empty tokens, or throws with the stream untouched |
| PromotionLemmas.WithoutEmptyCounts | src/Fixer/ClassNotation/ConstructorPropertyPromotionFixer.php:115 | compaction removes every empty token and keeps every other token as many times as it occurs |
| PromotionLemmas.WithoutEmptyKeeps | src/Fixer/ClassNotation/ConstructorPropertyPromotionFixer.php:115 | a stream without empty tokens is left as it is |
| PromotionLemmas.WithoutEmptyIdempotent | src/Fixer/ClassNotation/ConstructorPropertyPromotionFixer.php:115 | compacting twice is compacting once |
| PromotionLemmas.StripSigilKeeps | src/Fixer/ClassNotation/ConstructorPropertyPromotionFixer.php:165 | a name without `$` is unchanged |
| PromotionLemmas.StripSigilCounts | src/Fixer/ClassNotation/ConstructorPropertyPromotionFixer.php:165 | stripping removes every `$` and keeps every other character as often as it occurs |
| PromotionLemmas.StripSigilAppend | src/Fixer/ClassNotation/ConstructorPropertyPromotionFixer.php:165 | stripping works character by character: it distributes over concatenation, so the kept characters stay in their order |
| PromotionLemmas.StripSigilOfVariable | src/Fixer/ClassNotation/ConstructorPropertyPromotionFixer.php:165-173 | the pattern for `$name` expects the property name `name` |
| PromotionLocality.DeclarationEndLocal | src/Fixer/ClassNotation/ConstructorPropertyPromotionFixer.php:183-186 | a declaration end found inside a prefix does not depend on what follows it |
| PromotionLocality.InsertTokensLocal | src/Fixer/ClassNotation/ConstructorPropertyPromotionFixer.php:181-195 | the copied tokens of a declaration inside a prefix do not depend on what follows it |
| PromotionLocality.ClearedVariableAssignmentLocal | src/Fixer/ClassNotation/ConstructorPropertyPromotionFixer.php:240-247 | clearing an assignment inside a prefix leaves what follows the prefix untouched |
| PromotionLocality.ClearedClassPropertyLocal | src/Fixer/ClassNotation/ConstructorPropertyPromotionFixer.php:249-260 | clearing a declaration inside a prefix leaves what follows the prefix untouched |
| PromotionLocality.PromoteLocal | src/Fixer/ClassNotation/ConstructorPropertyPromotionFixer.php:104-111 | the edits of one promotion inside a prefix leave what follows the prefix untouched and do not depend on it |
| PromotionLocality.StepParameterLocal | src/Fixer/ClassNotation/ConstructorPropertyPromotionFixer.php:85-111 | an argument whose constructor body, offset and property declaration lie inside a prefix is handled the same whatever follows the prefix, which is carried along |
| PromotionLocality.StepArgumentsLocal | src/Fixer/ClassNotation/ConstructorPropertyPromotionFixer.php:84-112 | the same for all arguments of a constructor, each checked against the stream as it stands at its turn |
| PromotionLocality.StepClassLocal | src/Fixer/ClassNotation/ConstructorPropertyPromotionFixer.php:80-113 | a class whose promotion lies inside a prefix neither reads nor changes what follows the prefix |
| PromotionLocality.PromotePrefix | src/Fixer/ClassNotation/ConstructorPropertyPromotionFixer.php:104-111 | the edits of one promotion, when they all lie at or after offset `n`, keep every token below `n` |
| PromotionLocality.PromoteParameterPrefix | src/Fixer/ClassNotation/ConstructorPropertyPromotionFixer.php:102-111 | a found argument whose variable token, declaration and assignment clear all lie after `n` keeps every token below `n` |
| PromotionLocality.StepParameterPrefix | src/Fixer/ClassNotation/ConstructorPropertyPromotionFixer.php:85-111 | an argument whose constructor body, variable token and declaration clear lie after `n` keeps every token below `n` |
| PromotionLocality.StepArgumentsPrefix | src/Fixer/ClassNotation/ConstructorPropertyPromotionFixer.php:84-112 | the same for all arguments of a constructor, each checked against the stream at its turn |
| PromotionLocality.StepClassPrefix | src/Fixer/ClassNotation/ConstructorPropertyPromotionFixer.php:80-113 | a class whose constructor and edits lie at or after `n` keeps every token below `n`, whether it succeeds or throws |
| PromotionLocality.StepClassesPair | src/Fixer/ClassNotation/ConstructorPropertyPromotionFixer.php:80-113 | the loop over two classes runs the later class first, and the earlier one on its result unless the later one threw |
| PromotionLocality.TwoClassesIndependent | src/Fixer/ClassNotation/ConstructorPromotionFixer.php:74-104 | of two classes, the right one (after the prefix `l`) is handled first and keeps `l`; unless it throws, the left one is then promoted exactly as in `l` alone, with the right one's result after it |
| ArgumentIndependence.StepArgumentsPair | src/Fixer/ClassNotation/ConstructorPropertyPromotionFixer.php:84 | the loop over two arguments handles the later one first, and the earlier one on its result unless the later one threw |
| ArgumentIndependence.VisibilityScanAgree | src/Fixer/ClassNotation/ConstructorPropertyPromotionFixer.php:226-238 | the visibility lookup reads only the tokens from the keyword it finds up to the name |
| ArgumentIndependence.DeclarationAgree | src/Fixer/ClassNotation/ConstructorPropertyPromotionFixer.php:95 | the `;` search and the declaration end read only the tokens from the name through the `;` |
| ArgumentIndependence.InsertTokensAgree | src/Fixer/ClassNotation/ConstructorPropertyPromotionFixer.php:181-195 | the copy of a declaration reads only the tokens from its keyword through its `;` |
| ArgumentIndependence.AssignmentShifted | src/Fixer/ClassNotation/ConstructorPropertyPromotionFixer.php:163-179 | the assignment search finds the same assignment, moved on by `n`, in a stream that holds it `n` offsets later and has no `$this` between the window start and it |
| ArgumentIndependence.AssignmentAfterPromotion | src/Fixer/ClassNotation/ConstructorPropertyPromotionFixer.php:89-111 | after b's promotion, a's assignment is found again, moved on by the length of b's copy, although the body window is not moved |
| ArgumentIndependence.DeclarationAfterPromotion | src/Fixer/ClassNotation/ConstructorPropertyPromotionFixer.php:93-109 | after b's promotion, a's keyword, `;`, copy and clear start are found where they were |
| ArgumentIndependence.EditKeepsArgument | src/Fixer/ClassNotation/ConstructorPropertyPromotionFixer.php:89-111 | both together, with b's edit stated exactly |
| ArgumentIndependence.TwoArgumentsIndependent | src/Fixer/ClassNotation/ConstructorPropertyPromotionFixer.php:84-112 | of two arguments `a, b` of one constructor, b is handled first; under the hypotheses under "Ordering", its promotion is exactly its edit of the stream, and a is then promoted with its assignment moved on by the length of b's copy and everything else it reads found as before b's edits |

## Where the code and the tests disagree

The model follows the code. In these cases
`tests/Fixer/ClassNotation/ConstructorPropertyPromotionFixerTest.php` expects
something the code does not do:

- A typed parameter is expected to keep its own type (:120-139). The code
  copies the whole declaration from the visibility keyword, type included,
  over the variable token only, so the parameter's own type stays in front of
  the copied one.
- In the same way, a parameter with its own default keeps it after the copied
  one (:180-200). For `$baz = "baz"` the code gives
  `protected $baz = "baz" = "baz"`, but the test expects the default once.
- Variadic parameters (:341-354), abstract classes (:447-458), mismatched
  types (:471-484) and `callable` parameters (:495-506) are expected to be
  skipped. The code has no such checks; the only skips are the ones
  `PromotionLemmas.StepParameterSkips` lists.
- A class with properties but no constructor is marked as failing in the test
  file (:485). In the code, `$class['constructor']` is then null, and passing
  it to `getNextTokenOfKind` under `declare(strict_types=1)` throws. The
  model makes this a `NoConstructor` failure, and
  `PromotionLemmas.MissingConstructorAborts` shows that it ends the whole fix.
- A trait-only file fails `isCandidate`, which asks for `T_CLASS`.

## Ordering

The offsets `constructorStart` and `constructorEnd`, and the offsets of
property declarations, are computed once per class (:81-82). `insertAt`
(:111) shifts every offset at or after the argument's variable token, and
`PromotionLemmas.PromotionEffect` states that shift (`Shift(k, i, n)`).

Handling arguments right to left keeps the earlier (left) arguments'
offsets valid. It does not keep valid:

- `constructorStart` and `constructorEnd`, which lie right of every
  argument. After a promotion that inserts `n` tokens, the body window
  `[constructorStart, constructorEnd]` sits `n` tokens too far left. An
  assignment among the last `n` tokens of the body can then be missed for
  the remaining arguments.
- the offset of a property declared after the constructor, which points at
  the wrong token once an argument before it has been promoted.

`PromotionLocality` states when promotions are independent. A class whose
whole promotion lies inside a prefix is unaffected by, and does not affect,
what follows the prefix. A class whose edits all lie after the prefix keeps
the prefix intact. `TwoClassesIndependent` puts the two together.

Within one constructor, `ArgumentIndependence.TwoArgumentsIndependent`
states when the right-to-left order keeps two arguments `a, b` (b later in
the signature) independent. Its hypotheses are:

- both arguments are found: a property of the same name, an assignment in
  the body, a visibility keyword and a `;` after the declaration;
- b's promotion does not throw;
- b's parameter lies after a's `;` and before the body;
- b's edits empty nothing that a's promotion reads: a's declaration through
  its `;`, the whitespace scan before a's keyword, or a's assignment;
- b's copied declaration holds no `$this`;
- the body window, which is not moved, now starts `|insb|` tokens earlier
  in the original stream's terms (`insb` is b's copy). The only `$this`
  between that earlier start and a's assignment is the first token of b's
  own assignment, which b's promotion empties.

Under them b's promotion is exactly its edit, and a is promoted with its
assignment moved on by the length of b's copy and with the keyword, `;`,
copy and clear start it would find without b.

## Left out

- `getDefinition` and its code samples: documentation metadata with no behaviour.
- The internals of `TokensAnalyzer::getClassyElements` and `FunctionsAnalyzer::getFunctionArguments`: their results are inputs to `applyFix` (`seq<ClassyElement>` and a function from a method's name offset to its arguments).
- The `Tokens` library itself is not part of this model: its operations are modelled by their observable effect on the token sequence. `findBlockEnd` is modelled for curly braces only, which is the only block type the fixers ask for.
- ConvertVisibilityToken: the `Token` class is not part of this model; that its constructor rejects the array prototype `["", content]` with an InvalidArgumentException (the id is not an int) is taken from the library's documented behaviour and modelled as `Err(UnsupportedId)`.
- `\PHP_VERSION_ID` is a parameter of `IsCandidate`.
- `\SplFileInfo`, the `sprintf` exception messages and the rendering of tokens as text: I/O and formatting. An exception is modelled by its kind (`Failure`), not its message.
- The Tokens collection's change tracking and hash caches: they affect performance, not the token sequence.
- DeclarationEnd: when the property name has no meaningful token after it, the source indexes the collection with a null offset; what `Tokens` returns for it is not part of this model, and the model ends the fix there with `MissingIndex`.
- TwoArgumentsIndependent: the hypotheses listed under "Ordering" are sufficient, not necessary. For example, a constructor whose body has another `$this` statement between the moved window start and a's assignment is not covered, and the model states nothing about it. Neither does it state anything for more than two arguments.
- An offset that is null or out of range makes the source raise an error: a
  TypeError under `declare(strict_types=1)` when null reaches an `int`
  parameter, or the collection's out-of-range error. The model keeps only the
  fact that such an error ends `applyFix` with the stream as it stands at that
  point (`NoConstructor`, `MissingIndex`, `MissingBlockEnd`). It does not keep
  the error's class or message.
