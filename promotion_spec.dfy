/** The pure part of the two constructor promotion fixers and a functional
    specification of their `applyFix`. `Generation` tells the two files apart:
    `Earlier` is ConstructorPromotionFixer.php, `Current` is
    ConstructorPropertyPromotionFixer.php. Exceptions that escape `applyFix`
    are `Failure`s; the one exception the current file catches becomes a skip. */
module PromotionSpec {
  import opened Tokenizer

  datatype Generation = Earlier | Current

  datatype Failure =
    | UnsupportedId     // InvalidArgumentException of the id conversion or of `new Token`
    | MissingIndex      // an offset that is null or out of range is dereferenced
    | NoConstructor     // a class record without a 'constructor' entry
    | MissingBlockEnd   // findBlockEnd finds no matching `}`
    | NoVisibility      // RuntimeException of findPropertyVisibilityIndex

  datatype Result<+T> = Ok(value: T) | Err(failure: Failure)

  // ---------------------------------------------------------------------------
  // Visibility conversion

  predicate IsVisibilityKind(k: Kind) { k == Public || k == Protected || k == Private }

  predicate IsPromotedKind(k: Kind) { k == PromotedPublic || k == PromotedProtected || k == PromotedPrivate }

  predicate IsVisibilityToken(t: Token) { t.id.Some? && IsVisibilityKind(t.id.value) }

  /** The visibility keyword a promoted tag stands for. */
  function Demoted(k: Kind): Kind
    requires IsPromotedKind(k)
  {
    if k == PromotedPublic then Public
    else if k == PromotedProtected then Protected
    else Private
  }

  /** `convertPropertyVisibilityIdToPromotedPropertyId`. */
  function ConvertPropertyVisibilityIdToPromotedPropertyId(id: Kind): (r: Result<Kind>)
    ensures r.Ok? <==> IsVisibilityKind(id)
    ensures r.Ok? ==> IsPromotedKind(r.value) && Demoted(r.value) == id
    ensures r.Err? ==> r.failure == UnsupportedId
  {
    match id
    case Public => Ok(PromotedPublic)
    case Protected => Ok(PromotedProtected)
    case Private => Ok(PromotedPrivate)
    case _ => Err(UnsupportedId)
  }

  /** `convertVisibilityToken`: a token with an id has the id converted, which
      throws unless it is a visibility keyword; an id-less token is rebuilt as
      `new Token(["", content])`, which the Token constructor rejects with an
      InvalidArgumentException because the id is not an int. Either way the
      conversion succeeds exactly for a visibility keyword. */
  function ConvertVisibilityToken(t: Token): (r: Result<Token>)
    ensures r.Ok? <==> IsVisibilityToken(t)
    ensures r.Ok? ==> r.value.content == t.content
    ensures r.Ok? ==> r.value.id.Some? && IsPromotedKind(r.value.id.value) && Demoted(r.value.id.value) == t.id.value
    ensures r.Err? ==> r.failure == UnsupportedId
  {
    if t.id.Some? then
      (match ConvertPropertyVisibilityIdToPromotedPropertyId(t.id.value)
       case Ok(k) => Ok(Token(Some(k), t.content))
       case Err(f) => Err(f))
    else Err(UnsupportedId)
  }

  /** `u` is what the copy makes of `t`: same text; a visibility keyword is
      retagged to its promoted kind, every other token is kept as it is. */
  predicate IsPromotionOf(u: Token, t: Token) {
    && u.content == t.content
    && (IsVisibilityToken(t) ==> u.id.Some? && IsPromotedKind(u.id.value) && Demoted(u.id.value) == t.id.value)
    && (!IsVisibilityToken(t) ==> u == t)
  }

  /** The closure mapped over the copied range: the converted token, or the
      original one when the conversion throws. */
  function PromotedOrKept(t: Token): (r: Token)
    ensures IsPromotionOf(r, t)
  {
    match ConvertVisibilityToken(t)
    case Ok(u) => u
    case Err(_) => t
  }

  // ---------------------------------------------------------------------------
  // The assignment statement

  /** `str_replace("$", "", name)`. */
  function StripSigil(name: string): (r: string)
    ensures forall k :: 0 <= k < |r| ==> r[k] != '$'
  {
    if name == [] then []
    else (if name[0] == '$' then [] else [name[0]]) + StripSigil(name[1..])
  }

  /** `$this->name = $name;` as a token pattern. */
  function VariableAssignmentPattern(name: string): seq<Proto> {
    [ OfKindAndContent(Variable, "$this"), OfKind(ObjectOperator), OfKindAndContent(String, StripSigil(name)),
      Char("="), OfKindAndContent(Variable, name), Char(";") ]
  }

  /** `extractVariableAssignmentSequence`: the offsets of the first
      `$this->name = $name;` inside `[from, until]`, each of its tokens the
      next meaningful one after the previous. */
  function ExtractVariableAssignmentSequence(s: seq<Token>, name: string, from: nat, until: nat): (r: Option<seq<nat>>)
    ensures r.Some? ==> |r.value| == 6 && from <= r.value[0] < r.value[5] <= until
    ensures r.Some? ==> IsChain(s, r.value[0], r.value[1..])
    ensures r.Some? ==> OccurrenceAt(s, VariableAssignmentPattern(name), r.value[0], until) == r
    ensures r.Some? ==> forall i :: from <= i < r.value[0] ==> OccurrenceAt(s, VariableAssignmentPattern(name), i, until).None?
    ensures r.Some? ==> forall k :: 0 <= k < 6 ==> r.value[k] < |s|
    ensures r.Some? ==> && s[r.value[0]] == Token(Some(Variable), "$this")
                        && s[r.value[1]].id == Some(ObjectOperator)
                        && s[r.value[2]] == Token(Some(String), StripSigil(name))
                        && s[r.value[3]] == Token(None, "=")
                        && s[r.value[4]] == Token(Some(Variable), name)
                        && s[r.value[5]] == Token(None, ";")
    ensures r.None? ==> forall i :: from <= i <= until ==> OccurrenceAt(s, VariableAssignmentPattern(name), i, until).None?
  {
    var pat := VariableAssignmentPattern(name);
    var r := FindSequence(s, pat, from, until);
    if r.Some? then
      OccurrenceUnfold(s, pat, r.value[0], until, r.value);
      ChainFromIsChain(s, r.value[0], pat[1..], until);
      assert Matches(s[r.value[0]], pat[0]) && Matches(s[r.value[2]], pat[2]) && Matches(s[r.value[3]], pat[3]);
      assert Matches(s[r.value[4]], pat[4]) && Matches(s[r.value[5]], pat[5]);
      r
    else r
  }

  // ---------------------------------------------------------------------------
  // The property declaration

  /** `findPropertyVisibilityIndex` from offset `i` down: None is the
      RuntimeException, thrown when the window `[p - 6, p - 1]` holds no
      visibility keyword or an offset in it does not exist. */
  function VisibilityScan(s: seq<Token>, p: nat, i: int): (r: Option<nat>)
    requires p - 7 <= i < p
    decreases i - (p - 7)
    ensures r.Some? ==> p - 6 <= r.value <= i < |s| && IsVisibilityToken(s[r.value])
    ensures r.Some? ==> forall j :: r.value < j <= i ==> !IsVisibilityToken(s[j])
    ensures r.None? && i < |s| ==> forall j :: 0 <= j <= i && p - 6 <= j ==> !IsVisibilityToken(s[j])
  {
    if i < p - 6 then None
    else if i < 0 || i >= |s| then None
    else if IsVisibilityToken(s[i]) then Some(i)
    else VisibilityScan(s, p, i - 1)
  }

  /** The visibility keyword of the property whose name is at `p`: the
      nearest one among the six tokens before it. */
  function VisibilityIndex(s: seq<Token>, p: nat): (r: Option<nat>)
    ensures r.Some? ==> p - 6 <= r.value < p <= |s| && IsVisibilityToken(s[r.value])
    ensures r.Some? ==> forall j :: r.value < j < p ==> !IsVisibilityToken(s[j])
    ensures r.None? && p <= |s| ==> forall j :: 0 <= j < p && p - 6 <= j ==> !IsVisibilityToken(s[j])
  {
    VisibilityScan(s, p, p - 1)
  }

  /** The last offset copied into the parameter: the property name, or the
      meaningful token after `=` when the declaration has a default. When `=`
      is the last meaningful token that offset is null, which `range` reads
      as 0. A name with no meaningful token after it makes the code index the
      collection with null. */
  function DeclarationEnd(s: seq<Token>, p: nat): (r: Result<nat>)
    ensures r.Err? <==> NextMeaningful(s, p).None?
    ensures r.Err? ==> r.failure == MissingIndex
    ensures r.Ok? ==> r.value < |s|
    ensures r.Ok? && s[NextMeaningful(s, p).value].content != "=" ==> r.value == p
    ensures r.Ok? && s[NextMeaningful(s, p).value].content == "=" ==>
              var a := NextMeaningful(s, p).value;
              || NextMeaningful(s, a) == Some(r.value)
              || (NextMeaningful(s, a).None? && r.value == 0)
  {
    match NextMeaningful(s, p)
    case None => Err(MissingIndex)
    case Some(a) =>
      if s[a].content == "=" then
        (match NextMeaningful(s, a)
         case None => Ok(0)
         case Some(e) => Ok(e))
      else Ok(p)
  }

  /** When a `;` follows the property name, the declaration's end lies from
      the name up to that `;`. */
  lemma TerminatedDeclarationEnd(s: seq<Token>, p: nat)
    requires NextTokenOfKind(s, p, StatementEndProtos).Some?
    ensures DeclarationEnd(s, p).Ok?
    ensures p <= DeclarationEnd(s, p).value <= NextTokenOfKind(s, p, StatementEndProtos).value
  {
    StatementEndIsSemicolon(s, p);
    var q := NextTokenOfKind(s, p, StatementEndProtos).value;
    assert IsMeaningful(s[q]);
    var a := NextMeaningful(s, p).value;
    if s[a].content == "=" {
      assert a < q;
      assert NextMeaningful(s, a).Some?;
    }
  }

  /** When a `;` follows the property name the copy runs upwards from the
      keyword, one promoted token per offset, and ends before the stream does. */
  lemma TerminatedInsertTokens(s: seq<Token>, vis: nat, p: nat)
    requires vis <= p && NextTokenOfKind(s, p, StatementEndProtos).Some?
    ensures CreatePropertyPromotionInsertTokens(s, vis, p).Ok?
    ensures var ins := CreatePropertyPromotionInsertTokens(s, vis, p).value;
            && 0 < |ins| && vis + |ins| <= |s|
            && forall k :: 0 <= k < |ins| ==> IsPromotionOf(ins[k], s[vis + k])
  {
    TerminatedDeclarationEnd(s, p);
  }

  /** `createPropertyPromotionInsertTokens`: a copy of the declaration from
      the visibility keyword through its last token, the keyword retagged;
      `range` counts down when that end is the null read as 0. */
  function CreatePropertyPromotionInsertTokens(s: seq<Token>, vis: nat, p: nat): (r: Result<seq<Token>>)
    requires vis <= p
    ensures r.Ok? <==> DeclarationEnd(s, p).Ok?
    ensures r.Ok? && vis <= DeclarationEnd(s, p).value ==>
              && |r.value| == DeclarationEnd(s, p).value - vis + 1 && vis + |r.value| <= |s|
              && forall k :: 0 <= k < |r.value| ==> IsPromotionOf(r.value[k], s[vis + k])
    ensures r.Ok? && DeclarationEnd(s, p).value < vis ==>
              && |r.value| == vis - DeclarationEnd(s, p).value + 1 && vis < |s|
              && forall k :: 0 <= k < |r.value| ==> IsPromotionOf(r.value[k], s[vis - k])
  {
    match DeclarationEnd(s, p)
    case Err(f) => Err(f)
    case Ok(e) =>
      if vis <= e then
        var ins := seq(e - vis + 1, k requires 0 <= k < e - vis + 1 => PromotedOrKept(s[vis + k]));
        assert forall k :: 0 <= k < |ins| ==> ins[k] == PromotedOrKept(s[vis + k]);
        Ok(ins)
      else
        var ins := seq(vis - e + 1, k requires 0 <= k < vis - e + 1 => PromotedOrKept(s[vis - k]));
        assert forall k :: 0 <= k < |ins| ==> ins[k] == PromotedOrKept(s[vis - k]);
        Ok(ins)
  }

  // ---------------------------------------------------------------------------
  // Clearing

  /** `clearVariableAssignment(from, until)`: the statement and, when it is
      whitespace, the token before it; offset 0 has no token before it. */
  function ClearedVariableAssignment(s: seq<Token>, from: nat, until: nat): (r: Result<seq<Token>>)
    requires from <= until < |s|
    ensures r.Err? <==> from == 0
    ensures r.Ok? ==> |r.value| == |s|
    ensures r.Ok? ==> forall k :: 0 <= k < |s| ==>
              r.value[k] == if from <= k <= until || (k == from - 1 && IsWhitespace(s[k])) then Empty else s[k]
  {
    if from == 0 then Err(MissingIndex)
    else Ok(ClearedRange(s, if IsWhitespace(s[from - 1]) then from - 1 else from, until))
  }

  /** Where `clearClassProperty` starts before absorbing whitespace: the doc
      comment that precedes `from` across whitespace only, else `from`. */
  function DocBlockStart(s: seq<Token>, from: nat): (r: nat)
    requires from <= |s|
    ensures r <= from
    ensures r < from ==> 0 < r && s[r].id == Some(DocComment) && forall k :: r < k < from ==> IsWhitespace(s[k])
    ensures r == from ==> forall d :: 0 < d < from && s[d].id == Some(DocComment) ==> exists k :: d < k < from && !IsWhitespace(s[k])
  {
    match PrevNonWhitespace(s, from)
    case Some(d) => if d != 0 && s[d].id == Some(DocComment) then d else from
    case None => from
  }

  /** `clearClassProperty(from, until)`: the declaration, its doc comment and
      one whitespace token before them. */
  function ClearedClassProperty(s: seq<Token>, from: nat, until: nat): (r: Result<seq<Token>>)
    requires from <= until < |s|
    ensures r.Err? <==> DocBlockStart(s, from) == 0
    ensures r.Ok? ==> |r.value| == |s|
    ensures r.Ok? ==> forall k :: 0 <= k < |s| ==>
              r.value[k] == if DocBlockStart(s, from) <= k <= until || (k == DocBlockStart(s, from) - 1 && IsWhitespace(s[k])) then Empty else s[k]
  {
    var start := DocBlockStart(s, from);
    if start == 0 then Err(MissingIndex)
    else Ok(ClearedRange(s, if IsWhitespace(s[start - 1]) then start - 1 else start, until))
  }

  // ---------------------------------------------------------------------------
  // Class data

  /** One entry of `TokensAnalyzer::getClassyElements`: `type` is 'property',
      'method' or something else (constants, enum cases). */
  datatype ElementType = PropertyElement | MethodElement | OtherElement

  datatype ClassyElement = ClassyElement(index: nat, token: Token, elementType: ElementType, classIndex: nat)

  /** One entry of `FunctionsAnalyzer::getFunctionArguments`, which keys them by name. */
  datatype ArgumentAnalysis = ArgumentAnalysis(name: string, nameIndex: nat)

  /** What `extractFunctionArguments` keeps per argument: the name index
      (current) or a one-entry map from the name to it (earlier). */
  datatype ArgumentSlot = NameIndex(index: nat) | KeyedNameIndex(entry: map<string, nat>)

  datatype ArgumentEntry = ArgumentEntry(name: string, slot: ArgumentSlot)

  /** The offset the driver replaces: `$index` (current) or `$index[$name]` (earlier). */
  function SlotIndex(e: ArgumentEntry): Option<nat> {
    match e.slot
    case NameIndex(i) => Some(i)
    case KeyedNameIndex(m) => if e.name in m then Some(m[e.name]) else None
  }

  /** `extractFunctionArguments`: both shapes resolve each argument to its name index. */
  function ExtractFunctionArguments(gen: Generation, analyses: seq<ArgumentAnalysis>): (r: seq<ArgumentEntry>)
    ensures |r| == |analyses|
    ensures forall k :: 0 <= k < |r| ==> r[k].name == analyses[k].name && SlotIndex(r[k]) == Some(analyses[k].nameIndex)
  {
    seq(|analyses|, k requires 0 <= k < |analyses| =>
      ArgumentEntry(analyses[k].name,
        if gen == Current then NameIndex(analyses[k].nameIndex)
        else KeyedNameIndex(map[analyses[k].name := analyses[k].nameIndex])))
  }

  datatype Constructor = Constructor(nameIndex: nat, arguments: seq<ArgumentEntry>)

  /** `['properties' => name => offset, 'constructor' => .., 'constructorArguments' => ..]`. */
  datatype ClassRecord = ClassRecord(properties: map<string, nat>, ctor: Option<Constructor>)

  const NewRecord: ClassRecord := ClassRecord(map[], None)

  /** The PHP array `$extractedClasses`: records keyed by class index, in the order the keys were first written. */
  datatype ClassTable = ClassTable(order: seq<nat>, records: map<nat, ClassRecord>) {
    ghost predicate Valid() {
      && (forall k :: 0 <= k < |order| ==> order[k] in records)
      && (forall c :: c in records ==> c in order)
      && (forall i, j :: 0 <= i < j < |order| ==> order[i] != order[j])
    }

    function Get(c: nat): ClassRecord {
      if c in records then records[c] else NewRecord
    }

    function Put(c: nat, rec: ClassRecord): (r: ClassTable)
      requires Valid()
      ensures r.Valid() && r.Get(c) == rec
      ensures forall c' :: c' != c ==> r.Get(c') == Get(c')
      ensures r.order == if c in records then order else order + [c]
    {
      ClassTable(if c in records then order else order + [c], records[c := rec])
    }

    function Classes(): seq<ClassRecord>
      requires Valid()
    {
      seq(|order|, k requires 0 <= k < |order| => records[order[k]])
    }
  }

  const EmptyTable: ClassTable := ClassTable([], map[])

  /** strtolower on ASCII letters. */
  function LowerChar(c: char): char {
    if 'A' <= c <= 'Z' then (c as int + 32) as char else c
  }

  /** `strtolower`: no ASCII capital is left, and every other character is kept in place. */
  function Lower(s: string): (r: string)
    ensures |r| == |s|
    ensures forall k :: 0 <= k < |r| ==> !('A' <= r[k] <= 'Z')
    ensures forall k :: 0 <= k < |s| && !('A' <= s[k] <= 'Z') ==> r[k] == s[k]
  {
    seq(|s|, k requires 0 <= k < |s| => LowerChar(s[k]))
  }

  /** One iteration of the `extractClassData` loop. */
  function AddElement(gen: Generation, s: seq<Token>, t: ClassTable, e: ClassyElement,
                      analyses: nat -> seq<ArgumentAnalysis>): (r: Result<ClassTable>)
    requires t.Valid()
    ensures r.Ok? ==> r.value.Valid()
  {
    match e.elementType
    case PropertyElement =>
      var rec := t.Get(e.classIndex);
      Ok(t.Put(e.classIndex, rec.(properties := rec.properties[e.token.content := e.index])))
    case MethodElement =>
      (match NextMeaningful(s, e.index)
       case None => Err(MissingIndex)
       case Some(m) =>
         if Lower(s[m].content) != "__construct" then Ok(t)
         else
           var rec := t.Get(e.classIndex);
           Ok(t.Put(e.classIndex, rec.(ctor := Some(Constructor(m, ExtractFunctionArguments(gen, analyses(m))))))))
    case OtherElement => Ok(t)
  }

  /** `extractClassData` over the classy elements in offset order. */
  function ExtractClassData(gen: Generation, s: seq<Token>, es: seq<ClassyElement>,
                            analyses: nat -> seq<ArgumentAnalysis>): (r: Result<ClassTable>)
    decreases |es|
    ensures r.Ok? ==> r.value.Valid()
  {
    if es == [] then Ok(EmptyTable)
    else match ExtractClassData(gen, s, es[..|es| - 1], analyses)
      case Err(f) => Err(f)
      case Ok(t) => AddElement(gen, s, t, es[|es| - 1], analyses)
  }

  /** Once a prefix of the elements throws, so does the whole loop. */
  lemma {:induction false} ExtractFailurePersists(gen: Generation, s: seq<Token>, es: seq<ClassyElement>,
                                                  analyses: nat -> seq<ArgumentAnalysis>, i: nat)
    requires i <= |es|
    requires ExtractClassData(gen, s, es[..i], analyses).Err?
    ensures ExtractClassData(gen, s, es, analyses) == ExtractClassData(gen, s, es[..i], analyses)
    decreases |es| - i
  {
    if i < |es| {
      assert es[..i + 1][..i] == es[..i];
      ExtractFailurePersists(gen, s, es, analyses, i + 1);
    } else {
      assert es[..i] == es;
    }
  }

  // ---------------------------------------------------------------------------
  // The driver

  /** The state of the stream when `applyFix` returns or throws. */
  datatype Pass = Pass(items: seq<Token>, failure: Option<Failure>)

  /** `[T_STRING, ";"]`, searched for after the property name: the first
      entry is the bare id, not the prototype `[T_STRING]`, so only the `;`
      can match (`StatementEndIsSemicolon`). */
  const StatementEndProtos: seq<Proto> := [BareId(String), Char(";")]

  /** The declaration end searched for after the property name is its first
      following `;`, whatever tokens (a `null` or `true` default included) lie
      before it; None means no `;` follows. */
  lemma StatementEndIsSemicolon(s: seq<Token>, p: nat)
    ensures var r := NextTokenOfKind(s, p, StatementEndProtos);
            && (r.Some? ==> s[r.value] == Token(None, ";") && forall k :: p < k < r.value ==> s[k] != Token(None, ";"))
            && (r.None? ==> forall k :: p < k < |s| ==> s[k] != Token(None, ";"))
  {
    forall t: Token
      ensures MatchesAny(t, StatementEndProtos) <==> t == Token(None, ";")
    {
      if t == Token(None, ";") {
        assert Matches(t, StatementEndProtos[1]);
      }
    }
  }

  /** `['{']`, searched for after the constructor name. */
  const BodyOpenProtos: seq<Proto> := [Char("{")]

  /** The mutation for one parameter, in the order of the source: clear the
      assignment, clear the property, clear the variable token and insert
      the copy at its offset. */
  function Promote(s: seq<Token>, first: nat, last: nat, vis: nat, declEnd: Option<nat>,
                   index: Option<nat>, ins: seq<Token>): (r: Pass)
    requires first <= last < |s|
    requires declEnd.Some? ==> vis < declEnd.value < |s|
    ensures |r.items| >= |s|
    ensures r.failure.Some? ==> r.failure == Some(MissingIndex)
  {
    match ClearedVariableAssignment(s, first, last)
    case Err(f) => Pass(s, Some(f))
    case Ok(s1) =>
      match declEnd
      case None => Pass(s1, Some(MissingIndex))
      case Some(until) =>
        match ClearedClassProperty(s1, vis, until)
        case Err(f) => Pass(s1, Some(f))
        case Ok(s2) =>
          match index
          case None => Pass(s2, Some(MissingIndex))
          case Some(i) =>
            if i < |s2| then Pass(Inserted(s2[i := Empty], i, ins), None)
            else Pass(s2, Some(MissingIndex))
  }

  /** The rest of the inner loop body once the assignment and the visibility
      keyword are found; the two files agree on it. */
  function PromoteParameter(s: seq<Token>, p: nat, vis: nat, ix: seq<nat>, arg: ArgumentEntry): (r: Pass)
    requires |ix| == 6 && ix[0] <= ix[5] < |s|
    requires vis <= p
    ensures |r.items| >= |s|
    ensures r.failure.Some? ==> r.failure == Some(MissingIndex)
  {
    match CreatePropertyPromotionInsertTokens(s, vis, p)
    case Err(f) => Pass(s, Some(f))
    case Ok(ins) => Promote(s, ix[0], ix[5], vis, NextTokenOfKind(s, p, StatementEndProtos), SlotIndex(arg), ins)
  }

  /** One iteration of the inner loop of `applyFix`. */
  function StepParameter(gen: Generation, s: seq<Token>, props: map<string, nat>, cs: nat, ce: nat,
                         arg: ArgumentEntry): (r: Pass)
    ensures |r.items| >= |s|
  {
    if arg.name !in props then Pass(s, None)
    else match ExtractVariableAssignmentSequence(s, arg.name, cs, ce)
      case None => Pass(s, None)
      case Some(ix) =>
        match VisibilityIndex(s, props[arg.name])
        case None => if gen == Current then Pass(s, None) else Pass(s, Some(NoVisibility))
        case Some(vis) => PromoteParameter(s, props[arg.name], vis, ix, arg)
  }

  /** `foreach (array_reverse($class['constructorArguments']) ...)`: the
      arguments after the first are handled before it. */
  function StepArguments(gen: Generation, s: seq<Token>, props: map<string, nat>, cs: nat, ce: nat,
                         args: seq<ArgumentEntry>): (r: Pass)
    decreases |args|
    ensures |r.items| >= |s|
  {
    if args == [] then Pass(s, None)
    else
      var r := StepArguments(gen, s, props, cs, ce, args[1..]);
      if r.failure.Some? then r else StepParameter(gen, r.items, props, cs, ce, args[0])
  }

  /** One iteration of the outer loop: the constructor body is located once. */
  function StepClass(gen: Generation, s: seq<Token>, rec: ClassRecord): (r: Pass)
    ensures |r.items| >= |s|
  {
    match rec.ctor
    case None => Pass(s, Some(NoConstructor))
    case Some(c) =>
      match NextTokenOfKind(s, c.nameIndex, BodyOpenProtos)
      case None => Pass(s, Some(MissingIndex))
      case Some(cs) =>
        match FindBlockEnd(s, cs)
        case None => Pass(s, Some(MissingBlockEnd))
        case Some(ce) => StepArguments(gen, s, rec.properties, cs, ce, c.arguments)
  }

  /** `foreach (array_reverse($classes) ...)`. */
  function StepClasses(gen: Generation, s: seq<Token>, classes: seq<ClassRecord>): (r: Pass)
    decreases |classes|
    ensures |r.items| >= |s|
  {
    if classes == [] then Pass(s, None)
    else
      var r := StepClasses(gen, s, classes[1..]);
      if r.failure.Some? then r else StepClass(gen, r.items, classes[0])
  }

  /** `applyFix`: extract, promote right to left, then compact. */
  function Fix(gen: Generation, s: seq<Token>, elements: seq<ClassyElement>,
               analyses: nat -> seq<ArgumentAnalysis>): (r: Pass)
    ensures r.failure.None? ==> forall k :: 0 <= k < |r.items| ==> r.items[k] != Empty
    ensures r.failure.Some? ==> |r.items| >= |s|
  {
    match ExtractClassData(gen, s, elements, analyses)
    case Err(f) => Pass(s, Some(f))
    case Ok(t) =>
      var r := StepClasses(gen, s, t.Classes());
      if r.failure.Some? then r else Pass(WithoutEmpty(r.items), None)
  }

  /** `isCandidate`; only the current file asks for PHP 8.0. */
  predicate IsCandidate(gen: Generation, phpVersionId: int, s: seq<Token>) {
    (gen == Earlier || phpVersionId >= 80000) && IsAllTokenKindsFound(s, [Class, Function, Variable])
  }

  /** A throw inside the arguments already handled ends the loop. */
  lemma {:induction false} ArgumentFailurePersists(gen: Generation, s: seq<Token>, props: map<string, nat>,
                                                   cs: nat, ce: nat, args: seq<ArgumentEntry>, i: nat)
    requires i <= |args|
    requires StepArguments(gen, s, props, cs, ce, args[i..]).failure.Some?
    ensures StepArguments(gen, s, props, cs, ce, args) == StepArguments(gen, s, props, cs, ce, args[i..])
    decreases i
  {
    if i > 0 {
      assert args[i - 1..][1..] == args[i..];
      ArgumentFailurePersists(gen, s, props, cs, ce, args, i - 1);
    } else {
      assert args[i..] == args;
    }
  }

  /** A throw inside the classes already handled ends the loop. */
  lemma {:induction false} ClassFailurePersists(gen: Generation, s: seq<Token>, classes: seq<ClassRecord>, i: nat)
    requires i <= |classes|
    requires StepClasses(gen, s, classes[i..]).failure.Some?
    ensures StepClasses(gen, s, classes) == StepClasses(gen, s, classes[i..])
    decreases i
  {
    if i > 0 {
      assert classes[i - 1..][1..] == classes[i..];
      ClassFailurePersists(gen, s, classes, i - 1);
    } else {
      assert classes[i..] == classes;
    }
  }
}
