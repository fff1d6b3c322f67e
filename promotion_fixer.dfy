/** ConstructorPromotionFixer.php, the earlier version of the fixer: the token
    collection is passed to every method, `isCandidate` has no PHP version
    gate, and the RuntimeException of `findPropertyVisibilityIndex` is not
    caught, so it ends `applyFix`. */
module PromotionFixer {
  import opened Tokenizer
  import opened PromotionSpec

  class ConstructorPromotionFixer {
    constructor () {}

    /** `isCandidate`: a class, a function and a variable in the file. */
    method IsCandidate(tokens: Tokens) returns (r: bool)
      ensures r <==> && (exists k :: 0 <= k < |tokens.items| && tokens.items[k].id == Some(Class))
                     && (exists k :: 0 <= k < |tokens.items| && tokens.items[k].id == Some(Function))
                     && (exists k :: 0 <= k < |tokens.items| && tokens.items[k].id == Some(Variable))
    {
      var kinds := [Class, Function, Variable];
      assert kinds[0] == Class && kinds[1] == Function && kinds[2] == Variable;
      r := PromotionSpec.IsCandidate(Earlier, 0, tokens.items);
    }

    /** `extractClassData`: one pass over the classy elements. */
    method ExtractClassData(tokens: Tokens, elements: seq<ClassyElement>, analyses: nat -> seq<ArgumentAnalysis>)
      returns (r: Result<ClassTable>)
      ensures r == PromotionSpec.ExtractClassData(Earlier, tokens.items, elements, analyses)
    {
      var table := EmptyTable;
      for i := 0 to |elements|
        invariant PromotionSpec.ExtractClassData(Earlier, tokens.items, elements[..i], analyses) == Ok(table)
      {
        var element := elements[i];
        assert elements[..i + 1][..i] == elements[..i];
        if element.elementType == PropertyElement {
          var rec := table.Get(element.classIndex);
          table := table.Put(element.classIndex, rec.(properties := rec.properties[element.token.content := element.index]));
        } else if element.elementType == MethodElement {
          var methodIndex := NextMeaningful(tokens.items, element.index);
          if methodIndex.None? {
            ExtractFailurePersists(Earlier, tokens.items, elements, analyses, i + 1);
            return Err(MissingIndex);
          }
          if Lower(tokens.items[methodIndex.value].content) == "__construct" {
            var rec := table.Get(element.classIndex);
            var arguments := ExtractFunctionArguments(Earlier, analyses(methodIndex.value));
            table := table.Put(element.classIndex, rec.(ctor := Some(Constructor(methodIndex.value, arguments))));
          }
        }
      }
      assert elements[..|elements|] == elements;
      return Ok(table);
    }

    /** `findPropertyVisibilityIndex`: None is the RuntimeException. */
    method FindPropertyVisibilityIndex(tokens: Tokens, propertyIndex: nat) returns (r: Option<nat>)
      ensures r == VisibilityIndex(tokens.items, propertyIndex)
    {
      var i: int := propertyIndex - 1;
      while i >= propertyIndex - 6
        invariant propertyIndex - 7 <= i < propertyIndex
        invariant VisibilityScan(tokens.items, propertyIndex, i) == VisibilityIndex(tokens.items, propertyIndex)
        decreases i
      {
        if i < 0 || i >= |tokens.items| {
          return None;
        }
        if IsVisibilityToken(tokens.items[i]) {
          return Some(i);
        }
        i := i - 1;
      }
      return None;
    }

    /** `clearVariableAssignment`. */
    method ClearVariableAssignment(tokens: Tokens, from: nat, until: nat) returns (failure: Option<Failure>)
      requires from <= until < |tokens.items|
      modifies tokens
      ensures match ClearedVariableAssignment(old(tokens.items), from, until)
              case Ok(s) => failure.None? && tokens.items == s
              case Err(f) => failure == Some(f) && tokens.items == old(tokens.items)
    {
      if from == 0 {
        return Some(MissingIndex);
      }
      var start := from;
      if IsWhitespace(tokens.items[start - 1]) {
        start := start - 1;
      }
      tokens.ClearRange(start, until);
      return None;
    }

    /** `clearClassProperty`. */
    method ClearClassProperty(tokens: Tokens, from: nat, until: nat) returns (failure: Option<Failure>)
      requires from <= until < |tokens.items|
      modifies tokens
      ensures match ClearedClassProperty(old(tokens.items), from, until)
              case Ok(s) => failure.None? && tokens.items == s
              case Err(f) => failure == Some(f) && tokens.items == old(tokens.items)
    {
      var start := from;
      var docToken := PrevNonWhitespace(tokens.items, start);
      if docToken.Some? && docToken.value != 0 && tokens.items[docToken.value].id == Some(DocComment) {
        start := docToken.value;
      }
      if start == 0 {
        return Some(MissingIndex);
      }
      if IsWhitespace(tokens.items[start - 1]) {
        start := start - 1;
      }
      tokens.ClearRange(start, until);
      return None;
    }

    /** `applyFix`: the classes, and in each the constructor arguments, are
        handled last to first; the collection is compacted at the end. */
    method ApplyFix(tokens: Tokens, elements: seq<ClassyElement>, analyses: nat -> seq<ArgumentAnalysis>)
      returns (failure: Option<Failure>)
      modifies tokens
      ensures Pass(tokens.items, failure) == Fix(Earlier, old(tokens.items), elements, analyses)
    {
      var extracted := ExtractClassData(tokens, elements, analyses);
      if extracted.Err? {
        return Some(extracted.failure);
      }
      var classes := extracted.value.Classes();
      ghost var s0 := tokens.items;
      var ci := |classes|;
      while ci > 0
        invariant 0 <= ci <= |classes|
        invariant StepClasses(Earlier, s0, classes[ci..]) == Pass(tokens.items, None)
      {
        ci := ci - 1;
        assert classes[ci..][1..] == classes[ci + 1..];
        var record := classes[ci];
        if record.ctor.None? {
          ClassFailurePersists(Earlier, s0, classes, ci);
          return Some(NoConstructor);
        }
        var constructorStart := NextTokenOfKind(tokens.items, record.ctor.value.nameIndex, BodyOpenProtos);
        if constructorStart.None? {
          ClassFailurePersists(Earlier, s0, classes, ci);
          return Some(MissingIndex);
        }
        var constructorEnd := FindBlockEnd(tokens.items, constructorStart.value);
        if constructorEnd.None? {
          ClassFailurePersists(Earlier, s0, classes, ci);
          return Some(MissingBlockEnd);
        }
        failure := PromoteArguments(tokens, record.properties, constructorStart.value, constructorEnd.value,
                                    record.ctor.value.arguments);
        if failure.Some? {
          ClassFailurePersists(Earlier, s0, classes, ci);
          return failure;
        }
      }
      assert classes[0..] == classes;
      tokens.ClearEmptyTokens();
      return None;
    }

    /** The inner loop of `applyFix`, over one constructor's arguments. */
    method PromoteArguments(tokens: Tokens, properties: map<string, nat>, constructorStart: nat, constructorEnd: nat,
                            arguments: seq<ArgumentEntry>) returns (failure: Option<Failure>)
      modifies tokens
      ensures Pass(tokens.items, failure)
              == StepArguments(Earlier, old(tokens.items), properties, constructorStart, constructorEnd, arguments)
    {
      ghost var s := tokens.items;
      var ai := |arguments|;
      while ai > 0
        invariant 0 <= ai <= |arguments|
        invariant StepArguments(Earlier, s, properties, constructorStart, constructorEnd, arguments[ai..])
                  == Pass(tokens.items, None)
      {
        ai := ai - 1;
        assert arguments[ai..][1..] == arguments[ai + 1..];
        failure := PromoteArgument(tokens, properties, constructorStart, constructorEnd, arguments[ai]);
        if failure.Some? {
          ArgumentFailurePersists(Earlier, s, properties, constructorStart, constructorEnd, arguments, ai);
          return failure;
        }
      }
      assert arguments[0..] == arguments;
      return None;
    }

    /** The body of the inner loop of `applyFix`, for one argument. */
    method PromoteArgument(tokens: Tokens, properties: map<string, nat>, constructorStart: nat, constructorEnd: nat,
                           argument: ArgumentEntry) returns (failure: Option<Failure>)
      modifies tokens
      ensures Pass(tokens.items, failure)
              == StepParameter(Earlier, old(tokens.items), properties, constructorStart, constructorEnd, argument)
    {
      var name := argument.name;
      if name !in properties {
        return None;
      }
      var sequence := ExtractVariableAssignmentSequence(tokens.items, name, constructorStart, constructorEnd);
      if sequence.None? {
        return None;
      }
      var propertyIndex := properties[name];
      var propertyNextMeaningfulTokenIndex := NextTokenOfKind(tokens.items, propertyIndex, StatementEndProtos);
      var propertyVisibilityIndex := FindPropertyVisibilityIndex(tokens, propertyIndex);
      if propertyVisibilityIndex.None? {
        return Some(NoVisibility);  // uncaught
      }
      var insertTokens := CreatePropertyPromotionInsertTokens(tokens.items, propertyVisibilityIndex.value, propertyIndex);
      if insertTokens.Err? {
        return Some(insertTokens.failure);
      }
      failure := Promote(tokens, sequence.value[0], sequence.value[5], propertyVisibilityIndex.value,
                         propertyNextMeaningfulTokenIndex, SlotIndex(argument), insertTokens.value);
    }

    /** The edits for one promoted argument, in the order `applyFix` makes them. */
    method Promote(tokens: Tokens, first: nat, last: nat, vis: nat, declEnd: Option<nat>, index: Option<nat>,
                   insertTokens: seq<Token>) returns (failure: Option<Failure>)
      requires first <= last < |tokens.items|
      requires declEnd.Some? ==> vis < declEnd.value < |tokens.items|
      modifies tokens
      ensures Pass(tokens.items, failure) == PromotionSpec.Promote(old(tokens.items), first, last, vis, declEnd, index, insertTokens)
    {
      failure := ClearVariableAssignment(tokens, first, last);
      if failure.Some? {
        return failure;
      }
      if declEnd.None? {
        return Some(MissingIndex);
      }
      failure := ClearClassProperty(tokens, vis, declEnd.value);
      if failure.Some? {
        return failure;
      }
      if index.None? || index.value >= |tokens.items| {
        return Some(MissingIndex);
      }
      tokens.ClearAt(index.value);
      tokens.InsertAt(index.value, insertTokens);
      return None;
    }
  }
}
