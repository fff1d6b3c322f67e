/** Properties of the constructor promotion fixers, stated over the
    functional specification in `PromotionSpec` (which the methods of both
    fixer classes are proved to compute). */
module PromotionLemmas {
  import opened Tokenizer
  import opened PromotionSpec

  // ---------------------------------------------------------------------------
  // One argument

  /** An argument is left alone, with nothing thrown, exactly when its
      property is unknown, its assignment is not found in the constructor
      body, or (current file only) its visibility keyword is not found. */
  lemma StepParameterSkips(gen: Generation, s: seq<Token>, props: map<string, nat>, cs: nat, ce: nat,
                           arg: ArgumentEntry)
    ensures StepParameter(gen, s, props, cs, ce, arg) == Pass(s, None) <==>
              || arg.name !in props
              || ExtractVariableAssignmentSequence(s, arg.name, cs, ce).None?
              || (gen == Current && VisibilityIndex(s, props[arg.name]).None?)
  {
    if arg.name in props && ExtractVariableAssignmentSequence(s, arg.name, cs, ce).Some? {
      var ix := ExtractVariableAssignmentSequence(s, arg.name, cs, ce).value;
      var p := props[arg.name];
      match VisibilityIndex(s, p)
      case None =>
        StepParameterHidden(gen, s, props, cs, ce, arg, ix);
      case Some(vis) =>
        StepParameterFound(gen, s, props, cs, ce, arg, ix, vis);
        if PromoteParameter(s, p, vis, ix, arg).failure.None? {
          PromotionEffect(s, p, vis, ix, arg);
        }
    }
  }

  /** What promoting one argument does: the copy of the declaration, its
      visibility retagged, goes in at the parameter's offset `i`; the
      assignment statement and the declaration, from its doc comment on, are
      emptied together with the whitespace token before each; every other
      token survives unchanged, shifted right by the length of the copy when
      it lies after the parameter. Emptied tokens are dropped only at the end
      of `applyFix`. */
  lemma PromotionEffect(s: seq<Token>, p: nat, vis: nat, ix: seq<nat>, arg: ArgumentEntry)
    requires |ix| == 6 && ix[0] <= ix[5] < |s| && vis <= p
    requires PromoteParameter(s, p, vis, ix, arg).failure.None?
    ensures && CreatePropertyPromotionInsertTokens(s, vis, p).Ok?
            && NextTokenOfKind(s, p, StatementEndProtos).Some?
            && SlotIndex(arg).Some?
            && ix[0] > 0
            && 0 < |CreatePropertyPromotionInsertTokens(s, vis, p).value|
            && vis + |CreatePropertyPromotionInsertTokens(s, vis, p).value| <= |s|
    ensures var r := PromoteParameter(s, p, vis, ix, arg).items;
            var ins := CreatePropertyPromotionInsertTokens(s, vis, p).value;
            var i := SlotIndex(arg).value;
            var start := DocBlockStart(ClearedVariableAssignment(s, ix[0], ix[5]).value, vis);
            && start <= vis
            && Edited(s, r, ix[0], ix[5], start, NextTokenOfKind(s, p, StatementEndProtos).value, i, ins)
            && (forall k :: i <= k < i + |ins| ==> IsPromotionOf(r[k], s[vis + (k - i)]))
  {
    var ins := CreatePropertyPromotionInsertTokens(s, vis, p).value;
    var declEnd := NextTokenOfKind(s, p, StatementEndProtos);
    var promoted := Promote(s, ix[0], ix[5], vis, declEnd, SlotIndex(arg), ins);
    assert PromoteParameter(s, p, vis, ix, arg) == promoted;
    PromoteEffect(s, ix[0], ix[5], vis, declEnd, SlotIndex(arg), ins);
    TerminatedInsertTokens(s, vis, p);
    var start := DocBlockStart(ClearedVariableAssignment(s, ix[0], ix[5]).value, vis);
    EditedCopy(s, promoted.items, ix[0], ix[5], start, declEnd.value, SlotIndex(arg).value, ins, vis);
  }

  /** `private ?bool $bar = null;`, the name at offset 5. */
  const NullableDeclaration: seq<Token> := [
    Token(Some(Private), "private"), Token(Some(Whitespace), " "), Token(None, "?"),
    Token(Some(String), "bool"), Token(Some(Whitespace), " "), Token(Some(Variable), "$bar"),
    Token(Some(Whitespace), " "), Token(None, "="), Token(Some(Whitespace), " "),
    Token(Some(String), "null"), Token(None, ";")]

  /** A `null` default: the copy ends at `null`, and the declaration is
      cleared through the `;` after it, not up to the `null`. */
  lemma NullDefaultDeclaration()
    ensures DeclarationEnd(NullableDeclaration, 5) == Ok(9)
    ensures NextTokenOfKind(NullableDeclaration, 5, StatementEndProtos) == Some(10)
  {
    var s := NullableDeclaration;
    assert NextMeaningful(s, 5) == Some(7) by {
      assert !IsMeaningful(s[6]) && IsMeaningful(s[7]);
    }
    assert NextMeaningful(s, 7) == Some(9) by {
      assert !IsMeaningful(s[8]) && IsMeaningful(s[9]);
    }
    StatementEndIsSemicolon(s, 5);
    assert s[10] == Token(None, ";");
  }

  /** A declaration whose `=` is its last meaningful token (`private $x =` at
      the end of the file) has no `;`: the copy is still made, the assignment
      is still cleared, and the run throws only when the property is to be
      cleared up to the missing `;`. */
  lemma DanglingDefault(s: seq<Token>, p: nat, vis: nat, ix: seq<nat>, arg: ArgumentEntry)
    requires |ix| == 6 && ix[0] <= ix[5] < |s| && vis <= p
    requires NextMeaningful(s, p).Some? && s[NextMeaningful(s, p).value].content == "="
    requires NextMeaningful(s, NextMeaningful(s, p).value).None?
    ensures CreatePropertyPromotionInsertTokens(s, vis, p).Ok?
    ensures PromoteParameter(s, p, vis, ix, arg) ==
              match ClearedVariableAssignment(s, ix[0], ix[5])
              case Ok(s1) => Pass(s1, Some(MissingIndex))
              case Err(f) => Pass(s, Some(f))
  {
    var a := NextMeaningful(s, p).value;
    StatementEndIsSemicolon(s, p);
    var q := NextTokenOfKind(s, p, StatementEndProtos);
    if q.Some? {
      assert IsMeaningful(s[q.value]);
      assert false;
    }
  }

  /** The copy `Edited` places at `i` is, token by token, a promotion of the
      declaration it was copied from. */
  lemma EditedCopy(s: seq<Token>, r: seq<Token>, first: nat, last: nat, start: nat, declEnd: nat, i: nat,
                   ins: seq<Token>, vis: nat)
    requires Edited(s, r, first, last, start, declEnd, i, ins)
    requires vis + |ins| <= |s|
    requires forall k :: 0 <= k < |ins| ==> IsPromotionOf(ins[k], s[vis + k])
    ensures forall k :: i <= k < i + |ins| ==> IsPromotionOf(r[k], s[vis + (k - i)])
  {
    forall k | i <= k < i + |ins|
      ensures IsPromotionOf(r[k], s[vis + (k - i)])
    {
      assert r[k] == ins[k - i];
    }
  }

  /** The offsets of `s` one promotion empties: the assignment `[first, last]`,
      the declaration `[start, declEnd]` from its doc comment on, and the
      token before each when it is whitespace. */
  predicate ClearedByPromotion(s: seq<Token>, k: nat, first: nat, last: nat, start: nat, declEnd: nat)
    requires k < |s|
  {
    || first <= k <= last || (k == first - 1 && IsWhitespace(s[k]))
    || start <= k <= declEnd || (k == start - 1 && IsWhitespace(s[k]))
  }

  /** `r` is `s` after one promotion that copies `ins` in at offset `i`: the
      copy sits at `[i, i + |ins|)` with the emptied parameter token after it;
      every other token of `s` is at `Shift(k, i, |ins|)`, emptied exactly when
      the promotion clears it and unchanged otherwise. */
  predicate Edited(s: seq<Token>, r: seq<Token>, first: nat, last: nat, start: nat, declEnd: nat, i: nat, ins: seq<Token>) {
    && i < |s| && last < |s| && declEnd < |s|
    && |r| == |s| + |ins|
    && (forall k :: i <= k < i + |ins| ==> r[k] == ins[k - i])
    && r[i + |ins|] == Empty
    && (forall k {:trigger Shift(k, i, |ins|)} :: 0 <= k < |s| && k != i ==>
          r[Shift(k, i, |ins|)] == if ClearedByPromotion(s, k, first, last, start, declEnd) then Empty else s[k])
  }

  /** Clearing the assignment and then the declaration empties exactly the
      offsets `ClearedByPromotion` names; the whitespace test on the token
      before the declaration sees the same answer before and after the first
      clear, since that clear only empties tokens. */
  lemma ClearedTwice(s: seq<Token>, first: nat, last: nat, vis: nat, declEnd: nat)
    requires 0 < first <= last < |s| && vis < declEnd < |s|
    requires ClearedClassProperty(ClearedVariableAssignment(s, first, last).value, vis, declEnd).Ok?
    ensures var s1 := ClearedVariableAssignment(s, first, last).value;
            var s2 := ClearedClassProperty(s1, vis, declEnd).value;
            forall k :: 0 <= k < |s| ==>
              s2[k] == if ClearedByPromotion(s, k, first, last, DocBlockStart(s1, vis), declEnd) then Empty else s[k]
  {
  }

  /** The three edits of one promotion, on offsets of the stream before them:
      one that throws nothing had an assignment after offset 0, a declaration
      end and a variable token to replace. */
  lemma PromoteEffect(s: seq<Token>, first: nat, last: nat, vis: nat, declEnd: Option<nat>, index: Option<nat>,
                      ins: seq<Token>)
    requires first <= last < |s|
    requires declEnd.Some? ==> vis < declEnd.value < |s|
    requires Promote(s, first, last, vis, declEnd, index, ins).failure.None?
    ensures first > 0 && declEnd.Some? && index.Some?
    ensures Edited(s, Promote(s, first, last, vis, declEnd, index, ins).items, first, last,
                   DocBlockStart(ClearedVariableAssignment(s, first, last).value, vis), declEnd.value, index.value, ins)
  {
    var s1 := ClearedVariableAssignment(s, first, last).value;
    var s2 := ClearedClassProperty(s1, vis, declEnd.value).value;
    ClearedTwice(s, first, last, vis, declEnd.value);
    var i := index.value;
    var e := s2[i := Empty];
    assert Promote(s, first, last, vis, declEnd, index, ins).items == Inserted(e, i, ins);
    InsertedIndexing(e, i, ins);
  }

  // ---------------------------------------------------------------------------
  // The two generations

  /** Two argument entries that name the same parameter and resolve to the same offset. */
  predicate SameArgument(a: ArgumentEntry, b: ArgumentEntry) {
    a.name == b.name && SlotIndex(a) == SlotIndex(b)
  }

  predicate SameArguments(xs: seq<ArgumentEntry>, ys: seq<ArgumentEntry>) {
    |xs| == |ys| && forall k :: 0 <= k < |xs| ==> SameArgument(xs[k], ys[k])
  }

  predicate SameRecord(a: ClassRecord, b: ClassRecord) {
    && a.properties == b.properties
    && a.ctor.Some? == b.ctor.Some?
    && (a.ctor.Some? ==> a.ctor.value.nameIndex == b.ctor.value.nameIndex
                         && SameArguments(a.ctor.value.arguments, b.ctor.value.arguments))
  }

  predicate SameTable(a: ClassTable, b: ClassTable) {
    && a.order == b.order
    && a.records.Keys == b.records.Keys
    && forall c :: c in a.records ==> SameRecord(a.records[c], b.records[c])
  }

  /** For one argument the current file behaves like the earlier one, except
      that a missing visibility keyword skips the argument instead of throwing. */
  lemma ParameterGenerations(s: seq<Token>, props: map<string, nat>, cs: nat, ce: nat,
                             a: ArgumentEntry, b: ArgumentEntry)
    requires SameArgument(a, b)
    ensures StepParameter(Current, s, props, cs, ce, b)
            == if StepParameter(Earlier, s, props, cs, ce, a).failure == Some(NoVisibility) then Pass(s, None)
               else StepParameter(Earlier, s, props, cs, ce, a)
  {
    if a.name in props {
      match ExtractVariableAssignmentSequence(s, a.name, cs, ce)
      case None =>
      case Some(ix) =>
        match VisibilityIndex(s, props[a.name])
        case None =>
          StepParameterHidden(Earlier, s, props, cs, ce, a, ix);
          StepParameterHidden(Current, s, props, cs, ce, b, ix);
        case Some(vis) =>
          StepParameterFound(Earlier, s, props, cs, ce, a, ix, vis);
          StepParameterFound(Current, s, props, cs, ce, b, ix, vis);
          PromoteParameterSlot(s, props[a.name], vis, ix, a, b);
    }
  }

  /** The loop body once the assignment and the visibility keyword are found. */
  lemma StepParameterFound(gen: Generation, s: seq<Token>, props: map<string, nat>, cs: nat, ce: nat,
                           a: ArgumentEntry, ix: seq<nat>, vis: nat)
    requires a.name in props
    requires ExtractVariableAssignmentSequence(s, a.name, cs, ce) == Some(ix)
    requires VisibilityIndex(s, props[a.name]) == Some(vis)
    ensures StepParameter(gen, s, props, cs, ce, a) == PromoteParameter(s, props[a.name], vis, ix, a)
  {
  }

  /** The loop body when the assignment is found but no visibility keyword is. */
  lemma StepParameterHidden(gen: Generation, s: seq<Token>, props: map<string, nat>, cs: nat, ce: nat,
                            a: ArgumentEntry, ix: seq<nat>)
    requires a.name in props
    requires ExtractVariableAssignmentSequence(s, a.name, cs, ce) == Some(ix)
    requires VisibilityIndex(s, props[a.name]) == None
    ensures StepParameter(gen, s, props, cs, ce, a) == if gen == Current then Pass(s, None) else Pass(s, Some(NoVisibility))
  {
  }

  /** `PromoteParameter` reads the argument only through its offset. */
  lemma PromoteParameterSlot(s: seq<Token>, p: nat, vis: nat, ix: seq<nat>, a: ArgumentEntry, b: ArgumentEntry)
    requires |ix| == 6 && ix[0] <= ix[5] < |s| && vis <= p
    requires SlotIndex(a) == SlotIndex(b)
    ensures PromoteParameter(s, p, vis, ix, a) == PromoteParameter(s, p, vis, ix, b)
  {
  }

  lemma {:induction false} ArgumentsGenerations(s: seq<Token>, props: map<string, nat>, cs: nat, ce: nat,
                                                xs: seq<ArgumentEntry>, ys: seq<ArgumentEntry>)
    requires SameArguments(xs, ys)
    requires StepArguments(Earlier, s, props, cs, ce, xs).failure != Some(NoVisibility)
    ensures StepArguments(Current, s, props, cs, ce, ys) == StepArguments(Earlier, s, props, cs, ce, xs)
    decreases |xs|
  {
    if xs != [] {
      var ra := StepArguments(Earlier, s, props, cs, ce, xs[1..]);
      if ra.failure.None? {
        ArgumentsGenerations(s, props, cs, ce, xs[1..], ys[1..]);
        ParameterGenerations(ra.items, props, cs, ce, xs[0], ys[0]);
      } else {
        ArgumentsGenerations(s, props, cs, ce, xs[1..], ys[1..]);
      }
    }
  }

  lemma ClassGenerations(s: seq<Token>, a: ClassRecord, b: ClassRecord)
    requires SameRecord(a, b)
    requires StepClass(Earlier, s, a).failure != Some(NoVisibility)
    ensures StepClass(Current, s, b) == StepClass(Earlier, s, a)
  {
    if a.ctor.Some? {
      var cs := NextTokenOfKind(s, a.ctor.value.nameIndex, BodyOpenProtos);
      if cs.Some? && FindBlockEnd(s, cs.value).Some? {
        ArgumentsGenerations(s, a.properties, cs.value, FindBlockEnd(s, cs.value).value,
                             a.ctor.value.arguments, b.ctor.value.arguments);
      }
    }
  }

  lemma {:induction false} ClassesGenerations(s: seq<Token>, xs: seq<ClassRecord>, ys: seq<ClassRecord>)
    requires |xs| == |ys| && forall k :: 0 <= k < |xs| ==> SameRecord(xs[k], ys[k])
    requires StepClasses(Earlier, s, xs).failure != Some(NoVisibility)
    ensures StepClasses(Current, s, ys) == StepClasses(Earlier, s, xs)
    decreases |xs|
  {
    if xs != [] {
      ClassesGenerations(s, xs[1..], ys[1..]);
      var ra := StepClasses(Earlier, s, xs[1..]);
      if ra.failure.None? {
        ClassGenerations(ra.items, xs[0], ys[0]);
      }
    }
  }

  /** One element of `extractClassData` keeps the two files' tables alike. */
  lemma AddElementGenerations(s: seq<Token>, a: ClassTable, b: ClassTable, e: ClassyElement,
                              analyses: nat -> seq<ArgumentAnalysis>)
    requires a.Valid() && b.Valid() && SameTable(a, b)
    ensures AddElement(Earlier, s, a, e, analyses).Err? == AddElement(Current, s, b, e, analyses).Err?
    ensures AddElement(Earlier, s, a, e, analyses).Err? ==>
              AddElement(Earlier, s, a, e, analyses) == AddElement(Current, s, b, e, analyses)
    ensures AddElement(Earlier, s, a, e, analyses).Ok? ==>
              SameTable(AddElement(Earlier, s, a, e, analyses).value, AddElement(Current, s, b, e, analyses).value)
  {
    var c := e.classIndex;
    var ra, rb := a.Get(c), b.Get(c);
    assert SameRecord(ra, rb);
    match e.elementType
    case PropertyElement =>
      PutGenerations(a, b, c, ra.(properties := ra.properties[e.token.content := e.index]),
                     rb.(properties := rb.properties[e.token.content := e.index]));
    case MethodElement =>
      var next := NextMeaningful(s, e.index);
      if next.Some? && Lower(s[next.value].content) == "__construct" {
        var m := next.value;
        var xa := ExtractFunctionArguments(Earlier, analyses(m));
        var xb := ExtractFunctionArguments(Current, analyses(m));
        assert SameArguments(xa, xb);
        PutGenerations(a, b, c, ra.(ctor := Some(Constructor(m, xa))), rb.(ctor := Some(Constructor(m, xb))));
      }
    case OtherElement =>
  }

  /** Writing alike records into alike tables keeps them alike. */
  lemma PutGenerations(a: ClassTable, b: ClassTable, c: nat, ra: ClassRecord, rb: ClassRecord)
    requires a.Valid() && b.Valid() && SameTable(a, b) && SameRecord(ra, rb)
    ensures SameTable(a.Put(c, ra), b.Put(c, rb))
  {
    var a', b' := a.Put(c, ra), b.Put(c, rb);
    assert a'.records == a.records[c := ra] && b'.records == b.records[c := rb];
    assert (c in a.records) == (c in b.records);
    assert a'.order == b'.order;
    UpdatedAlike(a.records, b.records, a'.records, b'.records, c, ra, rb);
  }

  /** `am2` and `bm2` write alike records at `c` into alike maps. */
  lemma UpdatedAlike(am: map<nat, ClassRecord>, bm: map<nat, ClassRecord>, am2: map<nat, ClassRecord>,
                     bm2: map<nat, ClassRecord>, c: nat, ra: ClassRecord, rb: ClassRecord)
    requires am.Keys == bm.Keys && SameRecord(ra, rb)
    requires forall d :: d in am ==> SameRecord(am[d], bm[d])
    requires am2 == am[c := ra] && bm2 == bm[c := rb]
    ensures am2.Keys == bm2.Keys
    ensures forall d :: d in am2 ==> SameRecord(am2[d], bm2[d])
  {
    forall d | d in am2
      ensures SameRecord(am2[d], bm2[d])
    {
      if d != c {
        assert am2[d] == am[d] && bm2[d] == bm[d];
      }
    }
  }

  lemma {:induction false} ExtractGenerations(s: seq<Token>, es: seq<ClassyElement>, analyses: nat -> seq<ArgumentAnalysis>)
    ensures ExtractClassData(Earlier, s, es, analyses).Err? == ExtractClassData(Current, s, es, analyses).Err?
    ensures ExtractClassData(Earlier, s, es, analyses).Err? ==>
              ExtractClassData(Earlier, s, es, analyses) == ExtractClassData(Current, s, es, analyses)
    ensures ExtractClassData(Earlier, s, es, analyses).Ok? ==>
              SameTable(ExtractClassData(Earlier, s, es, analyses).value, ExtractClassData(Current, s, es, analyses).value)
    decreases |es|
  {
    if es != [] {
      var prefix := es[..|es| - 1];
      ExtractGenerations(s, prefix, analyses);
      var ta := ExtractClassData(Earlier, s, prefix, analyses);
      var tb := ExtractClassData(Current, s, prefix, analyses);
      if ta.Ok? {
        AddElementGenerations(s, ta.value, tb.value, es[|es| - 1], analyses);
      }
    }
  }

  /** The current file is a candidate exactly when the earlier one is and the
      PHP version id is at least 80000. */
  lemma CandidateGenerations(phpVersionId: int, s: seq<Token>)
    ensures IsCandidate(Current, phpVersionId, s) <==> IsCandidate(Earlier, phpVersionId, s) && phpVersionId >= 80000
  {
  }

  /** Lower-casing twice is lower-casing once. */
  lemma LowerIdempotent(s: string)
    ensures Lower(Lower(s)) == Lower(s)
  {
    assert forall k :: 0 <= k < |s| ==> Lower(Lower(s))[k] == Lower(s)[k];
  }

  /** Any spelling of `__construct` names the constructor. */
  lemma LowerOfConstruct()
    ensures Lower("__CONSTRUCT") == "__construct" && Lower("__Construct") == "__construct"
  {
  }

  /** The current file computes what the earlier one does, whenever the earlier
      one does not throw for a missing visibility keyword. */
  lemma FixGenerations(s: seq<Token>, es: seq<ClassyElement>, analyses: nat -> seq<ArgumentAnalysis>)
    requires Fix(Earlier, s, es, analyses).failure != Some(NoVisibility)
    ensures Fix(Current, s, es, analyses) == Fix(Earlier, s, es, analyses)
  {
    ExtractGenerations(s, es, analyses);
    if ExtractClassData(Earlier, s, es, analyses).Ok? {
      var a := ExtractClassData(Earlier, s, es, analyses).value;
      var b := ExtractClassData(Current, s, es, analyses).value;
      ClassesGenerations(s, a.Classes(), b.Classes());
    }
  }

  // ---------------------------------------------------------------------------
  // Class data

  /** `e` declares property `n` of class `c`. */
  predicate IsPropertyOf(e: ClassyElement, c: nat, n: string) {
    e.elementType == PropertyElement && e.classIndex == c && e.token.content == n
  }

  /** `e` is a method of class `c` whose name is `__construct` in any letter case. */
  predicate IsConstructorOf(s: seq<Token>, e: ClassyElement, c: nat) {
    && e.elementType == MethodElement && e.classIndex == c
    && NextMeaningful(s, e.index).Some? && Lower(s[NextMeaningful(s, e.index).value].content) == "__construct"
  }

  /** One element throws exactly when it is a method with no token after it. */
  lemma AddElementFails(gen: Generation, s: seq<Token>, t: ClassTable, e: ClassyElement,
                        analyses: nat -> seq<ArgumentAnalysis>)
    requires t.Valid()
    ensures AddElement(gen, s, t, e, analyses).Err? <==> NamelessMethod(s, e)
  {
  }

  /** One element changes the properties of its own class only, by recording its own offset. */
  lemma AddElementProperties(gen: Generation, s: seq<Token>, t: ClassTable, e: ClassyElement,
                             analyses: nat -> seq<ArgumentAnalysis>, c: nat)
    requires t.Valid() && AddElement(gen, s, t, e, analyses).Ok?
    ensures AddElement(gen, s, t, e, analyses).value.Get(c).properties
            == if e.elementType == PropertyElement && e.classIndex == c
               then t.Get(c).properties[e.token.content := e.index] else t.Get(c).properties
  {
  }

  /** One element changes the constructor of its own class only, when it is named `__construct`. */
  lemma AddElementConstructor(gen: Generation, s: seq<Token>, t: ClassTable, e: ClassyElement,
                              analyses: nat -> seq<ArgumentAnalysis>, c: nat)
    requires t.Valid() && AddElement(gen, s, t, e, analyses).Ok?
    ensures AddElement(gen, s, t, e, analyses).value.Get(c).ctor
            == if IsConstructorOf(s, e, c)
               then Some(Constructor(NextMeaningful(s, e.index).value,
                                     ExtractFunctionArguments(gen, analyses(NextMeaningful(s, e.index).value))))
               else t.Get(c).ctor
  {
  }

  /** One element adds an entry for its class when it is a property or a constructor. */
  lemma AddElementRecords(gen: Generation, s: seq<Token>, t: ClassTable, e: ClassyElement,
                          analyses: nat -> seq<ArgumentAnalysis>, c: nat)
    requires t.Valid() && AddElement(gen, s, t, e, analyses).Ok?
    ensures c in AddElement(gen, s, t, e, analyses).value.records <==>
              c in t.records || Declares(s, e, c)
  {
  }

  /** `e` is a method with no meaningful token after it, so its name cannot be read. */
  predicate NamelessMethod(s: seq<Token>, e: ClassyElement) {
    e.elementType == MethodElement && NextMeaningful(s, e.index).None?
  }

  /** `extractClassData` throws exactly when some method has no token after it. */
  lemma {:induction false} ExtractFails(gen: Generation, s: seq<Token>, es: seq<ClassyElement>, analyses: nat -> seq<ArgumentAnalysis>)
    ensures ExtractClassData(gen, s, es, analyses).Err? <==> exists k :: 0 <= k < |es| && NamelessMethod(s, es[k])
    decreases |es|
  {
    if es != [] {
      var last := |es| - 1;
      var prefix := es[..last];
      ExtractFails(gen, s, prefix, analyses);
      var t := ExtractClassData(gen, s, prefix, analyses);
      NamelessExtend(s, es, prefix);
      if t.Ok? {
        AddElementFails(gen, s, t.value, es[last], analyses);
        assert ExtractClassData(gen, s, es, analyses) == AddElement(gen, s, t.value, es[last], analyses);
      }
    }
  }

  /** Some element of `es` is a nameless method exactly when one of all but
      the last is, or the last is. */
  lemma NamelessExtend(s: seq<Token>, es: seq<ClassyElement>, prefix: seq<ClassyElement>)
    requires |es| > 0 && prefix == es[..|es| - 1]
    ensures (exists k :: 0 <= k < |es| && NamelessMethod(s, es[k])) <==>
              (exists k :: 0 <= k < |prefix| && NamelessMethod(s, prefix[k])) || NamelessMethod(s, es[|es| - 1])
  {
    if exists k :: 0 <= k < |es| && NamelessMethod(s, es[k]) {
      var k :| 0 <= k < |es| && NamelessMethod(s, es[k]);
      if k < |es| - 1 {
        assert prefix[k] == es[k];
      }
    }
    if exists k :: 0 <= k < |prefix| && NamelessMethod(s, prefix[k]) {
      var k :| 0 <= k < |prefix| && NamelessMethod(s, prefix[k]);
      assert es[k] == prefix[k];
    }
  }

  /** `e` is a property or a constructor of class `c`. */
  predicate Declares(s: seq<Token>, e: ClassyElement, c: nat) {
    e.classIndex == c && (e.elementType == PropertyElement || IsConstructorOf(s, e, c))
  }

  /** A class gets an entry only for a property or a constructor it declares. */
  lemma {:induction false} RecordedClasses(gen: Generation, s: seq<Token>, es: seq<ClassyElement>,
                                           analyses: nat -> seq<ArgumentAnalysis>, c: nat)
    requires ExtractClassData(gen, s, es, analyses).Ok?
    ensures c in ExtractClassData(gen, s, es, analyses).value.records <==>
              exists k :: 0 <= k < |es| && Declares(s, es[k], c)
    decreases |es|
  {
    if es != [] {
      var n := |es| - 1;
      var prefix := es[..n];
      RecordedClasses(gen, s, prefix, analyses, c);
      var t := ExtractClassData(gen, s, prefix, analyses).value;
      assert ExtractClassData(gen, s, es, analyses) == AddElement(gen, s, t, es[n], analyses);
      AddElementRecords(gen, s, t, es[n], analyses, c);
      DeclaresExtend(s, es, prefix, c);
    }
  }

  /** Some element of `es` declares for `c` exactly when one of all but the
      last does, or the last does. */
  lemma DeclaresExtend(s: seq<Token>, es: seq<ClassyElement>, prefix: seq<ClassyElement>, c: nat)
    requires |es| > 0 && prefix == es[..|es| - 1]
    ensures (exists k :: 0 <= k < |es| && Declares(s, es[k], c)) <==>
              (exists k :: 0 <= k < |prefix| && Declares(s, prefix[k], c)) || Declares(s, es[|es| - 1], c)
  {
    if exists k :: 0 <= k < |es| && Declares(s, es[k], c) {
      var k :| 0 <= k < |es| && Declares(s, es[k], c);
      if k < |es| - 1 {
        assert prefix[k] == es[k];
      }
    }
    if exists k :: 0 <= k < |prefix| && Declares(s, prefix[k], c) {
      var k :| 0 <= k < |prefix| && Declares(s, prefix[k], c);
      assert es[k] == prefix[k];
    }
  }

  /** `es[k]` is the last declaration of property `n` in class `c`. */
  predicate IsLastPropertyAt(es: seq<ClassyElement>, k: int, c: nat, n: string) {
    0 <= k < |es| && IsPropertyOf(es[k], c, n) && forall j :: k < j < |es| ==> !IsPropertyOf(es[j], c, n)
  }

  /** `es[k]` is the last constructor of class `c`. */
  predicate IsLastConstructorAt(s: seq<Token>, es: seq<ClassyElement>, k: int, c: nat) {
    0 <= k < |es| && IsConstructorOf(s, es[k], c) && forall j :: k < j < |es| ==> !IsConstructorOf(s, es[j], c)
  }

  lemma LastPropertyExtends(es: seq<ClassyElement>, k: nat, c: nat, n: string)
    requires |es| > 0 && IsLastPropertyAt(es[..|es| - 1], k, c, n) && !IsPropertyOf(es[|es| - 1], c, n)
    ensures IsLastPropertyAt(es, k, c, n) && es[k] == es[..|es| - 1][k]
  {
    var prefix := es[..|es| - 1];
    forall j | k < j < |es| ensures !IsPropertyOf(es[j], c, n) {
      if j < |es| - 1 { assert es[j] == prefix[j]; }
    }
  }

  lemma LastConstructorExtends(s: seq<Token>, es: seq<ClassyElement>, k: nat, c: nat)
    requires |es| > 0 && IsLastConstructorAt(s, es[..|es| - 1], k, c) && !IsConstructorOf(s, es[|es| - 1], c)
    ensures IsLastConstructorAt(s, es, k, c) && es[k] == es[..|es| - 1][k]
  {
    var prefix := es[..|es| - 1];
    forall j | k < j < |es| ensures !IsConstructorOf(s, es[j], c) {
      if j < |es| - 1 { assert es[j] == prefix[j]; }
    }
  }

  /** A class has a property entry exactly for the names it declares. */
  lemma {:induction false} PropertyRecorded(gen: Generation, s: seq<Token>, es: seq<ClassyElement>,
                                            analyses: nat -> seq<ArgumentAnalysis>, c: nat, n: string)
    requires ExtractClassData(gen, s, es, analyses).Ok?
    ensures n in ExtractClassData(gen, s, es, analyses).value.Get(c).properties <==>
              exists k :: 0 <= k < |es| && IsPropertyOf(es[k], c, n)
    decreases |es|
  {
    if es != [] {
      var last := |es| - 1;
      var prefix := es[..last];
      PropertyRecorded(gen, s, prefix, analyses, c, n);
      var t0 := ExtractClassData(gen, s, prefix, analyses).value;
      assert ExtractClassData(gen, s, es, analyses) == AddElement(gen, s, t0, es[last], analyses);
      AddElementProperties(gen, s, t0, es[last], analyses, c);
      if exists k :: 0 <= k < |prefix| && IsPropertyOf(prefix[k], c, n) {
        var k :| 0 <= k < |prefix| && IsPropertyOf(prefix[k], c, n);
        assert es[k] == prefix[k];
      } else if !IsPropertyOf(es[last], c, n) {
        forall k | 0 <= k < |es| ensures !IsPropertyOf(es[k], c, n) {
          if k < last { assert es[k] == prefix[k]; }
        }
      }
    }
  }

  /** The offset recorded for a property is that of its last declaration in the class. */
  lemma {:induction false} PropertyLastWins(gen: Generation, s: seq<Token>, es: seq<ClassyElement>,
                                            analyses: nat -> seq<ArgumentAnalysis>, c: nat, n: string)
    requires ExtractClassData(gen, s, es, analyses).Ok?
    requires n in ExtractClassData(gen, s, es, analyses).value.Get(c).properties
    ensures exists k :: IsLastPropertyAt(es, k, c, n)
                        && ExtractClassData(gen, s, es, analyses).value.Get(c).properties[n] == es[k].index
    decreases |es|
  {
    var last := |es| - 1;
    var prefix := es[..last];
    var e := es[last];
    var t0 := ExtractClassData(gen, s, prefix, analyses).value;
    var p1 := ExtractClassData(gen, s, es, analyses).value.Get(c).properties;
    assert ExtractClassData(gen, s, es, analyses) == AddElement(gen, s, t0, e, analyses);
    AddElementProperties(gen, s, t0, e, analyses, c);
    if IsPropertyOf(e, c, n) {
      assert IsLastPropertyAt(es, last, c, n);
    } else {
      var p0 := t0.Get(c).properties;
      if e.elementType == PropertyElement && e.classIndex == c {
        assert p1 == p0[e.token.content := e.index] && e.token.content != n;
      } else {
        assert p1 == p0;
      }
      PropertyLastWins(gen, s, prefix, analyses, c, n);
      var k :| IsLastPropertyAt(prefix, k, c, n) && p0[n] == prefix[k].index;
      LastPropertyExtends(es, k, c, n);
    }
  }

  /** A class has a constructor entry exactly when it has a method named `__construct`. */
  lemma {:induction false} ConstructorRecorded(gen: Generation, s: seq<Token>, es: seq<ClassyElement>,
                                               analyses: nat -> seq<ArgumentAnalysis>, c: nat)
    requires ExtractClassData(gen, s, es, analyses).Ok?
    ensures ExtractClassData(gen, s, es, analyses).value.Get(c).ctor.Some? <==>
              exists k :: 0 <= k < |es| && IsConstructorOf(s, es[k], c)
    decreases |es|
  {
    if es != [] {
      var last := |es| - 1;
      var prefix := es[..last];
      ConstructorRecorded(gen, s, prefix, analyses, c);
      var t0 := ExtractClassData(gen, s, prefix, analyses).value;
      assert ExtractClassData(gen, s, es, analyses) == AddElement(gen, s, t0, es[last], analyses);
      AddElementConstructor(gen, s, t0, es[last], analyses, c);
      ConstructorExtend(s, es, prefix, c);
    }
  }

  /** Some element of `es` is a constructor of `c` exactly when one of all but
      the last is, or the last is. */
  lemma ConstructorExtend(s: seq<Token>, es: seq<ClassyElement>, prefix: seq<ClassyElement>, c: nat)
    requires |es| > 0 && prefix == es[..|es| - 1]
    ensures (exists k :: 0 <= k < |es| && IsConstructorOf(s, es[k], c)) <==>
              (exists k :: 0 <= k < |prefix| && IsConstructorOf(s, prefix[k], c)) || IsConstructorOf(s, es[|es| - 1], c)
  {
    if exists k :: 0 <= k < |es| && IsConstructorOf(s, es[k], c) {
      var k :| 0 <= k < |es| && IsConstructorOf(s, es[k], c);
      if k < |es| - 1 {
        assert prefix[k] == es[k];
      }
    }
    if exists k :: 0 <= k < |prefix| && IsConstructorOf(s, prefix[k], c) {
      var k :| 0 <= k < |prefix| && IsConstructorOf(s, prefix[k], c);
      assert es[k] == prefix[k];
    }
  }

  /** The constructor recorded for a class is its last method named
      `__construct`, with the arguments the analyser gives for that method. */
  lemma {:induction false} ConstructorLastWins(gen: Generation, s: seq<Token>, es: seq<ClassyElement>,
                                               analyses: nat -> seq<ArgumentAnalysis>, c: nat)
    requires ExtractClassData(gen, s, es, analyses).Ok?
    requires ExtractClassData(gen, s, es, analyses).value.Get(c).ctor.Some?
    ensures var ctor := ExtractClassData(gen, s, es, analyses).value.Get(c).ctor.value;
            && ctor.arguments == ExtractFunctionArguments(gen, analyses(ctor.nameIndex))
            && exists k :: IsLastConstructorAt(s, es, k, c) && ctor.nameIndex == NextMeaningful(s, es[k].index).value
    decreases |es|
  {
    var last := |es| - 1;
    var prefix := es[..last];
    var e := es[last];
    var t0 := ExtractClassData(gen, s, prefix, analyses).value;
    assert ExtractClassData(gen, s, es, analyses) == AddElement(gen, s, t0, e, analyses);
    AddElementConstructor(gen, s, t0, e, analyses, c);
    var t1 := ExtractClassData(gen, s, es, analyses).value;
    if IsConstructorOf(s, e, c) {
      var m := NextMeaningful(s, e.index).value;
      assert t1.Get(c).ctor == Some(Constructor(m, ExtractFunctionArguments(gen, analyses(m))));
      assert IsLastConstructorAt(s, es, last, c);
    } else {
      assert t1.Get(c).ctor == t0.Get(c).ctor;
      ConstructorLastWins(gen, s, prefix, analyses, c);
      var ctor := t0.Get(c).ctor.value;
      var k :| IsLastConstructorAt(s, prefix, k, c) && ctor.nameIndex == NextMeaningful(s, prefix[k].index).value;
      LastConstructorExtends(s, es, k, c);
    }
  }

  // ---------------------------------------------------------------------------
  // The whole pass

  /** A class record without a constructor ends the outer loop with a throw,
      if nothing threw before it. */
  lemma {:induction false} MissingConstructorFails(gen: Generation, s: seq<Token>, classes: seq<ClassRecord>, k: nat)
    requires k < |classes| && classes[k].ctor.None?
    ensures StepClasses(gen, s, classes).failure.Some?
    decreases |classes|
  {
    if k > 0 {
      MissingConstructorFails(gen, s, classes[1..], k - 1);
    }
  }

  /** A class that declares a property but has no `__construct` method makes
      `applyFix` throw, whichever classes surround it. */
  lemma MissingConstructorAborts(gen: Generation, s: seq<Token>, es: seq<ClassyElement>,
                                 analyses: nat -> seq<ArgumentAnalysis>, c: nat, k: nat)
    requires k < |es| && es[k].elementType == PropertyElement && es[k].classIndex == c
    requires forall j :: 0 <= j < |es| ==> !IsConstructorOf(s, es[j], c)
    ensures Fix(gen, s, es, analyses).failure.Some?
  {
    if ExtractClassData(gen, s, es, analyses).Ok? {
      var table := ExtractClassData(gen, s, es, analyses).value;
      RecordedClasses(gen, s, es, analyses, c);
      ConstructorRecorded(gen, s, es, analyses, c);
      assert c in table.order;
      var i :| 0 <= i < |table.order| && table.order[i] == c;
      assert table.Classes()[i] == table.records[c];
      MissingConstructorFails(gen, s, table.Classes(), i);
    }
  }

  /** No token of the stream is the variable `$this`. */
  predicate HasNoThis(s: seq<Token>) {
    forall k :: 0 <= k < |s| ==> s[k] != Token(Some(Variable), "$this")
  }

  lemma {:induction false} ArgumentsWithoutThis(gen: Generation, s: seq<Token>, props: map<string, nat>, cs: nat, ce: nat,
                                                args: seq<ArgumentEntry>)
    requires HasNoThis(s)
    ensures StepArguments(gen, s, props, cs, ce, args) == Pass(s, None)
    decreases |args|
  {
    if args != [] {
      ArgumentsWithoutThis(gen, s, props, cs, ce, args[1..]);
      var seqn := if args[0].name in props then ExtractVariableAssignmentSequence(s, args[0].name, cs, ce) else None;
      assert seqn.None?;
    }
  }

  lemma {:induction false} ClassesWithoutThis(gen: Generation, s: seq<Token>, classes: seq<ClassRecord>)
    requires HasNoThis(s)
    ensures StepClasses(gen, s, classes).items == s
    decreases |classes|
  {
    if classes != [] {
      ClassesWithoutThis(gen, s, classes[1..]);
      var r := StepClasses(gen, s, classes[1..]);
      if r.failure.None? && classes[0].ctor.Some? {
        var cs := NextTokenOfKind(s, classes[0].ctor.value.nameIndex, BodyOpenProtos);
        if cs.Some? && FindBlockEnd(s, cs.value).Some? {
          ArgumentsWithoutThis(gen, s, classes[0].properties, cs.value, FindBlockEnd(s, cs.value).value,
                               classes[0].ctor.value.arguments);
        }
      }
    }
  }

  /** Without `$this` in the file nothing is promoted: `applyFix` either
      throws before changing anything or only drops empty tokens. */
  lemma FixWithoutThis(gen: Generation, s: seq<Token>, es: seq<ClassyElement>, analyses: nat -> seq<ArgumentAnalysis>)
    requires HasNoThis(s)
    ensures || Fix(gen, s, es, analyses) == Pass(WithoutEmpty(s), None)
            || (Fix(gen, s, es, analyses).failure.Some? && Fix(gen, s, es, analyses).items == s)
  {
    if ExtractClassData(gen, s, es, analyses).Ok? {
      ClassesWithoutThis(gen, s, ExtractClassData(gen, s, es, analyses).value.Classes());
    }
  }

  // ---------------------------------------------------------------------------
  // Compaction and names

  /** `clearEmptyTokens` drops every empty token and keeps every other one,
      as many times as it occurs. */
  lemma {:induction false} WithoutEmptyCounts(s: seq<Token>)
    ensures multiset(WithoutEmpty(s)) == multiset(s)[Empty := 0]
  {
    if s != [] {
      var init := s[..|s| - 1];
      WithoutEmptyCounts(init);
      assert s == init + [s[|s| - 1]];
    }
  }

  /** A stream without empty tokens is left as it is. */
  lemma {:induction false} WithoutEmptyKeeps(s: seq<Token>)
    requires forall k :: 0 <= k < |s| ==> !IsEmpty(s[k])
    ensures WithoutEmpty(s) == s
  {
    if s != [] {
      WithoutEmptyKeeps(s[..|s| - 1]);
      assert s == s[..|s| - 1] + [s[|s| - 1]];
    }
  }

  /** Compacting twice is compacting once. */
  lemma WithoutEmptyIdempotent(s: seq<Token>)
    ensures WithoutEmpty(WithoutEmpty(s)) == WithoutEmpty(s)
  {
    WithoutEmptyKeeps(WithoutEmpty(s));
  }

  /** A name without a sigil is its own sigil-less form. */
  lemma {:induction false} StripSigilKeeps(name: string)
    requires forall k :: 0 <= k < |name| ==> name[k] != '$'
    ensures StripSigil(name) == name
  {
    if name != [] {
      StripSigilKeeps(name[1..]);
    }
  }

  /** Stripping removes every `$` and keeps every other character as often
      as it occurs. */
  lemma {:induction false} StripSigilCounts(name: string)
    ensures multiset(StripSigil(name)) == multiset(name)['$' := 0]
  {
    if name != [] {
      StripSigilCounts(name[1..]);
      assert name == [name[0]] + name[1..];
      assert multiset(name) == multiset([name[0]]) + multiset(name[1..]);
    }
  }

  /** Stripping works character by character, so the characters it keeps stay
      in their order. */
  lemma {:induction false} StripSigilAppend(a: string, b: string)
    ensures StripSigil(a + b) == StripSigil(a) + StripSigil(b)
  {
    if a == [] {
      assert a + b == b;
    } else {
      assert (a + b)[0] == a[0] && (a + b)[1..] == a[1..] + b;
      StripSigilAppend(a[1..], b);
    }
  }

  /** The property name the assignment pattern expects for `$name` is `name`. */
  lemma StripSigilOfVariable(name: string)
    requires forall k :: 0 <= k < |name| ==> name[k] != '$'
    ensures StripSigil("$" + name) == name
  {
    assert ("$" + name)[1..] == name;
    StripSigilKeeps(name);
  }
}
