/** Why handling the classes last to first keeps them independent: a class
    whose constructor, properties and statements all lie in a prefix `l` of
    the stream is promoted the same whatever follows `l`, and what follows is
    carried along untouched; a class whose edits all lie after `l` keeps `l`. */
module PromotionLocality {
  import opened Tokenizer
  import opened PromotionSpec

  /** `q` with the tokens `r` appended after it. */
  function Extended(q: Pass, r: seq<Token>): Pass {
    Pass(q.items + r, q.failure)
  }

  // ---------------------------------------------------------------------------
  // The helpers of one argument

  lemma {:induction false} VisibilityScanLocal(l: seq<Token>, r: seq<Token>, p: nat, i: int)
    requires p <= |l| && p - 7 <= i < p
    decreases i - (p - 7)
    ensures VisibilityScan(l + r, p, i) == VisibilityScan(l, p, i)
  {
    if i >= p - 6 && i >= 0 {
      assert (l + r)[i] == l[i];
      if !IsVisibilityToken(l[i]) {
        VisibilityScanLocal(l, r, p, i - 1);
      }
    }
  }

  /** The declaration's end, when its `;` lies inside `l`, does not depend on what follows. */
  lemma DeclarationEndLocal(l: seq<Token>, r: seq<Token>, p: nat)
    requires NextTokenOfKind(l, p, StatementEndProtos).Some?
    ensures DeclarationEnd(l + r, p) == DeclarationEnd(l, p)
  {
    TerminatedDeclarationEnd(l, p);
    NextMeaningfulLocal(l, r, p);
    var a := NextMeaningful(l, p).value;
    assert (l + r)[a] == l[a];
    NextMeaningfulLocal(l, r, a);
  }

  lemma InsertTokensLocal(l: seq<Token>, r: seq<Token>, vis: nat, p: nat)
    requires vis <= p && NextTokenOfKind(l, p, StatementEndProtos).Some?
    ensures CreatePropertyPromotionInsertTokens(l + r, vis, p) == CreatePropertyPromotionInsertTokens(l, vis, p)
  {
    DeclarationEndLocal(l, r, p);
    TerminatedDeclarationEnd(l, p);
    var i0 := CreatePropertyPromotionInsertTokens(l, vis, p).value;
    var i1 := CreatePropertyPromotionInsertTokens(l + r, vis, p).value;
    forall k | 0 <= k < |i0|
      ensures i1[k] == i0[k]
    {
      assert (l + r)[vis + k] == l[vis + k];
      PromotionUnique(i1[k], i0[k], l[vis + k]);
    }
    assert i1 == i0;
  }

  /** A token has one promotion: the promoted tags stand for distinct keywords. */
  lemma PromotionUnique(u: Token, v: Token, t: Token)
    requires IsPromotionOf(u, t) && IsPromotionOf(v, t)
    ensures u == v
  {
  }

  /** `x` with the tokens `r` appended to its stream, when it has one. */
  function ExtendedResult(x: Result<seq<Token>>, r: seq<Token>): Result<seq<Token>> {
    match x
    case Ok(t) => Ok(t + r)
    case Err(f) => Err(f)
  }

  lemma ClearedVariableAssignmentLocal(l: seq<Token>, r: seq<Token>, from: nat, until: nat)
    requires from <= until < |l|
    ensures ClearedVariableAssignment(l + r, from, until) == ExtendedResult(ClearedVariableAssignment(l, from, until), r)
  {
    if from > 0 {
      assert (l + r)[from - 1] == l[from - 1];
      ClearedRangeLocal(l, r, if IsWhitespace(l[from - 1]) then from - 1 else from, until);
    }
  }

  lemma DocBlockStartLocal(l: seq<Token>, r: seq<Token>, from: nat)
    requires from <= |l|
    ensures DocBlockStart(l + r, from) == DocBlockStart(l, from)
  {
    LastBeforeLocal(l, r, from, IsNonWhitespace);
    var d := PrevNonWhitespace(l, from);
    if d.Some? {
      assert (l + r)[d.value] == l[d.value];
    }
  }

  lemma ClearedClassPropertyLocal(l: seq<Token>, r: seq<Token>, from: nat, until: nat)
    requires from <= until < |l|
    ensures ClearedClassProperty(l + r, from, until) == ExtendedResult(ClearedClassProperty(l, from, until), r)
  {
    DocBlockStartLocal(l, r, from);
    var start := DocBlockStart(l, from);
    if start > 0 {
      assert (l + r)[start - 1] == l[start - 1];
      ClearedRangeLocal(l, r, if IsWhitespace(l[start - 1]) then start - 1 else start, until);
    }
  }

  /** The edits of one promotion, all inside `l`. */
  lemma PromoteLocal(l: seq<Token>, r: seq<Token>, first: nat, last: nat, vis: nat, declEnd: Option<nat>,
                     index: Option<nat>, ins: seq<Token>)
    requires first <= last < |l|
    requires declEnd.Some? ==> vis < declEnd.value < |l|
    requires index.Some? ==> index.value < |l|
    ensures Promote(l + r, first, last, vis, declEnd, index, ins) == Extended(Promote(l, first, last, vis, declEnd, index, ins), r)
  {
    ClearedVariableAssignmentLocal(l, r, first, last);
    if first > 0 && declEnd.Some? {
      var s1 := ClearedVariableAssignment(l, first, last).value;
      ClearedClassPropertyLocal(s1, r, vis, declEnd.value);
      if ClearedClassProperty(s1, vis, declEnd.value).Ok? && index.Some? {
        var s2 := ClearedClassProperty(s1, vis, declEnd.value).value;
        var i := index.value;
        UpdateLocal(s2, r, i, Empty);
        InsertedLocal(s2[i := Empty], r, i, ins);
      }
    }
  }

  // ---------------------------------------------------------------------------
  // Arguments, constructors and classes

  /** Everything the promotion of `arg` looks at lies inside `l`: the
      constructor body, the argument's own offset, and, when its property and
      assignment are found, the property's declaration and its statement end. */
  predicate ParameterWithin(l: seq<Token>, props: map<string, nat>, cs: nat, ce: nat, arg: ArgumentEntry) {
    && ce < |l|
    && (SlotIndex(arg).Some? ==> SlotIndex(arg).value < |l|)
    && (arg.name in props ==> props[arg.name] <= |l|)
    && (arg.name in props && ExtractVariableAssignmentSequence(l, arg.name, cs, ce).Some?
          && VisibilityIndex(l, props[arg.name]).Some? ==>
          && DeclarationEnd(l, props[arg.name]).Ok?
          && NextTokenOfKind(l, props[arg.name], StatementEndProtos).Some?)
  }

  /** The promotion of a found argument, its declaration ending inside `l`. */
  lemma PromoteParameterLocal(l: seq<Token>, r: seq<Token>, p: nat, vis: nat, ix: seq<nat>, arg: ArgumentEntry)
    requires |ix| == 6 && ix[0] <= ix[5] < |l| && vis <= p
    requires SlotIndex(arg).Some? ==> SlotIndex(arg).value < |l|
    requires DeclarationEnd(l, p).Ok? && NextTokenOfKind(l, p, StatementEndProtos).Some?
    ensures PromoteParameter(l + r, p, vis, ix, arg) == Extended(PromoteParameter(l, p, vis, ix, arg), r)
  {
    InsertTokensLocal(l, r, vis, p);
    NextTokenOfKindLocal(l, r, p, StatementEndProtos);
    var ins := CreatePropertyPromotionInsertTokens(l, vis, p).value;
    PromoteLocal(l, r, ix[0], ix[5], vis, NextTokenOfKind(l, p, StatementEndProtos), SlotIndex(arg), ins);
  }

  /** The assignment search inside a constructor body that ends inside `l`. */
  lemma AssignmentLocal(l: seq<Token>, r: seq<Token>, name: string, cs: nat, ce: nat)
    requires ce < |l|
    ensures ExtractVariableAssignmentSequence(l + r, name, cs, ce) == ExtractVariableAssignmentSequence(l, name, cs, ce)
  {
    FindSequenceLocal(l, r, VariableAssignmentPattern(name), cs, ce);
  }

  lemma VisibilityIndexLocal(l: seq<Token>, r: seq<Token>, p: nat)
    requires p <= |l|
    ensures VisibilityIndex(l + r, p) == VisibilityIndex(l, p)
  {
    VisibilityScanLocal(l, r, p, p as int - 1);
  }

  lemma StepParameterLocal(gen: Generation, l: seq<Token>, r: seq<Token>, props: map<string, nat>, cs: nat, ce: nat,
                           arg: ArgumentEntry)
    requires ParameterWithin(l, props, cs, ce, arg)
    ensures StepParameter(gen, l + r, props, cs, ce, arg) == Extended(StepParameter(gen, l, props, cs, ce, arg), r)
  {
    if arg.name in props {
      var p := props[arg.name];
      AssignmentLocal(l, r, arg.name, cs, ce);
      match ExtractVariableAssignmentSequence(l, arg.name, cs, ce)
      case None =>
        assert StepParameter(gen, l, props, cs, ce, arg) == Pass(l, None);
        assert StepParameter(gen, l + r, props, cs, ce, arg) == Pass(l + r, None);
      case Some(ix) =>
        VisibilityIndexLocal(l, r, p);
        match VisibilityIndex(l, p)
        case None =>
          var f := if gen == Current then None else Some(NoVisibility);
          assert StepParameter(gen, l, props, cs, ce, arg) == Pass(l, f);
          assert StepParameter(gen, l + r, props, cs, ce, arg) == Pass(l + r, f);
        case Some(vis) =>
          assert StepParameter(gen, l, props, cs, ce, arg) == PromoteParameter(l, p, vis, ix, arg);
          assert StepParameter(gen, l + r, props, cs, ce, arg) == PromoteParameter(l + r, p, vis, ix, arg);
          PromoteParameterLocal(l, r, p, vis, ix, arg);
    }
  }

  /** Every argument's promotion lies inside the prefix as it stands when
      that argument's turn comes (the arguments after it go first). */
  predicate ArgumentsWithin(gen: Generation, l: seq<Token>, props: map<string, nat>, cs: nat, ce: nat,
                            args: seq<ArgumentEntry>)
    decreases |args|
  {
    args == [] ||
    (&& ArgumentsWithin(gen, l, props, cs, ce, args[1..])
     && var q := StepArguments(gen, l, props, cs, ce, args[1..]);
        q.failure.Some? || ParameterWithin(q.items, props, cs, ce, args[0]))
  }

  lemma {:induction false} StepArgumentsLocal(gen: Generation, l: seq<Token>, r: seq<Token>, props: map<string, nat>,
                                              cs: nat, ce: nat, args: seq<ArgumentEntry>)
    requires ArgumentsWithin(gen, l, props, cs, ce, args)
    decreases |args|
    ensures StepArguments(gen, l + r, props, cs, ce, args) == Extended(StepArguments(gen, l, props, cs, ce, args), r)
  {
    if args != [] {
      StepArgumentsLocal(gen, l, r, props, cs, ce, args[1..]);
      var q := StepArguments(gen, l, props, cs, ce, args[1..]);
      if q.failure.None? {
        StepParameterLocal(gen, q.items, r, props, cs, ce, args[0]);
      }
    }
  }

  /** The class's constructor body, and the promotion of every argument, lie inside `l`. */
  predicate ClassWithin(gen: Generation, l: seq<Token>, rec: ClassRecord) {
    rec.ctor.Some? ==>
      match NextTokenOfKind(l, rec.ctor.value.nameIndex, BodyOpenProtos)
      case None => false
      case Some(cs) =>
        match FindBlockEnd(l, cs)
        case None => false
        case Some(ce) => ArgumentsWithin(gen, l, rec.properties, cs, ce, rec.ctor.value.arguments)
  }

  /** A class promoted inside `l` neither reads nor changes what follows `l`. */
  lemma StepClassLocal(gen: Generation, l: seq<Token>, r: seq<Token>, rec: ClassRecord)
    requires ClassWithin(gen, l, rec)
    ensures StepClass(gen, l + r, rec) == Extended(StepClass(gen, l, rec), r)
  {
    if rec.ctor.Some? {
      var c := rec.ctor.value;
      NextTokenOfKindLocal(l, r, c.nameIndex, BodyOpenProtos);
      var cs := NextTokenOfKind(l, c.nameIndex, BodyOpenProtos).value;
      FindBlockEndLocal(l, r, cs);
      var ce := FindBlockEnd(l, cs).value;
      StepArgumentsLocal(gen, l, r, rec.properties, cs, ce, c.arguments);
    }
  }

  // ---------------------------------------------------------------------------
  // The prefix before a class

  /** Every edit the promotion of `arg` makes in `q` is at offset `n` or
      later: its constructor body opens after `n` (so the assignment and the
      whitespace before it do), its variable token is at or after `n`, and the
      declaration's clear, doc comment included, starts after `n` (so the
      whitespace before it does). */
  predicate ParameterAbove(q: seq<Token>, n: nat, props: map<string, nat>, cs: nat, ce: nat, arg: ArgumentEntry) {
    && n < cs
    && (SlotIndex(arg).Some? ==> n <= SlotIndex(arg).value)
    && (arg.name in props ==>
          match ExtractVariableAssignmentSequence(q, arg.name, cs, ce)
          case None => true
          case Some(ix) =>
            match VisibilityIndex(q, props[arg.name])
            case None => true
            case Some(vis) => ClearedAbove(q, n, ix[0], ix[5], vis))
  }

  /** Once `first..last` is cleared, the property's doc block starts above `n`. */
  predicate ClearedAbove(q: seq<Token>, n: nat, first: nat, last: nat, vis: nat)
    requires first <= last < |q| && vis <= |q|
  {
    match ClearedVariableAssignment(q, first, last)
    case Err(_) => true
    case Ok(s1) => n < DocBlockStart(s1, vis)
  }

  /** Edits that all lie at or after `n` keep the tokens below `n`. */
  lemma PromotePrefix(q: seq<Token>, n: nat, first: nat, last: nat, vis: nat, declEnd: Option<nat>,
                      index: Option<nat>, ins: seq<Token>)
    requires n < first <= last < |q|
    requires declEnd.Some? ==> vis < declEnd.value < |q|
    requires declEnd.Some? ==> n < DocBlockStart(ClearedVariableAssignment(q, first, last).value, vis)
    requires index.Some? ==> n <= index.value
    ensures Promote(q, first, last, vis, declEnd, index, ins).items[..n] == q[..n]
  {
    var s1 := ClearedVariableAssignment(q, first, last).value;
    assert s1[..n] == q[..n];
    if declEnd.Some? && ClearedClassProperty(s1, vis, declEnd.value).Ok? {
      var s2 := ClearedClassProperty(s1, vis, declEnd.value).value;
      assert s2[..n] == s1[..n];
      if index.Some? && index.value < |s2| {
        var e := s2[index.value := Empty];
        assert e[..n] == s2[..n];
        assert Inserted(e, index.value, ins)[..n] == e[..n];
      }
    }
  }

  lemma StepParameterPrefix(gen: Generation, q: seq<Token>, n: nat, props: map<string, nat>, cs: nat, ce: nat,
                            arg: ArgumentEntry)
    requires n <= |q| && ParameterAbove(q, n, props, cs, ce, arg)
    ensures StepParameter(gen, q, props, cs, ce, arg).items[..n] == q[..n]
  {
    if arg.name !in props {
      assert StepParameter(gen, q, props, cs, ce, arg).items == q;
    } else {
      var p := props[arg.name];
      match ExtractVariableAssignmentSequence(q, arg.name, cs, ce)
      case None =>
        assert StepParameter(gen, q, props, cs, ce, arg).items == q;
      case Some(ix) =>
        match VisibilityIndex(q, p)
        case None =>
          assert StepParameter(gen, q, props, cs, ce, arg).items == q;
        case Some(vis) =>
          assert StepParameter(gen, q, props, cs, ce, arg) == PromoteParameter(q, p, vis, ix, arg);
          var s1 := ClearedVariableAssignment(q, ix[0], ix[5]);
          assert s1.Ok? && n < DocBlockStart(s1.value, vis);
          PromoteParameterPrefix(q, n, p, vis, ix, arg);
    }
  }

  lemma PromoteParameterPrefix(q: seq<Token>, n: nat, p: nat, vis: nat, ix: seq<nat>, arg: ArgumentEntry)
    requires |ix| == 6 && n < ix[0] <= ix[5] < |q| && vis <= p && vis <= |q|
    requires n < DocBlockStart(ClearedVariableAssignment(q, ix[0], ix[5]).value, vis)
    requires SlotIndex(arg).Some? ==> n <= SlotIndex(arg).value
    ensures PromoteParameter(q, p, vis, ix, arg).items[..n] == q[..n]
  {
    match CreatePropertyPromotionInsertTokens(q, vis, p)
    case Err(_) =>
    case Ok(ins) =>
      PromotePrefix(q, n, ix[0], ix[5], vis, NextTokenOfKind(q, p, StatementEndProtos), SlotIndex(arg), ins);
  }

  /** Every argument's edits lie at or after `n` in the stream as it stands
      when that argument's turn comes (the arguments after it go first). */
  predicate ArgumentsAbove(gen: Generation, q: seq<Token>, n: nat, props: map<string, nat>, cs: nat, ce: nat,
                           args: seq<ArgumentEntry>)
    decreases |args|
  {
    args == [] ||
    (&& ArgumentsAbove(gen, q, n, props, cs, ce, args[1..])
     && var t := StepArguments(gen, q, props, cs, ce, args[1..]);
        t.failure.Some? || ParameterAbove(t.items, n, props, cs, ce, args[0]))
  }

  lemma {:induction false} StepArgumentsPrefix(gen: Generation, q: seq<Token>, n: nat, props: map<string, nat>,
                                               cs: nat, ce: nat, args: seq<ArgumentEntry>)
    requires n <= |q| && ArgumentsAbove(gen, q, n, props, cs, ce, args)
    decreases |args|
    ensures StepArguments(gen, q, props, cs, ce, args).items[..n] == q[..n]
  {
    if args != [] {
      StepArgumentsPrefix(gen, q, n, props, cs, ce, args[1..]);
      var t := StepArguments(gen, q, props, cs, ce, args[1..]);
      if t.failure.None? {
        StepParameterPrefix(gen, t.items, n, props, cs, ce, args[0]);
        assert t.items[..n] == q[..n];
      }
    }
  }

  /** The class's constructor name is at or after `n`, and every argument's
      edits lie at or after `n`. */
  predicate ClassAbove(gen: Generation, q: seq<Token>, n: nat, rec: ClassRecord) {
    rec.ctor.Some? ==>
      && n <= rec.ctor.value.nameIndex
      && match NextTokenOfKind(q, rec.ctor.value.nameIndex, BodyOpenProtos)
         case None => true
         case Some(cs) =>
           match FindBlockEnd(q, cs)
           case None => true
           case Some(ce) => ArgumentsAbove(gen, q, n, rec.properties, cs, ce, rec.ctor.value.arguments)
  }

  /** A class promoted at or after `n` keeps every token below `n`, whether
      it succeeds or throws. */
  lemma StepClassPrefix(gen: Generation, q: seq<Token>, n: nat, rec: ClassRecord)
    requires n <= |q| && ClassAbove(gen, q, n, rec)
    ensures StepClass(gen, q, rec).items[..n] == q[..n]
  {
    if rec.ctor.Some? {
      var c := rec.ctor.value;
      match NextTokenOfKind(q, c.nameIndex, BodyOpenProtos)
      case None =>
      case Some(cs) =>
        match FindBlockEnd(q, cs)
        case None =>
        case Some(ce) =>
          StepArgumentsPrefix(gen, q, n, rec.properties, cs, ce, c.arguments);
    }
  }

  /** Two classes, `a` inside the prefix `l` and `b` after it: `b` is handled
      first and keeps `l` as it was, so, unless `b` throws, `a` is promoted
      exactly as it would be in `l` alone, with `b`'s promoted tokens after it. */
  lemma TwoClassesIndependent(gen: Generation, l: seq<Token>, r: seq<Token>, a: ClassRecord, b: ClassRecord)
    requires ClassWithin(gen, l, a)
    requires ClassAbove(gen, l + r, |l|, b)
    ensures var q := StepClass(gen, l + r, b);
            StepClasses(gen, l + r, [a, b])
            == if q.failure.Some? then q else Extended(StepClass(gen, l, a), q.items[|l|..])
  {
    var q := StepClass(gen, l + r, b);
    StepClassPrefix(gen, l + r, |l|, b);
    assert (l + r)[..|l|] == l;
    StepClassesPair(gen, l + r, a, b);
    if q.failure.None? {
      StepClassAfter(gen, l, q.items, a);
    }
  }

  /** A class inside `l`, promoted in a stream that starts with `l`. */
  lemma StepClassAfter(gen: Generation, l: seq<Token>, t: seq<Token>, a: ClassRecord)
    requires ClassWithin(gen, l, a)
    requires |l| <= |t| && t[..|l|] == l
    ensures StepClass(gen, t, a) == Extended(StepClass(gen, l, a), t[|l|..])
  {
    assert t == l + t[|l|..];
    StepClassLocal(gen, l, t[|l|..], a);
  }

  /** The outer loop over two classes: the second first, then the first unless the second throws. */
  lemma StepClassesPair(gen: Generation, s: seq<Token>, a: ClassRecord, b: ClassRecord)
    ensures var q := StepClass(gen, s, b);
            StepClasses(gen, s, [a, b]) == if q.failure.Some? then q else StepClass(gen, q.items, a)
  {
    assert [b][1..] == [];
    assert StepClasses(gen, s, []) == Pass(s, None);
    assert StepClasses(gen, s, [b]) == StepClass(gen, s, b);
    assert [a, b][1..] == [b];
  }
}
