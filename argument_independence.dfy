/** Why the arguments of one constructor, handled last to first, are each
    promoted as if alone: once the later argument `b` is promoted, the
    earlier argument `a` finds its assignment (moved on by the length of b's
    copy), its visibility keyword, its declaration end, its copy and its doc
    comment exactly as in the stream before b's edits, provided those edits
    leave alone the tokens a's promotion reads. */
module ArgumentIndependence {
  import opened Tokenizer
  import opened PromotionSpec
  import opened PromotionLemmas
  import opened PromotionLocality

  /** The variable `$this`, the first token of every assignment searched for. */
  const This: Token := Token(Some(Variable), "$this")

  /** No offset of `s` in `[lo, hi)` is emptied by the promotion with these ranges. */
  predicate Kept(s: seq<Token>, lo: nat, hi: nat, first: nat, last: nat, start: nat, declEnd: nat) {
    && hi <= |s|
    && forall k :: lo <= k < hi ==> !ClearedByPromotion(s, k, first, last, start, declEnd)
  }

  /** Where the promotion of the argument whose assignment is at `ix` and
      whose keyword is at `vis` starts clearing the declaration. */
  function ClearStart(s: seq<Token>, ix: seq<nat>, vis: nat): nat {
    if |ix| == 6 && 0 < ix[0] <= ix[5] < |s| && vis <= |s|
    then DocBlockStart(ClearedVariableAssignment(s, ix[0], ix[5]).value, vis)
    else vis
  }

  // ---------------------------------------------------------------------------
  // One promotion, seen from outside

  /** The kept tokens below the parameter stay where they were; the kept
      tokens above it move on by the length of the copy. */
  lemma EditedAgrees(s: seq<Token>, q: seq<Token>, first: nat, last: nat, start: nat, declEnd: nat, i: nat,
                     ins: seq<Token>, lo: nat, hi: nat)
    requires Edited(s, q, first, last, start, declEnd, i, ins)
    requires Kept(s, lo, hi, first, last, start, declEnd)
    ensures hi <= i ==> AgreeShifted(s, q, lo, hi, 0)
    ensures i < lo ==> AgreeShifted(s, q, lo, hi, |ins|)
  {
    if hi <= i || i < lo {
      forall k | lo <= k < hi
        ensures q[Shift(k, i, |ins|)] == s[k]
      {
      }
    }
  }

  /** Above the parameter, the edited stream holds `$this` only where the
      copy does or where a kept token of `s` does. */
  lemma EditedWithoutThis(s: seq<Token>, q: seq<Token>, first: nat, last: nat, start: nat, declEnd: nat, i: nat,
                          ins: seq<Token>, lo: nat, m: nat)
    requires Edited(s, q, first, last, start, declEnd, i, ins)
    requires i < lo && m <= |q|
    requires forall k :: 0 <= k < |ins| ==> ins[k] != This
    requires forall k :: i < k < |s| && lo <= k + |ins| < m && s[k] == This ==> first <= k <= last
    ensures forall j :: lo <= j < m ==> q[j] != This
  {
    forall j | lo <= j < m
      ensures q[j] != This
    {
      if j < i + |ins| {
        assert q[j] == ins[j - i];
      } else if j > i + |ins| {
        var k := j - |ins|;
        assert Shift(k, i, |ins|) == j;
      }
    }
  }

  // ---------------------------------------------------------------------------
  // What the promotion of one argument reads

  /** A pattern that starts with `$this` matches nowhere the stream has no `$this`. */
  lemma NoMatchWithoutThis(q: seq<Token>, pat: seq<Proto>, lo: nat, hi: nat, end: nat)
    requires |pat| > 0 && pat[0] == OfKindAndContent(Variable, "$this") && hi <= |q|
    requires forall j :: lo <= j < hi ==> q[j] != This
    ensures forall j :: lo <= j < hi ==> OccurrenceAt(q, pat, j, end).None?
  {
    forall j | lo <= j < hi
      ensures OccurrenceAt(q, pat, j, end).None?
    {
      assert q[j] != This;
    }
  }

  /** The assignment search, run on a stream that holds the assignment `n`
      offsets later and no `$this` between the body start and it. */
  lemma AssignmentShifted(s: seq<Token>, q: seq<Token>, n: nat, name: string, cs: nat, ce: nat, ix: seq<nat>)
    requires ExtractVariableAssignmentSequence(s, name, cs, ce) == Some(ix)
    requires AgreeShifted(s, q, ix[0], ix[5] + 1, n)
    requires ix[5] + n <= ce
    requires forall j :: cs <= j < ix[0] + n ==> q[j] != This
    ensures ExtractVariableAssignmentSequence(q, name, cs, ce) == Some(ShiftedBy(ix, n))
  {
    ExtractIsFind(q, name, cs, ce);
    FindShifted(s, q, VariableAssignmentPattern(name), n, cs, ce, ix);
  }

  lemma ExtractIsFind(s: seq<Token>, name: string, from: nat, until: nat)
    ensures ExtractVariableAssignmentSequence(s, name, from, until) == FindSequence(s, VariableAssignmentPattern(name), from, until)
  {
  }

  /** A search for a pattern that starts with `$this`, run on a stream that
      holds a match `n` offsets later and no `$this` between `cs` and it,
      finds that match. */
  lemma FindShifted(s: seq<Token>, q: seq<Token>, pat: seq<Proto>, n: nat, cs: nat, ce: nat, ix: seq<nat>)
    requires |pat| > 1 && pat[0] == OfKindAndContent(Variable, "$this")
    requires |ix| > 0 && OccurrenceAt(s, pat, ix[0], ce) == Some(ix)
    requires AgreeShifted(s, q, ix[0], ix[|ix| - 1] + 1, n)
    requires ix[|ix| - 1] + n <= ce && cs <= ix[0] + n
    requires forall j :: cs <= j < ix[0] + n ==> q[j] != This
    ensures FindSequence(q, pat, cs, ce) == Some(ShiftedBy(ix, n))
  {
    var m := ix[0] + n;
    OccurrenceShifted(s, q, pat, ix[0], ce, ix, n);
    NoMatchWithoutThis(q, pat, cs, m, ce);
    FindSequenceComplete(q, pat, cs, ce, m);
  }

  lemma {:induction false} VisibilityScanAgree(s: seq<Token>, q: seq<Token>, p: nat, i: int, v: nat)
    requires p - 7 <= i < p
    requires VisibilityScan(s, p, i) == Some(v)
    requires AgreeShifted(s, q, v, i + 1, 0)
    decreases i - (p - 7)
    ensures VisibilityScan(q, p, i) == Some(v)
  {
    assert q[i] == s[i];
    if i != v {
      VisibilityScanAgree(s, q, p, i - 1, v);
    }
  }

  /** The declaration end and the `;` after the name `p` depend only on the
      tokens from the name to that `;`. */
  lemma DeclarationAgree(s: seq<Token>, q: seq<Token>, p: nat, e: nat)
    requires NextTokenOfKind(s, p, StatementEndProtos) == Some(e)
    requires AgreeShifted(s, q, p + 1, e + 1, 0)
    ensures NextTokenOfKind(q, p, StatementEndProtos) == Some(e)
    ensures DeclarationEnd(q, p) == DeclarationEnd(s, p)
  {
    NextTokenOfKindShifted(s, q, p, StatementEndProtos, 0, e);
    var a := DeclarationScan(s, p, e);
    NextMeaningfulShifted(s, q, p, 0, a);
    if s[a].content == "=" {
      NextMeaningfulShifted(s, q, a, 0, NextMeaningful(s, a).value);
    }
    DeclarationEndSame(s, q, p, a);
  }

  /** Before the `;` at `e` the scans of `DeclarationEnd` stop: the token after
      the name, and after an `=` the token after it, lie at or before `e`. */
  lemma DeclarationScan(s: seq<Token>, p: nat, e: nat) returns (a: nat)
    requires NextTokenOfKind(s, p, StatementEndProtos) == Some(e)
    ensures NextMeaningful(s, p) == Some(a) && a <= e
    ensures s[a].content == "=" ==> NextMeaningful(s, a).Some? && NextMeaningful(s, a).value <= e
  {
    StatementEndIsSemicolon(s, p);
    assert IsMeaningful(s[e]);
    a := NextMeaningful(s, p).value;
    if s[a].content == "=" {
      assert a < e;
    }
  }

  /** `DeclarationEnd` reads only the two meaningful tokens after the name. */
  lemma DeclarationEndSame(s: seq<Token>, q: seq<Token>, p: nat, a: nat)
    requires NextMeaningful(s, p) == Some(a) && NextMeaningful(q, p) == Some(a) && a < |q| && q[a] == s[a]
    requires s[a].content == "=" ==> NextMeaningful(q, a) == NextMeaningful(s, a)
    ensures DeclarationEnd(q, p) == DeclarationEnd(s, p)
  {
  }

  /** The copy of the declaration depends only on the tokens from its
      keyword to its `;`. */
  lemma InsertTokensAgree(s: seq<Token>, q: seq<Token>, vis: nat, p: nat, e: nat)
    requires vis <= p
    requires NextTokenOfKind(s, p, StatementEndProtos) == Some(e)
    requires AgreeShifted(s, q, vis, e + 1, 0)
    ensures CreatePropertyPromotionInsertTokens(q, vis, p) == CreatePropertyPromotionInsertTokens(s, vis, p)
  {
    assert AgreeShifted(s, q, p + 1, e + 1, 0);
    DeclarationAgree(s, q, p, e);
    TerminatedDeclarationEnd(s, p);
    var i0 := CreatePropertyPromotionInsertTokens(s, vis, p).value;
    var i1 := CreatePropertyPromotionInsertTokens(q, vis, p).value;
    forall k | 0 <= k < |i0|
      ensures i1[k] == i0[k]
    {
      assert q[vis + k] == s[vis + k];
      PromotionUnique(i1[k], i0[k], s[vis + k]);
    }
    assert i1 == i0;
  }

  /** Where the declaration's clear starts depends only on the tokens the
      whitespace scan back from the keyword passes over, whichever
      assignment above the keyword was emptied first. */
  lemma DocBlockAgree(s: seq<Token>, q: seq<Token>, vis: nat, ix: seq<nat>, qix: seq<nat>)
    requires |ix| == 6 && 0 < ix[0] <= ix[5] < |s| && vis < ix[0]
    requires |qix| == 6 && 0 < qix[0] <= qix[5] < |q| && vis < qix[0]
    requires AgreeShifted(s, q, LastStop(s, vis, IsNonWhitespace), vis, 0)
    ensures ClearStart(q, qix, vis) == ClearStart(s, ix, vis)
  {
    var s1 := ClearedVariableAssignment(s, ix[0], ix[5]).value;
    var q1 := ClearedVariableAssignment(q, qix[0], qix[5]).value;
    LastBeforeAgree(s, s1, vis, IsNonWhitespace);
    assert LastStop(s1, vis, IsNonWhitespace) == LastStop(s, vis, IsNonWhitespace);
    forall k | LastStop(s1, vis, IsNonWhitespace) <= k < vis
      ensures q1[k] == s1[k]
    {
      assert q[k] == s[k];
    }
    LastBeforeAgree(s1, q1, vis, IsNonWhitespace);
  }

  // ---------------------------------------------------------------------------
  // Two arguments

  /** The assignment search after another argument's promotion
      `Edited(s, q, …)` that copies in below the constructor body: when that
      promotion empties none of the assignment and leaves no `$this` that the
      search passes on its way to it, the search finds the assignment of `s`,
      moved on by the length of the copy. */
  lemma AssignmentAfterEdit(s: seq<Token>, q: seq<Token>, first: nat, last: nat, start: nat, declEnd: nat, i: nat,
                            ins: seq<Token>, name: string, cs: nat, ce: nat, ix: seq<nat>)
    requires Edited(s, q, first, last, start, declEnd, i, ins)
    requires ExtractVariableAssignmentSequence(s, name, cs, ce) == Some(ix)
    requires i < cs && ix[5] + |ins| <= ce
    requires Kept(s, ix[0], ix[5] + 1, first, last, start, declEnd)
    requires forall k :: 0 <= k < |ins| ==> ins[k] != This
    requires forall k :: i < k < ix[0] && cs <= k + |ins| && s[k] == This ==> first <= k <= last
    ensures ExtractVariableAssignmentSequence(q, name, cs, ce) == Some(ShiftedBy(ix, |ins|))
  {
    var n := |ins|;
    EditedAgrees(s, q, first, last, start, declEnd, i, ins, ix[0], ix[5] + 1);
    EditedWithoutThis(s, q, first, last, start, declEnd, i, ins, cs, ix[0] + n);
    AssignmentShifted(s, q, n, name, cs, ce, ix);
  }

  /** A property declaration read after another argument's promotion
      `Edited(s, q, …)` that copies in after the declaration's `;`: when that
      promotion empties none of the declaration from its keyword to its `;`
      and none of the whitespace scan before the keyword, the keyword, the
      `;`, the copy and the clear start are those of `s`, the clear start
      whichever assignment above the keyword is emptied first. */
  lemma DeclarationAfterEdit(s: seq<Token>, q: seq<Token>, first: nat, last: nat, start: nat, declEnd: nat, i: nat,
                             ins: seq<Token>, p: nat, vis: nat, e: nat, ix: seq<nat>, qix: seq<nat>)
    requires Edited(s, q, first, last, start, declEnd, i, ins)
    requires VisibilityIndex(s, p) == Some(vis)
    requires NextTokenOfKind(s, p, StatementEndProtos) == Some(e)
    requires e < i
    requires Kept(s, vis, e + 1, first, last, start, declEnd)
    requires Kept(s, LastStop(s, vis, IsNonWhitespace), vis, first, last, start, declEnd)
    requires |ix| == 6 && 0 < ix[0] <= ix[5] < |s| && vis < ix[0]
    requires |qix| == 6 && 0 < qix[0] <= qix[5] < |q| && vis < qix[0]
    ensures VisibilityIndex(q, p) == Some(vis)
    ensures NextTokenOfKind(q, p, StatementEndProtos) == Some(e)
    ensures CreatePropertyPromotionInsertTokens(q, vis, p) == CreatePropertyPromotionInsertTokens(s, vis, p)
    ensures ClearStart(q, qix, vis) == ClearStart(s, ix, vis)
  {
    EditedAgrees(s, q, first, last, start, declEnd, i, ins, vis, e + 1);
    assert AgreeShifted(s, q, vis, p, 0);
    VisibilityScanAgree(s, q, p, p - 1, vis);
    InsertTokensAgree(s, q, vis, p, e);
    assert AgreeShifted(s, q, p + 1, e + 1, 0);
    DeclarationAgree(s, q, p, e);
    EditedAgrees(s, q, first, last, start, declEnd, i, ins, LastStop(s, vis, IsNonWhitespace), vis);
    DocBlockAgree(s, q, vis, ix, qix);
  }

  /** A copy of a declaration that holds no `$this` holds none either. */
  lemma CopyWithoutThis(s: seq<Token>, vis: nat, p: nat, ins: seq<Token>)
    requires vis <= p && NextTokenOfKind(s, p, StatementEndProtos).Some?
    requires CreatePropertyPromotionInsertTokens(s, vis, p) == Ok(ins)
    requires forall k :: vis <= k < |s| && k < vis + |ins| ==> s[k] != This
    ensures forall k :: 0 <= k < |ins| ==> ins[k] != This
  {
    TerminatedInsertTokens(s, vis, p);
    forall k | 0 <= k < |ins|
      ensures ins[k] != This
    {
      assert IsPromotionOf(ins[k], s[vis + k]) && s[vis + k] != This;
    }
  }

  /** The inner loop over two arguments: the second first, then the first
      on what the second left, unless the second threw. */
  lemma StepArgumentsPair(gen: Generation, s: seq<Token>, props: map<string, nat>, cs: nat, ce: nat,
                          a: ArgumentEntry, b: ArgumentEntry)
    ensures var q := StepParameter(gen, s, props, cs, ce, b);
            StepArguments(gen, s, props, cs, ce, [a, b]) ==
              if q.failure.Some? then q else StepParameter(gen, q.items, props, cs, ce, a)
  {
    assert [b][1..] == [];
    assert StepArguments(gen, s, props, cs, ce, []) == Pass(s, None);
    assert StepArguments(gen, s, props, cs, ce, [b]) == StepParameter(gen, s, props, cs, ce, b);
    assert [a, b][1..] == [b];
  }

  /** Two arguments `a, b` of one constructor, `b` later in the signature
      and so promoted first. Suppose b's parameter lies after a's whole
      declaration and before the constructor body; b's edits empty none of
      a's declaration through its `;`, of the whitespace scan before a's
      keyword or of a's assignment; b's declaration holds no `$this`; and the
      only `$this` the search for a's assignment passes (the body window is
      not moved, so it now starts `|insb|` tokens earlier in `s`'s terms) is
      the first token of b's own assignment. Then b's promotion is exactly
      its edit of `s`, and a is then promoted with its assignment moved on
      by the length of b's copy and with the keyword, `;`, copy and clear
      start found in `s` before b's edits. */
  lemma TwoArgumentsIndependent(gen: Generation, s: seq<Token>, props: map<string, nat>, cs: nat, ce: nat,
                                a: ArgumentEntry, b: ArgumentEntry, ixa: seq<nat>, visa: nat, ea: nat,
                                ixb: seq<nat>, visb: nat, eb: nat, ib: nat, insb: seq<Token>)
    requires a.name in props && b.name in props
    requires ExtractVariableAssignmentSequence(s, a.name, cs, ce) == Some(ixa)
    requires ExtractVariableAssignmentSequence(s, b.name, cs, ce) == Some(ixb)
    requires VisibilityIndex(s, props[a.name]) == Some(visa)
    requires VisibilityIndex(s, props[b.name]) == Some(visb)
    requires NextTokenOfKind(s, props[a.name], StatementEndProtos) == Some(ea)
    requires NextTokenOfKind(s, props[b.name], StatementEndProtos) == Some(eb)
    requires CreatePropertyPromotionInsertTokens(s, visb, props[b.name]) == Ok(insb)
    requires SlotIndex(b) == Some(ib)
    requires PromoteParameter(s, props[b.name], visb, ixb, b).failure.None?
    requires ea < ib < cs && ixa[5] + |insb| <= ce
    requires var startb := ClearStart(s, ixb, visb);
             && Kept(s, visa, ea + 1, ixb[0], ixb[5], startb, eb)
             && Kept(s, LastStop(s, visa, IsNonWhitespace), visa, ixb[0], ixb[5], startb, eb)
             && Kept(s, ixa[0], ixa[5] + 1, ixb[0], ixb[5], startb, eb)
    requires forall k :: visb <= k < |s| && k < visb + |insb| ==> s[k] != This
    requires forall k :: ib < k < ixa[0] && cs <= k + |insb| && s[k] == This ==> k == ixb[0]
    ensures var q := PromoteParameter(s, props[b.name], visb, ixb, b).items;
            var n := |insb|;
            && Edited(s, q, ixb[0], ixb[5], ClearStart(s, ixb, visb), eb, ib, insb)
            && ExtractVariableAssignmentSequence(q, a.name, cs, ce) == Some(ShiftedBy(ixa, n))
            && VisibilityIndex(q, props[a.name]) == Some(visa)
            && NextTokenOfKind(q, props[a.name], StatementEndProtos) == Some(ea)
            && CreatePropertyPromotionInsertTokens(q, visa, props[a.name])
               == CreatePropertyPromotionInsertTokens(s, visa, props[a.name])
            && ClearStart(q, ShiftedBy(ixa, n), visa) == ClearStart(s, ixa, visa)
            && StepArguments(gen, s, props, cs, ce, [a, b]) == PromoteParameter(q, props[a.name], visa, ShiftedBy(ixa, n), a)
  {
    EditKeepsArgument(s, props[a.name], props[b.name], cs, ce, a, b, ixa, visa, ea, ixb, visb, eb, ib, insb);
    var q := PromoteParameter(s, props[b.name], visb, ixb, b).items;
    StepArgumentsPair(gen, s, props, cs, ce, a, b);
    StepParameterFound(gen, s, props, cs, ce, b, ixb, visb);
    StepParameterFound(gen, q, props, cs, ce, a, ShiftedBy(ixa, |insb|), visa);
  }

  /** The stream half of `TwoArgumentsIndependent`: after b's promotion
      everything the promotion of a reads is found where it was, a's
      assignment moved on by the length of b's copy. */
  lemma EditKeepsArgument(s: seq<Token>, pa: nat, pb: nat, cs: nat, ce: nat,
                          a: ArgumentEntry, b: ArgumentEntry, ixa: seq<nat>, visa: nat, ea: nat,
                          ixb: seq<nat>, visb: nat, eb: nat, ib: nat, insb: seq<Token>)
    requires ExtractVariableAssignmentSequence(s, a.name, cs, ce) == Some(ixa)
    requires ExtractVariableAssignmentSequence(s, b.name, cs, ce) == Some(ixb)
    requires VisibilityIndex(s, pa) == Some(visa)
    requires VisibilityIndex(s, pb) == Some(visb)
    requires NextTokenOfKind(s, pa, StatementEndProtos) == Some(ea)
    requires NextTokenOfKind(s, pb, StatementEndProtos) == Some(eb)
    requires CreatePropertyPromotionInsertTokens(s, visb, pb) == Ok(insb)
    requires SlotIndex(b) == Some(ib)
    requires PromoteParameter(s, pb, visb, ixb, b).failure.None?
    requires ea < ib < cs && ixa[5] + |insb| <= ce
    requires var startb := ClearStart(s, ixb, visb);
             && Kept(s, visa, ea + 1, ixb[0], ixb[5], startb, eb)
             && Kept(s, LastStop(s, visa, IsNonWhitespace), visa, ixb[0], ixb[5], startb, eb)
             && Kept(s, ixa[0], ixa[5] + 1, ixb[0], ixb[5], startb, eb)
    requires forall k :: visb <= k < |s| && k < visb + |insb| ==> s[k] != This
    requires forall k :: ib < k < ixa[0] && cs <= k + |insb| && s[k] == This ==> k == ixb[0]
    ensures var q := PromoteParameter(s, pb, visb, ixb, b).items;
            var n := |insb|;
            && Edited(s, q, ixb[0], ixb[5], ClearStart(s, ixb, visb), eb, ib, insb)
            && ExtractVariableAssignmentSequence(q, a.name, cs, ce) == Some(ShiftedBy(ixa, n))
            && VisibilityIndex(q, pa) == Some(visa)
            && NextTokenOfKind(q, pa, StatementEndProtos) == Some(ea)
            && CreatePropertyPromotionInsertTokens(q, visa, pa) == CreatePropertyPromotionInsertTokens(s, visa, pa)
            && ClearStart(q, ShiftedBy(ixa, n), visa) == ClearStart(s, ixa, visa)
  {
    assert Promotes(s, pb, visb, ixb, b, eb, ib, insb);
    PromotionEdited(s, pb, visb, ixb, b, eb, ib, insb);
    AssignmentAfterPromotion(s, pb, cs, ce, a.name, b, ixa, ixb, visb, eb, ib, insb);
    DeclarationAfterPromotion(s, pa, pb, b, ixa, visa, ea, ixb, visb, eb, ib, insb);
  }

  /** b's promotion succeeds: its assignment at `ix`, its keyword at `vis`,
      its `;` at `e`, its copy `ins` inserted at `i`. */
  predicate Promotes(s: seq<Token>, p: nat, vis: nat, ix: seq<nat>, arg: ArgumentEntry, e: nat, i: nat, ins: seq<Token>) {
    && |ix| == 6 && ix[0] <= ix[5] < |s| && vis <= p
    && PromoteParameter(s, p, vis, ix, arg).failure.None?
    && NextTokenOfKind(s, p, StatementEndProtos) == Some(e)
    && CreatePropertyPromotionInsertTokens(s, vis, p) == Ok(ins)
    && SlotIndex(arg) == Some(i)
  }

  /** `PromotionEffect` stated with the offsets already found. */
  lemma PromotionEdited(s: seq<Token>, p: nat, vis: nat, ix: seq<nat>, arg: ArgumentEntry, e: nat, i: nat, ins: seq<Token>)
    requires Promotes(s, p, vis, ix, arg, e, i, ins)
    ensures Edited(s, PromoteParameter(s, p, vis, ix, arg).items, ix[0], ix[5], ClearStart(s, ix, vis), e, i, ins)
    ensures ix[0] > 0 && 0 < |ins| && vis + |ins| <= |s|
  {
    PromotionEffect(s, p, vis, ix, arg);
  }

  /** After b's promotion a's assignment is found again, moved on by the length of b's copy. */
  lemma AssignmentAfterPromotion(s: seq<Token>, pb: nat, cs: nat, ce: nat, name: string, b: ArgumentEntry,
                                 ixa: seq<nat>, ixb: seq<nat>, visb: nat, eb: nat, ib: nat, insb: seq<Token>)
    requires Promotes(s, pb, visb, ixb, b, eb, ib, insb)
    requires ExtractVariableAssignmentSequence(s, name, cs, ce) == Some(ixa)
    requires ib < cs && ixa[5] + |insb| <= ce
    requires Kept(s, ixa[0], ixa[5] + 1, ixb[0], ixb[5], ClearStart(s, ixb, visb), eb)
    requires forall k :: visb <= k < |s| && k < visb + |insb| ==> s[k] != This
    requires forall k :: ib < k < ixa[0] && cs <= k + |insb| && s[k] == This ==> k == ixb[0]
    ensures ExtractVariableAssignmentSequence(PromoteParameter(s, pb, visb, ixb, b).items, name, cs, ce)
            == Some(ShiftedBy(ixa, |insb|))
  {
    var q := PromoteParameter(s, pb, visb, ixb, b).items;
    PromotionEdited(s, pb, visb, ixb, b, eb, ib, insb);
    CopyWithoutThis(s, visb, pb, insb);
    AssignmentAfterEdit(s, q, ixb[0], ixb[5], ClearStart(s, ixb, visb), eb, ib, insb, name, cs, ce, ixa);
  }

  /** After b's promotion a's keyword, `;`, copy and clear start are found where they were. */
  lemma DeclarationAfterPromotion(s: seq<Token>, pa: nat, pb: nat, b: ArgumentEntry, ixa: seq<nat>, visa: nat, ea: nat,
                                  ixb: seq<nat>, visb: nat, eb: nat, ib: nat, insb: seq<Token>)
    requires Promotes(s, pb, visb, ixb, b, eb, ib, insb)
    requires |ixa| == 6 && ixa[0] <= ixa[5] < |s| && visa < ixa[0]
    requires VisibilityIndex(s, pa) == Some(visa)
    requires NextTokenOfKind(s, pa, StatementEndProtos) == Some(ea)
    requires ea < ib
    requires var startb := ClearStart(s, ixb, visb);
             && Kept(s, visa, ea + 1, ixb[0], ixb[5], startb, eb)
             && Kept(s, LastStop(s, visa, IsNonWhitespace), visa, ixb[0], ixb[5], startb, eb)
    ensures var q := PromoteParameter(s, pb, visb, ixb, b).items;
            && VisibilityIndex(q, pa) == Some(visa)
            && NextTokenOfKind(q, pa, StatementEndProtos) == Some(ea)
            && CreatePropertyPromotionInsertTokens(q, visa, pa) == CreatePropertyPromotionInsertTokens(s, visa, pa)
            && ClearStart(q, ShiftedBy(ixa, |insb|), visa) == ClearStart(s, ixa, visa)
  {
    var q := PromoteParameter(s, pb, visb, ixb, b).items;
    PromotionEdited(s, pb, visb, ixb, b, eb, ib, insb);
    var qix := ShiftedBy(ixa, |insb|);
    assert qix[0] == ixa[0] + |insb| && qix[5] == ixa[5] + |insb|;
    DeclarationAfterEdit(s, q, ixb[0], ixb[5], ClearStart(s, ixb, visb), eb, ib, insb, pa, visa, ea, ixa, qix);
  }
}
