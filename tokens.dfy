/** The part of PHP CS Fixer's token collection that the constructor promotion
    fixers rely on, modelled by its observable effect: a token is a kind tag
    (absent for single-character tokens such as `=` or `;`) and its text; the
    collection is a mutable sequence of tokens with forward and backward
    scans, sequence search, block matching, clearing, insertion and
    compaction. */
module Tokenizer {

  datatype Option<+T> = None | Some(value: T)

  /** The PHP token ids the fixers look at; every other id is `Other`. */
  datatype Kind =
    | Public | Protected | Private
    | PromotedPublic | PromotedProtected | PromotedPrivate
    | Whitespace | Comment | DocComment
    | Variable | ObjectOperator | String
    | Class | Trait | Function | Static | Var
    | Other(code: int)

  /** `id` is None for the tokens PHP reports as bare strings (`=`, `;`, `{`). */
  datatype Token = Token(id: Option<Kind>, content: string)

  /** What `clearAt` leaves behind. */
  const Empty: Token := Token(None, "")

  predicate IsEmpty(t: Token) { t == Empty }

  /** A whitespace token, or a blank id-less token (the cleared slot). */
  predicate IsWhitespace(t: Token) { t.id == Some(Whitespace) || IsEmpty(t) }

  predicate IsNonWhitespace(t: Token) { !IsWhitespace(t) }

  /** Neither empty, nor whitespace, nor a comment. */
  predicate IsMeaningful(t: Token) {
    !IsEmpty(t) && t.id != Some(Whitespace) && t.id != Some(Comment) && t.id != Some(DocComment)
  }

  /** A token prototype, as handed to `Token::equals`: `[id]`, `[id, text]`,
      a bare string, or a bare id such as `T_STRING` on its own, outside an
      array. */
  datatype Proto = OfKind(kind: Kind) | OfKindAndContent(kind: Kind, text: string) | Char(text: string) | BareId(kind: Kind)

  /** `Token::equals`. A bare id is an integer: it is not an array, so it never
      equals a token with an id, and the strict comparison of a token's text
      with an integer is false, so it never equals an id-less token either. */
  predicate Matches(t: Token, p: Proto) {
    match p
    case OfKind(k) => t.id == Some(k)
    case OfKindAndContent(k, c) => t.id == Some(k) && t.content == c
    case Char(c) => t.id.None? && t.content == c
    case BareId(_) => false
  }

  predicate MatchesAny(t: Token, ps: seq<Proto>) {
    exists k :: 0 <= k < |ps| && Matches(t, ps[k])
  }

  // ---------------------------------------------------------------------------
  // Scans

  /** The first index at or after `j` whose token satisfies `P`. */
  function FirstFrom(s: seq<Token>, j: nat, P: Token -> bool): (r: Option<nat>)
    decreases |s| - j
    ensures r.Some? ==> j <= r.value < |s| && P(s[r.value])
    ensures r.Some? ==> forall k :: j <= k < r.value ==> !P(s[k])
    ensures r.None? ==> forall k :: j <= k < |s| ==> !P(s[k])
  {
    if j >= |s| then None
    else if P(s[j]) then Some(j)
    else FirstFrom(s, j + 1, P)
  }

  /** The last index below `i` whose token satisfies `P`; like the library it
      gives up at once when `i - 1` is not a valid offset. */
  function LastBefore(s: seq<Token>, i: nat, P: Token -> bool): (r: Option<nat>)
    decreases i
    ensures r.Some? ==> r.value < i <= |s| && P(s[r.value])
    ensures r.Some? ==> forall k :: r.value < k < i ==> !P(s[k])
    ensures r.None? && i <= |s| ==> forall k :: 0 <= k < i ==> !P(s[k])
  {
    if i == 0 || i > |s| then None
    else if P(s[i - 1]) then Some(i - 1)
    else LastBefore(s, i - 1, P)
  }

  /** `Tokens::getNextTokenOfKind`. */
  function NextTokenOfKind(s: seq<Token>, i: nat, protos: seq<Proto>): (r: Option<nat>)
    ensures r.Some? ==> i < r.value < |s| && MatchesAny(s[r.value], protos)
    ensures r.Some? ==> forall k :: i < k < r.value ==> !MatchesAny(s[k], protos)
    ensures r.None? ==> forall k :: i < k < |s| ==> !MatchesAny(s[k], protos)
  {
    FirstFrom(s, i + 1, t => MatchesAny(t, protos))
  }

  /** `Tokens::getNextMeaningfulToken`. */
  function NextMeaningful(s: seq<Token>, i: nat): (r: Option<nat>)
    ensures r.Some? ==> i < r.value < |s| && IsMeaningful(s[r.value])
    ensures r.Some? ==> forall k :: i < k < r.value ==> !IsMeaningful(s[k])
    ensures r.None? ==> forall k :: i < k < |s| ==> !IsMeaningful(s[k])
  {
    FirstFrom(s, i + 1, IsMeaningful)
  }

  /** `Tokens::getPrevNonWhitespace`. */
  function PrevNonWhitespace(s: seq<Token>, i: nat): (r: Option<nat>)
    ensures r.Some? ==> r.value < i <= |s| && !IsWhitespace(s[r.value])
    ensures r.Some? ==> forall k :: r.value < k < i ==> IsWhitespace(s[k])
    ensures r.None? && i <= |s| ==> forall k :: 0 <= k < i ==> IsWhitespace(s[k])
  {
    LastBefore(s, i, IsNonWhitespace)
  }

  // ---------------------------------------------------------------------------
  // Curly-brace blocks

  predicate IsOpenBrace(t: Token) { t == Token(None, "{") }

  predicate IsCloseBrace(t: Token) { t == Token(None, "}") }

  function BraceDelta(t: Token): int {
    if IsOpenBrace(t) then 1 else if IsCloseBrace(t) then -1 else 0
  }

  /** Opening minus closing braces from `j` through `k`. */
  function Balance(s: seq<Token>, j: nat, k: nat): int
    requires j <= k < |s|
    decreases k - j
  {
    BraceDelta(s[j]) + if j == k then 0 else Balance(s, j + 1, k)
  }

  /** Where the block that is `depth` levels open just before `j` closes. */
  function BlockEndFrom(s: seq<Token>, j: nat, depth: nat): (r: Option<nat>)
    requires depth > 0
    decreases |s| - j
    ensures r.Some? ==> j <= r.value < |s| && IsCloseBrace(s[r.value])
    ensures r.Some? ==> depth + Balance(s, j, r.value) == 0
    ensures r.Some? ==> forall k :: j <= k < r.value ==> depth + Balance(s, j, k) > 0
    ensures r.None? ==> forall k :: j <= k < |s| ==> depth + Balance(s, j, k) > 0
  {
    if j >= |s| then None
    else if IsCloseBrace(s[j]) && depth == 1 then Some(j)
    else
      var d := depth + BraceDelta(s[j]);
      var r := BlockEndFrom(s, j + 1, d);
      if r.Some? then
        assert forall k :: j < k <= r.value ==> Balance(s, j, k) == BraceDelta(s[j]) + Balance(s, j + 1, k);
        r
      else
        assert forall k :: j < k < |s| ==> Balance(s, j, k) == BraceDelta(s[j]) + Balance(s, j + 1, k);
        r
  }

  /** `Tokens::findBlockEnd` for curly braces: the matching `}` of the `{` at `start`. */
  function FindBlockEnd(s: seq<Token>, start: nat): (r: Option<nat>)
    ensures r.Some? ==> start < r.value < |s| && IsOpenBrace(s[start]) && IsCloseBrace(s[r.value])
    ensures r.Some? ==> Balance(s, start, r.value) == 0
    ensures r.Some? ==> forall k :: start <= k < r.value ==> Balance(s, start, k) > 0
    ensures r.None? && start < |s| && IsOpenBrace(s[start]) ==> forall k :: start <= k < |s| ==> Balance(s, start, k) > 0
  {
    if start < |s| && IsOpenBrace(s[start]) then
      var r := BlockEndFrom(s, start + 1, 1);
      if r.Some? then
        assert forall k :: start < k <= r.value ==> Balance(s, start, k) == 1 + Balance(s, start + 1, k);
        r
      else
        assert forall k :: start < k < |s| ==> Balance(s, start, k) == 1 + Balance(s, start + 1, k);
        r
    else None
  }

  // ---------------------------------------------------------------------------
  // Sequence search

  /** `ix` continues the chain from `i`: its first index is the next meaningful token after `i`,
      and the rest continue the chain from there. */
  predicate IsChain(s: seq<Token>, i: nat, ix: seq<nat>)
    decreases |ix|
  {
    |ix| > 0 ==> NextMeaningful(s, i) == Some(ix[0]) && IsChain(s, ix[0], ix[1..])
  }

  /** The tokens at `ix` match `rest` one by one, all at or before `end`. */
  predicate MatchesWithin(s: seq<Token>, ix: seq<nat>, rest: seq<Proto>, end: nat) {
    && |ix| == |rest|
    && forall k :: 0 <= k < |ix| ==> ix[k] <= end && ix[k] < |s| && Matches(s[ix[k]], rest[k])
  }

  /** The meaningful tokens after `i` that match `rest` one by one, all at or before `end`. */
  function ChainFrom(s: seq<Token>, i: nat, rest: seq<Proto>, end: nat): (r: Option<seq<nat>>)
    decreases |rest|
    ensures r.Some? ==> |r.value| == |rest|
  {
    if rest == [] then Some([])
    else match NextMeaningful(s, i)
      case None => None
      case Some(n) =>
        if n <= end && Matches(s[n], rest[0]) then
          match ChainFrom(s, n, rest[1..], end)
          case None => None
          case Some(ix) =>
            Some([n] + ix)
        else None
  }

  /** Every offset `ChainFrom` returns lies after `i` and within `end`, and its token matches its prototype. */
  lemma {:induction false} ChainFromMatches(s: seq<Token>, i: nat, rest: seq<Proto>, end: nat)
    requires ChainFrom(s, i, rest, end).Some?
    decreases |rest|
    ensures var ix := ChainFrom(s, i, rest, end).value;
            forall k :: 0 <= k < |rest| ==> i < ix[k] <= end && ix[k] < |s| && Matches(s[ix[k]], rest[k])
  {
    if rest != [] {
      var ix := ChainFrom(s, i, rest, end).value;
      ChainFromUnfold(s, i, rest, end, ix);
      ChainFromMatches(s, ix[0], rest[1..], end);
      forall k | 1 <= k < |rest|
        ensures i < ix[k] <= end && ix[k] < |s| && Matches(s[ix[k]], rest[k])
      {
        assert ix[k] == ix[1..][k - 1] && rest[k] == rest[1..][k - 1];
      }
    }
  }

  /** What `ChainFrom` returns is a chain: each offset is the next meaningful token after the one before. */
  lemma {:induction false} ChainFromIsChain(s: seq<Token>, i: nat, rest: seq<Proto>, end: nat)
    requires ChainFrom(s, i, rest, end).Some?
    decreases |rest|
    ensures IsChain(s, i, ChainFrom(s, i, rest, end).value)
  {
    if rest != [] {
      var ix := ChainFrom(s, i, rest, end).value;
      ChainFromUnfold(s, i, rest, end, ix);
      ChainFromIsChain(s, ix[0], rest[1..], end);
    }
  }

  /** `ChainFrom` misses no chain: any chain after `i` that matches `rest`
      within `end` is the one it returns. */
  lemma {:induction false} ChainFromComplete(s: seq<Token>, i: nat, rest: seq<Proto>, end: nat, ix: seq<nat>)
    requires IsChain(s, i, ix) && MatchesWithin(s, ix, rest, end)
    decreases |rest|
    ensures ChainFrom(s, i, rest, end) == Some(ix)
  {
    if rest == [] {
      assert ix == [];
    } else {
      var n := ix[0];
      var tail := ix[1..];
      assert MatchesWithin(s, tail, rest[1..], end) by {
        forall k | 0 <= k < |tail|
          ensures tail[k] <= end && tail[k] < |s| && Matches(s[tail[k]], rest[1..][k])
        {
          assert tail[k] == ix[k + 1];
        }
      }
      ChainFromComplete(s, n, rest[1..], end, tail);
      assert [n] + tail == ix;
    }
  }

  /** A chain climbs: every offset lies after `i` and at or before the last one. */
  lemma {:induction false} ChainIncreasing(s: seq<Token>, i: nat, ix: seq<nat>)
    requires IsChain(s, i, ix)
    decreases |ix|
    ensures forall k :: 0 <= k < |ix| ==> i < ix[k] <= ix[|ix| - 1]
  {
    if |ix| > 1 {
      var tail := ix[1..];
      ChainIncreasing(s, ix[0], tail);
      assert tail[|tail| - 1] == ix[|ix| - 1];
      forall k | 1 <= k < |ix|
        ensures i < ix[k] <= ix[|ix| - 1]
      {
        assert ix[k] == tail[k - 1];
      }
    }
  }

  /** The match of `pat` whose first token is at `i`, if there is one within `end`. */
  function OccurrenceAt(s: seq<Token>, pat: seq<Proto>, i: nat, end: nat): (r: Option<seq<nat>>)
    requires |pat| > 0
    ensures r.Some? ==> |r.value| == |pat| && r.value[0] == i
    ensures r.Some? ==> forall k :: 0 <= k < |pat| ==> i <= r.value[k] <= end && r.value[k] < |s| && Matches(s[r.value[k]], pat[k])
    ensures r.Some? ==> forall k :: 0 < k < |pat| ==> i < r.value[k]
  {
    if i < |s| && i <= end && Matches(s[i], pat[0]) then
      match ChainFrom(s, i, pat[1..], end)
      case None => None
      case Some(ix) =>
        ChainFromMatches(s, i, pat[1..], end);
        var r := [i] + ix;
        assert r[1..] == ix;
        Some(r)
    else None
  }

  /** `Tokens::findSequence`: the leftmost match of `pat` inside `[from, until]`,
      whitespace and comments between the matched tokens being skipped. */
  function FindSequence(s: seq<Token>, pat: seq<Proto>, from: nat, until: nat): (r: Option<seq<nat>>)
    requires |pat| > 0
    decreases until + 1 - from
    ensures r.Some? ==> |r.value| == |pat| && from <= r.value[0] <= until && OccurrenceAt(s, pat, r.value[0], until) == r
    ensures r.Some? ==> forall i :: from <= i < r.value[0] ==> OccurrenceAt(s, pat, i, until).None?
    ensures r.None? ==> forall i :: from <= i <= until ==> OccurrenceAt(s, pat, i, until).None?
  {
    if from > until then None
    else match OccurrenceAt(s, pat, from, until)
      case Some(ix) => Some(ix)
      case None => FindSequence(s, pat, from + 1, until)
  }

  // ---------------------------------------------------------------------------
  // Edits

  /** `clearRange(from, until)`: the inclusive range `[from, until]` is overwritten with empty tokens. */
  function ClearedRange(s: seq<Token>, from: nat, until: nat): (r: seq<Token>)
    requires from <= until ==> until < |s|
  {
    seq(|s|, k requires 0 <= k < |s| => if from <= k <= until then Empty else s[k])
  }

  /** `insertAt(i, ts)`: `ts` is spliced in before offset `i`. */
  function Inserted(s: seq<Token>, i: nat, ts: seq<Token>): (r: seq<Token>)
    requires i <= |s|
  {
    s[..i] + ts + s[i..]
  }

  /** Where the token at offset `k` ends up when `n` tokens are inserted before offset `i`. */
  function Shift(k: nat, i: nat, n: nat): nat {
    if k < i then k else k + n
  }

  /** Inserting keeps every token, shifted past the inserted ones when it
      lies at or after the insertion offset. */
  lemma InsertedIndexing(s: seq<Token>, i: nat, ts: seq<Token>)
    requires i <= |s|
    ensures |Inserted(s, i, ts)| == |s| + |ts|
    ensures forall k {:trigger Shift(k, i, |ts|)} :: 0 <= k < |s| ==> Inserted(s, i, ts)[Shift(k, i, |ts|)] == s[k]
    ensures forall k :: i <= k < i + |ts| ==> Inserted(s, i, ts)[k] == ts[k - i]
  {
    var r := Inserted(s, i, ts);
    assert forall k :: 0 <= k < i ==> r[k] == s[k];
    assert forall k :: i <= k < |s| ==> r[k + |ts|] == s[k];
  }

  /** `clearEmptyTokens()`: the empty tokens are dropped, the others keep their order. */
  function WithoutEmpty(s: seq<Token>): (r: seq<Token>)
    ensures |r| <= |s|
    ensures forall k :: 0 <= k < |r| ==> !IsEmpty(r[k])
  {
    if s == [] then []
    else WithoutEmpty(s[..|s| - 1]) + (if IsEmpty(s[|s| - 1]) then [] else [s[|s| - 1]])
  }

  /** `Tokens::isAllTokenKindsFound`. */
  predicate IsAllTokenKindsFound(s: seq<Token>, kinds: seq<Kind>) {
    forall k :: 0 <= k < |kinds| ==> exists j :: 0 <= j < |s| && s[j].id == Some(kinds[k])
  }

  // ---------------------------------------------------------------------------
  // Locality: tokens after a prefix `l` do not steer a scan that ends inside
  // `l`, and an edit inside `l` carries them along unchanged.

  /** `o` when it names an offset below `m`, None otherwise. */
  function Below(o: Option<nat>, m: nat): (r: Option<nat>)
    ensures r.Some? ==> r == o && r.value < m
    ensures o.Some? && o.value < m ==> r == o
  {
    if o.Some? && o.value < m then o else None
  }

  lemma {:induction false} FirstFromLocal(l: seq<Token>, r: seq<Token>, j: nat, P: Token -> bool)
    decreases |l| - j
    ensures Below(FirstFrom(l + r, j, P), |l|) == FirstFrom(l, j, P)
  {
    if j < |l| {
      assert (l + r)[j] == l[j];
      if !P(l[j]) {
        FirstFromLocal(l, r, j + 1, P);
      }
    }
  }

  lemma {:induction false} LastBeforeLocal(l: seq<Token>, r: seq<Token>, i: nat, P: Token -> bool)
    requires i <= |l|
    ensures LastBefore(l + r, i, P) == LastBefore(l, i, P)
  {
    if i > 0 {
      assert (l + r)[i - 1] == l[i - 1];
      if !P(l[i - 1]) {
        LastBeforeLocal(l, r, i - 1, P);
      }
    }
  }

  lemma NextTokenOfKindLocal(l: seq<Token>, r: seq<Token>, i: nat, protos: seq<Proto>)
    ensures Below(NextTokenOfKind(l + r, i, protos), |l|) == NextTokenOfKind(l, i, protos)
  {
    FirstFromLocal(l, r, i + 1, t => MatchesAny(t, protos));
  }

  lemma NextMeaningfulLocal(l: seq<Token>, r: seq<Token>, i: nat)
    ensures Below(NextMeaningful(l + r, i), |l|) == NextMeaningful(l, i)
  {
    FirstFromLocal(l, r, i + 1, IsMeaningful);
  }

  lemma {:induction false} BlockEndFromLocal(l: seq<Token>, r: seq<Token>, j: nat, depth: nat)
    requires depth > 0
    decreases |l| - j
    ensures Below(BlockEndFrom(l + r, j, depth), |l|) == BlockEndFrom(l, j, depth)
  {
    if j < |l| {
      assert (l + r)[j] == l[j];
      if !(IsCloseBrace(l[j]) && depth == 1) {
        var d := depth + BraceDelta(l[j]);
        BlockEndFromLocal(l, r, j + 1, d);
        BlockEndFromStep(l + r, j, depth);
        BlockEndFromStep(l, j, depth);
      }
    } else {
      BlockEndFromPast(l, r, j, depth);
    }
  }

  /** A search that starts past `l` finds nothing in `l` and nothing below `|l|`. */
  lemma BlockEndFromPast(l: seq<Token>, r: seq<Token>, j: nat, depth: nat)
    requires depth > 0 && |l| <= j
    ensures BlockEndFrom(l, j, depth) == None
    ensures Below(BlockEndFrom(l + r, j, depth), |l|) == None
  {
  }

  /** Past a token that does not close the block, the search goes on one level
      deeper or shallower. */
  lemma BlockEndFromStep(s: seq<Token>, j: nat, depth: nat)
    requires depth > 0 && j < |s| && !(IsCloseBrace(s[j]) && depth == 1)
    ensures depth + BraceDelta(s[j]) > 0
    ensures BlockEndFrom(s, j, depth) == BlockEndFrom(s, j + 1, depth + BraceDelta(s[j]))
  {
  }

  lemma FindBlockEndLocal(l: seq<Token>, r: seq<Token>, start: nat)
    ensures Below(FindBlockEnd(l + r, start), |l|) == FindBlockEnd(l, start)
  {
    if start < |l| {
      assert (l + r)[start] == l[start];
      if IsOpenBrace(l[start]) {
        BlockEndFromLocal(l, r, start + 1, 1);
      }
    }
  }

  lemma {:induction false} ChainFromLocal(l: seq<Token>, r: seq<Token>, i: nat, rest: seq<Proto>, end: nat)
    requires end < |l|
    decreases |rest|
    ensures ChainFrom(l + r, i, rest, end) == ChainFrom(l, i, rest, end)
  {
    if rest != [] {
      NextMeaningfulLocal(l, r, i);
      var n := NextMeaningful(l, i);
      if n.Some? && n.value <= end {
        assert (l + r)[n.value] == l[n.value];
        ChainFromLocal(l, r, n.value, rest[1..], end);
      }
    }
  }

  lemma OccurrenceAtLocal(l: seq<Token>, r: seq<Token>, pat: seq<Proto>, i: nat, end: nat)
    requires |pat| > 0 && end < |l|
    ensures OccurrenceAt(l + r, pat, i, end) == OccurrenceAt(l, pat, i, end)
  {
    if i <= end {
      assert (l + r)[i] == l[i];
      ChainFromLocal(l, r, i, pat[1..], end);
    }
  }

  lemma {:induction false} FindSequenceLocal(l: seq<Token>, r: seq<Token>, pat: seq<Proto>, from: nat, until: nat)
    requires |pat| > 0 && until < |l|
    decreases until + 1 - from
    ensures FindSequence(l + r, pat, from, until) == FindSequence(l, pat, from, until)
  {
    if from <= until {
      OccurrenceAtLocal(l, r, pat, from, until);
      FindSequenceLocal(l, r, pat, from + 1, until);
    }
  }

  lemma ClearedRangeLocal(l: seq<Token>, r: seq<Token>, from: nat, until: nat)
    requires from <= until < |l|
    ensures ClearedRange(l + r, from, until) == ClearedRange(l, from, until) + r
  {
    assert forall k :: 0 <= k < |l| + |r| ==> ClearedRange(l + r, from, until)[k] == (ClearedRange(l, from, until) + r)[k];
  }

  lemma UpdateLocal(l: seq<Token>, r: seq<Token>, i: nat, t: Token)
    requires i < |l|
    ensures (l + r)[i := t] == l[i := t] + r
  {
  }

  lemma InsertedLocal(l: seq<Token>, r: seq<Token>, i: nat, ts: seq<Token>)
    requires i <= |l|
    ensures Inserted(l + r, i, ts) == Inserted(l, i, ts) + r
  {
    assert (l + r)[..i] == l[..i];
    assert (l + r)[i..] == l[i..] + r;
  }

  // ---------------------------------------------------------------------------
  // Windows: a scan reads only the tokens it passes over, so two streams that
  // agree there, the second possibly shifted by `n`, give the same answer.

  /** `q` holds the tokens of `s` from `lo` below `hi`, each `n` offsets later. */
  predicate AgreeShifted(s: seq<Token>, q: seq<Token>, lo: nat, hi: nat, n: nat) {
    && hi <= |s| && hi + n <= |q|
    && forall k :: lo <= k < hi ==> q[k + n] == s[k]
  }

  lemma {:induction false} FirstFromShifted(s: seq<Token>, q: seq<Token>, j: nat, P: Token -> bool, n: nat, m: nat)
    requires FirstFrom(s, j, P) == Some(m)
    requires AgreeShifted(s, q, j, m + 1, n)
    decreases m - j
    ensures FirstFrom(q, j + n, P) == Some(m + n)
  {
    assert q[j + n] == s[j];
    if !P(s[j]) {
      FirstFromShifted(s, q, j + 1, P, n, m);
    }
  }

  lemma NextMeaningfulShifted(s: seq<Token>, q: seq<Token>, i: nat, n: nat, m: nat)
    requires NextMeaningful(s, i) == Some(m)
    requires AgreeShifted(s, q, i + 1, m + 1, n)
    ensures NextMeaningful(q, i + n) == Some(m + n)
  {
    FirstFromShifted(s, q, i + 1, IsMeaningful, n, m);
  }

  lemma NextTokenOfKindShifted(s: seq<Token>, q: seq<Token>, i: nat, protos: seq<Proto>, n: nat, m: nat)
    requires NextTokenOfKind(s, i, protos) == Some(m)
    requires AgreeShifted(s, q, i + 1, m + 1, n)
    ensures NextTokenOfKind(q, i + n, protos) == Some(m + n)
  {
    FirstFromShifted(s, q, i + 1, t => MatchesAny(t, protos), n, m);
  }

  /** The offsets `ix`, each moved `n` later. */
  function ShiftedBy(ix: seq<nat>, n: nat): (r: seq<nat>)
    ensures |r| == |ix|
    ensures |ix| > 0 ==> r[0] == ix[0] + n && r[|r| - 1] == ix[|ix| - 1] + n
  {
    if ix == [] then [] else [ix[0] + n] + ShiftedBy(ix[1..], n)
  }

  lemma {:induction false} ShiftedByAt(ix: seq<nat>, n: nat)
    ensures forall k :: 0 <= k < |ix| ==> ShiftedBy(ix, n)[k] == ix[k] + n
  {
    if ix != [] {
      ShiftedByAt(ix[1..], n);
    }
  }

  /** `FindSequence` returns the leftmost match: a match at `m` with none
      starting between `from` and `m` is the one found. */
  lemma {:induction false} FindSequenceComplete(s: seq<Token>, pat: seq<Proto>, from: nat, until: nat, m: nat)
    requires |pat| > 0 && from <= m <= until
    requires OccurrenceAt(s, pat, m, until).Some?
    requires forall i :: from <= i < m ==> OccurrenceAt(s, pat, i, until).None?
    decreases m - from
    ensures FindSequence(s, pat, from, until) == OccurrenceAt(s, pat, m, until)
  {
    if from < m {
      FindSequenceComplete(s, pat, from + 1, until, m);
    }
  }

  /** A chain read in a stream that holds its tokens `n` offsets later, up
      to `hi`, is the same chain, moved on by `n`. */
  lemma {:induction false} ChainFromShifted(s: seq<Token>, q: seq<Token>, i: nat, rest: seq<Proto>, end: nat,
                                            ix: seq<nat>, n: nat, hi: nat)
    requires ChainFrom(s, i, rest, end) == Some(ix)
    requires forall k :: 0 <= k < |ix| ==> ix[k] < hi
    requires AgreeShifted(s, q, i, hi, n) && hi + n <= end + 1
    decreases |rest|
    ensures ChainFrom(q, i + n, rest, end) == Some(ShiftedBy(ix, n))
  {
    if rest != [] {
      var m := ix[0];
      ChainFromUnfold(s, i, rest, end, ix);
      NextMeaningfulShifted(s, q, i, n, m);
      assert m < hi && q[m + n] == s[m];
      ChainFromShifted(s, q, m, rest[1..], end, ix[1..], n, hi);
      ChainFromFold(q, i + n, rest, end, ShiftedBy(ix, n));
    }
  }

  /** One step of a chain: its first offset is the next meaningful token and matches the first prototype. */
  lemma ChainFromUnfold(s: seq<Token>, i: nat, rest: seq<Proto>, end: nat, ix: seq<nat>)
    requires rest != [] && ChainFrom(s, i, rest, end) == Some(ix)
    ensures |ix| > 0 && NextMeaningful(s, i) == Some(ix[0]) && ix[0] <= end && ix[0] < |s|
    ensures Matches(s[ix[0]], rest[0]) && ChainFrom(s, ix[0], rest[1..], end) == Some(ix[1..])
  {
    assert ix[1..] == ChainFrom(s, ix[0], rest[1..], end).value;
  }

  /** The converse step: a matching next meaningful token followed by a chain for the rest is a chain. */
  lemma ChainFromFold(q: seq<Token>, j: nat, rest: seq<Proto>, end: nat, jx: seq<nat>)
    requires rest != [] && |jx| > 0 && NextMeaningful(q, j) == Some(jx[0]) && jx[0] <= end
    requires Matches(q[jx[0]], rest[0]) && ChainFrom(q, jx[0], rest[1..], end) == Some(jx[1..])
    ensures ChainFrom(q, j, rest, end) == Some(jx)
  {
    assert [jx[0]] + jx[1..] == jx;
  }

  /** A match is its first offset followed by the chain that matches the rest of the pattern. */
  lemma OccurrenceUnfold(s: seq<Token>, pat: seq<Proto>, i: nat, end: nat, ix: seq<nat>)
    requires |pat| > 0 && OccurrenceAt(s, pat, i, end) == Some(ix)
    ensures |ix| > 0 && ix[0] == i && i < |s| && i <= end && Matches(s[i], pat[0])
    ensures ChainFrom(s, i, pat[1..], end) == Some(ix[1..])
  {
  }

  /** The converse: a first offset that matches, followed by a chain for the rest, is a match. */
  lemma OccurrenceFold(q: seq<Token>, pat: seq<Proto>, j: nat, end: nat, jx: seq<nat>)
    requires |pat| > 0 && |jx| > 0 && jx[0] == j && j < |q| && j <= end && Matches(q[j], pat[0])
    requires ChainFrom(q, j, pat[1..], end) == Some(jx[1..])
    ensures OccurrenceAt(q, pat, j, end) == Some(jx)
  {
    assert [j] + jx[1..] == jx;
  }

  /** A match read in a stream that holds its tokens `n` offsets later is the same match, moved on by `n`. */
  lemma OccurrenceShifted(s: seq<Token>, q: seq<Token>, pat: seq<Proto>, i: nat, end: nat, ix: seq<nat>, n: nat)
    requires |pat| > 1 && OccurrenceAt(s, pat, i, end) == Some(ix)
    requires AgreeShifted(s, q, i, ix[|ix| - 1] + 1, n)
    requires ix[|ix| - 1] + n <= end
    ensures OccurrenceAt(q, pat, i + n, end) == Some(ShiftedBy(ix, n))
  {
    OccurrenceUnfold(s, pat, i, end, ix);
    var t := ix[1..];
    ChainFromIsChain(s, i, pat[1..], end);
    assert t[|t| - 1] == ix[|ix| - 1];
    ChainIncreasing(s, i, t);
    ChainFromShifted(s, q, i, pat[1..], end, t, n, ix[|ix| - 1] + 1);
    assert q[i + n] == s[i];
    OccurrenceFold(q, pat, i + n, end, ShiftedBy(ix, n));
  }

  /** Where a backward scan from `i` stops: the offset it finds, or 0. */
  function LastStop(s: seq<Token>, i: nat, P: Token -> bool): (r: nat)
    ensures r <= i
  {
    match LastBefore(s, i, P)
    case Some(w) => w
    case None => 0
  }

  lemma {:induction false} LastBeforeAgree(s: seq<Token>, q: seq<Token>, i: nat, P: Token -> bool)
    requires i <= |s| && i <= |q|
    requires forall k :: LastStop(s, i, P) <= k < i ==> q[k] == s[k]
    ensures LastBefore(q, i, P) == LastBefore(s, i, P)
  {
    if i > 0 {
      assert q[i - 1] == s[i - 1];
      if !P(s[i - 1]) {
        assert LastBefore(s, i, P) == LastBefore(s, i - 1, P);
        LastBeforeAgree(s, q, i - 1, P);
      }
    }
  }

  /** The token collection. Offsets are positions in `items`; clearing keeps
      the length, insertion shifts every later offset. */
  class Tokens {
    var items: seq<Token>

    constructor (s: seq<Token>)
      ensures items == s
    {
      items := s;
    }

    method ClearAt(i: nat)
      requires i < |items|
      modifies this
      ensures items == old(items)[i := Empty]
    {
      items := items[i := Empty];
    }

    method ClearRange(from: nat, until: nat)
      requires from <= until ==> until < |items|
      modifies this
      ensures items == ClearedRange(old(items), from, until)
    {
      items := ClearedRange(items, from, until);
    }

    method InsertAt(i: nat, ts: seq<Token>)
      requires i <= |items|
      modifies this
      ensures items == Inserted(old(items), i, ts)
    {
      items := Inserted(items, i, ts);
    }

    method ClearEmptyTokens()
      modifies this
      ensures items == WithoutEmpty(old(items))
    {
      var kept: seq<Token> := [];
      var i := 0;
      while i < |items|
        invariant i <= |items|
        invariant kept == WithoutEmpty(items[..i])
      {
        assert items[..i + 1][..i] == items[..i];
        if !IsEmpty(items[i]) {
          kept := kept + [items[i]];
        }
        i := i + 1;
      }
      assert items[..i] == items;
      items := kept;
    }
  }
}
