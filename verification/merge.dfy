/** The merge-operator callbacks (merge_operator.go), and what compaction may do with them. */
module Merge {
  import opened Bits
  import opened Runtime

  type bytes = seq<byte>

  /** What a user's merge function answers: a value, and whether it succeeded. */
  datatype Merged = Merged(value: bytes, ok: bool)

  /** A merge operator; the two optional parts say whether it implements `PartialMerger` and `MultiMerger`. */
  datatype Merger = Merger(
    fullMerge: (bytes, Option<bytes>, seq<bytes>) -> Merged,
    partialMerge: Option<(bytes, bytes, bytes) -> Merged>,
    partialMergeMulti: Option<(bytes, seq<bytes>) -> Merged>)

  // ----- the callbacks -----

  /** The C arrays of operand pointers and lengths as byte slices. */
  function Operands(raw: seq<bytes>, lens: seq<nat>): (ops: seq<bytes>)
    requires |raw| == |lens| && forall i :: 0 <= i < |raw| ==> lens[i] <= |raw[i]|
    ensures |ops| == |raw| && forall i :: 0 <= i < |raw| ==> ops[i] == raw[i][..lens[i]]
  {
    seq(|raw|, i requires 0 <= i < |raw| => raw[i][..lens[i]])
  }

  /** The left fold of partial merges, given up at the first failure. */
  function Fold(p: (bytes, bytes, bytes) -> Merged, key: bytes, left: bytes, rest: seq<bytes>): Merged
    decreases rest
  {
    if rest == [] then Merged(left, true)
    else
      var m := p(key, left, rest[0]);
      if m.ok then Fold(p, key, m.value, rest[1..]) else m
  }

  /** What the partial-merge callback answers. A lone operand never enters the fold. */
  function PartialAnswer(m: Merger, key: bytes, ops: seq<bytes>): Call<Merged> {
    if m.partialMergeMulti.Some? then Value(m.partialMergeMulti.value(key, ops))
    else if m.partialMerge.None? then Value(Merged([], false))
    else if ops == [] then Panic
    else if |ops| == 1 then Value(Merged([], true))
    else Value(Fold(m.partialMerge.value, key, ops[0], ops[1..]))
  }

  method ReadOperands(raw: seq<bytes>, lens: seq<nat>) returns (operands: array<bytes>)
    requires |raw| == |lens| && forall i :: 0 <= i < |raw| ==> lens[i] <= |raw[i]|
    ensures fresh(operands) && operands[..] == Operands(raw, lens)
    ensures operands.Length == |raw| && forall i :: 0 <= i < |raw| ==> operands[i] == raw[i][..lens[i]]
  {
    operands := new bytes[|raw|];
    for i := 0 to |lens|
      invariant operands[..i] == Operands(raw, lens)[..i]
    {
      operands[i] := raw[i][..lens[i]];
    }
  }

  /** `gorocksdb_mergeoperator_full_merge` */
  method FullMergeCallback(m: Merger, key: bytes, existing: Option<bytes>, raw: seq<bytes>, lens: seq<nat>)
    returns (newValue: bytes, success: bool)
    requires |raw| == |lens| && forall i :: 0 <= i < |raw| ==> lens[i] <= |raw[i]|
    ensures Merged(newValue, success) == m.fullMerge(key, existing, Operands(raw, lens))
  {
    var operands := ReadOperands(raw, lens);
    var r := m.fullMerge(key, existing, operands[..]);
    return r.value, r.ok;
  }

  /** `gorocksdb_mergeoperator_partial_merge_multi` */
  method PartialMergeCallback(m: Merger, key: bytes, raw: seq<bytes>, lens: seq<nat>) returns (r: Call<Merged>)
    requires |raw| == |lens| && forall i :: 0 <= i < |raw| ==> lens[i] <= |raw[i]|
    ensures r == PartialAnswer(m, key, Operands(raw, lens))
    ensures Answers(m, key, Operands(raw, lens), r)
  {
    var operands := ReadOperands(raw, lens);
    var newValue: bytes := [];
    var success := true;

    // check if this merge operator supports partial or multi merges
    if m.partialMergeMulti.Some? {
      var merged := m.partialMergeMulti.value(key, operands[..]);
      newValue, success := merged.value, merged.ok;
    } else if m.partialMerge.Some? {
      var partialMerge := m.partialMerge.value;
      if operands.Length == 0 {
        return Panic;
      }
      var leftOperand := operands[0];
      ghost var ops := Operands(raw, lens);
      var i := 1;
      while i < operands.Length
        invariant 1 <= i <= operands.Length
        invariant operands[..] == ops && success
        invariant i == 1 ==> newValue == []
        invariant i > 1 ==> newValue == leftOperand
        invariant Fold(partialMerge, key, leftOperand, ops[i..]) == Fold(partialMerge, key, ops[0], ops[1..])
      {
        var merged := partialMerge(key, leftOperand, operands[i]);
        newValue, success := merged.value, merged.ok;
        assert ops[i..][0] == operands[i] && ops[i..][1..] == ops[i + 1..];
        if !success {
          break;
        }
        leftOperand := newValue;
        i := i + 1;
      }
    } else {
      success := false;
    }
    AnswerIsChain(m, key, Operands(raw, lens));
    return Value(Merged(newValue, success));
  }

  // ----- what the partial-merge callback answers, call by call -----

  /** `acc[i]` is the left operand after `i` successful calls of `PartialMerge`, from the left, one operand each. */
  ghost predicate Chain(p: (bytes, bytes, bytes) -> Merged, key: bytes, ops: seq<bytes>, acc: seq<bytes>) {
    && 0 < |acc| <= |ops|
    && acc[0] == ops[0]
    && forall i :: 0 < i < |acc| ==> p(key, acc[i - 1], ops[i]) == Merged(acc[i], true)
  }

  /** The chain reaches the last operand and its end is the answer, or the answer is the call that failed next. */
  ghost predicate ChainAnswers(p: (bytes, bytes, bytes) -> Merged, key: bytes, ops: seq<bytes>, acc: seq<bytes>, r: Merged) {
    && Chain(p, key, ops, acc)
    && (|acc| == |ops| ==> r == Merged(acc[|acc| - 1], true))
    && (|acc| < |ops| ==> r == p(key, acc[|acc| - 1], ops[|acc|]) && !r.ok)
  }

  ghost predicate Answers(m: Merger, key: bytes, ops: seq<bytes>, r: Call<Merged>) {
    && (m.partialMergeMulti.Some? ==> r == Value(m.partialMergeMulti.value(key, ops)))
    && (m.partialMergeMulti.None? && m.partialMerge.None? ==> r == Value(Merged([], false)))
    && (m.partialMergeMulti.None? && m.partialMerge.Some? ==>
          && (|ops| == 0 ==> r == Panic)
          && (|ops| == 1 ==> r == Value(Merged([], true)))
          && (|ops| >= 2 ==> r.Value? && exists acc :: ChainAnswers(m.partialMerge.value, key, ops, acc, r.v)))
  }

  lemma {:induction false} ChainCons(p: (bytes, bytes, bytes) -> Merged, key: bytes, left: bytes, rest: seq<bytes>, acc: seq<bytes>, r: Merged)
    requires rest != [] && p(key, left, rest[0]).ok
    requires ChainAnswers(p, key, [p(key, left, rest[0]).value] + rest[1..], acc, r)
    ensures ChainAnswers(p, key, [left] + rest, [left] + acc, r)
  {
    var ops, ops', more := [left] + rest, [p(key, left, rest[0]).value] + rest[1..], [left] + acc;
    forall i | 0 < i < |more| ensures p(key, more[i - 1], ops[i]) == Merged(more[i], true) {
      if i > 1 {
        assert p(key, acc[i - 2], ops'[i - 1]) == Merged(acc[i - 1], true);
      }
    }
  }

  lemma {:induction false} FoldIsChain(p: (bytes, bytes, bytes) -> Merged, key: bytes, left: bytes, rest: seq<bytes>) returns (acc: seq<bytes>)
    ensures ChainAnswers(p, key, [left] + rest, acc, Fold(p, key, left, rest))
    decreases rest
  {
    if rest == [] || !p(key, left, rest[0]).ok {
      acc := [left];
    } else {
      var v := p(key, left, rest[0]).value;
      var tail := FoldIsChain(p, key, v, rest[1..]);
      ChainCons(p, key, left, rest, tail, Fold(p, key, v, rest[1..]));
      acc := [left] + tail;
    }
  }

  /** The answer, by kind of operator and number of operands. */
  lemma {:induction false} AnswerIsChain(m: Merger, key: bytes, ops: seq<bytes>)
    ensures Answers(m, key, ops, PartialAnswer(m, key, ops))
  {
    if m.partialMergeMulti.None? && m.partialMerge.Some? && |ops| >= 2 {
      assert [ops[0]] + ops[1..] == ops;
      var acc := FoldIsChain(m.partialMerge.value, key, ops[0], ops[1..]);
    }
  }

  /** There is one chain only, so the callback has one answer; it succeeds exactly if every call in turn does. */
  lemma {:induction false} ChainUnique(p: (bytes, bytes, bytes) -> Merged, key: bytes, ops: seq<bytes>,
                                       acc: seq<bytes>, r: Merged, acc': seq<bytes>, r': Merged)
    requires ChainAnswers(p, key, ops, acc, r) && ChainAnswers(p, key, ops, acc', r')
    ensures acc == acc' && r == r'
    ensures r.ok <==> |acc| == |ops|
  {
    ChainsAgree(p, key, ops, acc, acc', |acc| - 1);
    ChainsAgree(p, key, ops, acc', acc, |acc'| - 1);
  }

  lemma {:induction false} ChainsAgree(p: (bytes, bytes, bytes) -> Merged, key: bytes, ops: seq<bytes>, acc: seq<bytes>, acc': seq<bytes>, k: nat)
    requires Chain(p, key, ops, acc) && Chain(p, key, ops, acc') && k < |acc|
    ensures forall i :: 0 <= i <= k && i < |acc'| ==> acc[i] == acc'[i]
  {
    if k > 0 {
      ChainsAgree(p, key, ops, acc, acc', k - 1);
      if k < |acc'| {
        assert p(key, acc[k - 1], ops[k]) == Merged(acc[k], true);
        assert p(key, acc'[k - 1], ops[k]) == Merged(acc'[k], true);
      }
    }
  }

  // ----- the documented contract of the user's operator -----

  /** Merging `xs` has the same result as merging `ys`, whatever was merged before and whatever is merged after. */
  ghost predicate Equivalent(m: Merger, key: bytes, xs: seq<bytes>, ys: seq<bytes>) {
    forall existing, before, after ::
      m.fullMerge(key, existing, before + xs + after) == m.fullMerge(key, existing, before + ys + after)
  }

  /** A successful `PartialMerge` stands for its two operands. */
  ghost predicate PartialContract(m: Merger) {
    m.partialMerge.Some? ==>
      forall key, l, r :: m.partialMerge.value(key, l, r).ok ==>
        Equivalent(m, key, [m.partialMerge.value(key, l, r).value], [l, r])
  }

  /** A successful `PartialMergeMulti` stands for its operands, two or more. */
  ghost predicate MultiContract(m: Merger) {
    m.partialMergeMulti.Some? ==>
      forall key, ops :: |ops| >= 2 && m.partialMergeMulti.value(key, ops).ok ==>
        Equivalent(m, key, [m.partialMergeMulti.value(key, ops).value], ops)
  }

  ghost predicate Contract(m: Merger) {
    PartialContract(m) && MultiContract(m)
  }

  lemma {:induction false} EquivalentTrans(m: Merger, key: bytes, xs: seq<bytes>, ys: seq<bytes>, zs: seq<bytes>)
    requires Equivalent(m, key, xs, ys) && Equivalent(m, key, ys, zs)
    ensures Equivalent(m, key, xs, zs)
  {
    forall existing, before, after
      ensures m.fullMerge(key, existing, before + xs + after) == m.fullMerge(key, existing, before + zs + after)
    {
      assert m.fullMerge(key, existing, before + xs + after) == m.fullMerge(key, existing, before + ys + after);
    }
  }

  /** Replacing operands in the middle of others. */
  lemma {:induction false} EquivalentInside(m: Merger, key: bytes, a: seq<bytes>, xs: seq<bytes>, ys: seq<bytes>, b: seq<bytes>)
    requires Equivalent(m, key, xs, ys)
    ensures Equivalent(m, key, a + xs + b, a + ys + b)
  {
    forall existing, before, after
      ensures m.fullMerge(key, existing, before + (a + xs + b) + after)
           == m.fullMerge(key, existing, before + (a + ys + b) + after)
    {
      assert before + (a + xs + b) + after == (before + a) + xs + (b + after);
      assert before + (a + ys + b) + after == (before + a) + ys + (b + after);
    }
  }

  /** Each round of the fold stands for one operand more. */
  lemma {:induction false} FoldEquivalent(m: Merger, key: bytes, left: bytes, rest: seq<bytes>)
    requires PartialContract(m) && m.partialMerge.Some? && Fold(m.partialMerge.value, key, left, rest).ok
    ensures Equivalent(m, key, [Fold(m.partialMerge.value, key, left, rest).value], [left] + rest)
    decreases rest
  {
    if rest == [] {
      assert [left] + rest == [left];
    } else {
      var v := m.partialMerge.value(key, left, rest[0]).value;
      var tail := rest[1..];
      FoldEquivalent(m, key, v, tail);
      EquivalentInside(m, key, [], [v], [left, rest[0]], tail);
      assert [] + [v] + tail == [v] + tail && [] + [left, rest[0]] + tail == [left] + rest;
      EquivalentTrans(m, key, [Fold(m.partialMerge.value, key, left, rest).value], [v] + tail, [left] + rest);
    }
  }

  /** A successful callback on two operands or more stands for them. */
  lemma {:induction false} AnswerEquivalent(m: Merger, key: bytes, ops: seq<bytes>)
    requires Contract(m) && |ops| >= 2
    requires PartialAnswer(m, key, ops).Value? && PartialAnswer(m, key, ops).v.ok
    ensures Equivalent(m, key, [PartialAnswer(m, key, ops).v.value], ops)
  {
    if m.partialMergeMulti.None? {
      FoldEquivalent(m, key, ops[0], ops[1..]);
      assert [ops[0]] + ops[1..] == ops;
    }
  }

  // ----- compaction schedules -----

  /** Compaction offers a group of neighbouring operands to the callback, and replaces it if that succeeds. */
  datatype Group = Group(lo: nat, hi: nat)

  function Offer(m: Merger, key: bytes, ops: seq<bytes>, g: Group): seq<bytes> {
    if g.lo + 2 <= g.hi <= |ops| then
      var r := PartialAnswer(m, key, ops[g.lo..g.hi]);
      if r.Value? && r.v.ok then ops[..g.lo] + [r.v.value] + ops[g.hi..] else ops
    else ops
  }

  function Compact(m: Merger, key: bytes, ops: seq<bytes>, groups: seq<Group>): seq<bytes>
    decreases groups
  {
    if groups == [] then ops else Compact(m, key, Offer(m, key, ops, groups[0]), groups[1..])
  }

  /** A group of two or more is replaced by the callback's answer if that succeeds, and stays otherwise. */
  lemma {:induction false} OfferMeans(m: Merger, key: bytes, a: seq<bytes>, group: seq<bytes>, b: seq<bytes>, r: Call<Merged>)
    requires |group| >= 2 && Answers(m, key, group, r)
    ensures Offer(m, key, a + group + b, Group(|a|, |a| + |group|))
         == if r.Value? && r.v.ok then a + [r.v.value] + b else a + group + b
  {
    var ops := a + group + b;
    assert ops[..|a|] == a && ops[|a|..|a| + |group|] == group && ops[|a| + |group|..] == b;
    AnswerIsChain(m, key, group);
    if m.partialMergeMulti.None? && m.partialMerge.Some? {
      var p := m.partialMerge.value;
      var acc :| ChainAnswers(p, key, group, acc, r.v);
      var acc' :| ChainAnswers(p, key, group, acc', PartialAnswer(m, key, group).v);
      ChainUnique(p, key, group, acc, r.v, acc', PartialAnswer(m, key, group).v);
    }
  }

  lemma {:induction false} OfferEquivalent(m: Merger, key: bytes, ops: seq<bytes>, g: Group)
    requires Contract(m)
    ensures Equivalent(m, key, Offer(m, key, ops, g), ops)
    ensures Offer(m, key, ops, g) == ops || |Offer(m, key, ops, g)| < |ops|
    ensures ops != [] ==> Offer(m, key, ops, g) != []
  {
    if g.lo + 2 <= g.hi <= |ops| {
      var group := ops[g.lo..g.hi];
      var r := PartialAnswer(m, key, group);
      if r.Value? && r.v.ok {
        AnswerEquivalent(m, key, group);
        EquivalentInside(m, key, ops[..g.lo], [r.v.value], group, ops[g.hi..]);
        assert ops[..g.lo] + group + ops[g.hi..] == ops;
      }
    }
  }

  /** A schedule offers its groups one after another, each on what the ones before have left. */
  lemma {:induction false} CompactInTurn(m: Merger, key: bytes, ops: seq<bytes>, groups: seq<Group>, g: Group)
    ensures Compact(m, key, ops, []) == ops
    ensures Compact(m, key, ops, groups + [g]) == Offer(m, key, Compact(m, key, ops, groups), g)
    decreases groups
  {
    if groups == [] {
      assert [] + [g] == [g] && [g][1..] == [];
      assert Compact(m, key, ops, [g]) == Compact(m, key, Offer(m, key, ops, g), []);
    } else {
      assert (groups + [g])[1..] == groups[1..] + [g];
      CompactInTurn(m, key, Offer(m, key, ops, groups[0]), groups[1..], g);
    }
  }

  /** No compaction schedule changes the outcome of a full merge. */
  lemma {:induction false} ScheduleInvariance(m: Merger, key: bytes, ops: seq<bytes>, groups: seq<Group>)
    requires Contract(m)
    ensures Equivalent(m, key, Compact(m, key, ops, groups), ops)
    ensures forall existing :: m.fullMerge(key, existing, Compact(m, key, ops, groups)) == m.fullMerge(key, existing, ops)
    decreases groups
  {
    if groups == [] {
    } else {
      var next := Offer(m, key, ops, groups[0]);
      OfferEquivalent(m, key, ops, groups[0]);
      ScheduleInvariance(m, key, next, groups[1..]);
      EquivalentTrans(m, key, Compact(m, key, ops, groups), next, ops);
    }
    var result := Compact(m, key, ops, groups);
    forall existing ensures m.fullMerge(key, existing, result) == m.fullMerge(key, existing, ops) {
      assert [] + result + [] == result && [] + ops + [] == ops;
      assert m.fullMerge(key, existing, [] + result + []) == m.fullMerge(key, existing, [] + ops + []);
    }
  }

  /** Any two schedules give operand lists that read the same. */
  lemma {:induction false} SchedulesAgree(m: Merger, key: bytes, existing: Option<bytes>, ops: seq<bytes>, g1: seq<Group>, g2: seq<Group>)
    requires Contract(m)
    ensures m.fullMerge(key, existing, Compact(m, key, ops, g1)) == m.fullMerge(key, existing, Compact(m, key, ops, g2))
  {
    ScheduleInvariance(m, key, ops, g1);
    ScheduleInvariance(m, key, ops, g2);
  }

  /** How many groups of a schedule were really replaced. */
  function Replaced(m: Merger, key: bytes, ops: seq<bytes>, groups: seq<Group>): nat
    decreases groups
  {
    if groups == [] then 0
    else
      var next := Offer(m, key, ops, groups[0]);
      (if next != ops then 1 else 0) + Replaced(m, key, next, groups[1..])
  }

  /** Every replacement removes an operand and one always remains, so a schedule replaces fewer groups than there were operands. */
  lemma {:induction false} ScheduleTerminates(m: Merger, key: bytes, ops: seq<bytes>, groups: seq<Group>)
    requires Contract(m) && ops != []
    ensures Replaced(m, key, ops, groups) + |Compact(m, key, ops, groups)| <= |ops|
    ensures Compact(m, key, ops, groups) != []
    decreases groups
  {
    if groups == [] {
    } else {
      OfferEquivalent(m, key, ops, groups[0]);
      ScheduleTerminates(m, key, Offer(m, key, ops, groups[0]), groups[1..]);
    }
  }

  // ----- the lone operand -----

  /** Whether every operator that keeps the `PartialMerge` contract gets faithful answers for `n` operands. */
  ghost predicate FoldFaithful(n: nat) {
    forall m: Merger, key, ops ::
      |ops| == n && PartialContract(m) && m.partialMerge.Some? && m.partialMergeMulti.None?
      && PartialAnswer(m, key, ops).Value? && PartialAnswer(m, key, ops).v.ok ==>
        Equivalent(m, key, [PartialAnswer(m, key, ops).v.value], ops)
  }

  function Concat(ops: seq<bytes>): bytes {
    if ops == [] then [] else ops[0] + Concat(ops[1..])
  }

  lemma {:induction false} ConcatAppend(xs: seq<bytes>, ys: seq<bytes>)
    ensures Concat(xs + ys) == Concat(xs) + Concat(ys)
  {
    if xs == [] {
      assert xs + ys == ys;
    } else {
      assert (xs + ys)[1..] == xs[1..] + ys;
      ConcatAppend(xs[1..], ys);
    }
  }

  /** String append, one of the operators that the documentation names. */
  function StringAppend(): Merger {
    Merger((key: bytes, existing: Option<bytes>, ops: seq<bytes>) =>
             Merged((if existing.None? then [] else existing.value) + Concat(ops), true),
           Some((key: bytes, l: bytes, r: bytes) => Merged(l + r, true)),
           None)
  }

  lemma {:induction false} ConcatMiddle(before: seq<bytes>, xs: seq<bytes>, after: seq<bytes>)
    ensures Concat(before + xs + after) == Concat(before) + Concat(xs) + Concat(after)
  {
    ConcatAppend(before + xs, after);
    ConcatAppend(before, xs);
  }

  lemma {:induction false} ConcatPair(l: bytes, r: bytes)
    ensures Concat([l + r]) == Concat([l, r])
  {
    assert [l + r][1..] == [] && [l, r][1..] == [r] && [r][1..] == [];
    assert Concat([r]) == r + [] == r;
  }

  lemma {:induction false} StringAppendKeepsContract()
    ensures Contract(StringAppend())
  {
    forall key: bytes, l: bytes, r: bytes ensures Equivalent(StringAppend(), key, [l + r], [l, r]) {
      ConcatPair(l, r);
      forall existing: Option<bytes>, before, after
        ensures StringAppend().fullMerge(key, existing, before + [l + r] + after)
             == StringAppend().fullMerge(key, existing, before + [l, r] + after)
      {
        ConcatMiddle(before, [l + r], after);
        ConcatMiddle(before, [l, r], after);
      }
    }
  }

  /** The fold is faithful for every number of operands but one: a lone operand is answered by an empty value. */
  lemma {:induction false} FoldFaithfulExactly(n: nat)
    ensures FoldFaithful(n) <==> n != 1
  {
    if n == 1 {
      var m := StringAppend();
      StringAppendKeepsContract();
      var ops: seq<bytes> := [[1]];
      assert PartialAnswer(m, [], ops) == Value(Merged([], true));
      var lost: seq<bytes> := [[]];
      var none: Option<bytes> := None;
      assert ops[1..] == [] && lost[1..] == [];
      assert Concat(ops) == [1] + [] && Concat(lost) == [] + [];
      assert [] + lost + [] == lost && [] + ops + [] == ops;
      assert m.fullMerge([], none, [] + lost + []) != m.fullMerge([], none, [] + ops + []);
      assert !Equivalent(m, [], lost, ops);
    } else {
      forall m: Merger, key, ops |
        |ops| == n && PartialContract(m) && m.partialMerge.Some? && m.partialMergeMulti.None?
        && PartialAnswer(m, key, ops).Value? && PartialAnswer(m, key, ops).v.ok
        ensures Equivalent(m, key, [PartialAnswer(m, key, ops).v.value], ops)
      {
        AnswerEquivalent(m, key, ops);
      }
    }
  }
}
