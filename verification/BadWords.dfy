/**
 The logits processor that suppresses bad words: a token gets minus infinity when it would complete
 a forbidden token sequence.
 */
module BadWords {
  import opened Outcomes

  /** Floating-point values up to rounding. */
  datatype Logit = Fin(v: real) | NegInf | PosInf | NaN

  function Plus(a: Logit, b: Logit): Logit {
    match (a, b)
    case (Fin(x), Fin(y)) => Fin(x + y)
    case (NaN, _) => NaN
    case (_, NaN) => NaN
    case (NegInf, PosInf) => NaN
    case (PosInf, NegInf) => NaN
    case (NegInf, _) => NegInf
    case (_, NegInf) => NegInf
    case (PosInf, _) => PosInf
    case (_, PosInf) => PosInf
  }

  type Word = seq<int>

  /** With `t` after `past` the word `w` has just been spelt out. */
  predicate Completes(w: Word, past: seq<int>, t: int) {
    w != [] && t == w[|w| - 1] && EndsWith(past, w[..|w| - 1])
  }

  predicate EndsWith(past: seq<int>, prefix: Word) {
    |prefix| <= |past| && past[|past| - |prefix|..] == prefix
  }

  predicate Blocked(words: seq<Word>, past: seq<int>, t: int) {
    exists i | 0 <= i < |words| :: Completes(words[i], past, t)
  }

  predicate InVocabulary(w: Word, vocab: nat) {
    forall i | 0 <= i < |w| :: 0 <= w[i] < vocab
  }

  datatype ProcessorError = InvalidTokens | EmptyWord | ShapeMismatch

  /** The value of one processed logit. */
  function Processed(words: seq<Word>, past: seq<int>, t: int, logit: Logit): Logit {
    if Blocked(words, past, t) then Plus(logit, NegInf) else logit
  }

  /** Some one-token word among the first `n` is `t`. */
  predicate SingleBlocked(words: seq<Word>, n: nat, t: int)
    requires n <= |words|
  {
    exists i | 0 <= i < n :: words[i] == [t]
  }

  /** Some longer word among the first `n` is completed by `t`. */
  predicate LongBlocked(words: seq<Word>, n: nat, past: seq<int>, t: int)
    requires n <= |words|
  {
    exists i | 0 <= i < n :: |words[i]| != 1 && Completes(words[i], past, t)
  }

  function Bias(blocked: bool): Logit {
    if blocked then NegInf else Fin(0.0)
  }

  predicate IsWordBias(words: seq<Word>, n: nat, bias: seq<Logit>)
    requires n <= |words|
  {
    forall t | 0 <= t < |bias| :: bias[t] == Bias(SingleBlocked(words, n, t))
  }

  predicate IsLastTokenBias(words: seq<Word>, n: nat, past: seq<int>, bias: seq<Logit>)
    requires n <= |words|
  {
    forall t | 0 <= t < |bias| :: bias[t] == Bias(LongBlocked(words, n, past, t))
  }

  lemma SingleBlockedStep(words: seq<Word>, n: nat, t: int)
    requires n < |words|
    ensures SingleBlocked(words, n + 1, t) <==> SingleBlocked(words, n, t) || words[n] == [t]
  {
  }

  lemma LongBlockedStep(words: seq<Word>, n: nat, past: seq<int>, t: int)
    requires n < |words|
    ensures LongBlocked(words, n + 1, past, t) <==>
            LongBlocked(words, n, past, t) || (|words[n]| != 1 && Completes(words[n], past, t))
  {
    hide Completes;
  }

  lemma NoneBlockedYet(words: seq<Word>, past: seq<int>)
    ensures forall t :: !LongBlocked(words, 0, past, t)
  {
  }

  lemma BlockedBySomeWord(words: seq<Word>, past: seq<int>, t: int)
    ensures Blocked(words, past, t) <==> SingleBlocked(words, |words|, t) || LongBlocked(words, |words|, past, t)
  {
    forall i | 0 <= i < |words| && |words[i]| == 1
      ensures Completes(words[i], past, t) <==> words[i] == [t]
    {
    }
    hide Completes;
  }

  lemma LongerThanPast(w: Word, past: seq<int>, t: int)
    requires |w| > |past| + 1
    ensures !Completes(w, past, t)
  {
  }

  lemma MatchMeansCompletes(w: Word, past: seq<int>, t: int)
    requires w != [] && |w| <= |past| + 1
    ensures Completes(w, past, t) <==> t == w[|w| - 1] && past[|past| - (|w| - 1)..] == w[..|w| - 1]
  {
  }

  class NoBadWordsLogitsProcessor {
    const badWords: seq<Word>
    var wordBias: Option<seq<Logit>>  // filled by the first call and kept

    constructor (badWords: seq<Word>)
      ensures this.badWords == badWords && wordBias == None
    {
      this.badWords, wordBias := badWords, None;
    }

    ghost predicate Valid()
      reads this
    {
      wordBias.Some? ==>
        && IsWordBias(badWords, |badWords|, wordBias.value)
        && forall i | 0 <= i < |badWords| :: InVocabulary(badWords[i], |wordBias.value|)
    }

    method CheckTokenIdsBounds(vocab: nat) returns (ok: bool)
      ensures ok <==> forall i | 0 <= i < |badWords| :: InVocabulary(badWords[i], vocab)
    {
      var invalid: seq<int> := [];
      for i := 0 to |badWords|
        invariant invalid == [] <==> forall k | 0 <= k < i :: InVocabulary(badWords[k], vocab)
      {
        var w, n := badWords[i], |invalid|;
        for j := 0 to |w|
          invariant |invalid| >= n
          invariant |invalid| == n <==> forall k | 0 <= k < j :: 0 <= w[k] < vocab
        {
          if w[j] < 0 || w[j] >= vocab { invalid := invalid + [w[j]]; }
        }
        assert |invalid| == n <==> InVocabulary(w, vocab);
      }
      ok := |invalid| == 0;
    }

    method InitWordBias(vocab: nat) returns (ok: bool)
      requires wordBias.None?
      modifies this
      ensures Valid()
      ensures ok <==> forall i | 0 <= i < |badWords| :: InVocabulary(badWords[i], vocab)
      ensures if ok then wordBias.Some? && |wordBias.value| == vocab else wordBias.None?
    {
      ok := CheckTokenIdsBounds(vocab);
      if !ok { return; }
      var bias: seq<Logit> := seq(vocab, _ => Fin(0.0));
      for i := 0 to |badWords|
        invariant |bias| == vocab && IsWordBias(badWords, i, bias)
      {
        var w := badWords[i];
        assert InVocabulary(w, vocab);
        forall t { SingleBlockedStep(badWords, i, t); }
        if |w| == 1 {
          assert w == [w[0]];
          bias := bias[w[0] := NegInf];
        }
      }
      wordBias := Some(bias);
    }

    /** One word of the scan for this position; an empty word has no last token. */
    method ScanWord(w: Word, past: seq<int>, bias: seq<Logit>) returns (r: Option<seq<Logit>>)
      requires InVocabulary(w, |bias|) && forall t | 0 <= t < |bias| :: bias[t] == NegInf || bias[t] == Fin(0.0)
      ensures r.None? <==> w == []
      ensures r.Some? ==>
                && |r.value| == |bias|
                && forall t | 0 <= t < |bias| ::
                     r.value[t] == if |w| != 1 && Completes(w, past, t) then NegInf else bias[t]
    {
      hide Completes;
      if |w| == 1 { return Some(bias); }
      if |w| > |past| + 1 {
        forall t { LongerThanPast(w, past, t); }
        return Some(bias);
      }
      if |w| == 0 { return None; }
      var prefixLength := |w| - 1;
      var last := w[|w| - 1];
      var actualPrefix, expectedPrefix := past[|past| - prefixLength..], w[..prefixLength];
      var isMatch := actualPrefix == expectedPrefix;
      forall t { MatchMeansCompletes(w, past, t); }
      return Some(bias[last := Plus(bias[last], if isMatch then NegInf else Fin(0.0))]);
    }

    method LastTokenBias(past: seq<int>, vocab: nat) returns (r: Option<seq<Logit>>)
      requires forall i | 0 <= i < |badWords| :: InVocabulary(badWords[i], vocab)
      ensures r.None? <==> [] in badWords
      ensures r.Some? ==> |r.value| == vocab && IsLastTokenBias(badWords, |badWords|, past, r.value)
    {
      hide LongBlocked, Completes;
      var bias: seq<Logit> := seq(vocab, _ => Fin(0.0));
      NoneBlockedYet(badWords, past);
      for i := 0 to |badWords|
        invariant |bias| == vocab && IsLastTokenBias(badWords, i, past, bias)
        invariant forall k | 0 <= k < i :: badWords[k] != []
      {
        var scanned := ScanWord(badWords[i], past, bias);
        if scanned.None? { return None; }
        forall t { LongBlockedStep(badWords, i, past, t); }
        bias := scanned.value;
      }
      return Some(bias);
    }

    /** Every call blocks exactly the tokens that complete a bad word and leaves the other logits alone,
        whether the one-token bias was computed now or by an earlier call. */
    method Call(past: seq<int>, logits: seq<Logit>) returns (r: Result<seq<Logit>, ProcessorError>)
      requires Valid()
      modifies this
      ensures Valid()
      ensures old(wordBias).Some? ==> wordBias == old(wordBias)
      ensures old(wordBias).None? && r != Err(InvalidTokens) ==> wordBias.Some? && |wordBias.value| == |logits|
      ensures r == Err(InvalidTokens) <==>
                old(wordBias).None? && exists i | 0 <= i < |badWords| :: !InVocabulary(badWords[i], |logits|)
      ensures r == Err(InvalidTokens) ==> wordBias.None?
      ensures r.Ok? <==>
                && (forall i | 0 <= i < |badWords| :: InVocabulary(badWords[i], |logits|))
                && [] !in badWords && (old(wordBias).Some? ==> |old(wordBias).value| == |logits|)
      ensures r.Ok? ==>
                && |r.value| == |logits|
                && forall t | 0 <= t < |logits| :: r.value[t] == Processed(badWords, past, t, logits[t])
    {
      if wordBias.None? {
        var ok := InitWordBias(|logits|);
        if !ok { return Err(InvalidTokens); }
      }
      if |wordBias.value| != |logits| { return Err(ShapeMismatch); }
      var last := LastTokenBias(past, |logits|);
      if last.None? { return Err(EmptyWord); }
      var bias := wordBias.value;
      var out := seq(|logits|, t requires 0 <= t < |logits| => Plus(Plus(logits[t], bias[t]), last.value[t]));
      forall t | 0 <= t < |logits|
        ensures out[t] == Processed(badWords, past, t, logits[t])
      {
        BlockedBySomeWord(badWords, past, t);
        hide SingleBlocked, LongBlocked, Blocked;
        assert bias[t] == Bias(SingleBlocked(badWords, |badWords|, t));
        assert last.value[t] == Bias(LongBlocked(badWords, |badWords|, past, t));
        BiasesAddUp(logits[t], SingleBlocked(badWords, |badWords|, t), LongBlocked(badWords, |badWords|, past, t));
      }
      return Ok(out);
    }
  }

  lemma BiasesAddUp(x: Logit, single: bool, long: bool)
    ensures Plus(Plus(x, Bias(single)), Bias(long)) == if single || long then Plus(x, NegInf) else x
  {
    if x.Fin? { assert x.v + 0.0 == x.v; }
  }

  /** A finite logit becomes minus infinity exactly when its token completes a bad word, and is otherwise
      unchanged. */
  lemma FiniteLogitIsBlockedIff(words: seq<Word>, past: seq<int>, t: int, v: real)
    ensures Processed(words, past, t, Fin(v)) == NegInf <==> Blocked(words, past, t)
    ensures Processed(words, past, t, Fin(v)).Fin? ==> Processed(words, past, t, Fin(v)) == Fin(v)
  {
  }

  /** `w` occurs in `gen` as a contiguous run. */
  predicate Contains(gen: seq<int>, w: Word) {
    exists s: nat | s <= |gen| :: RunAt(gen, w, s)
  }

  predicate RunAt(gen: seq<int>, w: Word, s: nat) {
    s + |w| <= |gen| && gen[s..s + |w|] == w
  }

  /** Every token was chosen with a finite processed logit. */
  ghost predicate Permitted(words: seq<Word>, gen: seq<int>, logit: (nat, int) -> real) {
    forall i: nat | i < |gen| :: Processed(words, gen[..i], gen[i], Fin(logit(i, gen[i]))).Fin?
  }

  lemma RunMeansCompletion(gen: seq<int>, w: Word, s: nat)
    requires w != [] && RunAt(gen, w, s)
    ensures Completes(w, gen[..s + |w| - 1], gen[s + |w| - 1])
  {
    var i := s + |w| - 1;
    var past := gen[..i];
    assert gen[i] == gen[s..s + |w|][|w| - 1];
    assert past[|past| - (|w| - 1)..] == gen[s..s + |w|][..|w| - 1];
  }

  lemma CompletionMeansRun(gen: seq<int>, w: Word, i: nat)
    requires i < |gen| && Completes(w, gen[..i], gen[i])
    ensures Contains(gen, w)
  {
    var s := i - (|w| - 1);
    var past := gen[..i];
    assert gen[s..s + |w|] == past[|past| - (|w| - 1)..] + [gen[i]];
    assert w == w[..|w| - 1] + [w[|w| - 1]];
    assert RunAt(gen, w, s);
  }

  /** A generation can be produced with finite logits at every step exactly when it contains no bad word. */
  lemma PermittedIff(words: seq<Word>, gen: seq<int>, logit: (nat, int) -> real)
    requires [] !in words
    ensures Permitted(words, gen, logit) <==> forall i | 0 <= i < |words| :: !Contains(gen, words[i])
  {
    if i :| 0 <= i < |words| && Contains(gen, words[i]) {
      var s: nat :| s <= |gen| && RunAt(gen, words[i], s);
      RunMeansCompletion(gen, words[i], s);
      var k := s + |words[i]| - 1;
      assert Blocked(words, gen[..k], gen[k]);
      assert !Permitted(words, gen, logit);
    }
    if forall i | 0 <= i < |words| :: !Contains(gen, words[i]) {
      forall k: nat | k < |gen|
        ensures !Blocked(words, gen[..k], gen[k])
      {
        if Blocked(words, gen[..k], gen[k]) {
          var i :| 0 <= i < |words| && Completes(words[i], gen[..k], gen[k]);
          CompletionMeansRun(gen, words[i], k);
        }
      }
    }
  }

  /** A token that completes a bad word gets minus infinity exactly if its logit is finite or minus infinity already;
      plus infinity and NaN become NaN.  Every other token keeps its logit, whatever that is. */
  lemma BlockedLogitIff(words: seq<Word>, past: seq<int>, t: int, logit: Logit)
    ensures Blocked(words, past, t) ==>
              (Processed(words, past, t, logit) == NegInf <==> logit.Fin? || logit.NegInf?)
    ensures Blocked(words, past, t) && (logit.PosInf? || logit.NaN?) ==> Processed(words, past, t, logit) == NaN
    ensures !Blocked(words, past, t) ==> Processed(words, past, t, logit) == logit
  {
  }
}
