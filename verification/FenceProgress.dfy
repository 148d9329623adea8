/**
 What the fences let through: a writer may publish exactly as long as its key is
 its own and no purge, invalidation or shutdown has overtaken its fill.
 */
module FenceProgress {
  import opened Common
  import opened IdentityIndex
  import opened Fences
  import opened FenceRuns

  /** The stripe of the writer is open and every epoch is the one that the writer is bound to. */
  predicate Good(c: Config, w: World, wr: Writer)
    requires StripesOk(w.stripes)
  {
    wr.stripe < |w.stripes| && !w.stripes[wr.stripe].closing && Current(c, w.stripes[wr.stripe], wr)
  }

  /** The stripe is closing, or an epoch is ahead of the one that the writer is bound to. */
  predicate Overtaken(c: Config, w: World, wr: Writer)
    requires StripesOk(w.stripes)
  {
    wr.stripe < |w.stripes| && StripeOvertakes(c, w.stripes[wr.stripe], wr)
  }

  predicate StripeOvertakes(c: Config, s: Stripe, wr: Writer)
    requires StripeOk(s)
  {
    || s.closing || wr.epoch < s.epoch || wr.policy < PolicyOf(c, s, wr.selector)
    || (wr.fence.Some? && wr.fence.value.1 < PolicyOf(c, s, wr.fence.value.0))
  }

  /** A purge of anything, the shutdown of the stripe, or an invalidation in a policy slot of the fill. */
  predicate Overtakes(c: Config, w: World, step: Step, wr: Writer)
    requires StripesOk(w.stripes) && Enabled(c, w, step)
  {
    match step
    case Purge(_, _) => true
    case Shut(i) => i == wr.stripe
    case Invalidate(t, _) =>
      var q := c.hash(w.tokens[t].selector) % 1024;
      q == c.hash(wr.selector) % 1024 || (wr.fence.Some? && q == c.hash(wr.fence.value.0) % 1024)
    case _ => false
  }

  /** The epochs of a stripe before and after a step. */
  predicate EpochsMove(c: Config, w: World, step: Step, i: nat, s: Stripe, s': Stripe)
    requires StripesOk(w.stripes) && Enabled(c, w, step) && StripeOk(s)
  {
    && s'.epoch == s.epoch + (if step.Purge? || step == Shut(i) then 1 else 0)
    && s'.closing == (s.closing || step == Shut(i))
    && s'.policies == if step.Invalidate? then Ahead(s.policies, Slot(c, w.tokens[step.token].selector)) else s.policies
  }

  function Ahead(policies: seq<nat>, q: nat): seq<nat>
    requires q < |policies|
  {
    policies[q := policies[q] + 1]
  }

  lemma EpochsAfter(c: Config, w: World, step: Step, i: nat)
    requires Inv(c, w) && Enabled(c, w, step) && i < |w.stripes|
    ensures |Apply(c, w, step).stripes| == |w.stripes| && EpochsMove(c, w, step, i, w.stripes[i], Apply(c, w, step).stripes[i])
  {
    if Bulk(step) {
      BulkEpochs(c, w, step, i);
    } else {
      SingleEpochs(c, w, step, i);
    }
  }

  lemma BulkEpochs(c: Config, w: World, step: Step, i: nat)
    requires StripesOk(w.stripes) && Enabled(c, w, step) && Bulk(step) && i < |w.stripes|
    ensures |Apply(c, w, step).stripes| == |w.stripes| && EpochsMove(c, w, step, i, w.stripes[i], Apply(c, w, step).stripes[i])
  {
    if step.Replace? {
      var w1 := Opened(c, w, w.tokens[step.token], step.key, step.evict);
      assert Apply(c, w, step).stripes[i] == Removed(w1.stripes[i], set k | k in step.remove && c.place(k) == i);
    }
  }

  lemma SingleEpochs(c: Config, w: World, step: Step, i: nat)
    requires StripesOk(w.stripes) && Enabled(c, w, step) && !Bulk(step) && i < |w.stripes|
    ensures |Apply(c, w, step).stripes| == |w.stripes| && EpochsMove(c, w, step, i, w.stripes[i], Apply(c, w, step).stripes[i])
  {
  }

  /** One step leaves a good writer good exactly if it does not overtake it. */
  lemma StepOvertakesExactly(c: Config, w: World, step: Step, wr: Writer)
    requires Inv(c, w) && Enabled(c, w, step) && Good(c, w, wr)
    ensures
      var w' := Apply(c, w, step);
      && StripesOk(w'.stripes)
      && if Overtakes(c, w, step, wr) then Overtaken(c, w', wr) else Good(c, w', wr)
  {
    StepKeeps(c, w, step);
    StepLater(c, w, step);
    EpochsAfter(c, w, step, wr.stripe);
  }

  lemma OvertakenStays(c: Config, w: World, step: Step, wr: Writer)
    requires Inv(c, w) && Enabled(c, w, step) && Overtaken(c, w, wr)
    ensures var w' := Apply(c, w, step); StripesOk(w'.stripes) && Overtaken(c, w', wr)
  {
    StepKeeps(c, w, step);
    StepLater(c, w, step);
    EpochsAfter(c, w, step, wr.stripe);
    assert StripeLater(w.stripes[wr.stripe], Apply(c, w, step).stripes[wr.stripe]);
  }

  /** No step of the run overtakes the writer. */
  predicate Undisturbed(c: Config, w: World, steps: seq<Step>, wr: Writer)
    requires Inv(c, w) && Allowed(c, w, steps)
    decreases |steps|
  {
    steps == [] || (!Overtakes(c, w, steps[0], wr)
      && (StepKeeps(c, w, steps[0]); Undisturbed(c, Apply(c, w, steps[0]), steps[1..], wr)))
  }

  lemma {:induction false} RunKeepsOvertaken(c: Config, w: World, steps: seq<Step>, wr: Writer)
    requires Inv(c, w) && Allowed(c, w, steps) && Overtaken(c, w, wr)
    ensures Overtaken(c, Exec(c, w, steps), wr)
    decreases |steps|
  {
    if steps != [] {
      StepKeeps(c, w, steps[0]);
      OvertakenStays(c, w, steps[0], wr);
      RunKeepsOvertaken(c, Apply(c, w, steps[0]), steps[1..], wr);
    }
  }

  lemma {:induction false} RunOvertakesExactly(c: Config, w: World, steps: seq<Step>, wr: Writer)
    requires Inv(c, w) && Allowed(c, w, steps) && Good(c, w, wr)
    ensures if Undisturbed(c, w, steps, wr) then Good(c, Exec(c, w, steps), wr) else Overtaken(c, Exec(c, w, steps), wr)
    decreases |steps|
  {
    if steps != [] {
      var w1 := Apply(c, w, steps[0]);
      StepKeeps(c, w, steps[0]);
      StepOvertakesExactly(c, w, steps[0], wr);
      if Overtakes(c, w, steps[0], wr) {
        RunKeepsOvertaken(c, w1, steps[1..], wr);
      } else {
        RunOvertakesExactly(c, w1, steps[1..], wr);
      }
    }
  }

  lemma OvertakenIsNotGood(c: Config, w: World, wr: Writer)
    requires StripesOk(w.stripes) && Overtaken(c, w, wr)
    ensures !Good(c, w, wr)
  {
  }

  /** A writer is good when it has claimed its key, whether its token was begun or derived. */
  lemma OpenedIsGood(c: Config, w: World, t: nat, key: Name, evict: bool)
    requires Inv(c, w) && Enabled(c, w, Open(t, key, evict))
    ensures
      var w' := Apply(c, w, Open(t, key, evict));
      && Inv(c, w') && |w'.writers| == |w.writers| + 1 && Good(c, w', w'.writers[|w.writers|])
      && CanPublish(c, w', |w.writers|)
  {
    StepKeeps(c, w, Open(t, key, evict));
    var w', id := Apply(c, w, Open(t, key, evict)), |w.writers|;
    assert w'.writers[id] == Bound(w.tokens[t], c.place(key), key);
    assert id !in w.finished;
  }

  /**
   From the moment a writer has claimed its key, and whatever happens then: it
   can publish exactly if it is not done, the key is still its own, and no purge,
   no shutdown of its stripe and no invalidation in a slot of its fill came in
   between.
   */
  lemma PublishesExactly(c: Config, w: World, t: nat, key: Name, evict: bool, steps: seq<Step>)
    requires Inv(c, w) && Enabled(c, w, Open(t, key, evict))
    requires Inv(c, Apply(c, w, Open(t, key, evict))) && Allowed(c, Apply(c, w, Open(t, key, evict)), steps)
    ensures
      var w1, id := Apply(c, w, Open(t, key, evict)), |w.writers|;
      var w' := Exec(c, w1, steps);
      && id < |w1.writers| && c.place(key) < |w'.stripes|
      && (CanPublish(c, w', id) <==>
            && id !in w'.finished && key in w'.stripes[c.place(key)].open && w'.stripes[c.place(key)].open[key] == id
            && Undisturbed(c, w1, steps, w1.writers[id]))
  {
    OpenedIsGood(c, w, t, key, evict);
    var w1, id := Apply(c, w, Open(t, key, evict)), |w.writers|;
    RunKeeps(c, w1, steps);
    var w' := Exec(c, w1, steps);
    PublishesWhenGood(c, w1, steps, id);
    assert w'.writers[id] == w1.writers[id] == Bound(w.tokens[t], c.place(key), key);
  }

  lemma PublishesWhenGood(c: Config, w: World, steps: seq<Step>, id: nat)
    requires Inv(c, w) && Allowed(c, w, steps) && id < |w.writers| && Good(c, w, w.writers[id])
    requires WorldLater(w, Exec(c, w, steps))
    ensures
      var w', wr := Exec(c, w, steps), w.writers[id];
      && wr.stripe < |w'.stripes|
      && (CanPublish(c, w', id) <==>
            id !in w'.finished && wr.key in w'.stripes[wr.stripe].open && w'.stripes[wr.stripe].open[wr.key] == id
            && Undisturbed(c, w, steps, wr))
  {
    var w', wr := Exec(c, w, steps), w.writers[id];
    assert w'.writers[id] == wr;
    RunOvertakesExactly(c, w, steps, wr);
    if !Undisturbed(c, w, steps, wr) { OvertakenIsNotGood(c, w', wr); }
  }

  // ----------------------------------------------------------------- tokens

  /** A purge of anything, the shutdown of any stripe, or an invalidation in a policy slot of the token or of its parent. */
  predicate OvertakesToken(c: Config, w: World, step: Step, t: Token)
    requires StripesOk(w.stripes) && Enabled(c, w, step)
  {
    match step
    case Purge(_, _) => true
    case Shut(_) => true
    case Invalidate(d, _) =>
      var q := c.hash(w.tokens[d].selector) % 1024;
      q == c.hash(t.selector) % 1024 || (t.parent.Some? && q == c.hash(t.parent.value.selector) % 1024)
    case _ => false
  }

  /** The writer that the token would bind on a stripe. */
  function WriterOn(t: Token, i: nat): Writer
    requires i < |t.epochs| && i < |t.policies| && (t.parent.Some? ==> i < |t.parent.value.policies|)
  {
    Bound(t, i, "")
  }

  /** The epochs of a token are current exactly if a writer bound to it on any stripe is good. */
  lemma EpochsByStripe(c: Config, w: World, t: Token)
    requires StripesOk(w.stripes) && TokenShape(|w.stripes|, t)
    ensures EpochsOk(c, w.stripes, t) <==> forall i | 0 <= i < |w.stripes| :: Good(c, w, WriterOn(t, i))
  {
    if forall i | 0 <= i < |w.stripes| :: Good(c, w, WriterOn(t, i)) {
      forall i | 0 <= i < |w.stripes|
        ensures !w.stripes[i].closing && t.epochs[i] == w.stripes[i].epoch && t.policies[i] == PolicyOf(c, w.stripes[i], t.selector)
          && (t.parent.Some? ==> t.parent.value.policies[i] == PolicyOf(c, w.stripes[i], t.parent.value.selector))
      {
        assert Good(c, w, WriterOn(t, i));
      }
    }
  }

  /** On some stripe a step that overtakes the token overtakes the writer bound there, and no other step does on any. */
  lemma OvertakenOnSomeStripe(c: Config, w: World, step: Step, t: Token) returns (i: nat)
    requires StripesOk(w.stripes) && |w.stripes| > 0 && TokenShape(|w.stripes|, t) && Enabled(c, w, step)
    ensures i < |w.stripes| && (OvertakesToken(c, w, step, t) <==> Overtakes(c, w, step, WriterOn(t, i)))
    ensures !OvertakesToken(c, w, step, t) ==> forall j | 0 <= j < |w.stripes| :: !Overtakes(c, w, step, WriterOn(t, j))
  {
    i := if step.Shut? then step.stripe else 0;
  }

  lemma StepOvertakesTokenExactly(c: Config, w: World, step: Step, t: Token)
    requires Inv(c, w) && |w.stripes| > 0 && TokenShape(|w.stripes|, t) && Enabled(c, w, step) && EpochsOk(c, w.stripes, t)
    ensures
      var w' := Apply(c, w, step);
      && StripesOk(w'.stripes) && |w'.stripes| == |w.stripes|
      && (EpochsOk(c, w'.stripes, t) <==> !OvertakesToken(c, w, step, t))
      && (OvertakesToken(c, w, step, t) ==> exists i | 0 <= i < |w.stripes| :: Overtaken(c, w', WriterOn(t, i)))
  {
    StepKeeps(c, w, step);
    StepLater(c, w, step);
    var w' := Apply(c, w, step);
    EpochsByStripe(c, w, t);
    EpochsByStripe(c, w', t);
    var i := OvertakenOnSomeStripe(c, w, step, t);
    forall j | 0 <= j < |w.stripes|
      ensures if Overtakes(c, w, step, WriterOn(t, j)) then Overtaken(c, w', WriterOn(t, j)) else Good(c, w', WriterOn(t, j))
    {
      StepOvertakesExactly(c, w, step, WriterOn(t, j));
    }
    if OvertakesToken(c, w, step, t) { OvertakenIsNotGood(c, w', WriterOn(t, i)); }
  }

  /** No step of the run overtakes the token. */
  predicate TokenUndisturbed(c: Config, w: World, steps: seq<Step>, t: Token)
    requires Inv(c, w) && Allowed(c, w, steps)
    decreases |steps|
  {
    steps == [] || (!OvertakesToken(c, w, steps[0], t)
      && (StepKeeps(c, w, steps[0]); TokenUndisturbed(c, Apply(c, w, steps[0]), steps[1..], t)))
  }

  /**
   From the moment a token is good, as it is when it has been begun or derived,
   and whatever happens then: it passes the check of its epochs exactly if no
   purge, no shutdown and no invalidation in a slot of its own or of its parent
   came in between.
   */
  lemma {:induction false} TokenGoodExactly(c: Config, w: World, steps: seq<Step>, t: Token)
    requires Inv(c, w) && Allowed(c, w, steps) && |w.stripes| > 0 && TokenShape(|w.stripes|, t) && EpochsOk(c, w.stripes, t)
    ensures EpochsOk(c, Exec(c, w, steps).stripes, t) <==> TokenUndisturbed(c, w, steps, t)
    decreases |steps|
  {
    if steps != [] {
      var w1 := Apply(c, w, steps[0]);
      StepKeeps(c, w, steps[0]);
      StepOvertakesTokenExactly(c, w, steps[0], t);
      if OvertakesToken(c, w, steps[0], t) {
        var i :| 0 <= i < |w.stripes| && Overtaken(c, w1, WriterOn(t, i));
        OvertakenTokenStays(c, w1, steps[1..], t, i);
      } else {
        TokenGoodExactly(c, w1, steps[1..], t);
      }
    }
  }

  lemma OvertakenTokenStays(c: Config, w: World, steps: seq<Step>, t: Token, i: nat)
    requires Inv(c, w) && Allowed(c, w, steps) && TokenShape(|w.stripes|, t) && i < |w.stripes| && Overtaken(c, w, WriterOn(t, i))
    ensures !EpochsOk(c, Exec(c, w, steps).stripes, t)
  {
    RunKeepsOvertaken(c, w, steps, WriterOn(t, i));
    RunKeeps(c, w, steps);
    var w' := Exec(c, w, steps);
    OvertakenIsNotGood(c, w', WriterOn(t, i));
    EpochsByStripe(c, w', t);
  }

  // ------------------------------------------- replacing, wraps and aborts

  /** The wraps of a stripe are counted and never taken back. */
  lemma WrapsAfter(c: Config, w: World, step: Step, i: nat)
    requires StripesOk(w.stripes) && Enabled(c, w, step) && i < |w.stripes|
    ensures |Apply(c, w, step).stripes| == |w.stripes|
    ensures Apply(c, w, step).stripes[i].wraps == w.stripes[i].wraps + if step.Lose? && step.stripe == i && step.wrap then 1 else 0
  {
    if step.Replace? {
      var w1 := Opened(c, w, w.tokens[step.token], step.key, step.evict);
      assert Apply(c, w, step).stripes[i] == Removed(w1.stripes[i], set k | k in step.remove && c.place(k) == i);
    }
  }

  lemma {:induction false} RunKeepsWraps(c: Config, w: World, steps: seq<Step>, i: nat)
    requires Inv(c, w) && Allowed(c, w, steps) && i < |w.stripes|
    ensures i < |Exec(c, w, steps).stripes| && w.stripes[i].wraps <= Exec(c, w, steps).stripes[i].wraps
    decreases |steps|
  {
    if steps != [] {
      StepKeeps(c, w, steps[0]);
      WrapsAfter(c, w, steps[0], i);
      RunKeepsWraps(c, Apply(c, w, steps[0]), steps[1..], i);
    }
  }

  /** Once a stripe has wrapped, no token from before passes the check for replacing or refreshing any more. */
  lemma WrapEndsReplacing(c: Config, w: World, i: nat, keys: set<Name>, steps: seq<Step>, t: Token)
    requires Inv(c, w) && i < |w.stripes| && TokenShape(|w.stripes|, t) && t.wraps[i] <= w.stripes[i].wraps
    requires Inv(c, Apply(c, w, Lose(i, keys, true))) && Allowed(c, Apply(c, w, Lose(i, keys, true)), steps)
    ensures !FillOk(c, Exec(c, Apply(c, w, Lose(i, keys, true)), steps).stripes, t)
  {
    WrapsAfter(c, w, Lose(i, keys, true), i);
    RunKeepsWraps(c, Apply(c, w, Lose(i, keys, true)), steps, i);
  }

  /** What a replacing writer removes belongs to its selector: each key is indexed under it on some stripe. */
  lemma ReplaceRemovesOwn(c: Config, w: World, step: Step, k: Name)
    requires StripesOk(w.stripes) && step.Replace? && Enabled(c, w, step) && k in step.remove
    ensures exists i | 0 <= i < |w.stripes| :: k in w.stripes[i].index && w.stripes[i].index[k] == w.tokens[step.token].selector
  {
    var t := w.tokens[step.token];
    var i :| 0 <= i < |t.snapshot| && k in t.snapshot[i];
    assert t.snapshot[i] == SnapshotOf(w.stripes[i], t.selector);
    assert k in w.stripes[i].index && w.stripes[i].index[k] == t.selector;
  }

  /** A writer that fails takes its own identity out of the index, and nothing else; one that has lost its key changes nothing. */
  lemma AbortForgetsOwn(c: Config, w: World, id: nat)
    requires StripesOk(w.stripes) && Enabled(c, w, Abort(id))
    ensures
      var w', wr := Apply(c, w, Abort(id)), w.writers[id];
      var s, s' := w.stripes[wr.stripe], w'.stripes[wr.stripe];
      && id in w'.failed && w'.stripes == w.stripes[wr.stripe := s.(index := s'.index)]
      && if wr.key in s.open && s.open[wr.key] == id
         then wr.key !in s'.index && (forall k | k != wr.key :: (k in s'.index <==> k in s.index) && (k in s.index ==> s'.index[k] == s.index[k]))
         else s'.index == s.index
  {
  }

  /** A token is good when it has been begun, and so is one that is derived from a good one. */
  lemma TokensStartGood(c: Config, w: World, step: Step)
    requires Inv(c, w) && (step.Begin? || step.Derive?) && Enabled(c, w, step)
    ensures
      var w' := Apply(c, w, step);
      && StripesOk(w'.stripes) && |w'.tokens| == |w.tokens| + 1 && w'.tokens[|w.tokens|].selector == (if step.Begin? then step.selector else step.key)
      && EpochsOk(c, w'.stripes, w'.tokens[|w.tokens|]) && FillOk(c, w'.stripes, w'.tokens[|w.tokens|])
  {
    StepKeeps(c, w, step);
  }
}
