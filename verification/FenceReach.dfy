/**
 How far a purge reaches: whatever a fill stores can be traced to the selector it
 was begun for, so that a purge of that selector finds all of it.
 */
module FenceReach {
  import opened Common
  import opened IdentityIndex
  import opened Fences
  import opened FenceRuns

  /** A fill for the selector `of` stores under that selector, and its range objects under selectors that extend it. */
  predicate StoredBy(of: Name, selector: Name) {
    selector == of || of + "\nrange:" <= selector
  }

  /** The selector is one under which the fill with this number stores. */
  predicate Traced(tokens: seq<Token>, root: nat, selector: Name) {
    root < |tokens| && StoredBy(tokens[root].selector, selector)
  }

  predicate AllTraced(w: World) {
    && (forall t | 0 <= t < |w.tokens| :: Traced(w.tokens, w.tokens[t].root, w.tokens[t].selector))
    && (forall d | 0 <= d < |w.writers| :: Traced(w.tokens, w.writers[d].root, w.writers[d].selector))
    && (forall i | 0 <= i < |w.stripes| :: StripeTraced(w.tokens, w.stripes[i]))
  }

  predicate StripeTraced(tokens: seq<Token>, s: Stripe) {
    && (forall k | k in s.heads :: Traced(tokens, s.heads[k].root, s.heads[k].selector))
    && (forall k | k in s.lost :: Traced(tokens, s.lost[k].head.root, s.lost[k].head.selector))
  }

  lemma TracedStays(tokens: seq<Token>, tokens': seq<Token>, root: nat, selector: Name)
    requires Traced(tokens, root, selector) && tokens <= tokens'
    ensures Traced(tokens', root, selector)
  {
  }

  lemma TokensStayTraced(c: Config, w: World, step: Step)
    requires Inv(c, w) && AllTraced(w) && Enabled(c, w, step)
    ensures
      var w' := Apply(c, w, step);
      forall t | 0 <= t < |w'.tokens| :: Traced(w'.tokens, w'.tokens[t].root, w'.tokens[t].selector)
  {
    var w' := Apply(c, w, step);
    StepLater(c, w, step);
    forall t | 0 <= t < |w'.tokens|
      ensures Traced(w'.tokens, w'.tokens[t].root, w'.tokens[t].selector)
    {
      if t < |w.tokens| {
        TracedStays(w.tokens, w'.tokens, w.tokens[t].root, w.tokens[t].selector);
      } else if step.Derive? {
        assert TokenInv(w.tokens, |w.stripes|, step.token);
      }
    }
  }

  lemma WritersStayTraced(c: Config, w: World, step: Step)
    requires Inv(c, w) && AllTraced(w) && Enabled(c, w, step)
    ensures
      var w' := Apply(c, w, step);
      forall d | 0 <= d < |w'.writers| :: Traced(w'.tokens, w'.writers[d].root, w'.writers[d].selector)
  {
    var w' := Apply(c, w, step);
    StepLater(c, w, step);
    forall d | 0 <= d < |w'.writers|
      ensures Traced(w'.tokens, w'.writers[d].root, w'.writers[d].selector)
    {
      if d < |w.writers| {
        TracedStays(w.tokens, w'.tokens, w.writers[d].root, w.writers[d].selector);
      } else {
        assert Traced(w.tokens, w.tokens[step.token].root, w.tokens[step.token].selector);
      }
    }
  }

  lemma HeadStaysTraced(c: Config, w: World, step: Step, i: nat, k: Name)
    requires Inv(c, w) && AllTraced(w) && Enabled(c, w, step) && i < |w.stripes|
    requires |Apply(c, w, step).stripes| == |w.stripes| && k in Apply(c, w, step).stripes[i].heads
    ensures var h := Apply(c, w, step).stripes[i].heads[k]; Traced(w.tokens, h.root, h.selector)
  {
    var h, s := Apply(c, w, step).stripes[i].heads[k], w.stripes[i];
    HeadOrigin(c, w, step, i, k);
    assert StripeTraced(w.tokens, s);
    if step.Publish? { PublishedIsTraced(c, w, step.writer, i, k); }
  }

  lemma PublishedIsTraced(c: Config, w: World, id: nat, i: nat, k: Name)
    requires StripesOk(w.stripes) && AllTraced(w) && CanPublish(c, w, id) && i < |w.stripes| && k in Published(w, id).stripes[i].heads
    ensures var h := Published(w, id).stripes[i].heads[k]; Traced(w.tokens, h.root, h.selector)
  {
    assert StripeTraced(w.tokens, w.stripes[i]);
    assert Traced(w.tokens, w.writers[id].root, w.writers[id].selector);
  }

  lemma LostStaysTraced(c: Config, w: World, step: Step, i: nat, k: Name)
    requires Inv(c, w) && AllTraced(w) && Enabled(c, w, step) && i < |w.stripes|
    requires |Apply(c, w, step).stripes| == |w.stripes| && k in Apply(c, w, step).stripes[i].lost
    ensures var h := Apply(c, w, step).stripes[i].lost[k].head; Traced(w.tokens, h.root, h.selector)
  {
    LostOrigin(c, w, step, i, k);
    assert StripeTraced(w.tokens, w.stripes[i]);
  }

  lemma StepKeepsTraced(c: Config, w: World, step: Step)
    requires Inv(c, w) && AllTraced(w) && Enabled(c, w, step)
    ensures AllTraced(Apply(c, w, step))
  {
    var w' := Apply(c, w, step);
    TokensStayTraced(c, w, step);
    WritersStayTraced(c, w, step);
    StepLater(c, w, step);
    forall i | 0 <= i < |w'.stripes|
      ensures StripeTraced(w'.tokens, w'.stripes[i])
    {
      var s' := w'.stripes[i];
      forall k | k in s'.heads ensures Traced(w'.tokens, s'.heads[k].root, s'.heads[k].selector) {
        HeadStaysTraced(c, w, step, i, k);
        TracedStays(w.tokens, w'.tokens, s'.heads[k].root, s'.heads[k].selector);
      }
      forall k | k in s'.lost ensures Traced(w'.tokens, s'.lost[k].head.root, s'.lost[k].head.selector) {
        LostStaysTraced(c, w, step, i, k);
        TracedStays(w.tokens, w'.tokens, s'.lost[k].head.root, s'.lost[k].head.selector);
      }
    }
  }

  lemma {:induction false} RunKeepsTraced(c: Config, w: World, steps: seq<Step>)
    requires Inv(c, w) && AllTraced(w) && Allowed(c, w, steps)
    ensures AllTraced(Exec(c, w, steps))
    decreases |steps|
  {
    if steps != [] {
      StepKeeps(c, w, steps[0]);
      StepKeepsTraced(c, w, steps[0]);
      RunKeepsTraced(c, Apply(c, w, steps[0]), steps[1..]);
    }
  }

  /** In every run from a new cache, what is readable was stored by a fill for its selector or for one that it extends. */
  lemma EverythingIsTraced(c: Config, w0: World, steps: seq<Step>)
    requires Fresh(w0) && Inv(c, w0) && Allowed(c, w0, steps)
    ensures AllTraced(Exec(c, w0, steps))
  {
    RunKeepsTraced(c, w0, steps);
  }

  /** The fill with this number began before the purge, and for a selector that the purge names. */
  predicate Overtaken(w: World, n: nat, root: nat, selector: Name, prefix: bool) {
    root < n && root < |w.tokens| && (w.tokens[root].selector == selector || (prefix && selector <= w.tokens[root].selector))
  }

  /** Nothing that such a fill has stored is readable, and none of its writers can be followed unless it has failed. */
  predicate Reached(w: World, n: nat, selector: Name, prefix: bool) {
    && (forall i, k | 0 <= i < |w.stripes| && k in w.stripes[i].heads ::
          !Overtaken(w, n, w.stripes[i].heads[k].root, selector, prefix))
    && (forall i, k | 0 <= i < |w.stripes| && k in w.stripes[i].open && w.stripes[i].open[k] < |w.writers|
          && w.stripes[i].open[k] !in w.failed ::
          !Overtaken(w, n, w.writers[w.stripes[i].open[k]].root, selector, prefix))
  }

  lemma PrefixOfExtension(p: Name, of: Name, selector: Name)
    requires p <= of && StoredBy(of, selector)
    ensures p <= selector
  {
    assert of <= of + "\nrange:";
  }

  lemma CleanIsReached(w: World, n: nat, selector: Name, prefix: bool)
    requires AllTraced(w) && Clean(w, n, selector, prefix) && NoOldClaims(w, n, selector, prefix)
    ensures Reached(w, n, selector, prefix)
  {
    forall i, k | 0 <= i < |w.stripes| && k in w.stripes[i].heads
      ensures !Overtaken(w, n, w.stripes[i].heads[k].root, selector, prefix)
    {
      assert StripeTraced(w.tokens, w.stripes[i]);
      var h := w.stripes[i].heads[k];
      if Overtaken(w, n, h.root, selector, prefix) { MatchesStored(w, h.root, h.selector, selector, prefix); }
    }
    forall i, k | 0 <= i < |w.stripes| && k in w.stripes[i].open && w.stripes[i].open[k] < |w.writers| && w.stripes[i].open[k] !in w.failed
      ensures !Overtaken(w, n, w.writers[w.stripes[i].open[k]].root, selector, prefix)
    {
      var wr := w.writers[w.stripes[i].open[k]];
      assert Traced(w.tokens, wr.root, wr.selector);
      if Overtaken(w, n, wr.root, selector, prefix) { MatchesStored(w, wr.root, wr.selector, selector, prefix); }
    }
  }

  /** What a fill for a purged selector stores matches the purge. */
  lemma MatchesStored(w: World, root: nat, of: Name, selector: Name, prefix: bool)
    requires Traced(w.tokens, root, of)
    requires w.tokens[root].selector == selector || (prefix && selector <= w.tokens[root].selector)
    ensures Matches(selector, prefix, of)
  {
    PrefixOfExtension(w.tokens[root].selector, w.tokens[root].selector, of);
    if prefix { PrefixOfExtension(selector, w.tokens[root].selector, of); }
  }

  /**
   What a purge is for. After it, and whatever happens later, nothing is readable
   that a fill for the purged selector, begun before, has stored, its range
   objects included, and no writer of such a fill can be followed unless it has
   failed. With `prefix`, the same for every selector that begins with the purged one.
   */
  lemma PurgeReachesFills(c: Config, w0: World, before: seq<Step>, selector: Name, prefix: bool, steps: seq<Step>)
    requires Fresh(w0) && Inv(c, w0) && Allowed(c, w0, before) && MatchesIndexed(Exec(c, w0, before), selector, prefix)
    requires Enabled(c, Exec(c, w0, before), Purge(selector, prefix))
    requires Inv(c, Apply(c, Exec(c, w0, before), Purge(selector, prefix)))
    requires Allowed(c, Apply(c, Exec(c, w0, before), Purge(selector, prefix)), steps)
    ensures
      var w := Exec(c, w0, before);
      Reached(Exec(c, Apply(c, w, Purge(selector, prefix)), steps), |w.tokens|, selector, prefix)
  {
    var w := Exec(c, w0, before);
    RunKeepsTraced(c, w0, before);
    PurgeReachesTraced(c, w, selector, prefix, steps);
  }

  lemma PurgeReachesTraced(c: Config, w: World, selector: Name, prefix: bool, steps: seq<Step>)
    requires Inv(c, w) && AllTraced(w) && MatchesIndexed(w, selector, prefix) && Enabled(c, w, Purge(selector, prefix))
    requires Inv(c, Apply(c, w, Purge(selector, prefix))) && Allowed(c, Apply(c, w, Purge(selector, prefix)), steps)
    ensures Reached(Exec(c, Apply(c, w, Purge(selector, prefix)), steps), |w.tokens|, selector, prefix)
  {
    StepKeepsTraced(c, w, Purge(selector, prefix));
    RunKeepsTraced(c, Apply(c, w, Purge(selector, prefix)), steps);
    PurgeHolds(c, w, selector, prefix, steps);
    CleanIsReached(Exec(c, Apply(c, w, Purge(selector, prefix)), steps), |w.tokens|, selector, prefix);
  }
}
