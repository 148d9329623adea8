/**
 What every run of fills, purges and invalidations keeps, and the fences that
 follow from it.
 */
module FenceRuns {
  import opened Common
  import opened IdentityIndex
  import opened Fences

  // ------------------------------------------------------------- invariants

  /** An entry of the directory is older than now and agrees with the index where it is indexed. */
  predicate EntryInv(s: Stripe, k: Name, h: Head, w: World) {
    h.root < |w.tokens| && h.commit < w.commits && (k in s.index ==> s.index[k] == h.selector)
  }

  /** A claimed key is indexed unless the writer has failed, and has no entry until the writer is done. */
  predicate ClaimInv(s: Stripe, i: nat, k: Name, id: nat, w: World) {
    && id < |w.writers| && w.writers[id].stripe == i && w.writers[id].key == k
    && (id !in w.finished ==> k !in s.heads && k !in s.lost)
    && (id !in w.failed ==> k in s.index && s.index[k] == w.writers[id].selector)
  }

  predicate StripeInv(s: Stripe, i: nat, w: World) {
    && StripeOk(s)
    && (forall k | k in s.heads :: EntryInv(s, k, s.heads[k], w))
    && (forall k | k in s.lost :: k !in s.heads && s.lost[k].epoch <= s.epoch && EntryInv(s, k, s.lost[k].head, w))
    && (forall k | k in s.open :: ClaimInv(s, i, k, s.open[k], w))
  }

  /** A derived token has the epochs of its root and remembers the root's policies. */
  predicate TokenInv(tokens: seq<Token>, n: nat, t: nat)
    requires t < |tokens|
  {
    var token := tokens[t];
    && TokenShape(n, token) && token.root <= t
    && TokenShape(n, tokens[token.root]) && tokens[token.root].parent.None? && tokens[token.root].root == token.root
    && (token.parent.None? ==> token.root == t)
    && (token.parent.Some? ==>
      token.epochs == tokens[token.root].epochs && token.parent.value == Fence(tokens[token.root].selector, tokens[token.root].policies))
  }

  /** A writer is bound to the epoch of its root and to the root's policy. */
  predicate WriterInv(tokens: seq<Token>, n: nat, w: Writer) {
    && w.root < |tokens| && w.stripe < n && TokenShape(n, tokens[w.root]) && tokens[w.root].parent.None?
    && w.epoch == tokens[w.root].epochs[w.stripe]
    && RootFence(w) == (tokens[w.root].selector, tokens[w.root].policies[w.stripe])
  }

  /** The selector and the policy epoch of the fill that asked the origin. */
  function RootFence(w: Writer): (Name, nat) {
    if w.fence.Some? then w.fence.value else (w.selector, w.policy)
  }

  /** No token is ahead of the stripes. */
  predicate Behind(c: Config, stripes: seq<Stripe>, t: Token)
    requires StripesOk(stripes)
  {
    && TokenShape(|stripes|, t)
    && forall i | 0 <= i < |stripes| :: t.epochs[i] <= stripes[i].epoch && t.policies[i] <= PolicyOf(c, stripes[i], t.selector)
  }

  predicate Inv(c: Config, w: World) {
    && (forall i | 0 <= i < |w.stripes| :: StripeInv(w.stripes[i], i, w))
    && (forall t | 0 <= t < |w.tokens| :: TokenInv(w.tokens, |w.stripes|, t) && Behind(c, w.stripes, w.tokens[t]))
    && (forall d | 0 <= d < |w.writers| :: WriterInv(w.tokens, |w.stripes|, w.writers[d]))
    && (forall d | d in w.finished :: d < |w.writers|) && w.failed <= w.finished
  }

  /** Every readable object is in the index, where a purge looks for it. */
  predicate Indexed(w: World) {
    forall i, k | 0 <= i < |w.stripes| && k in w.stripes[i].heads :: k in w.stripes[i].index
  }

  predicate Fresh(w: World) {
    && w.tokens == [] && w.writers == [] && w.finished == {} && w.failed == {}
    && forall i | 0 <= i < |w.stripes| ::
      && StripeOk(w.stripes[i]) && w.stripes[i].heads == map[] && w.stripes[i].lost == map[] && w.stripes[i].open == map[]
  }

  lemma FreshInv(c: Config, w: World)
    requires Fresh(w)
    ensures Inv(c, w) && Indexed(w)
  {
  }

  // ------------------------------------------------- epochs never move back

  predicate StripeLater(s: Stripe, s': Stripe) {
    && StripeOk(s) && StripeOk(s') && s.epoch <= s'.epoch
    && forall q | 0 <= q < SLOTS :: s.policies[q] <= s'.policies[q]
  }

  predicate Later(stripes: seq<Stripe>, stripes': seq<Stripe>) {
    |stripes| == |stripes'| && forall i | 0 <= i < |stripes| :: StripeLater(stripes[i], stripes'[i])
  }

  lemma BehindStays(c: Config, stripes: seq<Stripe>, stripes': seq<Stripe>, t: Token)
    requires StripesOk(stripes) && Behind(c, stripes, t) && Later(stripes, stripes')
    ensures StripesOk(stripes') && Behind(c, stripes', t)
  {
  }

  /** New stripes that are later and in order keep the whole invariant. */
  lemma NewStripes(c: Config, w: World, w': World)
    requires Inv(c, w) && w'.tokens == w.tokens && w'.writers == w.writers && Later(w.stripes, w'.stripes)
    requires forall i | 0 <= i < |w'.stripes| :: StripeInv(w'.stripes[i], i, w')
    requires (forall d | d in w'.finished :: d < |w.writers|) && w'.failed <= w'.finished
    ensures Inv(c, w')
  {
    forall t | 0 <= t < |w.tokens|
      ensures Behind(c, w'.stripes, w.tokens[t])
    {
      BehindStays(c, w.stripes, w'.stripes, w.tokens[t]);
    }
  }

  /** Time goes by in the world, but not on the stripe. */
  predicate Onwards(w: World, w': World) {
    && |w.tokens| <= |w'.tokens| && w.writers <= w'.writers && w.commits <= w'.commits
    && w.finished <= w'.finished && w.failed <= w'.failed
  }

  lemma StripeInvStays(s: Stripe, i: nat, w: World, w': World)
    requires StripeInv(s, i, w) && Onwards(w, w')
    ensures StripeInv(s, i, w')
  {
    forall k | k in s.open ensures ClaimInv(s, i, k, s.open[k], w') { assert ClaimInv(s, i, k, s.open[k], w); }
    forall k | k in s.heads ensures EntryInv(s, k, s.heads[k], w') { assert EntryInv(s, k, s.heads[k], w); }
    forall k | k in s.lost ensures EntryInv(s, k, s.lost[k].head, w') { assert EntryInv(s, k, s.lost[k].head, w); }
  }

  /** One stripe changes. */
  lemma NewStripe(c: Config, w: World, w': World, i: nat)
    requires Inv(c, w) && i < |w.stripes| && |w'.stripes| == |w.stripes| && w'.stripes == w.stripes[i := w'.stripes[i]]
    requires w'.tokens == w.tokens && w'.writers == w.writers && Onwards(w, w')
    requires (forall d | d in w'.finished :: d < |w.writers|) && w'.failed <= w'.finished
    requires StripeLater(w.stripes[i], w'.stripes[i]) && StripeInv(w'.stripes[i], i, w')
    ensures Inv(c, w')
  {
    forall j | 0 <= j < |w'.stripes|
      ensures StripeInv(w'.stripes[j], j, w') && StripeLater(w.stripes[j], w'.stripes[j])
    {
      if j != i {
        assert w'.stripes[j] == w.stripes[j];
        StripeInvStays(w.stripes[j], j, w, w');
      }
    }
    NewStripes(c, w, w');
  }

  lemma NewToken(c: Config, w: World, t: Token)
    requires Inv(c, w) && TokenInv(w.tokens + [t], |w.stripes|, |w.tokens|) && Behind(c, w.stripes, t)
    ensures Inv(c, w.(tokens := w.tokens + [t]))
  {
    var w' := w.(tokens := w.tokens + [t]);
    forall d | 0 <= d < |w.tokens|
      ensures TokenInv(w'.tokens, |w.stripes|, d)
    {
      assert TokenInv(w.tokens, |w.stripes|, d);
    }
    forall i | 0 <= i < |w.stripes| ensures StripeInv(w.stripes[i], i, w') { StripeInvStays(w.stripes[i], i, w, w'); }
  }

  // -------------------------------------------------------------- the steps

  lemma BeginKeeps(c: Config, w: World, selector: Name)
    requires Inv(c, w)
    ensures Inv(c, w.(tokens := w.tokens + [TokenFor(c, w.stripes, selector, |w.tokens|)]))
  {
    NewToken(c, w, TokenFor(c, w.stripes, selector, |w.tokens|));
  }

  lemma DeriveKeeps(c: Config, w: World, t: nat, key: Name)
    requires Inv(c, w) && Enabled(c, w, Derive(t, key))
    ensures Inv(c, Apply(c, w, Derive(t, key)))
  {
    var d := Derived(c, w.stripes, w.tokens[t], key);
    assert TokenInv(w.tokens, |w.stripes|, t);
    assert (w.tokens + [d])[d.root] == w.tokens[d.root];
    NewToken(c, w, d);
  }

  lemma BoundInv(c: Config, w: World, t: nat, i: nat, key: Name)
    requires Inv(c, w) && t < |w.tokens| && i < |w.stripes|
    ensures TokenShape(|w.stripes|, w.tokens[t]) && WriterInv(w.tokens, |w.stripes|, Bound(w.tokens[t], i, key))
  {
    assert TokenInv(w.tokens, |w.stripes|, t);
  }

  lemma NewWriter(c: Config, w: World, b: Writer)
    requires Inv(c, w) && WriterInv(w.tokens, |w.stripes|, b)
    ensures Inv(c, w.(writers := w.writers + [b]))
  {
    var w' := w.(writers := w.writers + [b]);
    forall i | 0 <= i < |w.stripes| ensures StripeInv(w.stripes[i], i, w') { StripeInvStays(w.stripes[i], i, w, w'); }
  }

  lemma ClaimedInv(s: Stripe, i: nat, w: World, key: Name, evict: bool, id: nat)
    requires StripeInv(s, i, w) && id < |w.writers| && id !in w.finished
    requires w.writers[id].stripe == i && w.writers[id].key == key
    ensures StripeInv(Claimed(s, key, w.writers[id].selector, id, evict), i, w)
  {
    var s' := Claimed(s, key, w.writers[id].selector, id, evict);
    forall k | k in s'.open
      ensures ClaimInv(s', i, k, s'.open[k], w)
    {
      if k != key {
        assert ClaimInv(s, i, k, s.open[k], w);
      }
    }
    forall k | k in s'.heads ensures EntryInv(s', k, s'.heads[k], w) { assert EntryInv(s, k, s.heads[k], w); }
    forall k | k in s'.lost ensures EntryInv(s', k, s'.lost[k].head, w) { assert EntryInv(s, k, s.lost[k].head, w); }
  }

  lemma OpenKeeps(c: Config, w: World, t: nat, key: Name, evict: bool)
    requires Inv(c, w) && t < |w.tokens| && CanOpen(c, w, w.tokens[t], key)
    ensures Inv(c, Opened(c, w, w.tokens[t], key, evict))
  {
    var i, id := c.place(key), |w.writers|;
    var b := Bound(w.tokens[t], i, key);
    BoundInv(c, w, t, i, key);
    NewWriter(c, w, b);
    var w1 := w.(writers := w.writers + [b]);
    var w' := Opened(c, w, w.tokens[t], key, evict);
    assert w1.writers[id] == b && id !in w.finished;
    ClaimedInv(w1.stripes[i], i, w1, key, evict, id);
    StripeInvStays(w'.stripes[i], i, w1, w');
    NewStripe(c, w1, w', i);
  }

  /** Losing identities, entries and claims of the same keys, or identities without a writer alone, breaks nothing. */
  lemma FewerInv(s: Stripe, s': Stripe, i: nat, w: World)
    requires StripeInv(s, i, w) && StripeOk(s') && s.epoch <= s'.epoch
    requires s'.index.Keys <= s.index.Keys && (forall k | k in s'.index :: s'.index[k] == s.index[k])
    requires s'.heads.Keys <= s.heads.Keys && (forall k | k in s'.heads :: s'.heads[k] == s.heads[k])
    requires s'.lost.Keys <= s.lost.Keys && (forall k | k in s'.lost :: s'.lost[k] == s.lost[k])
    requires s'.open.Keys <= s.open.Keys && (forall k | k in s'.open :: s'.open[k] == s.open[k] && (k in s.index ==> k in s'.index))
    ensures StripeInv(s', i, w)
  {
    forall k | k in s'.open ensures ClaimInv(s', i, k, s'.open[k], w) { assert ClaimInv(s, i, k, s.open[k], w); }
    forall k | k in s'.heads ensures EntryInv(s', k, s'.heads[k], w) { assert EntryInv(s, k, s.heads[k], w); }
    forall k | k in s'.lost ensures EntryInv(s', k, s'.lost[k].head, w) { assert EntryInv(s, k, s.lost[k].head, w); }
  }

  lemma RemovedInv(s: Stripe, i: nat, w: World, keys: set<Name>)
    requires StripeInv(s, i, w)
    ensures StripeInv(Removed(s, keys), i, w)
  {
    FewerInv(s, Removed(s, keys), i, w);
  }

  lemma ReplaceKeeps(c: Config, w: World, t: nat, key: Name, evict: bool, remove: set<Name>)
    requires Inv(c, w) && Enabled(c, w, Replace(t, key, evict, remove))
    ensures Inv(c, Apply(c, w, Replace(t, key, evict, remove)))
  {
    OpenKeeps(c, w, t, key, evict);
    var w1 := Opened(c, w, w.tokens[t], key, evict);
    var w' := Apply(c, w, Replace(t, key, evict, remove));
    forall i | 0 <= i < |w1.stripes|
      ensures StripeInv(w'.stripes[i], i, w') && StripeLater(w1.stripes[i], w'.stripes[i])
    {
      RemovedInv(w1.stripes[i], i, w1, set k | k in remove && c.place(k) == i);
      StripeInvStays(w'.stripes[i], i, w1, w');
    }
    NewStripes(c, w1, w');
  }

  /** An entry that is set anew, where no writer is at work. */
  lemma ResetInv(s: Stripe, i: nat, w: World, key: Name, h: Head)
    requires StripeInv(s, i, w) && EntryInv(s, key, h, w) && (key in s.open ==> s.open[key] in w.finished)
    ensures StripeInv(Reset(s, key, h), i, w)
  {
    var s' := Reset(s, key, h);
    forall k | k in s'.open ensures ClaimInv(s', i, k, s'.open[k], w) { assert ClaimInv(s, i, k, s.open[k], w); }
    forall k | k in s'.heads ensures EntryInv(s', k, s'.heads[k], w) { assert k != key ==> EntryInv(s, k, s.heads[k], w); }
    forall k | k in s'.lost ensures EntryInv(s', k, s'.lost[k].head, w) { assert EntryInv(s, k, s.lost[k].head, w); }
  }

  lemma PublishKeeps(c: Config, w: World, id: nat)
    requires Inv(c, w) && CanPublish(c, w, id)
    ensures Inv(c, Published(w, id))
  {
    var wr, w' := w.writers[id], Published(w, id);
    var s, i := w.stripes[wr.stripe], wr.stripe;
    assert WriterInv(w.tokens, |w.stripes|, wr);
    assert ClaimInv(s, i, wr.key, id, w);
    var h := Head(wr.selector, w.commits, wr.root);
    StripeInvStays(s, i, w, w');
    assert id !in w.failed && s.index[wr.key := wr.selector] == s.index;
    ResetInv(s, i, w', wr.key, h);
    NewStripe(c, w, w', i);
  }

  lemma RefreshKeeps(c: Config, w: World, t: nat, i: nat, key: Name)
    requires Inv(c, w) && Enabled(c, w, Refresh(t, i, key))
    ensures Inv(c, Apply(c, w, Refresh(t, i, key)))
  {
    var w', s := Apply(c, w, Refresh(t, i, key)), w.stripes[i];
    var e := EntryOf(s, key).value;
    assert TokenInv(w.tokens, |w.stripes|, t) && EntryInv(s, key, e, w);
    StripeInvStays(s, i, w, w');
    ResetInv(s, i, w', key, e.(commit := w.commits));
    NewStripe(c, w, w', i);
  }

  lemma AbortKeeps(c: Config, w: World, id: nat)
    requires Inv(c, w) && Enabled(c, w, Abort(id))
    ensures Inv(c, Aborted(w, id))
  {
    var i, w' := w.writers[id].stripe, Aborted(w, id);
    var s, s' := w.stripes[i], w'.stripes[i];
    forall k | k in s'.open ensures ClaimInv(s', i, k, s'.open[k], w') { assert ClaimInv(s, i, k, s.open[k], w); }
    forall k | k in s'.heads ensures EntryInv(s', k, s'.heads[k], w') { assert EntryInv(s, k, s.heads[k], w); }
    forall k | k in s'.lost ensures EntryInv(s', k, s'.lost[k].head, w') { assert EntryInv(s, k, s.lost[k].head, w); }
    NewStripe(c, w, w', i);
  }

  lemma ReleaseKeeps(c: Config, w: World, id: nat)
    requires Inv(c, w) && Enabled(c, w, Release(id))
    ensures Inv(c, Apply(c, w, Release(id)))
  {
    var i, w' := w.writers[id].stripe, Apply(c, w, Release(id));
    FewerInv(w.stripes[i], w'.stripes[i], i, w);
    StripeInvStays(w'.stripes[i], i, w, w');
    NewStripe(c, w, w', i);
  }

  lemma PurgeKeeps(c: Config, w: World, selector: Name, prefix: bool)
    requires Inv(c, w) && Enabled(c, w, Purge(selector, prefix))
    ensures Inv(c, Apply(c, w, Purge(selector, prefix)))
  {
    var w' := Apply(c, w, Purge(selector, prefix));
    forall i | 0 <= i < |w.stripes|
      ensures StripeInv(w'.stripes[i], i, w') && StripeLater(w.stripes[i], w'.stripes[i])
    {
      FewerInv(w.stripes[i], w'.stripes[i], i, w);
      StripeInvStays(w'.stripes[i], i, w, w');
    }
    NewStripes(c, w, w');
  }

  lemma InvalidateKeeps(c: Config, w: World, t: nat, removed: seq<set<Name>>)
    requires Inv(c, w) && Enabled(c, w, Invalidate(t, removed))
    ensures Inv(c, Apply(c, w, Invalidate(t, removed)))
  {
    var w' := Apply(c, w, Invalidate(t, removed));
    forall i | 0 <= i < |w.stripes|
      ensures StripeInv(w'.stripes[i], i, w') && StripeLater(w.stripes[i], w'.stripes[i])
    {
      FewerInv(w.stripes[i], w'.stripes[i], i, w);
      StripeInvStays(w'.stripes[i], i, w, w');
    }
    NewStripes(c, w, w');
  }

  lemma LoseKeeps(c: Config, w: World, i: nat, keys: set<Name>, wrap: bool)
    requires Inv(c, w) && i < |w.stripes|
    ensures Inv(c, Apply(c, w, Lose(i, keys, wrap)))
  {
    var w', s := Apply(c, w, Lose(i, keys, wrap)), w.stripes[i];
    var s' := w'.stripes[i];
    forall k | k in s'.open ensures ClaimInv(s', i, k, s'.open[k], w') { assert ClaimInv(s, i, k, s.open[k], w); }
    forall k | k in s'.heads ensures EntryInv(s', k, s'.heads[k], w') { assert EntryInv(s, k, s.heads[k], w); }
    forall k | k in s'.lost
      ensures k !in s'.heads && s'.lost[k].epoch <= s'.epoch && EntryInv(s', k, s'.lost[k].head, w')
    {
      assert if k in s.heads then EntryInv(s, k, s.heads[k], w) else EntryInv(s, k, s.lost[k].head, w);
    }
    NewStripe(c, w, w', i);
  }

  lemma PutBackKeeps(c: Config, w: World, i: nat, key: Name)
    requires Inv(c, w) && Enabled(c, w, PutBack(i, key))
    ensures Inv(c, Apply(c, w, PutBack(i, key)))
  {
    var w', s := Apply(c, w, PutBack(i, key)), w.stripes[i];
    assert EntryInv(s, key, s.lost[key].head, w);
    assert key in s.open ==> ClaimInv(s, i, key, s.open[key], w);
    StripeInvStays(s, i, w, w');
    ResetInv(s, i, w', key, s.lost[key].head.(commit := w.commits));
    NewStripe(c, w, w', i);
  }

  lemma ChangeKeeps(c: Config, w: World, step: Step)
    requires Inv(c, w) && (step.Forget? || step.Trim? || step.Shut?) && Enabled(c, w, step)
    ensures Inv(c, Apply(c, w, step))
  {
    var w', i := Apply(c, w, step), step.stripe;
    FewerInv(w.stripes[i], w'.stripes[i], i, w);
    StripeInvStays(w'.stripes[i], i, w, w');
    NewStripe(c, w, w', i);
  }

  lemma StepKeeps(c: Config, w: World, step: Step)
    requires Inv(c, w) && Enabled(c, w, step)
    ensures Inv(c, Apply(c, w, step))
  {
    match step
    case Begin(selector) => BeginKeeps(c, w, selector);
    case Derive(t, key) => DeriveKeeps(c, w, t, key);
    case Open(t, key, evict) => OpenKeeps(c, w, t, key, evict);
    case Replace(t, key, evict, remove) => ReplaceKeeps(c, w, t, key, evict, remove);
    case Publish(id) => PublishKeeps(c, w, id);
    case Refresh(t, i, key) => RefreshKeeps(c, w, t, i, key);
    case Abort(id) => AbortKeeps(c, w, id);
    case Release(id) => ReleaseKeeps(c, w, id);
    case Purge(selector, prefix) => PurgeKeeps(c, w, selector, prefix);
    case Invalidate(t, removed) => InvalidateKeeps(c, w, t, removed);
    case Lose(i, keys, wrap) => LoseKeeps(c, w, i, keys, wrap);
    case PutBack(i, key) => PutBackKeeps(c, w, i, key);
    case Forget(_, _) => ChangeKeeps(c, w, step);
    case Trim(_) => ChangeKeeps(c, w, step);
    case Shut(_) => ChangeKeeps(c, w, step);
  }

  // ------------------------------------------------------------------- runs

  predicate Allowed(c: Config, w: World, steps: seq<Step>)
    requires Inv(c, w)
    decreases |steps|
  {
    steps == [] || (Enabled(c, w, steps[0]) && (StepKeeps(c, w, steps[0]); Allowed(c, Apply(c, w, steps[0]), steps[1..])))
  }

  function Exec(c: Config, w: World, steps: seq<Step>): (w': World)
    requires Inv(c, w) && Allowed(c, w, steps)
    ensures Inv(c, w')
    decreases |steps|
  {
    if steps == [] then w else (StepKeeps(c, w, steps[0]); Exec(c, Apply(c, w, steps[0]), steps[1..]))
  }

  /** Tokens and writers are only added, and no epoch moves back. */
  predicate WorldLater(w: World, w': World) {
    Later(w.stripes, w'.stripes) && w.tokens <= w'.tokens && w.writers <= w'.writers && w.commits <= w'.commits
  }

  lemma StepLater(c: Config, w: World, step: Step)
    requires Inv(c, w) && Enabled(c, w, step)
    ensures WorldLater(w, Apply(c, w, step))
  {
    if Bulk(step) {
      BulkLater(c, w, step);
    } else {
      SingleLater(c, w, step);
    }
  }

  lemma BulkLater(c: Config, w: World, step: Step)
    requires Inv(c, w) && Enabled(c, w, step) && Bulk(step)
    ensures WorldLater(w, Apply(c, w, step))
  {
    var w' := Apply(c, w, step);
    forall i | 0 <= i < |w.stripes|
      ensures StripeLater(w.stripes[i], w'.stripes[i])
    {
    }
  }

  lemma SingleLater(c: Config, w: World, step: Step)
    requires Inv(c, w) && Enabled(c, w, step) && !Bulk(step)
    ensures WorldLater(w, Apply(c, w, step))
  {
    var w' := Apply(c, w, step);
    forall i | 0 <= i < |w.stripes|
      ensures StripeLater(w.stripes[i], w'.stripes[i])
    {
    }
  }

  // ------------------------------------------------------------- the fences

  /** The fills that began as one of the first `n` tokens are behind an epoch on every stripe. */
  predicate Fenced(w: World, n: nat) {
    forall t, i | 0 <= t < |w.tokens| && t < n && w.tokens[t].parent.None? && 0 <= i < |w.stripes| && i < |w.tokens[t].epochs| ::
      w.tokens[t].epochs[i] < w.stripes[i].epoch
  }

  /** The same for the policy epoch of one slot. */
  predicate PolicyFenced(c: Config, w: World, n: nat, q: nat)
    requires q < SLOTS && StripesOk(w.stripes)
  {
    forall t, i | 0 <= t < |w.tokens| && t < n && w.tokens[t].parent.None? && Slot(c, w.tokens[t].selector) == q
      && 0 <= i < |w.stripes| && i < |w.tokens[t].policies| ::
      w.tokens[t].policies[i] < w.stripes[i].policies[q]
  }

  /** Whatever is readable under a matching selector was stored by a later fill. */
  predicate Clean(w: World, n: nat, selector: Name, prefix: bool) {
    forall i, k | 0 <= i < |w.stripes| && k in w.stripes[i].heads && Matches(selector, prefix, w.stripes[i].heads[k].selector) ::
      w.stripes[i].heads[k].root >= n
  }

  /** The entry of a lost head can become valid again: by the swap of an evacuation, or by a refresh, which finds it in the index. */
  predicate MayReturn(s: Stripe, k: Name) {
    k in s.lost && (s.lost[k].epoch == s.epoch || k in s.index)
  }

  /** Heads under a matching selector that could still come back were stored by a later fill, too. */
  predicate NoOldLost(w: World, n: nat, selector: Name, prefix: bool) {
    forall i, k | 0 <= i < |w.stripes| && k in w.stripes[i].lost && MayReturn(w.stripes[i], k)
      && Matches(selector, prefix, w.stripes[i].lost[k].head.selector) ::
      w.stripes[i].lost[k].head.root >= n
  }

  /** Writers under a matching selector that a reader could follow belong to later fills, unless they have failed. */
  predicate NoOldClaims(w: World, n: nat, selector: Name, prefix: bool) {
    forall i, k | 0 <= i < |w.stripes| && k in w.stripes[i].open && w.stripes[i].open[k] < |w.writers|
      && Matches(selector, prefix, w.writers[w.stripes[i].open[k]].selector) && w.writers[w.stripes[i].open[k]].root < n ::
      w.stripes[i].open[k] in w.failed
  }

  /** Nothing of a matching selector that an earlier fill stored can be read or followed. */
  predicate Purged(w: World, n: nat, selector: Name, prefix: bool) {
    Clean(w, n, selector, prefix) && NoOldLost(w, n, selector, prefix) && NoOldClaims(w, n, selector, prefix)
  }

  /** The root is the token of a fill whose epochs are all current on stripe `i`. */
  predicate LiveRoot(c: Config, w: World, root: nat, i: nat)
    requires i < |w.stripes| && StripesOk(w.stripes)
  {
    && root < |w.tokens| && w.tokens[root].parent.None? && TokenShape(|w.stripes|, w.tokens[root])
    && w.tokens[root].epochs[i] == w.stripes[i].epoch
    && w.tokens[root].policies[i] == PolicyOf(c, w.stripes[i], w.tokens[root].selector)
  }

  /** Only a writer of a fill that no purge and no invalidation has overtaken can publish. */
  lemma PublisherIsLive(c: Config, w: World, id: nat)
    requires Inv(c, w) && CanPublish(c, w, id)
    ensures LiveRoot(c, w, w.writers[id].root, w.writers[id].stripe)
  {
    assert WriterInv(w.tokens, |w.stripes|, w.writers[id]);
  }

  lemma RefresherIsLive(c: Config, w: World, t: nat, i: nat)
    requires Inv(c, w) && t < |w.tokens| && i < |w.stripes| && EpochsOk(c, w.stripes, w.tokens[t])
    ensures LiveRoot(c, w, w.tokens[t].root, i)
  {
    assert TokenInv(w.tokens, |w.stripes|, t);
  }

  predicate Bulk(step: Step) { step.Purge? || step.Invalidate? || step.Replace? }

  /** A step on all stripes only takes entries away, and claims too, but for the one of a replacing writer. */
  lemma BulkOrigin(c: Config, w: World, step: Step, i: nat, k: Name)
    requires Inv(c, w) && Enabled(c, w, step) && Bulk(step) && i < |w.stripes| == |Apply(c, w, step).stripes|
    ensures
      var s, s' := w.stripes[i], Apply(c, w, step).stripes[i];
      && (k in s'.heads ==> k in s.heads && s'.heads[k] == s.heads[k])
      && (k in s'.lost ==> k in s.lost && s'.lost[k] == s.lost[k])
      && (k in s'.open && !(step.Replace? && k == step.key) ==> k in s.open && s'.open[k] == s.open[k])
      && (k in s'.heads && k in s.index ==> k in s'.index)
      && (k in s'.lost && k in s'.index ==> k in s.index)
  {
  }

  /** A head is there because it or its body was there before, because a live fill stored it, or because a lost one has come back. */
  lemma HeadOrigin(c: Config, w: World, step: Step, i: nat, k: Name)
    requires Inv(c, w) && Enabled(c, w, step) && i < |w.stripes|
    requires |Apply(c, w, step).stripes| == |w.stripes| && k in Apply(c, w, step).stripes[i].heads
    ensures
      var h, s := Apply(c, w, step).stripes[i].heads[k], w.stripes[i];
      || (k in s.heads && h == s.heads[k])
      || (step.Publish? && LiveRoot(c, w, h.root, i))
      || (step.Refresh? && LiveRoot(c, w, w.tokens[step.token].root, i)
          && k in s.index && EntryOf(s, k).Some? && h == EntryOf(s, k).value.(commit := w.commits))
      || (step == PutBack(i, k) && k in s.lost && s.lost[k].epoch == s.epoch && h == s.lost[k].head.(commit := w.commits))
  {
    if Bulk(step) {
      BulkOrigin(c, w, step, i, k);
    } else if step.Publish? && i == w.writers[step.writer].stripe && k == w.writers[step.writer].key {
      PublisherIsLive(c, w, step.writer);
    } else if step.Refresh? && i == step.stripe && k == step.key {
      RefreshedIsIndexed(c, w, step);
      RefresherIsLive(c, w, step.token, i);
    }
  }

  lemma RefreshedIsIndexed(c: Config, w: World, step: Step)
    requires Inv(c, w) && step.Refresh? && Enabled(c, w, step)
    ensures step.key in w.stripes[step.stripe].index
  {
    assert w.tokens[step.token].snapshot[step.stripe] == SnapshotOf(w.stripes[step.stripe], w.tokens[step.token].selector);
  }

  /** A lost head was lost before or was readable until now. */
  lemma LostOrigin(c: Config, w: World, step: Step, i: nat, k: Name)
    requires Inv(c, w) && Enabled(c, w, step) && i < |w.stripes|
    requires |Apply(c, w, step).stripes| == |w.stripes| && k in Apply(c, w, step).stripes[i].lost
    ensures
      var l, s := Apply(c, w, step).stripes[i].lost[k], w.stripes[i];
      && ((k in s.lost && l == s.lost[k]) || (k in s.heads && l == Lost(s.heads[k], s.epoch)))
      && (k in Apply(c, w, step).stripes[i].index ==> k in s.index)
  {
    if Bulk(step) {
      BulkOrigin(c, w, step, i, k);
    }
  }

  lemma NewClaim(c: Config, w: World, step: Step, i: nat)
    requires Inv(c, w) && (step.Open? || step.Replace?) && Enabled(c, w, step) && i < |w.stripes|
    requires |Apply(c, w, step).stripes| == |w.stripes| && step.key in Apply(c, w, step).stripes[i].open
    ensures
      var w', k := Apply(c, w, step), step.key;
      var id := w'.stripes[i].open[k];
      || (k in w.stripes[i].open && id == w.stripes[i].open[k])
      || (id < |w'.writers| && LiveRoot(c, w, w'.writers[id].root, i))
  {
    var w' := Apply(c, w, step);
    if i == c.place(step.key) {
      BoundInv(c, w, step.token, i, step.key);
      assert w'.writers[|w.writers|] == Bound(w.tokens[step.token], i, step.key);
    }
  }

  /** A claim was there before or is the one of a live fill. */
  lemma ClaimOrigin(c: Config, w: World, step: Step, i: nat, k: Name)
    requires Inv(c, w) && Enabled(c, w, step) && i < |w.stripes|
    requires |Apply(c, w, step).stripes| == |w.stripes| && k in Apply(c, w, step).stripes[i].open
    ensures
      var w' := Apply(c, w, step);
      var id := w'.stripes[i].open[k];
      || (k in w.stripes[i].open && id == w.stripes[i].open[k])
      || (id < |w'.writers| && LiveRoot(c, w, w'.writers[id].root, i))
  {
    if (step.Open? || step.Replace?) && k == step.key {
      NewClaim(c, w, step, i);
    } else if Bulk(step) {
      BulkOrigin(c, w, step, i, k);
    } else {
      SingleClaims(c, w, step, i, k);
    }
  }

  lemma SingleClaims(c: Config, w: World, step: Step, i: nat, k: Name)
    requires Inv(c, w) && Enabled(c, w, step) && !Bulk(step) && (step.Open? ==> k != step.key) && i < |w.stripes|
    requires |Apply(c, w, step).stripes| == |w.stripes| && k in Apply(c, w, step).stripes[i].open
    ensures k in w.stripes[i].open && Apply(c, w, step).stripes[i].open[k] == w.stripes[i].open[k]
  {
  }

  lemma FencedStays(w: World, w': World, n: nat)
    requires Fenced(w, n) && n <= |w.tokens| && WorldLater(w, w')
    ensures Fenced(w', n)
  {
  }

  lemma PolicyFencedStays(c: Config, w: World, w': World, n: nat, q: nat)
    requires q < SLOTS && StripesOk(w.stripes) && StripesOk(w'.stripes)
    requires PolicyFenced(c, w, n, q) && n <= |w.tokens| && WorldLater(w, w')
    ensures PolicyFenced(c, w', n, q)
  {
  }

  lemma CleanStays(c: Config, w: World, step: Step, n: nat, selector: Name, prefix: bool)
    requires Inv(c, w) && Enabled(c, w, step) && n <= |w.tokens| && Fenced(w, n)
    requires Clean(w, n, selector, prefix) && NoOldLost(w, n, selector, prefix)
    ensures Clean(Apply(c, w, step), n, selector, prefix)
  {
    var w' := Apply(c, w, step);
    StepLater(c, w, step);
    forall i, k | 0 <= i < |w'.stripes| && k in w'.stripes[i].heads && Matches(selector, prefix, w'.stripes[i].heads[k].selector)
      ensures w'.stripes[i].heads[k].root >= n
    {
      HeadOrigin(c, w, step, i, k);
    }
  }

  lemma NoOldLostStays(c: Config, w: World, step: Step, n: nat, selector: Name, prefix: bool)
    requires Inv(c, w) && Enabled(c, w, step) && Clean(w, n, selector, prefix) && NoOldLost(w, n, selector, prefix)
    ensures NoOldLost(Apply(c, w, step), n, selector, prefix)
  {
    var w' := Apply(c, w, step);
    StepLater(c, w, step);
    forall i, k | 0 <= i < |w'.stripes| && MayReturn(w'.stripes[i], k) && Matches(selector, prefix, w'.stripes[i].lost[k].head.selector)
      ensures w'.stripes[i].lost[k].head.root >= n
    {
      LostOrigin(c, w, step, i, k);
      assert StripeInv(w.stripes[i], i, w) && StripeLater(w.stripes[i], w'.stripes[i]);
    }
  }

  lemma NoOldClaimsStays(c: Config, w: World, step: Step, n: nat, selector: Name, prefix: bool)
    requires Inv(c, w) && Enabled(c, w, step) && n <= |w.tokens| && Fenced(w, n) && NoOldClaims(w, n, selector, prefix)
    ensures NoOldClaims(Apply(c, w, step), n, selector, prefix)
  {
    var w' := Apply(c, w, step);
    StepLater(c, w, step);
    forall i, k | 0 <= i < |w'.stripes| && k in w'.stripes[i].open && w'.stripes[i].open[k] < |w'.writers|
      && Matches(selector, prefix, w'.writers[w'.stripes[i].open[k]].selector) && w'.writers[w'.stripes[i].open[k]].root < n
      ensures w'.stripes[i].open[k] in w'.failed
    {
      ClaimOrigin(c, w, step, i, k);
      if k in w.stripes[i].open && w'.stripes[i].open[k] == w.stripes[i].open[k] {
        assert ClaimInv(w.stripes[i], i, k, w.stripes[i].open[k], w);
      }
    }
  }

  // ---------------------------------------------------- heads in the index

  /** An entry is put back whose identity the index has dropped. */
  predicate Strays(w: World, step: Step) {
    step.PutBack? && step.stripe < |w.stripes| && step.key !in w.stripes[step.stripe].index
  }

  /** A step takes a readable object out of the index exactly if it puts one back that was dropped from it. */
  lemma IndexedExactly(c: Config, w: World, step: Step)
    requires Inv(c, w) && Enabled(c, w, step) && Indexed(w)
    ensures Indexed(Apply(c, w, step)) <==> !Strays(w, step)
  {
    var w' := Apply(c, w, step);
    if Strays(w, step) {
      assert step.key in w'.stripes[step.stripe].heads && step.key !in w'.stripes[step.stripe].index;
    } else {
      StepLater(c, w, step);
      forall i, k | 0 <= i < |w'.stripes| && k in w'.stripes[i].heads
        ensures k in w'.stripes[i].index
      {
        StaysIndexed(c, w, step, i, k);
      }
    }
  }

  lemma StaysIndexed(c: Config, w: World, step: Step, i: nat, k: Name)
    requires Inv(c, w) && Enabled(c, w, step) && Indexed(w) && !Strays(w, step)
    requires i < |w.stripes| == |Apply(c, w, step).stripes| && k in Apply(c, w, step).stripes[i].heads
    ensures k in Apply(c, w, step).stripes[i].index
  {
    if Bulk(step) {
      BulkOrigin(c, w, step, i, k);
    } else if step.Abort? {
      AbortIndexed(c, w, step.writer, i, k);
    } else {
      SingleIndexed(c, w, step, i, k);
    }
  }

  lemma AbortIndexed(c: Config, w: World, id: nat, i: nat, k: Name)
    requires Inv(c, w) && Indexed(w) && Enabled(c, w, Abort(id)) && i < |w.stripes| && k in w.stripes[i].heads
    ensures |Aborted(w, id).stripes| == |w.stripes| && k in Aborted(w, id).stripes[i].index
  {
    if k in w.stripes[i].open {
      assert ClaimInv(w.stripes[i], i, k, w.stripes[i].open[k], w);
    }
  }

  lemma SingleIndexed(c: Config, w: World, step: Step, i: nat, k: Name)
    requires Inv(c, w) && Enabled(c, w, step) && Indexed(w) && !Strays(w, step) && !Bulk(step) && !step.Abort?
    requires i < |w.stripes| == |Apply(c, w, step).stripes| && k in Apply(c, w, step).stripes[i].heads
    ensures k in Apply(c, w, step).stripes[i].index
  {
  }

  /** No step of the run strays. */
  predicate InPlace(c: Config, w: World, steps: seq<Step>)
    requires Inv(c, w) && Allowed(c, w, steps)
    decreases |steps|
  {
    steps == [] || (!Strays(w, steps[0]) && (StepKeeps(c, w, steps[0]); InPlace(c, Apply(c, w, steps[0]), steps[1..])))
  }

  lemma {:induction false} RunKeepsIndexed(c: Config, w: World, steps: seq<Step>)
    requires Inv(c, w) && Allowed(c, w, steps) && Indexed(w) && InPlace(c, w, steps)
    ensures Indexed(Exec(c, w, steps))
    decreases |steps|
  {
    if steps != [] {
      StepKeeps(c, w, steps[0]);
      IndexedExactly(c, w, steps[0]);
      RunKeepsIndexed(c, Apply(c, w, steps[0]), steps[1..]);
    }
  }

  // ------------------------------------------------------------ main results

  lemma {:induction false} RunKeepsPurged(c: Config, w: World, steps: seq<Step>, n: nat, selector: Name, prefix: bool)
    requires Inv(c, w) && Allowed(c, w, steps) && n <= |w.tokens| && Fenced(w, n) && Purged(w, n, selector, prefix)
    ensures
      var w' := Exec(c, w, steps);
      Inv(c, w') && WorldLater(w, w') && Fenced(w', n) && Purged(w', n, selector, prefix)
    decreases |steps|
  {
    if steps != [] {
      var w1 := Apply(c, w, steps[0]);
      StepKeeps(c, w, steps[0]);
      StepLater(c, w, steps[0]);
      FencedStays(w, w1, n);
      CleanStays(c, w, steps[0], n, selector, prefix);
      NoOldLostStays(c, w, steps[0], n, selector, prefix);
      NoOldClaimsStays(c, w, steps[0], n, selector, prefix);
      RunKeepsPurged(c, w1, steps[1..], n, selector, prefix);
    }
  }

  /** Every readable object of a matching selector is in the index. */
  predicate MatchesIndexed(w: World, selector: Name, prefix: bool) {
    forall i, k | 0 <= i < |w.stripes| && k in w.stripes[i].heads && Matches(selector, prefix, w.stripes[i].heads[k].selector) ::
      k in w.stripes[i].index
  }

  /** A purge fences off all earlier fills, and nothing of theirs can be put back or followed afterwards. */
  lemma PurgeFences(c: Config, w: World, selector: Name, prefix: bool)
    requires Inv(c, w) && Enabled(c, w, Purge(selector, prefix))
    ensures
      var w', n := Apply(c, w, Purge(selector, prefix)), |w.tokens|;
      Fenced(w', n) && NoOldLost(w', n, selector, prefix) && NoOldClaims(w', n, selector, prefix)
  {
    var w' := Apply(c, w, Purge(selector, prefix));
    forall t, i | 0 <= t < |w'.tokens| && 0 <= i < |w'.stripes| && i < |w'.tokens[t].epochs|
      ensures w'.tokens[t].epochs[i] < w'.stripes[i].epoch
    {
      assert Behind(c, w.stripes, w.tokens[t]);
    }
    forall i, k | 0 <= i < |w'.stripes| && k in w'.stripes[i].lost
      ensures w'.stripes[i].lost[k].epoch < w'.stripes[i].epoch
    {
      assert StripeInv(w.stripes[i], i, w);
    }
    forall i, k | 0 <= i < |w'.stripes| && k in w'.stripes[i].open && Matches(selector, prefix, w'.writers[w'.stripes[i].open[k]].selector)
      ensures w'.stripes[i].open[k] in w'.failed
    {
      assert ClaimInv(w.stripes[i], i, k, w.stripes[i].open[k], w);
      assert k !in Matching(w.stripes[i], selector, prefix);
    }
  }

  /** It leaves nothing readable exactly if everything readable under a matching selector was in the index. */
  lemma PurgeCleansExactly(c: Config, w: World, selector: Name, prefix: bool)
    requires Inv(c, w) && Enabled(c, w, Purge(selector, prefix))
    ensures
      var w' := Apply(c, w, Purge(selector, prefix));
      Clean(w', |w.tokens|, selector, prefix) <==> MatchesIndexed(w, selector, prefix)
  {
    var w' := Apply(c, w, Purge(selector, prefix));
    if MatchesIndexed(w, selector, prefix) {
      forall i, k | 0 <= i < |w'.stripes| && k in w'.stripes[i].heads
        ensures !Matches(selector, prefix, w'.stripes[i].heads[k].selector)
      {
        assert EntryInv(w.stripes[i], k, w.stripes[i].heads[k], w);
        assert k in w.stripes[i].heads && k !in Matching(w.stripes[i], selector, prefix);
      }
    } else {
      var i, k :| 0 <= i < |w.stripes| && k in w.stripes[i].heads
        && Matches(selector, prefix, w.stripes[i].heads[k].selector) && k !in w.stripes[i].index;
      assert EntryInv(w.stripes[i], k, w.stripes[i].heads[k], w);
      assert k in w'.stripes[i].heads && w'.stripes[i].heads[k] == w.stripes[i].heads[k];
    }
  }

  /**
   After a purge that found everything readable in the index, and whatever
   happens later: no fill that began before it can publish, on any stripe,
   whatever is readable under a matching selector was stored by a fill that began
   after it, and so is whatever a reader could follow.
   */
  lemma PurgeHolds(c: Config, w: World, selector: Name, prefix: bool, steps: seq<Step>)
    requires Inv(c, w) && MatchesIndexed(w, selector, prefix) && Enabled(c, w, Purge(selector, prefix))
    requires Inv(c, Apply(c, w, Purge(selector, prefix))) && Allowed(c, Apply(c, w, Purge(selector, prefix)), steps)
    ensures
      var w' := Exec(c, Apply(c, w, Purge(selector, prefix)), steps);
      && Inv(c, w') && Clean(w', |w.tokens|, selector, prefix) && NoOldClaims(w', |w.tokens|, selector, prefix)
      && forall id | 0 <= id < |w'.writers| && w'.writers[id].root < |w.tokens| :: !CanPublish(c, w', id)
  {
    var w1 := Apply(c, w, Purge(selector, prefix));
    PurgeFences(c, w, selector, prefix);
    PurgeCleansExactly(c, w, selector, prefix);
    RunKeepsPurged(c, w1, steps, |w.tokens|, selector, prefix);
    var w' := Exec(c, w1, steps);
    forall id | 0 <= id < |w'.writers| && CanPublish(c, w', id)
      ensures w'.writers[id].root >= |w.tokens|
    {
      PublisherIsLive(c, w', id);
    }
  }

  /** From a new cache on: a purge holds if up to it no entry was put back whose identity had been dropped. */
  lemma PurgeHoldsFromStart(c: Config, w0: World, before: seq<Step>, selector: Name, prefix: bool, steps: seq<Step>)
    requires Fresh(w0) && Inv(c, w0) && Allowed(c, w0, before) && InPlace(c, w0, before)
    requires Enabled(c, Exec(c, w0, before), Purge(selector, prefix))
    requires Inv(c, Apply(c, Exec(c, w0, before), Purge(selector, prefix)))
    requires Allowed(c, Apply(c, Exec(c, w0, before), Purge(selector, prefix)), steps)
    ensures
      var w := Exec(c, w0, before);
      var w' := Exec(c, Apply(c, w, Purge(selector, prefix)), steps);
      Clean(w', |w.tokens|, selector, prefix) && NoOldClaims(w', |w.tokens|, selector, prefix)
  {
    FreshInv(c, w0);
    RunKeepsIndexed(c, w0, before);
    PurgeHolds(c, Exec(c, w0, before), selector, prefix, steps);
  }

  /** The steps are possible one after the other and lead from `w` to `w'`. */
  ghost predicate Leads(c: Config, w: World, steps: seq<Step>, w': World) {
    Inv(c, w) && Allowed(c, w, steps) && Exec(c, w, steps) == w'
  }

  lemma LeadsFirst(c: Config, w: World, step: Step, steps: seq<Step>, w': World)
    requires Inv(c, w) && Enabled(c, w, step) && Leads(c, Apply(c, w, step), steps, w')
    ensures Leads(c, w, [step] + steps, w')
  {
    assert ([step] + steps)[1..] == steps;
  }

  lemma LeadsTwo(c: Config, w: World, step1: Step, step2: Step) returns (w': World)
    requires Inv(c, w) && Enabled(c, w, step1) && StripesOk(Apply(c, w, step1).stripes) && Enabled(c, Apply(c, w, step1), step2)
    ensures w' == Apply(c, Apply(c, w, step1), step2) && Inv(c, w') && Leads(c, w, [step1, step2], w')
  {
    StepKeeps(c, w, step1);
    var w1 := Apply(c, w, step1);
    StepKeeps(c, w1, step2);
    w' := Apply(c, w1, step2);
    assert Leads(c, w', [], w');
    LeadsFirst(c, w1, step2, [], w');
    LeadsFirst(c, w, step1, [step2] + [], w');
    assert [step1] + ([step2] + []) == [step1, step2];
  }

  lemma LeadsRest(c: Config, w: World, steps: seq<Step>, w': World)
    requires Leads(c, w, steps, w') && steps != []
    ensures Enabled(c, w, steps[0]) && Leads(c, Apply(c, w, steps[0]), steps[1..], w')
  {
    StepKeeps(c, w, steps[0]);
  }

  lemma {:induction false} LeadsOn(c: Config, w: World, steps1: seq<Step>, w1: World, steps2: seq<Step>, w2: World)
    requires Leads(c, w, steps1, w1) && Leads(c, w1, steps2, w2)
    ensures Leads(c, w, steps1 + steps2, w2)
    decreases |steps1|
  {
    if steps1 == [] {
      assert steps1 + steps2 == steps2;
    } else {
      var step, rest := steps1[0], steps1[1..];
      LeadsRest(c, w, steps1, w1);
      LeadsOn(c, Apply(c, w, step), rest, w1, steps2, w2);
      LeadsFirst(c, w, step, rest + steps2, w2);
      assert [step] + (rest + steps2) == steps1 + steps2;
    }
  }

  /** Any entry that strays stays readable through a purge of its own selector. */
  lemma StrayEscapesPurge(c: Config, w: World, i: nat, key: Name) returns (w': World)
    requires Inv(c, w) && Enabled(c, w, PutBack(i, key)) && Strays(w, PutBack(i, key))
    requires Enabled(c, w, Purge(w.stripes[i].lost[key].head.selector, false))
    ensures
      var selector := w.stripes[i].lost[key].head.selector;
      && Leads(c, w, [PutBack(i, key), Purge(selector, false)], w')
      && |w'.stripes| == |w.stripes| && key in w'.stripes[i].heads && w'.stripes[i].heads[key].selector == selector
      && w'.stripes[i].heads[key].root < |w.tokens| && !Clean(w', |w.tokens|, selector, false)
  {
    var w1, selector := Apply(c, w, PutBack(i, key)), w.stripes[i].lost[key].head.selector;
    PutBackKeeps(c, w, i, key);
    assert key in w1.stripes[i].heads && key !in w1.stripes[i].index && w1.stripes[i].heads[key].selector == selector;
    w' := LeadsTwo(c, w, PutBack(i, key), Purge(selector, false));
    PurgeCleansExactly(c, w1, selector, false);
    assert EntryInv(w.stripes[i], key, w.stripes[i].lost[key].head, w);
  }

  /** A head whose bytes are gone is dropped from a full index. */
  lemma LosesIdentity(c: Config, w: World, i: nat, key: Name, t: nat, other: Name) returns (w2: World)
    requires Inv(c, w) && i < |w.stripes| && key in w.stripes[i].heads && key !in w.stripes[i].open
    requires t < |w.tokens| && CanOpen(c, w, w.tokens[t], other) && c.place(other) == i && other != key
    ensures Leads(c, w, [Lose(i, {key}, false), Open(t, other, true)], w2) && Inv(c, w2)
    ensures |w2.stripes| == |w.stripes| && w2.tokens == w.tokens && key !in w2.stripes[i].index
    ensures key in w2.stripes[i].lost && w2.stripes[i].lost[key] == Lost(w.stripes[i].heads[key], w2.stripes[i].epoch)
    ensures forall j | 0 <= j < |w.stripes| :: w2.stripes[j].closing == w.stripes[j].closing
  {
    var w1 := Apply(c, w, Lose(i, {key}, false));
    assert Current(c, w1.stripes[i], Bound(w.tokens[t], i, other));
    w2 := LeadsTwo(c, w, Lose(i, {key}, false), Open(t, other, true));
    var s1, s2 := w1.stripes[i], w2.stripes[i];
    assert s1.lost[key] == Lost(w.stripes[i].heads[key], w.stripes[i].epoch) && key !in s1.heads && key !in s1.open;
    assert s2 == Claimed(s1, other, w.tokens[t].selector, |w.writers|, true);
  }

  /**
   This happens to any readable object: its bytes are overwritten, a writer of
   another key on the stripe finds the index full, and the entry is put back.
   The purge that follows does not reach it.
   */
  lemma StrayRun(c: Config, w: World, i: nat, key: Name, t: nat, other: Name) returns (w': World)
    requires Inv(c, w) && i < |w.stripes| && key in w.stripes[i].heads && key !in w.stripes[i].open
    requires t < |w.tokens| && CanOpen(c, w, w.tokens[t], other) && c.place(other) == i && other != key
    requires forall j | 0 <= j < |w.stripes| :: !w.stripes[j].closing
    ensures
      var selector := w.stripes[i].heads[key].selector;
      && Leads(c, w, [Lose(i, {key}, false), Open(t, other, true), PutBack(i, key), Purge(selector, false)], w')
      && i < |w'.stripes| && key in w'.stripes[i].heads && w'.stripes[i].heads[key].selector == selector
      && w'.stripes[i].heads[key].root < |w.tokens| && !Clean(w', |w.tokens|, selector, false)
  {
    var selector := w.stripes[i].heads[key].selector;
    var w2 := LosesIdentity(c, w, i, key, t, other);
    w' := StrayEscapesPurge(c, w2, i, key);
    LeadsOn(c, w, [Lose(i, {key}, false), Open(t, other, true)], w2, [PutBack(i, key), Purge(selector, false)], w');
    assert [Lose(i, {key}, false), Open(t, other, true)] + [PutBack(i, key), Purge(selector, false)]
        == [Lose(i, {key}, false), Open(t, other, true), PutBack(i, key), Purge(selector, false)];
  }

  /** Any key that nobody is writing can be claimed by a new fill. */
  lemma FillOpens(c: Config, w: World, key: Name, selector: Name) returns (w2: World)
    requires Inv(c, w) && c.place(key) < |w.stripes| && key !in w.stripes[c.place(key)].open
    requires forall j | 0 <= j < |w.stripes| :: !w.stripes[j].closing
    ensures
      var t, id, i := |w.tokens|, |w.writers|, c.place(key);
      && Leads(c, w, [Begin(selector), Open(t, key, false)], w2) && Inv(c, w2)
      && w2.tokens == w.tokens + [TokenFor(c, w.stripes, selector, t)] && w2.writers == w.writers + [Bound(w2.tokens[t], i, key)]
      && w2.stripes == w.stripes[i := Claimed(w.stripes[i], key, selector, id, false)]
      && w2.finished == w.finished && w2.commits == w.commits
  {
    var t := |w.tokens|;
    var w1 := Apply(c, w, Begin(selector));
    assert CanClaim(c, w1.stripes, w1.tokens[t], key);
    w2 := LeadsTwo(c, w, Begin(selector), Open(t, key, false));
  }

  /** A writer that nothing has overtaken publishes and lets go of its key. */
  lemma WriterStores(c: Config, w: World, id: nat) returns (w': World)
    requires Inv(c, w) && CanPublish(c, w, id)
    ensures
      var wr := w.writers[id];
      var s := w.stripes[wr.stripe];
      && Leads(c, w, [Publish(id), Release(id)], w') && Inv(c, w')
      && w'.tokens == w.tokens && w'.stripes == w.stripes[wr.stripe :=
           Reset(s, wr.key, Head(wr.selector, w.commits, wr.root)).(index := s.index[wr.key := wr.selector], open := s.open - {wr.key})]
  {
    w' := LeadsTwo(c, w, Publish(id), Release(id));
  }

  /** The stripe on which a fill has stored a key. */
  function Filled(s: Stripe, key: Name, h: Head): Stripe {
    s.(index := s.index[key := h.selector], heads := s.heads[key := h], lost := s.lost - {key})
  }

  lemma ClaimAndStore(s: Stripe, key: Name, h: Head, id: nat)
    requires key !in s.open
    ensures
      var claimed := Claimed(s, key, h.selector, id, false);
      Reset(claimed, key, h).(index := claimed.index[key := h.selector], open := claimed.open - {key}) == Filled(s, key, h)
  {
    var claimed := Claimed(s, key, h.selector, id, false);
    assert claimed.open - {key} == s.open;
    assert (s.heads - {key})[key := h] == s.heads[key := h];
    assert s.lost - {key} - {key} == s.lost - {key};
    assert s.index[key := h.selector][key := h.selector] == s.index[key := h.selector];
  }

  /** Any key that nobody is writing can be filled; the token stays good for other keys. */
  lemma FillStores(c: Config, w: World, key: Name, selector: Name) returns (w': World)
    requires Inv(c, w) && c.place(key) < |w.stripes| && key !in w.stripes[c.place(key)].open
    requires forall j | 0 <= j < |w.stripes| :: !w.stripes[j].closing
    ensures
      var t, id := |w.tokens|, |w.writers|;
      && Leads(c, w, [Begin(selector), Open(t, key, false), Publish(id), Release(id)], w') && Inv(c, w')
      && w'.stripes == w.stripes[c.place(key) := Filled(w.stripes[c.place(key)], key, Head(selector, w.commits, t))]
      && |w'.tokens| == t + 1
      && forall other | c.place(other) == c.place(key) && other !in w.stripes[c.place(key)].open :: CanOpen(c, w', w'.tokens[t], other)
  {
    var t, id, i := |w.tokens|, |w.writers|, c.place(key);
    var w2 := FillOpens(c, w, key, selector);
    assert id !in w2.finished && w2.stripes[i].open[key] == id;
    w' := WriterStores(c, w2, id);
    ClaimAndStore(w.stripes[i], key, Head(selector, w.commits, t), id);
    assert w'.stripes == w.stripes[i := w'.stripes[i]];
    LeadsOn(c, w, [Begin(selector), Open(t, key, false)], w2, [Publish(id), Release(id)], w');
    assert [Begin(selector), Open(t, key, false)] + [Publish(id), Release(id)]
        == [Begin(selector), Open(t, key, false), Publish(id), Release(id)];
  }

  const OneStripe := Config(_ => 0, _ => 0)

  const EmptyCache := World([Stripe(0, seq(SLOTS, _ => 0), 0, false, map[], map[], map[], map[])], [], [], {}, {}, 0)

  function Names(pages: seq<Name>): set<Name> { set p | p in pages }

  /** A stripe that holds exactly these pages and is idle. */
  predicate Holds(s: Stripe, pages: seq<Name>) {
    && !s.closing && s.open == map[] && s.index.Keys == s.heads.Keys == Names(pages)
    && forall p | p in s.heads :: s.heads[p].selector == p
  }

  lemma HoldsOneMore(s: Stripe, pages: seq<Name>, page: Name, h: Head)
    requires Holds(s, pages) && h.selector == page
    ensures Holds(Filled(s, page, h), pages + [page])
  {
    var s' := Filled(s, page, h);
    assert s'.index.Keys == s.index.Keys + {page} && s'.heads.Keys == s.heads.Keys + {page};
    assert Names(pages + [page]) == Names(pages) + {page};
  }

  lemma FillOneMore(w0: World, pages: seq<Name>, page: Name, other: Name) returns (steps: seq<Step>, w: World)
    requires Inv(OneStripe, w0) && |w0.stripes| == 1 && Holds(w0.stripes[0], pages)
    ensures Leads(OneStripe, w0, steps, w) && Inv(OneStripe, w) && |w.stripes| == 1 && Holds(w.stripes[0], pages + [page])
    ensures |w.tokens| > 0 && StripesOk(w.stripes) && CanOpen(OneStripe, w, w.tokens[|w.tokens| - 1], other)
  {
    w := FillStores(OneStripe, w0, page, page);
    steps := [Begin(page), Open(|w0.tokens|, page, false), Publish(|w0.writers|), Release(|w0.writers|)];
    HoldsOneMore(w0.stripes[0], pages, page, Head(page, w0.commits, |w0.tokens|));
    assert OneStripe.place(other) == 0;
  }

  /** A new cache is filled with any pages, one after the other. */
  lemma {:induction false} FillAll(pages: seq<Name>, other: Name) returns (steps: seq<Step>, w: World)
    ensures Leads(OneStripe, EmptyCache, steps, w) && Inv(OneStripe, w) && |w.stripes| == 1 && Holds(w.stripes[0], pages)
    ensures pages != [] ==> |w.tokens| > 0 && CanOpen(OneStripe, w, w.tokens[|w.tokens| - 1], other)
  {
    if pages == [] {
      FreshInv(OneStripe, EmptyCache);
      steps, w := [], EmptyCache;
    } else {
      var init, page := pages[..|pages| - 1], pages[|pages| - 1];
      var before, w0 := FillAll(init, other);
      var more;
      more, w := FillOneMore(w0, init, page, other);
      LeadsOn(OneStripe, EmptyCache, before, w0, more, w);
      steps := before + more;
      assert init + [page] == pages;
    }
  }

  /**
   The whole run on a new cache with one stripe, whatever number of keys its index
   holds: it is filled with pages, one more is written, and the first page is
   purged and can still be read.
   */
  lemma StrayRunIsReachable(pages: seq<Name>, other: Name) returns (steps: seq<Step>, w1: World, t: nat, w': World)
    requires pages != [] && other !in pages
    ensures
      && Fresh(EmptyCache) && Leads(OneStripe, EmptyCache, steps, w1)
      && |w1.stripes| == 1 && w1.stripes[0].index.Keys == Names(pages)
      && Leads(OneStripe, w1, [Lose(0, {pages[0]}, false), Open(t, other, true), PutBack(0, pages[0]), Purge(pages[0], false)], w')
      && |w'.stripes| > 0 && pages[0] in w'.stripes[0].heads && w'.stripes[0].heads[pages[0]].selector == pages[0]
  {
    steps, w1 := FillAll(pages, other);
    t := |w1.tokens| - 1;
    assert pages[0] in pages;
    w' := StrayRun(OneStripe, w1, 0, pages[0], t, other);
  }

  lemma {:induction false} RunKeepsPolicy(c: Config, w: World, steps: seq<Step>, n: nat, q: nat)
    requires Inv(c, w) && Allowed(c, w, steps) && n <= |w.tokens| && q < SLOTS && PolicyFenced(c, w, n, q)
    ensures var w' := Exec(c, w, steps); Inv(c, w') && WorldLater(w, w') && PolicyFenced(c, w', n, q)
    decreases |steps|
  {
    if steps != [] {
      var w1 := Apply(c, w, steps[0]);
      StepKeeps(c, w, steps[0]);
      StepLater(c, w, steps[0]);
      PolicyFencedStays(c, w, w1, n, q);
      RunKeepsPolicy(c, w1, steps[1..], n, q);
    }
  }

  lemma InvalidateFences(c: Config, w: World, t: nat, removed: seq<set<Name>>)
    requires Inv(c, w) && Enabled(c, w, Invalidate(t, removed))
    ensures
      var w' := Apply(c, w, Invalidate(t, removed));
      StripesOk(w'.stripes) && PolicyFenced(c, w', |w.tokens|, Slot(c, w.tokens[t].selector))
  {
    var w', q := Apply(c, w, Invalidate(t, removed)), Slot(c, w.tokens[t].selector);
    forall d, i | 0 <= d < |w'.tokens| && Slot(c, w'.tokens[d].selector) == q && 0 <= i < |w'.stripes| && i < |w'.tokens[d].policies|
      ensures w'.tokens[d].policies[i] < w'.stripes[i].policies[q]
    {
      assert Behind(c, w.stripes, w.tokens[d]);
    }
  }

  /** After an invalidation no earlier fill of a selector in the same slot can publish, whatever happens later. */
  lemma InvalidationHolds(c: Config, w: World, t: nat, removed: seq<set<Name>>, steps: seq<Step>)
    requires Inv(c, w) && Enabled(c, w, Invalidate(t, removed))
    requires Inv(c, Apply(c, w, Invalidate(t, removed))) && Allowed(c, Apply(c, w, Invalidate(t, removed)), steps)
    ensures
      var w' := Exec(c, Apply(c, w, Invalidate(t, removed)), steps);
      && Inv(c, w')
      && forall id | 0 <= id < |w'.writers| && w'.writers[id].root < |w.tokens|
           && Slot(c, w.tokens[w'.writers[id].root].selector) == Slot(c, w.tokens[t].selector) :: !CanPublish(c, w', id)
  {
    var w1, q := Apply(c, w, Invalidate(t, removed)), Slot(c, w.tokens[t].selector);
    InvalidateFences(c, w, t, removed);
    RunKeepsPolicy(c, w1, steps, |w.tokens|, q);
    var w' := Exec(c, w1, steps);
    forall id | 0 <= id < |w'.writers| && w'.writers[id].root < |w.tokens|
      && Slot(c, w.tokens[w'.writers[id].root].selector) == q
      ensures !CanPublish(c, w', id)
    {
      assert w'.tokens[w'.writers[id].root] == w.tokens[w'.writers[id].root];
      PolicyFenceBlocks(c, w', |w.tokens|, q, id);
    }
  }

  lemma PolicyFenceBlocks(c: Config, w: World, n: nat, q: nat, id: nat)
    requires Inv(c, w) && q < SLOTS && PolicyFenced(c, w, n, q)
    requires id < |w.writers| && w.writers[id].root < n && w.writers[id].root < |w.tokens|
    requires Slot(c, w.tokens[w.writers[id].root].selector) == q
    ensures !CanPublish(c, w, id)
  {
    if CanPublish(c, w, id) {
      PublisherIsLive(c, w, id);
      assert false;
    }
  }

  lemma {:induction false} RunKeeps(c: Config, w: World, steps: seq<Step>)
    requires Inv(c, w) && Allowed(c, w, steps)
    ensures var w' := Exec(c, w, steps); Inv(c, w') && WorldLater(w, w')
    decreases |steps|
  {
    if steps != [] {
      StepKeeps(c, w, steps[0]);
      StepLater(c, w, steps[0]);
      RunKeeps(c, Apply(c, w, steps[0]), steps[1..]);
    }
  }

  /**
   A writer of a token, derived or not, publishes only while the epoch and the
   policy of the original fill are the ones it captured before it asked the
   origin, however often the storage has wrapped in between.
   */
  lemma DerivedKeepsFence(c: Config, w: World, steps: seq<Step>, id: nat)
    requires Inv(c, w) && Allowed(c, w, steps) && CanPublish(c, Exec(c, w, steps), id)
    requires Exec(c, w, steps).writers[id].root < |w.tokens|
    ensures
      var w', wr := Exec(c, w, steps), Exec(c, w, steps).writers[id];
      var fill := w.tokens[wr.root];
      && wr.stripe < |w.stripes| == |w'.stripes| && TokenShape(|w.stripes|, fill)
      && w'.stripes[wr.stripe].epoch == fill.epochs[wr.stripe]
      && PolicyOf(c, w'.stripes[wr.stripe], fill.selector) == fill.policies[wr.stripe]
  {
    RunKeeps(c, w, steps);
    var w' := Exec(c, w, steps);
    PublisherIsLive(c, w', id);
    assert w'.tokens[w'.writers[id].root] == w.tokens[w'.writers[id].root];
  }

  /** A token is taken, for a fill or for a range object below one. */
  predicate Takes(c: Config, w: World, take: Step)
    requires StripesOk(w.stripes)
  {
    (take.Begin? || take.Derive?) && Enabled(c, w, take)
  }

  /** The new token remembers the keys of its selector as they are now. */
  lemma TakenToken(c: Config, w: World, take: Step, i: nat)
    requires Inv(c, w) && Takes(c, w, take) && i < |w.stripes|
    ensures
      var w1, t := Apply(c, w, take), |w.tokens|;
      && Inv(c, w1) && |w1.tokens| == t + 1 && TokenShape(|w.stripes|, w1.tokens[t])
      && var token := w1.tokens[t];
         && token.epochs[i] == w.stripes[i].epoch && token.wraps[i] == w.stripes[i].wraps
         && token.snapshot[i] == SnapshotOf(w.stripes[i], token.selector)
         && (token.ranges[i] == RangesOf(w.stripes[i], token.selector) || token.ranges[i] == map[])
  {
    StepKeeps(c, w, take);
  }

  /** An invalidation leaves alone every head that was published after its token was taken. */
  lemma NewerHeadSurvives(c: Config, w: World, take: Step, steps: seq<Step>, removed: seq<set<Name>>, i: nat, k: Name)
    requires Inv(c, w) && Takes(c, w, take) && Inv(c, Apply(c, w, take)) && Allowed(c, Apply(c, w, take), steps)
    requires
      var w', t := Exec(c, Apply(c, w, take), steps), |w.tokens|;
      && StripesOk(w'.stripes) && Enabled(c, w', Invalidate(t, removed))
      && i < |w'.stripes| && k in w'.stripes[i].heads && w'.stripes[i].heads[k].commit >= w.commits
    ensures
      var w', t := Exec(c, Apply(c, w, take), steps), |w.tokens|;
      k in Apply(c, w', Invalidate(t, removed)).stripes[i].heads
  {
    var w1, t := Apply(c, w, take), |w.tokens|;
    RunKeeps(c, w1, steps);
    var w' := Exec(c, w1, steps);
    TakenToken(c, w, take, i);
    assert w'.tokens[t] == w1.tokens[t];
    assert StripeInv(w.stripes[i], i, w);
    assert EntryOf(w.stripes[i], k).Some? ==> EntryInv(w.stripes[i], k, EntryOf(w.stripes[i], k).value, w);
    assert EntryOf(w'.stripes[i], k).Some? && MayRemove(w'.stripes[i], w'.tokens[t], i, removed[i]);
  }

  /**
   A replacing writer that is admitted, after any run since its token was taken,
   finds every representation of the selector as it was then: the same keys,
   the same publications, and no writer at work.
   */
  lemma ReplaceFindsSnapshot(c: Config, w: World, take: Step, steps: seq<Step>, key: Name, evict: bool, remove: set<Name>, i: nat, k: Name)
    requires Inv(c, w) && Takes(c, w, take) && Inv(c, Apply(c, w, take)) && Allowed(c, Apply(c, w, take), steps)
    requires Enabled(c, Exec(c, Apply(c, w, take), steps), Replace(|w.tokens|, key, evict, remove))
    requires i < |w.stripes|
    ensures
      var w', selector := Exec(c, Apply(c, w, take), steps), if take.Begin? then take.selector else take.key;
      && |w'.stripes| == |w.stripes| && w'.stripes[i].epoch == w.stripes[i].epoch && w'.stripes[i].wraps == w.stripes[i].wraps
      && ((k in w.stripes[i].index && w.stripes[i].index[k] == selector) <==> (k in w'.stripes[i].index && w'.stripes[i].index[k] == selector))
      && (k in w.stripes[i].index && w.stripes[i].index[k] == selector ==>
        ViewOf(w'.stripes[i], k) == ViewOf(w.stripes[i], k) && k !in w'.stripes[i].open)
  {
    var w1, t, selector := Apply(c, w, take), |w.tokens|, if take.Begin? then take.selector else take.key;
    RunKeeps(c, w1, steps);
    var w' := Exec(c, w1, steps);
    TakenToken(c, w, take, i);
    assert w'.tokens[t] == w1.tokens[t] && w1.tokens[t].selector == selector;
    var was, now := SnapshotOf(w.stripes[i], selector), SnapshotOf(w'.stripes[i], selector);
    assert was == w'.tokens[t].snapshot[i] == now;
    assert k in was <==> k in now;
  }
}
