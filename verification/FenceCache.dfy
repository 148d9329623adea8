/**
 The fence operations as the cache performs them: loops over the stripes under
 all stripe locks, each shown to be the step of the same name.
 */
module FenceCache {
  import opened Common
  import opened IdentityIndex
  import opened Fences

  const MAX_FILL_VARIANTS: nat := 64

  function Total(snapshots: seq<map<Name, View>>): nat {
    if snapshots == [] then 0 else Total(snapshots[..|snapshots| - 1]) + |snapshots[|snapshots| - 1]|
  }

  lemma {:induction false} TotalGrows(snapshots: seq<map<Name, View>>, i: nat)
    requires i <= |snapshots|
    ensures Total(snapshots[..i]) <= Total(snapshots)
    decreases |snapshots|
  {
    if i < |snapshots| {
      TotalGrows(snapshots[..|snapshots| - 1], i);
      assert snapshots[..|snapshots| - 1][..i] == snapshots[..i];
    } else {
      assert snapshots[..i] == snapshots;
    }
  }

  lemma TotalOneMore(heads: seq<map<Name, View>>, next: map<Name, View>)
    ensures Total(heads + [next]) == Total(heads) + |next|
  {
    assert (heads + [next])[..|heads|] == heads;
  }

  /** A part that is too large makes the whole too large. */
  lemma TotalTooLarge(heads: seq<map<Name, View>>, next: map<Name, View>, all: seq<map<Name, View>>)
    requires heads + [next] <= all
    ensures Total(all) >= Total(heads) + |next|
  {
    TotalOneMore(heads, next);
    TotalGrows(all, |heads| + 1);
    assert all[..|heads| + 1] == heads + [next];
  }

  /** Collect the keys stripe by stripe and stop when there are more than the limit. */
  method Limited(all: seq<map<Name, View>>) returns (r: Option<seq<map<Name, View>>>)
    ensures r == if Total(all) <= MAX_FILL_VARIANTS then Some(all) else None
  {
    var heads: seq<map<Name, View>> := [];
    var count := 0;
    for i := 0 to |all|
      invariant heads == all[..i] && count == Total(heads) <= MAX_FILL_VARIANTS
    {
      TotalOneMore(heads, all[i]);
      assert heads + [all[i]] == all[..i + 1];
      if |all[i]| > MAX_FILL_VARIANTS - count {
        TotalTooLarge(heads, all[i], all);
        return None;
      }
      heads := heads + [all[i]];
      count := count + |all[i]|;
    }
    assert all[..|all|] == all;
    return Some(heads);
  }

  /** What is remembered of a key: the number of its directory entry, valid or not, and its writer, if it is listed. */
  predicate RemembersKey(s: Stripe, m: map<Name, View>, k: Name, listed: bool) {
    && (k in m <==> listed)
    && (k in m ==> m[k] == View(
          if k in s.heads then Some(s.heads[k].commit) else if k in s.lost then Some(s.lost[k].head.commit) else None,
          if k in s.open then Some(s.open[k]) else None))
  }

  /**
   What a token remembers of a stripe: its epoch, its wraps, the policy epoch of
   the slot that the selector hashes to, and of every key indexed under the
   selector, or as a range manifest below it, the entry and the writer.
   */
  lemma TokenRemembers(c: Config, stripes: seq<Stripe>, selector: Name, root: nat, i: nat, k: Name)
    requires StripesOk(stripes) && i < |stripes|
    ensures
      var t, s := TokenFor(c, stripes, selector, root), stripes[i];
      && TokenShape(|stripes|, t) && t.selector == selector && t.root == root && t.parent == None
      && t.epochs[i] == s.epoch && t.wraps[i] == s.wraps && t.policies[i] == s.policies[c.hash(selector) % 1024]
      && RemembersKey(s, t.snapshot[i], k, k in s.index && s.index[k] == selector)
      && RemembersKey(s, t.ranges[i], k, k in s.index && selector + "\nrange:manifest:" <= s.index[k])
  {
  }

  /** What a derived token remembers: the epochs of its parent and the parent's policies, and of its own key as above, but no manifests. */
  lemma DerivedRemembers(c: Config, stripes: seq<Stripe>, parent: Token, key: Name, i: nat, k: Name)
    requires StripesOk(stripes) && i < |stripes| && TokenShape(|stripes|, parent)
    ensures
      var t, s := Derived(c, stripes, parent, key), stripes[i];
      && TokenShape(|stripes|, t) && t.selector == key && t.root == parent.root
      && t.parent == Some(Fence(parent.selector, parent.policies)) && t.epochs == parent.epochs
      && t.wraps[i] == s.wraps && t.policies[i] == s.policies[c.hash(key) % 1024]
      && RemembersKey(s, t.snapshot[i], k, k in s.index && s.index[k] == key) && t.ranges[i] == map[]
  {
  }

  predicate AnyClosing(stripes: seq<Stripe>) {
    exists i | 0 <= i < |stripes| :: stripes[i].closing
  }

  class Cache {
    const c: Config
    var stripes: seq<Stripe>

    ghost predicate Valid()
      reads this
    {
      StripesOk(stripes)
    }

    constructor (config: Config, initial: seq<Stripe>)
      requires StripesOk(initial)
      ensures Valid() && c == config && stripes == initial
    {
      c, stripes := config, initial;
    }

    /** The representations of the selector on every stripe, unless there are too many. */
    method FillSnapshot(selector: Name) returns (r: Option<seq<map<Name, View>>>)
      requires Valid()
      ensures
        var all := TokenFor(c, stripes, selector, 0).snapshot;
        r == if Total(all) <= MAX_FILL_VARIANTS then Some(all) else None
    {
      r := Limited(TokenFor(c, stripes, selector, 0).snapshot);
    }

    /** The same for the range manifests below the selector. */
    method RangeSnapshot(selector: Name) returns (r: Option<seq<map<Name, View>>>)
      requires Valid()
      ensures
        var all := TokenFor(c, stripes, selector, 0).ranges;
        r == if Total(all) <= MAX_FILL_VARIANTS then Some(all) else None
    {
      r := Limited(TokenFor(c, stripes, selector, 0).ranges);
    }

    /** The epochs, policies and wraps of every stripe, unless one is closing. */
    method Epochs(selector: Name) returns (ok: bool, epochs: seq<nat>, policies: seq<nat>, wraps: seq<nat>)
      requires Valid()
      ensures ok <==> !AnyClosing(stripes)
      ensures ok ==>
        var t := TokenFor(c, stripes, selector, 0);
        epochs == t.epochs && policies == t.policies && wraps == t.wraps
    {
      epochs, policies, wraps := [], [], [];
      for i := 0 to |stripes|
        invariant |epochs| == |policies| == |wraps| == i
        invariant forall j | 0 <= j < i ::
          && !stripes[j].closing && epochs[j] == stripes[j].epoch && wraps[j] == stripes[j].wraps
          && policies[j] == PolicyOf(c, stripes[j], selector)
      {
        if stripes[i].closing {
          return false, [], [], [];
        }
        epochs, wraps := epochs + [stripes[i].epoch], wraps + [stripes[i].wraps];
        policies := policies + [PolicyOf(c, stripes[i], selector)];
      }
      ok := true;
    }

    /** Take a token before the origin is asked. */
    method BeginFill(key: Name, selector: Name, root: nat) returns (r: Option<Token>)
      requires Valid()
      ensures
        var t := TokenFor(c, stripes, selector, root);
        r == if IdentityOk(key, selector) && c.place(key) < |stripes| && !AnyClosing(stripes)
                && Total(t.snapshot) <= MAX_FILL_VARIANTS && Total(t.ranges) <= MAX_FILL_VARIANTS
             then Some(t) else None
    {
      if !IdentityOk(key, selector) || c.place(key) >= |stripes| {
        return None;
      }
      var ok, epochs, policies, wraps := Epochs(selector);
      if !ok {
        return None;
      }
      var snapshot := FillSnapshot(selector);
      if snapshot.None? {
        return None;
      }
      var ranges := RangeSnapshot(selector);
      if ranges.None? {
        return None;
      }
      return Some(Token(selector, epochs, policies, wraps, snapshot.value, ranges.value, None, root));
    }

    /** Whether every epoch is still the one in the token. */
    method CheckFillEpochs(t: Token) returns (ok: bool)
      requires Valid()
      ensures ok <==> EpochsOk(c, stripes, t)
    {
      if !TokenShape(|stripes|, t) {
        return false;
      }
      for i := 0 to |stripes|
        invariant forall j | 0 <= j < i ::
          && !stripes[j].closing && t.epochs[j] == stripes[j].epoch && t.policies[j] == PolicyOf(c, stripes[j], t.selector)
          && (t.parent.Some? ==> t.parent.value.policies[j] == PolicyOf(c, stripes[j], t.parent.value.selector))
      {
        if t.parent.Some? && t.parent.value.policies[i] != PolicyOf(c, stripes[i], t.parent.value.selector) {
          return false;
        }
        if stripes[i].closing || t.epochs[i] != stripes[i].epoch || t.policies[i] != PolicyOf(c, stripes[i], t.selector) {
          return false;
        }
      }
      ok := true;
    }

    /** Whether nothing of the selector has changed since the token was taken. */
    method CheckFill(t: Token) returns (ok: bool)
      requires Valid() && Total(t.snapshot) <= MAX_FILL_VARIANTS
      ensures ok <==> FillOk(c, stripes, t)
    {
      ok := CheckFillEpochs(t);
      if !ok {
        return;
      }
      for i := 0 to |stripes|
        invariant forall j | 0 <= j < i :: t.wraps[j] == stripes[j].wraps
      {
        if t.wraps[i] != stripes[i].wraps {
          return false;
        }
      }
      var heads := FillSnapshot(t.selector);
      SameSnapshot(c, stripes, t);
      return heads.Some? && heads.value == t.snapshot;
    }

    /** Find the stripe of a key and what the token says about it. */
    method Bind(t: Token, key: Name) returns (w: Writer)
      requires Valid() && TokenShape(|stripes|, t) && c.place(key) < |stripes|
      ensures w == Bound(t, c.place(key), key)
    {
      w := Writer(0, key, t.selector, 0, 0, None, t.root);
      for i := 0 to |stripes|
        invariant c.place(key) < i ==> w == Bound(t, c.place(key), key)
        invariant w.key == key && w.selector == t.selector && w.root == t.root
      {
        if i == c.place(key) {
          w := w.(stripe := i, epoch := t.epochs[i], policy := t.policies[i], fence := None);
          if t.parent.Some? {
            w := w.(fence := Some((t.parent.value.selector, t.parent.value.policies[i])));
          }
        }
      }
    }

    /**
     Claim a key for a writer.  `evict` says that the index is full, and `room`
     that it can take the identity after it has been trimmed; if it cannot, the
     claim is refused and the index stays trimmed.
     */
    method OpenWriteFillKey(t: Token, key: Name, id: nat, evict: bool, room: bool) returns (r: Option<Writer>)
      requires Valid()
      modifies this
      ensures Valid()
      ensures r.Some? <==> Claimable(c, old(stripes), t, key) && (evict ==> room)
      ensures r.None? ==> stripes == AfterRefusal(c, old(stripes), key, Claimable(c, old(stripes), t, key))
      ensures r.Some? ==> Opens(c, old(stripes), stripes, t, key, id, evict, r.value)
    {
      if !IdentityOk(key, t.selector) || !TokenShape(|stripes|, t) || c.place(key) >= |stripes| {
        return None;
      }
      var w := Bind(t, key);
      var s := stripes[w.stripe];
      if s.closing || w.epoch != s.epoch || w.policy != PolicyOf(c, s, w.selector) {
        return None;
      }
      if w.fence.Some? && w.fence.value.1 != PolicyOf(c, s, w.fence.value.0) {
        return None;
      }
      if key in s.open {
        return None;
      }
      if evict && !room {
        stripes := stripes[w.stripe := Trimmed(s)];
        return None;
      }
      stripes := stripes[w.stripe := Claimed(s, key, w.selector, id, evict)];
      return Some(w);
    }

    /** Claim a key only if the selector is as the token remembers it, and remove the representations listed. */
    method OpenReplacing(t: Token, key: Name, remove: seq<Name>, id: nat, evict: bool, room: bool) returns (r: Option<Writer>)
      requires Valid() && Total(t.snapshot) <= MAX_FILL_VARIANTS && forall k :: c.place(k) < |stripes|
      modifies this
      ensures Valid()
      ensures r.Some? <==> Replaceable(c, old(stripes), t, key, remove) && (evict ==> room)
      ensures r.None? ==> stripes == AfterRefusal(c, old(stripes), key, Replaceable(c, old(stripes), t, key, remove))
      ensures r.Some? ==> Replaces(c, old(stripes), stripes, t, key, id, evict, r.value, Others(remove, key))
    {
      r := None;
      var ok := CheckFill(t);
      if !ok || !IdentityOk(key, t.selector) || !NoWriters(t) {
        return;
      }
      for j := 0 to |remove|
        invariant forall i | 0 <= i < j :: InSnapshot(t, remove[i])
      {
        if !InSnapshot(t, remove[j]) {
          return;
        }
      }
      r := OpenWriteFillKey(t, key, id, evict, room);
      if r.Some? {
        ghost var claimed := stripes;
        RemoveListed(remove, key);
        assert Opens(c, old(stripes), claimed, t, key, id, evict, r.value);
      }
    }

    /** The check before a head becomes readable: nothing has overtaken the writer and the key is still its own. */
    method PublishHead(w: Writer, id: nat, commit: nat) returns (ok: bool)
      requires Valid() && w.stripe < |stripes|
      modifies this
      ensures Valid()
      ensures
        var s := old(stripes)[w.stripe];
        ok <==> !s.closing && Current(c, s, w) && w.key in s.open && s.open[w.key] == id
      ensures !ok ==> stripes == old(stripes)
      ensures ok ==>
        var s := old(stripes)[w.stripe];
        stripes == old(stripes)[w.stripe := Reset(s, w.key, Head(w.selector, commit, w.root)).(index := s.index[w.key := w.selector])]
    {
      var s := stripes[w.stripe];
      if s.closing {
        return false;
      }
      if w.fence.Some? && w.fence.value.1 != PolicyOf(c, s, w.fence.value.0) {
        return false;
      }
      if w.epoch != s.epoch || w.policy != PolicyOf(c, s, w.selector) || w.key !in s.open || s.open[w.key] != id {
        return false;
      }
      stripes := stripes[w.stripe := Reset(s, w.key, Head(w.selector, commit, w.root)).(index := s.index[w.key := w.selector])];
      ok := true;
    }

    /** Remove the listed keys, except the one that is being written. */
    method RemoveListed(remove: seq<Name>, key: Name)
      requires Valid() && forall k :: c.place(k) < |stripes|
      modifies this
      ensures Valid() && stripes == RemovedFrom(c, old(stripes), Others(remove, key))
    {
      NothingRemoved(c, stripes, Others(remove[..0], key));
      for j := 0 to |remove|
        invariant Valid() && |stripes| == |old(stripes)| && stripes == RemovedFrom(c, old(stripes), Others(remove[..j], key))
      {
        OneMoreRemoved(c, old(stripes), Others(remove[..j], key), remove[j]);
        OthersOneMore(remove, key, j);
        if remove[j] != key {
          RemoveKeys(c.place(remove[j]), {remove[j]});
        }
      }
      assert remove[..|remove|] == remove;
    }

    /** A token for one range object of a fill. */
    method DeriveFill(parent: Token, key: Name) returns (r: Option<Token>)
      requires Valid()
      ensures
        var t := Derived(c, stripes, parent, key);
        r == if parent.parent.None? && parent.selector + RANGE <= key && IdentityOk(key, key)
                && EpochsOk(c, stripes, parent) && Total(t.snapshot) <= MAX_FILL_VARIANTS
             then Some(t) else None
    {
      if parent.parent.Some? || !(parent.selector + RANGE <= key) || !IdentityOk(key, key) {
        return None;
      }
      var ok := CheckFillEpochs(parent);
      if !ok {
        return None;
      }
      var epochs, policies, wraps;
      ok, epochs, policies, wraps := Epochs(key);
      if !ok {
        return None;
      }
      var snapshot := FillSnapshot(key);
      if snapshot.None? {
        return None;
      }
      return Some(Token(key, parent.epochs, policies, wraps, snapshot.value, seq(|stripes|, i => map[]),
                        Some(Fence(parent.selector, parent.policies)), parent.root));
    }

    /**
     Move every stripe's epoch on and remove, on every stripe, the keys indexed
     under the selector and under its range objects, or with `prefix` all keys
     indexed under a selector that begins with it. Every other key stays as it was.
     */
    method PurgeSelector(selector: Name, prefix: bool) returns (r: Option<set<Name>>)
      requires Valid()
      modifies this
      ensures Valid()
      ensures r.Some? <==> selector != [] && !AnyClosing(old(stripes))
      ensures r.None? ==> stripes == old(stripes)
      ensures r.Some? ==> stripes == MapStripes(old(stripes), (i, s) => PurgedStripe(s, selector, prefix))
      ensures r.Some? ==> forall i, k | 0 <= i < |old(stripes)| :: KeyPurged(old(stripes)[i], stripes[i], selector, prefix, k, r.value)
      ensures r.Some? ==> forall k | k in r.value :: exists i | 0 <= i < |old(stripes)| :: k in old(stripes)[i].index && Gone(stripes[i], k)
    {
      if selector == [] {
        return None;
      }
      for i := 0 to |stripes|
        invariant forall j | 0 <= j < i :: !stripes[j].closing
      {
        if stripes[i].closing {
          return None;
        }
      }
      var purged: set<Name> := {};
      for i := 0 to |stripes|
        invariant |stripes| == |old(stripes)| && StripesOk(stripes)
        invariant forall j | 0 <= j < i :: PurgedAt(old(stripes)[j], stripes[j], selector, prefix, purged)
        invariant forall j | i <= j < |stripes| :: stripes[j] == old(stripes)[j]
        invariant forall k | k in purged :: exists j | 0 <= j < i :: k in old(stripes)[j].index && Gone(stripes[j], k)
      {
        var s := stripes[i];
        var keys := KeysOf(s.index, selector);
        if !prefix {
          keys := keys + KeysWithPrefix(s.index, selector + "\nrange:");
        }
        if prefix {
          keys := KeysWithPrefix(s.index, selector);
        }
        stripes := stripes[i := s.(epoch := s.epoch + 1)];
        RemoveKeys(i, keys);
        purged := purged + keys;
        assert PurgedAt(s, stripes[i], selector, prefix, purged) by { PurgeFinds(s, selector, prefix, keys); }
      }
      r := Some(purged);
    }

    /** Remove keys from a stripe one by one. */
    method RemoveKeys(i: nat, keys: set<Name>)
      requires Valid() && i < |stripes|
      modifies this
      ensures Valid() && stripes == old(stripes)[i := Removed(old(stripes)[i], keys)]
    {
      var todo, s := keys, stripes[i];
      RemoveNothing(s);
      while todo != {}
        invariant todo <= keys && stripes == old(stripes) && s == Removed(old(stripes)[i], keys - todo)
        decreases |todo|
      {
        var k :| k in todo;
        RemoveOneMore(stripes[i], keys - todo, k);
        s := Removed(s, {k});
        assert keys - todo + {k} == keys - (todo - {k});
        todo := todo - {k};
      }
      assert keys - todo == keys;
      stripes := stripes[i := s];
    }

    /**
     Move the policy epoch on and remove heads that are still those of the
     token, where `alive` says that the head's first byte has not been overwritten.
     */
    method InvalidateFill(t: Token, alive: (nat, Name) -> bool) returns (ok: bool, removed: seq<set<Name>>)
      requires Valid()
      modifies this
      ensures Valid()
      ensures ok <==> CanInvalidate(c, old(stripes), t)
      ensures !ok ==> stripes == old(stripes)
      ensures ok ==> Invalidated(c, old(stripes), stripes, t, removed)
      ensures ok ==> forall i, k | 0 <= i < |old(stripes)| && i < |t.snapshot| && i < |t.ranges| ::
        k in removed[i] <==> Goes(old(stripes)[i], t, i, k, alive)
      ensures ok ==> forall i, k | 0 <= i < |old(stripes)| :: KeyInvalidated(old(stripes)[i], stripes[i], t, i, k, alive)
      ensures ok ==> forall i | 0 <= i < |old(stripes)| :: SlotMoved(old(stripes)[i], stripes[i], c.hash(t.selector) % 1024)
    {
      removed := [];
      ok := CheckFillEpochs(t);
      if !ok {
        return;
      }
      var heads := FillSnapshot(t.selector);
      if heads.None? {
        return false, [];
      }
      var ranges := RangeSnapshot(t.selector);
      if ranges.None? {
        return false, [];
      }
      removed := InvalidateStripes(t, heads.value, ranges.value, alive);
      InvalidatedKeys(c, old(stripes), stripes, t, removed, alive);
    }

    method InvalidateStripes(t: Token, heads: seq<map<Name, View>>, ranges: seq<map<Name, View>>, alive: (nat, Name) -> bool)
      returns (removed: seq<set<Name>>)
      requires Valid() && TokenShape(|stripes|, t) && |heads| == |ranges| == |stripes|
      requires forall i | 0 <= i < |stripes| :: heads[i] == SnapshotOf(stripes[i], t.selector)
      requires forall i | 0 <= i < |stripes| :: ranges[i] == RangesOf(stripes[i], t.selector)
      modifies this
      ensures Valid() && Invalidated(c, old(stripes), stripes, t, removed)
      ensures forall i, k | 0 <= i < |old(stripes)| && i < |t.snapshot| && i < |t.ranges| ::
        k in removed[i] <==> Goes(old(stripes)[i], t, i, k, alive)
    {
      removed := [];
      for i := 0 to |stripes|
        invariant |stripes| == |old(stripes)| && StripesOk(stripes) && |removed| == i
        invariant forall j | 0 <= j < i :: InvalidatedAt(c, old(stripes)[j], stripes[j], t, j, removed[j])
        invariant forall j, k | 0 <= j < i :: k in removed[j] <==> Goes(old(stripes)[j], t, j, k, alive)
        invariant forall j | i <= j < |stripes| :: stripes[j] == old(stripes)[j]
      {
        var s, q := stripes[i], Slot(c, t.selector);
        var keys := Removable(s, t, i, heads[i], ranges[i], alive);
        stripes := stripes[i := s.(policies := s.policies[q := s.policies[q] + 1])];
        RemoveKeys(i, keys);
        assert InvalidatedAt(c, s, stripes[i], t, i, keys);
        removed := removed + [keys];
      }
    }
  }

  /** Nothing of the key is left on the stripe. */
  predicate Gone(s: Stripe, k: Name) {
    k !in s.index && k !in s.heads && k !in s.lost && k !in s.open
  }

  predicate SameIn<T(==)>(m: map<Name, T>, m': map<Name, T>, k: Name) {
    (k in m' <==> k in m) && (k in m ==> m'[k] == m[k])
  }

  /** The stripe holds of the key what it held before. */
  predicate SameKey(s: Stripe, s': Stripe, k: Name) {
    SameIn(s.index, s'.index, k) && SameIn(s.heads, s'.heads, k) && SameIn(s.lost, s'.lost, k) && SameIn(s.open, s'.open, k)
  }

  ghost predicate PurgedAt(s: Stripe, s': Stripe, selector: Name, prefix: bool, purged: set<Name>) {
    s' == PurgedStripe(s, selector, prefix) && Matching(s, selector, prefix) <= purged
  }

  /** The keys that the index lists for the selector are those that a purge removes. */
  lemma PurgeFinds(s: Stripe, selector: Name, prefix: bool, keys: set<Name>)
    requires keys == if prefix then KeysWithPrefix(s.index, selector)
                     else KeysOf(s.index, selector) + KeysWithPrefix(s.index, selector + "\nrange:")
    ensures keys == Matching(s, selector, prefix)
  {
  }

  /** A key goes by the selector it is indexed under: the purged one, one of its range objects, or any that begins with it. */
  predicate KeyPurged(s: Stripe, s': Stripe, selector: Name, prefix: bool, k: Name, purged: set<Name>) {
    if k in s.index && (if prefix then selector <= s.index[k] else s.index[k] == selector || selector + "\nrange:" <= s.index[k])
    then Gone(s', k) && k in purged
    else SameKey(s, s', k)
  }

  /** The epochs are current and the selector is not too large. */
  ghost predicate CanInvalidate(c: Config, stripes: seq<Stripe>, t: Token)
    requires StripesOk(stripes)
  {
    && EpochsOk(c, stripes, t)
    && Total(TokenFor(c, stripes, t.selector, 0).snapshot) <= MAX_FILL_VARIANTS
    && Total(TokenFor(c, stripes, t.selector, 0).ranges) <= MAX_FILL_VARIANTS
  }

  ghost predicate InvalidatedAt(c: Config, s: Stripe, s': Stripe, t: Token, i: nat, removed: set<Name>) {
    && StripeOk(s) && i < |t.snapshot| && i < |t.ranges|
    && s' == InvalidatedStripe(c, s, t.selector, removed) && MayRemove(s, t, i, removed)
  }

  /** The policy epoch has moved on everywhere, and only keys that may be removed have gone. */
  ghost predicate Invalidated(c: Config, stripes: seq<Stripe>, stripes': seq<Stripe>, t: Token, removed: seq<set<Name>>) {
    && |removed| == |stripes'| == |stripes|
    && forall i | 0 <= i < |stripes| :: InvalidatedAt(c, stripes[i], stripes'[i], t, i, removed[i])
  }

  /** Keys with no entry but with a writer, and keys that are as they were, if the bytes of an entry are intact. */
  function Removable(s: Stripe, t: Token, i: nat, heads: map<Name, View>, ranges: map<Name, View>, alive: (nat, Name) -> bool): (keys: set<Name>)
    requires i < |t.snapshot| && i < |t.ranges|
    requires heads == SnapshotOf(s, t.selector) && ranges == RangesOf(s, t.selector)
    ensures MayRemove(s, t, i, keys) && forall k :: k in keys <==> Goes(s, t, i, k, alive)
  {
    set k | k in heads.Keys + ranges.Keys
      && var v := ViewOf(s, k);
         var known := (k in t.snapshot[i] && t.snapshot[i][k] == v) || (k in t.ranges[i] && t.ranges[i][k] == v);
         if v.commit.None? then v.writer.Some? || known else known && alive(i, k)
  }

  /** The key is as the token remembers it. */
  predicate Known(s: Stripe, t: Token, i: nat, k: Name)
    requires i < |t.snapshot| && i < |t.ranges|
  {
    (k in t.snapshot[i] && t.snapshot[i][k] == ViewOf(s, k)) || (k in t.ranges[i] && t.ranges[i][k] == ViewOf(s, k))
  }

  /** The key belongs to the selector and has an intact entry that the token knows, or none and is known or being written. */
  predicate Goes(s: Stripe, t: Token, i: nat, k: Name, alive: (nat, Name) -> bool)
    requires i < |t.snapshot| && i < |t.ranges|
  {
    && k in s.index && (s.index[k] == t.selector || t.selector + MANIFEST <= s.index[k])
    && if EntryOf(s, k).Some? then Known(s, t, i, k) && alive(i, k) else Known(s, t, i, k) || k in s.open
  }

  /** A key that goes is gone, and any other is as it was. */
  predicate KeyInvalidated(s: Stripe, s': Stripe, t: Token, i: nat, k: Name, alive: (nat, Name) -> bool) {
    && i < |t.snapshot| && i < |t.ranges|
    && if Goes(s, t, i, k, alive) then Gone(s', k) else SameKey(s, s', k)
  }

  lemma InvalidatedKeys(c: Config, stripes: seq<Stripe>, stripes': seq<Stripe>, t: Token, removed: seq<set<Name>>, alive: (nat, Name) -> bool)
    requires Invalidated(c, stripes, stripes', t, removed)
    requires forall i, k | 0 <= i < |stripes| && i < |t.snapshot| && i < |t.ranges| :: k in removed[i] <==> Goes(stripes[i], t, i, k, alive)
    ensures forall i, k | 0 <= i < |stripes| :: KeyInvalidated(stripes[i], stripes'[i], t, i, k, alive)
    ensures forall i | 0 <= i < |stripes| :: SlotMoved(stripes[i], stripes'[i], c.hash(t.selector) % 1024)
  {
    forall i, k | 0 <= i < |stripes|
      ensures KeyInvalidated(stripes[i], stripes'[i], t, i, k, alive)
    {
      assert InvalidatedAt(c, stripes[i], stripes'[i], t, i, removed[i]);
    }
    forall i | 0 <= i < |stripes|
      ensures SlotMoved(stripes[i], stripes'[i], c.hash(t.selector) % 1024)
    {
      assert InvalidatedAt(c, stripes[i], stripes'[i], t, i, removed[i]);
    }
  }

  /** The policy epoch of one slot has moved on, and no other epoch has. */
  predicate SlotMoved(s: Stripe, s': Stripe, q: nat) {
    && |s.policies| == |s'.policies| && s'.epoch == s.epoch && s'.wraps == s.wraps && s'.closing == s.closing
    && forall p | 0 <= p < |s.policies| :: s'.policies[p] == if p == q then s.policies[p] + 1 else s.policies[p]
  }

  /** The identity is sound, the key is free, and the token current on its stripe. */
  predicate Claimable(c: Config, stripes: seq<Stripe>, t: Token, key: Name)
    requires StripesOk(stripes)
  {
    IdentityOk(key, t.selector) && CanClaim(c, stripes, t, key)
  }

  /** Moreover nothing of the selector has changed, nobody is writing it, and what is to be removed belongs to it. */
  predicate Replaceable(c: Config, stripes: seq<Stripe>, t: Token, key: Name, remove: seq<Name>)
    requires StripesOk(stripes)
  {
    && Claimable(c, stripes, t, key) && FillOk(c, stripes, t) && NoWriters(t)
    && forall j | 0 <= j < |remove| :: InSnapshot(t, remove[j])
  }

  /** The two ways to claim a key are admitted exactly when the steps of the same name are possible and the identity is sound. */
  lemma ClaimsAreSteps(c: Config, w: World, t: nat, key: Name, evict: bool, remove: seq<Name>)
    requires StripesOk(w.stripes) && t < |w.tokens|
    ensures Claimable(c, w.stripes, w.tokens[t], key) <==>
      IdentityOk(key, w.tokens[t].selector) && Enabled(c, w, Step.Open(t, key, evict))
    ensures Replaceable(c, w.stripes, w.tokens[t], key, remove) <==>
      && IdentityOk(key, w.tokens[t].selector) && Enabled(c, w, Step.Replace(t, key, evict, Others(remove, key)))
      && (key in remove ==> InSnapshot(w.tokens[t], key))
  {
    var token := w.tokens[t];
    if forall k | k in Others(remove, key) :: InSnapshot(token, k) {
      forall j | 0 <= j < |remove|
        ensures (key in remove ==> InSnapshot(token, key)) ==> InSnapshot(token, remove[j])
      {
        assert remove[j] == key || remove[j] in Others(remove, key);
      }
    }
  }

  /** A claim that fails on a full index has trimmed it. */
  function AfterRefusal(c: Config, stripes: seq<Stripe>, key: Name, full: bool): seq<Stripe>
    requires full ==> c.place(key) < |stripes|
  {
    if full then stripes[c.place(key) := Trimmed(stripes[c.place(key)])] else stripes
  }

  /** The stripes after a writer has claimed its key. */
  predicate Opens(
    c: Config, stripes: seq<Stripe>, stripes': seq<Stripe>, t: Token, key: Name, id: nat, evict: bool, w: Writer)
  {
    var i := c.place(key);
    && i < |stripes| && TokenShape(|stripes|, t) && w == Bound(t, i, key)
    && stripes' == stripes[i := Claimed(stripes[i], key, t.selector, id, evict)]
  }

  /** The stripes after a writer has claimed its key and others have been removed. */
  ghost predicate Replaces(
    c: Config, stripes: seq<Stripe>, stripes': seq<Stripe>, t: Token, key: Name, id: nat, evict: bool, w: Writer, remove: set<Name>)
  {
    exists claimed :: (Opens(c, stripes, claimed, t, key, id, evict, w) && stripes' == RemovedFrom(c, claimed, remove))
  }

  function Others(list: seq<Name>, key: Name): set<Name> {
    set k | k in list && k != key
  }

  lemma OthersOneMore(list: seq<Name>, key: Name, j: nat)
    requires j < |list|
    ensures Others(list[..j + 1], key) == if list[j] == key then Others(list[..j], key) else Others(list[..j], key) + {list[j]}
  {
    assert list[..j + 1] == list[..j] + [list[j]];
  }

  lemma NothingRemoved(c: Config, stripes: seq<Stripe>, none: set<Name>)
    requires none == {}
    ensures RemovedFrom(c, stripes, none) == stripes
  {
    forall i | 0 <= i < |stripes|
      ensures RemovedFrom(c, stripes, none)[i] == stripes[i]
    {
      RemoveNothing(stripes[i]);
      assert (set k | k in none && c.place(k) == i) == {};
    }
  }

  /** Removing one more key changes its stripe only. */
  lemma OneMoreRemoved(c: Config, stripes: seq<Stripe>, keys: set<Name>, k: Name)
    requires c.place(k) < |stripes|
    ensures
      var before, i := RemovedFrom(c, stripes, keys), c.place(k);
      RemovedFrom(c, stripes, keys + {k}) == before[i := Removed(before[i], {k})]
  {
    var before, i := RemovedFrom(c, stripes, keys), c.place(k);
    var after := RemovedFrom(c, stripes, keys + {k});
    forall j | 0 <= j < |stripes|
      ensures after[j] == before[i := Removed(before[i], {k})][j]
    {
      var here := set x | x in keys && c.place(x) == j;
      var more := set x | x in keys + {k} && c.place(x) == j;
      if j == i {
        assert more == here + {k};
        RemoveOneMore(stripes[j], here, k);
      } else {
        assert more == here;
      }
    }
  }

  lemma SameSnapshot(c: Config, stripes: seq<Stripe>, t: Token)
    requires StripesOk(stripes) && TokenShape(|stripes|, t)
    ensures t.snapshot == TokenFor(c, stripes, t.selector, 0).snapshot <==>
            forall i | 0 <= i < |stripes| :: t.snapshot[i] == SnapshotOf(stripes[i], t.selector)
  {
  }

  lemma RemoveNothing(s: Stripe)
    ensures forall keys: set<Name> | keys == {} :: Removed(s, keys) == s
  {
    forall keys: set<Name> | keys == {}
      ensures Removed(s, keys) == s
    {
      assert s.index - keys == s.index && s.heads - keys == s.heads && s.lost - keys == s.lost && s.open - keys == s.open;
    }
  }

  lemma RemoveOneMore(s: Stripe, keys: set<Name>, k: Name)
    ensures Removed(Removed(s, keys), {k}) == Removed(s, keys + {k})
  {
    assert s.index - keys - {k} == s.index - (keys + {k});
    assert s.heads - keys - {k} == s.heads - (keys + {k});
    assert s.lost - keys - {k} == s.lost - (keys + {k});
    assert s.open - keys - {k} == s.open - (keys + {k});
  }
}
