/**
 Fences around cache fills.  A fill takes a token before it asks the origin; a
 purge or an invalidation moves an epoch on, and a writer publishes only while
 every epoch is the one in its token.  Each section under the stripe locks is
 one step, and runs are arbitrary sequences of steps.
 */
module Fences {
  import opened Common
  import opened IdentityIndex

  const SLOTS: nat := 1024

  /** A readable object: its selector, its publication, and the fill that stored its body; a refresh keeps the body. */
  datatype Head = Head(selector: Name, commit: nat, root: nat)

  /** A head whose bytes are gone while its directory entry is still there, and the epoch at which they went. */
  datatype Lost = Lost(head: Head, epoch: nat)

  /** `heads` holds the valid heads, `lost` the others in the directory; `open` the writer that has claimed a key. */
  datatype Stripe = Stripe(
    epoch: nat,
    policies: seq<nat>,
    wraps: nat,
    closing: bool,
    index: map<Name, Name>,
    heads: map<Name, Head>,
    lost: map<Name, Lost>,
    open: map<Name, nat>)

  /** What a token remembers of one key. */
  datatype View = View(commit: Option<nat>, writer: Option<nat>)

  /** What a derived token keeps of its parent. */
  datatype Fence = Fence(selector: Name, policies: seq<nat>)

  /** `root` is the number of the token that was taken before the origin was asked. */
  datatype Token = Token(
    selector: Name,
    epochs: seq<nat>,
    policies: seq<nat>,
    wraps: seq<nat>,
    snapshot: seq<map<Name, View>>,
    ranges: seq<map<Name, View>>,
    parent: Option<Fence>,
    root: nat)

  datatype Writer = Writer(
    stripe: nat,
    key: Name,
    selector: Name,
    epoch: nat,
    policy: nat,
    fence: Option<(Name, nat)>,
    root: nat)

  /** The hash that picks a policy slot and the one that picks a stripe. */
  datatype Config = Config(hash: Name -> nat, place: Name -> nat)

  datatype World = World(
    stripes: seq<Stripe>,
    tokens: seq<Token>,
    writers: seq<Writer>,
    finished: set<nat>,
    failed: set<nat>,
    commits: nat)

  function Slot(c: Config, selector: Name): (q: nat)
    ensures q < SLOTS
  {
    c.hash(selector) % SLOTS
  }

  predicate StripeOk(s: Stripe) { |s.policies| == SLOTS }

  function PolicyOf(c: Config, s: Stripe, selector: Name): nat
    requires StripeOk(s)
  {
    s.policies[Slot(c, selector)]
  }

  // ---------------------------------------------------------------- tokens

  const RANGE: Name := "\nrange:"
  const MANIFEST: Name := "\nrange:manifest:"

  /** The directory entry of a key, its bytes there or not. */
  function EntryOf(s: Stripe, key: Name): Option<Head> {
    if key in s.heads then Some(s.heads[key]) else if key in s.lost then Some(s.lost[key].head) else None
  }

  function ViewOf(s: Stripe, key: Name): View {
    var e := EntryOf(s, key);
    View(if e.Some? then Some(e.value.commit) else None, if key in s.open then Some(s.open[key]) else None)
  }

  /** The representations of a selector on one stripe. */
  function SnapshotOf(s: Stripe, selector: Name): map<Name, View> {
    map k | k in s.index && s.index[k] == selector :: ViewOf(s, k)
  }

  /** The range manifests that belong to a selector. */
  function RangesOf(s: Stripe, selector: Name): map<Name, View> {
    map k | k in s.index && selector + MANIFEST <= s.index[k] :: ViewOf(s, k)
  }

  predicate StripesOk(stripes: seq<Stripe>) {
    forall i | 0 <= i < |stripes| :: StripeOk(stripes[i])
  }

  function TokenFor(c: Config, stripes: seq<Stripe>, selector: Name, root: nat): Token
    requires StripesOk(stripes)
  {
    Token(selector,
          seq(|stripes|, i requires 0 <= i < |stripes| => stripes[i].epoch),
          seq(|stripes|, i requires 0 <= i < |stripes| => PolicyOf(c, stripes[i], selector)),
          seq(|stripes|, i requires 0 <= i < |stripes| => stripes[i].wraps),
          seq(|stripes|, i requires 0 <= i < |stripes| => SnapshotOf(stripes[i], selector)),
          seq(|stripes|, i requires 0 <= i < |stripes| => RangesOf(stripes[i], selector)),
          None, root)
  }

  predicate TokenShape(n: nat, t: Token) {
    && |t.epochs| == |t.policies| == |t.wraps| == |t.snapshot| == |t.ranges| == n
    && (t.parent.Some? ==> |t.parent.value.policies| == n)
  }

  /** No epoch of the token has moved on, on any stripe. */
  predicate EpochsOk(c: Config, stripes: seq<Stripe>, t: Token)
    requires StripesOk(stripes)
  {
    && TokenShape(|stripes|, t)
    && forall i | 0 <= i < |stripes| ::
      && !stripes[i].closing && t.epochs[i] == stripes[i].epoch
      && t.policies[i] == PolicyOf(c, stripes[i], t.selector)
      && (t.parent.Some? ==> t.parent.value.policies[i] == PolicyOf(c, stripes[i], t.parent.value.selector))
  }

  /** Nothing of the selector has changed since the token was taken. */
  predicate FillOk(c: Config, stripes: seq<Stripe>, t: Token)
    requires StripesOk(stripes)
  {
    && EpochsOk(c, stripes, t)
    && forall i | 0 <= i < |stripes| :: t.wraps[i] == stripes[i].wraps && t.snapshot[i] == SnapshotOf(stripes[i], t.selector)
  }

  /** A range object has a selector of its own and keeps the epochs and the fence of its parent. */
  function Derived(c: Config, stripes: seq<Stripe>, parent: Token, key: Name): Token
    requires StripesOk(stripes)
  {
    TokenFor(c, stripes, key, parent.root).(
      epochs := parent.epochs, ranges := seq(|stripes|, i => map[]), parent := Some(Fence(parent.selector, parent.policies)))
  }

  function Bound(t: Token, i: nat, key: Name): Writer
    requires i < |t.epochs| && i < |t.policies| && (t.parent.Some? ==> i < |t.parent.value.policies|)
  {
    Writer(i, key, t.selector, t.epochs[i], t.policies[i],
           if t.parent.Some? then Some((t.parent.value.selector, t.parent.value.policies[i])) else None, t.root)
  }

  /** The epochs a writer was opened under are still current. */
  predicate Current(c: Config, s: Stripe, w: Writer)
    requires StripeOk(s)
  {
    && w.epoch == s.epoch && w.policy == PolicyOf(c, s, w.selector)
    && (w.fence.Some? ==> w.fence.value.1 == PolicyOf(c, s, w.fence.value.0))
  }

  // --------------------------------------------------------------- a stripe

  /** Everything known of a key is forgotten, and its writer loses its claim. */
  function Removed(s: Stripe, keys: set<Name>): Stripe {
    s.(index := s.index - keys, heads := s.heads - keys, lost := s.lost - keys, open := s.open - keys)
  }

  /** The identities of keys that have neither a valid head nor a writer are dropped. */
  function Trimmed(s: Stripe): Stripe {
    s.(index := map k | k in s.index && (k in s.open || k in s.heads) :: s.index[k])
  }

  /** A full index is trimmed first. */
  function Reserved(s: Stripe, key: Name, selector: Name, evict: bool): Stripe {
    var r := if evict then Trimmed(s) else s;
    r.(index := r.index[key := selector])
  }

  /** A writer takes a key: its directory entry goes. */
  function Claimed(s: Stripe, key: Name, selector: Name, id: nat, evict: bool): Stripe {
    var r := Reserved(s, key, selector, evict);
    r.(heads := r.heads - {key}, lost := r.lost - {key}, open := r.open[key := id])
  }

  /** The bytes of heads go, because the cursor has reached them; their entries stay. */
  function Dropped(s: Stripe, keys: set<Name>, wrap: bool): Stripe {
    s.(heads := s.heads - keys, wraps := if wrap then s.wraps + 1 else s.wraps,
       lost := map k | k in s.lost.Keys + (s.heads.Keys * keys) ::
         if k in s.heads && k in keys then Lost(s.heads[k], s.epoch) else s.lost[k])
  }

  /** The entry of a key is set to other bytes. */
  function Reset(s: Stripe, key: Name, head: Head): Stripe {
    s.(heads := s.heads[key := head], lost := s.lost - {key})
  }

  predicate Matches(selector: Name, prefix: bool, of: Name) {
    if prefix then selector <= of else of == selector || selector + RANGE <= of
  }

  function Matching(s: Stripe, selector: Name, prefix: bool): set<Name> {
    set k | k in s.index && Matches(selector, prefix, s.index[k])
  }

  function PurgedStripe(s: Stripe, selector: Name, prefix: bool): Stripe {
    Removed(s.(epoch := s.epoch + 1), Matching(s, selector, prefix))
  }

  /** The keys whose entry is still the one in the snapshot, or that have no entry. */
  predicate MayRemove(s: Stripe, t: Token, i: nat, keys: set<Name>)
    requires i < |t.snapshot| && i < |t.ranges|
  {
    forall k | k in keys && EntryOf(s, k).Some? ::
      (k in t.snapshot[i] && t.snapshot[i][k] == ViewOf(s, k)) || (k in t.ranges[i] && t.ranges[i][k] == ViewOf(s, k))
  }

  function InvalidatedStripe(c: Config, s: Stripe, selector: Name, keys: set<Name>): Stripe
    requires StripeOk(s)
  {
    var q := Slot(c, selector);
    Removed(s.(policies := s.policies[q := s.policies[q] + 1]), keys)
  }

  // ------------------------------------------------------------------ steps

  /**
   `Lose` is the cursor reaching the bytes of heads, `PutBack` the swap at the end
   of an evacuation, `Forget` the removal of entries whose bytes are gone, and
   `Trim` a claim that finds no room even in a trimmed index.
   */
  datatype Step =
    | Begin(selector: Name)
    | Derive(token: nat, key: Name)
    | Open(token: nat, key: Name, evict: bool)
    | Replace(token: nat, key: Name, evict: bool, remove: set<Name>)
    | Publish(writer: nat)
    | Refresh(token: nat, stripe: nat, key: Name)
    | Abort(writer: nat)
    | Release(writer: nat)
    | Purge(selector: Name, prefix: bool)
    | Invalidate(token: nat, removed: seq<set<Name>>)
    | Lose(stripe: nat, keys: set<Name>, wrap: bool)
    | PutBack(stripe: nat, key: Name)
    | Forget(stripe: nat, keys: set<Name>)
    | Trim(stripe: nat)
    | Shut(stripe: nat)

  /** The key is free and every epoch of the token is current on its stripe. */
  predicate CanClaim(c: Config, stripes: seq<Stripe>, t: Token, key: Name)
    requires StripesOk(stripes)
  {
    var i := c.place(key);
    && i < |stripes| && TokenShape(|stripes|, t)
    && !stripes[i].closing && key !in stripes[i].open && Current(c, stripes[i], Bound(t, i, key))
  }

  /** No writer was at work on the selector when the token was taken. */
  predicate NoWriters(t: Token) {
    forall i, k | 0 <= i < |t.snapshot| && k in t.snapshot[i] :: t.snapshot[i][k].writer.None?
  }

  predicate InSnapshot(t: Token, key: Name) {
    exists i | 0 <= i < |t.snapshot| :: key in t.snapshot[i]
  }

  predicate CanOpen(c: Config, w: World, t: Token, key: Name)
    requires StripesOk(w.stripes)
  {
    CanClaim(c, w.stripes, t, key)
  }

  predicate CanPublish(c: Config, w: World, id: nat)
    requires StripesOk(w.stripes)
  {
    && id < |w.writers| && id !in w.finished && w.writers[id].stripe < |w.stripes|
    && var s, wr := w.stripes[w.writers[id].stripe], w.writers[id];
       !s.closing && Current(c, s, wr) && wr.key in s.open && s.open[wr.key] == id
  }

  predicate Enabled(c: Config, w: World, step: Step)
    requires StripesOk(w.stripes)
  {
    match step
    case Begin(_) => forall i | 0 <= i < |w.stripes| :: !w.stripes[i].closing
    case Derive(t, key) =>
      t < |w.tokens| && w.tokens[t].parent.None? && w.tokens[t].selector + RANGE <= key && EpochsOk(c, w.stripes, w.tokens[t])
    case Open(t, key, _) => t < |w.tokens| && CanOpen(c, w, w.tokens[t], key)
    case Replace(t, key, _, remove) =>
      t < |w.tokens| && FillOk(c, w.stripes, w.tokens[t]) && CanOpen(c, w, w.tokens[t], key) && key !in remove
      && NoWriters(w.tokens[t]) && (forall k | k in remove :: InSnapshot(w.tokens[t], k))
    case Publish(id) => CanPublish(c, w, id)
    case Refresh(t, i, key) =>
      t < |w.tokens| && i < |w.stripes| && FillOk(c, w.stripes, w.tokens[t])
      && key in w.tokens[t].snapshot[i] && EntryOf(w.stripes[i], key).Some? && key !in w.stripes[i].open
    case Abort(id) => id < |w.writers| && id !in w.finished && w.writers[id].stripe < |w.stripes|
    case Release(id) => id < |w.writers| && w.writers[id].stripe < |w.stripes|
    case Purge(_, _) => forall i | 0 <= i < |w.stripes| :: !w.stripes[i].closing
    case Invalidate(t, removed) =>
      t < |w.tokens| && EpochsOk(c, w.stripes, w.tokens[t]) && |removed| == |w.stripes|
      && forall i | 0 <= i < |w.stripes| :: MayRemove(w.stripes[i], w.tokens[t], i, removed[i])
    case Lose(i, _, _) => i < |w.stripes|
    case PutBack(i, key) =>
      && i < |w.stripes| && !w.stripes[i].closing
      && key in w.stripes[i].lost && w.stripes[i].lost[key].epoch == w.stripes[i].epoch
    case Forget(i, _) => i < |w.stripes|
    case Trim(i) => i < |w.stripes|
    case Shut(i) => i < |w.stripes|
  }

  function Opened(c: Config, w: World, t: Token, key: Name, evict: bool): World
    requires StripesOk(w.stripes) && CanOpen(c, w, t, key)
  {
    var i := c.place(key);
    w.(stripes := w.stripes[i := Claimed(w.stripes[i], key, t.selector, |w.writers|, evict)],
       writers := w.writers + [Bound(t, i, key)])
  }

  function Published(w: World, id: nat): World
    requires id < |w.writers| && w.writers[id].stripe < |w.stripes|
  {
    var wr := w.writers[id];
    var s := w.stripes[wr.stripe];
    w.(stripes := w.stripes[wr.stripe := Reset(s, wr.key, Head(wr.selector, w.commits, wr.root)).(index := s.index[wr.key := wr.selector])],
       finished := w.finished + {id}, commits := w.commits + 1)
  }

  /** A failed writer gives up the identity if the key is still its own. */
  function Aborted(w: World, id: nat): World
    requires id < |w.writers| && w.writers[id].stripe < |w.stripes|
  {
    var wr := w.writers[id];
    var s := w.stripes[wr.stripe];
    var s' := if wr.key in s.open && s.open[wr.key] == id then s.(index := s.index - {wr.key}) else s;
    w.(stripes := w.stripes[wr.stripe := s'], finished := w.finished + {id}, failed := w.failed + {id})
  }

  function ReleasedStripe(s: Stripe, key: Name, id: nat): Stripe {
    if key in s.open && s.open[key] == id then s.(open := s.open - {key}) else s
  }

  function MapStripes(stripes: seq<Stripe>, f: (nat, Stripe) -> Stripe): (r: seq<Stripe>)
    ensures |r| == |stripes| && forall i | 0 <= i < |r| :: r[i] == f(i, stripes[i])
  {
    seq(|stripes|, i requires 0 <= i < |stripes| => f(i, stripes[i]))
  }

  /** Every key is removed from its own stripe. */
  function RemovedFrom(c: Config, stripes: seq<Stripe>, remove: set<Name>): seq<Stripe> {
    MapStripes(stripes, (i, s) => Removed(s, set k | k in remove && c.place(k) == i))
  }

  function Apply(c: Config, w: World, step: Step): World
    requires StripesOk(w.stripes) && Enabled(c, w, step)
  {
    match step
    case Begin(selector) => w.(tokens := w.tokens + [TokenFor(c, w.stripes, selector, |w.tokens|)])
    case Derive(t, key) => w.(tokens := w.tokens + [Derived(c, w.stripes, w.tokens[t], key)])
    case Open(t, key, evict) => Opened(c, w, w.tokens[t], key, evict)
    case Replace(t, key, evict, remove) =>
      var w1 := Opened(c, w, w.tokens[t], key, evict);
      w1.(stripes := RemovedFrom(c, w1.stripes, remove))
    case Publish(id) => Published(w, id)
    case Refresh(t, i, key) =>
      var s := w.stripes[i];
      w.(stripes := w.stripes[i := Reset(s, key, EntryOf(s, key).value.(commit := w.commits))],
         commits := w.commits + 1)
    case Abort(id) => Aborted(w, id)
    case Release(id) =>
      var wr := w.writers[id];
      w.(stripes := w.stripes[wr.stripe := ReleasedStripe(w.stripes[wr.stripe], wr.key, id)])
    case Purge(selector, prefix) =>
      w.(stripes := MapStripes(w.stripes, (i, s) => PurgedStripe(s, selector, prefix)))
    case Invalidate(t, removed) =>
      w.(stripes := seq(|w.stripes|, i requires 0 <= i < |w.stripes| =>
           InvalidatedStripe(c, w.stripes[i], w.tokens[t].selector, removed[i])))
    case Lose(i, keys, wrap) =>
      w.(stripes := w.stripes[i := Dropped(w.stripes[i], keys, wrap)])
    case PutBack(i, key) =>
      var s := w.stripes[i];
      w.(stripes := w.stripes[i := Reset(s, key, s.lost[key].head.(commit := w.commits))], commits := w.commits + 1)
    case Forget(i, keys) =>
      var s := w.stripes[i];
      w.(stripes := w.stripes[i := s.(lost := s.lost - keys)])
    case Trim(i) => w.(stripes := w.stripes[i := Trimmed(w.stripes[i])])
    case Shut(i) =>
      var s := w.stripes[i];
      w.(stripes := w.stripes[i := s.(closing := true, epoch := s.epoch + 1, open := map[])])
  }
}
