/**
 The identity index of a stripe: which selector every stored key belongs to,
 and, as an exact inverse, which keys every selector has.
 */
module IdentityIndex {

  const MAX_KEY_BYTES: nat := 16384
  const MAX_INDEX_BYTES: nat := 16777216
  const MAX_ENTRIES: nat := 65536

  type Name = string

  datatype IndexEntry = IndexEntry(key: Name, selector: Name)

  // ------------------------------------------------------- bytes of an index

  ghost function Bytes(m: map<Name, Name>): nat
    decreases |m|
  {
    if m == map[] then 0
    else
      var k :| k in m;
      |k| + |m[k]| + Bytes(m - {k})
  }

  /** The sum does not depend on the order. */
  lemma {:induction false} BytesWithout(m: map<Name, Name>, k: Name)
    requires k in m
    ensures Bytes(m) == |k| + |m[k]| + Bytes(m - {k})
    decreases |m|
  {
    var j :| j in m && Bytes(m) == |j| + |m[j]| + Bytes(m - {j});
    if j != k {
      BytesWithout(m - {j}, k);
      BytesWithout(m - {k}, j);
      assert m - {j} - {k} == m - {k} - {j};
    }
  }

  lemma BytesWith(m: map<Name, Name>, k: Name, s: Name)
    requires k !in m
    ensures Bytes(m[k := s]) == Bytes(m) + |k| + |s|
  {
    BytesWithout(m[k := s], k);
    assert m[k := s] - {k} == m;
  }

  // ------------------------------------------------------------ the inverse

  /** `selectors` lists exactly the keys of every selector that has any. */
  ghost predicate Inverse(entries: map<Name, Name>, selectors: map<Name, set<Name>>) {
    && (forall k | k in entries :: entries[k] in selectors)
    && (forall s | s in selectors :: selectors[s] != {})
    && (forall s, k | s in selectors :: k in selectors[s] <==> k in entries && entries[k] == s)
  }

  /** The inverse without one key; a selector that has no key left goes too. */
  function Unlisted(selectors: map<Name, set<Name>>, selector: Name, key: Name): map<Name, set<Name>>
    requires selector in selectors
  {
    if selectors[selector] - {key} == {} then selectors - {selector} else selectors[selector := selectors[selector] - {key}]
  }

  function Added(selectors: map<Name, set<Name>>, selector: Name, key: Name): map<Name, set<Name>> {
    selectors[selector := (if selector in selectors then selectors[selector] else {}) + {key}]
  }

  lemma InverseWithout(entries: map<Name, Name>, selectors: map<Name, set<Name>>, key: Name)
    requires Inverse(entries, selectors) && key in entries
    ensures Inverse(entries - {key}, Unlisted(selectors, entries[key], key))
  {
    var entries', selectors' := entries - {key}, Unlisted(selectors, entries[key], key);
    forall k | k in entries'
      ensures entries'[k] in selectors'
    {
      if entries[k] == entries[key] {
        assert k in selectors[entries[key]] - {key};
      }
    }
  }

  lemma InverseWith(entries: map<Name, Name>, selectors: map<Name, set<Name>>, selector: Name, key: Name)
    requires Inverse(entries, selectors) && key !in entries
    ensures Inverse(entries[key := selector], Added(selectors, selector, key))
  {
    var entries', selectors' := entries[key := selector], Added(selectors, selector, key);
    assert key in selectors'[selector];
  }

  /** The keys whose selector starts with `prefix`. */
  function KeysWithPrefix(entries: map<Name, Name>, prefix: Name): set<Name> {
    set k | k in entries && prefix <= entries[k]
  }

  function KeysOf(entries: map<Name, Name>, selector: Name): set<Name> {
    set k | k in entries && entries[k] == selector
  }

  /** The keys of the selectors in `some` that start with `prefix`. */
  function KeysWithPrefixIn(entries: map<Name, Name>, prefix: Name, some: set<Name>): set<Name> {
    set k | k in entries && entries[k] in some && prefix <= entries[k]
  }

  lemma KeysAreFew(entries: map<Name, Name>, keys: set<Name>)
    requires keys <= entries.Keys
    ensures |keys| <= |entries|
  {
    SubsetSize(keys, entries.Keys);
  }

  lemma {:induction false} SubsetSize(a: set<Name>, b: set<Name>)
    requires a <= b
    ensures |a| <= |b|
    decreases |a|
  {
    if a != {} {
      var x :| x in a;
      SubsetSize(a - {x}, b - {x});
    }
  }

  predicate IdentityOk(key: Name, selector: Name) {
    0 < |key| <= MAX_KEY_BYTES && 0 < |selector| <= MAX_KEY_BYTES
  }

  /** Both indexes agree, the byte total is exact, and every limit is kept. */
  ghost predicate Book(entries: map<Name, Name>, selectors: map<Name, set<Name>>, bytes: nat, capacity: nat) {
    && Inverse(entries, selectors) && bytes == Bytes(entries) <= MAX_INDEX_BYTES
    && |entries| <= capacity <= MAX_ENTRIES
    && forall k | k in entries :: IdentityOk(k, entries[k])
  }

  lemma BookWithout(entries: map<Name, Name>, selectors: map<Name, set<Name>>, bytes: nat, capacity: nat, key: Name)
    requires Book(entries, selectors, bytes, capacity) && key in entries
    ensures bytes >= |key| + |entries[key]|
    ensures Book(entries - {key}, Unlisted(selectors, entries[key], key), bytes - (|key| + |entries[key]|), capacity)
    ensures |entries - {key}| == |entries| - 1
  {
    BytesWithout(entries, key);
    InverseWithout(entries, selectors, key);
  }

  lemma BookWith(
    entries: map<Name, Name>, selectors: map<Name, set<Name>>, bytes: nat, capacity: nat, key: Name, selector: Name)
    requires Book(entries, selectors, bytes, capacity) && key !in entries && IdentityOk(key, selector)
    requires |entries| < capacity && bytes + |key| + |selector| <= MAX_INDEX_BYTES
    ensures Book(entries[key := selector], Added(selectors, selector, key), bytes + |key| + |selector|, capacity)
  {
    BytesWith(entries, key, selector);
    InverseWith(entries, selectors, selector, key);
  }

  lemma SameUpdate(m: map<Name, Name>, m': map<Name, Name>, key: Name, selector: Name)
    requires m' == m - {key} || (m' == m && key !in m)
    ensures m[key := selector] == m'[key := selector]
  {
  }

  class DirTrie {
    var entries: map<Name, Name>
    var selectors: map<Name, set<Name>>
    const capacity: nat
    var bytes: nat

    ghost predicate Valid()
      reads this
    {
      Book(entries, selectors, bytes, capacity)
    }

    constructor (limit: int)
      ensures Valid() && entries == map[] && capacity == if limit < 0 then 0 else if limit < MAX_ENTRIES then limit else MAX_ENTRIES
    {
      entries, selectors, bytes := map[], map[], 0;
      capacity := if limit < 0 then 0 else if limit < MAX_ENTRIES then limit else MAX_ENTRIES;
    }

    /** Both indexes forget the key. */
    method DeleteLocked(key: Name)
      requires Valid()
      modifies this
      ensures Valid() && entries == old(entries) - {key}
      ensures key in old(entries) ==> bytes == old(bytes) - (|key| + |old(entries)[key]|) && |entries| == |old(entries)| - 1
    {
      if key in entries {
        var selector := entries[key];
        BookWithout(entries, selectors, bytes, capacity, key);
        bytes := bytes - (|key| + |selector|);
        entries := entries - {key};
        selectors := Unlisted(selectors, selector, key);
      } else {
        assert entries - {key} == entries;
      }
    }

    /** Bind a key to a selector, or refuse and change nothing. */
    method SetIdentity(key: Name, selector: Name) returns (ok: bool)
      requires Valid()
      modifies this
      ensures Valid()
      ensures ok <==>
        && IdentityOk(key, selector) && (key in old(entries) || |old(entries)| < capacity)
        && Bytes(old(entries)[key := selector]) <= MAX_INDEX_BYTES
      ensures entries == if ok then old(entries)[key := selector] else old(entries)
    {
      if !IdentityOk(key, selector) {
        return false;
      }
      var size := bytes + |key| + |selector|;
      ghost var rest := entries - {key};
      if key in entries {
        BytesWithout(entries, key);
        size := size - (|key| + |entries[key]|);
      } else {
        assert rest == entries;
      }
      BytesWith(rest, key, selector);
      assert rest[key := selector] == entries[key := selector];
      if (key !in entries && |entries| >= capacity) || size > MAX_INDEX_BYTES {
        return false;
      }
      ok := true;
      SetFitting(key, selector, size);
    }

    method SetFitting(key: Name, selector: Name, size: nat)
      requires Valid() && IdentityOk(key, selector) && (key in entries || |entries| < capacity)
      requires size == bytes + |key| + |selector| - (if key in entries then |key| + |entries[key]| else 0) <= MAX_INDEX_BYTES
      modifies this
      ensures Valid() && entries == old(entries)[key := selector]
    {
      if key in entries {
        DeleteLocked(key);
      }
      SameUpdate(old(entries), entries, key, selector);
      BookWith(entries, selectors, bytes, capacity, key, selector);
      entries := entries[key := selector];
      selectors := Added(selectors, selector, key);
      bytes := size;
    }

    /** Exactly the keys of a selector, unless there are more than `limit`. */
    method KeysForSelectorLimit(selector: Name, limit: int) returns (ok: bool, keys: set<Name>)
      requires Valid()
      ensures ok <==> |KeysOf(entries, selector)| <= limit
      ensures ok ==> keys == KeysOf(entries, selector)
    {
      keys := if selector in selectors then selectors[selector] else {};
      assert keys == KeysOf(entries, selector);
      ok := |keys| <= limit;
    }

    /** Exactly the keys whose selector has the prefix, unless there are more than `limit`. */
    method KeysForPrefixLimit(prefix: Name, limit: int) returns (ok: bool, keys: set<Name>)
      requires Valid() && limit >= 0
      ensures ok <==> |KeysWithPrefix(entries, prefix)| <= limit
      ensures ok ==> keys == KeysWithPrefix(entries, prefix)
    {
      keys := {};
      var todo := selectors.Keys;
      NoSelectors(entries, prefix, todo);
      while todo != {}
        invariant todo <= selectors.Keys
        invariant keys == KeysWithPrefixIn(entries, prefix, selectors.Keys - todo) && |keys| <= limit
        decreases |todo|
      {
        var s :| s in todo;
        ok, keys := TakeSelector(prefix, limit, todo, keys, s);
        if !ok {
          FewerInSome(entries, prefix, selectors.Keys - (todo - {s}));
          return;
        }
        todo := todo - {s};
      }
      AllSelectors(entries, selectors, prefix, todo);
      ok := true;
    }

    /** Add the keys of one more selector if it has the prefix. */
    method TakeSelector(prefix: Name, limit: int, ghost todo: set<Name>, keys: set<Name>, s: Name)
      returns (ok: bool, keys': set<Name>)
      requires Inverse(entries, selectors) && s in todo && todo <= selectors.Keys
      requires keys == KeysWithPrefixIn(entries, prefix, selectors.Keys - todo) && |keys| <= limit
      ensures ok <==> |KeysWithPrefixIn(entries, prefix, selectors.Keys - (todo - {s}))| <= limit
      ensures ok ==> keys' == KeysWithPrefixIn(entries, prefix, selectors.Keys - (todo - {s}))
    {
      ghost var done := selectors.Keys - todo;
      assert selectors.Keys - (todo - {s}) == done + {s};
      KeysOneMore(entries, selectors, prefix, done, s);
      if !(prefix <= s) {
        return true, keys;
      }
      if |keys| + |selectors[s]| > limit {
        return false, {};
      }
      return true, keys + selectors[s];
    }

    /** The limit on entries makes the lookup complete. */
    method Get(prefix: Name) returns (keys: set<Name>)
      requires Valid()
      ensures keys == KeysWithPrefix(entries, prefix)
    {
      KeysAreFew(entries, KeysWithPrefix(entries, prefix));
      var _, found := KeysForPrefixLimit(prefix, MAX_ENTRIES);
      keys := found;
    }

    method KeysForSelector(selector: Name) returns (keys: set<Name>)
      requires Valid()
      ensures keys == KeysOf(entries, selector)
    {
      KeysAreFew(entries, KeysOf(entries, selector));
      var _, found := KeysForSelectorLimit(selector, MAX_ENTRIES);
      keys := found;
    }

    /** Every entry once. */
    method Snapshot() returns (list: seq<IndexEntry>)
      requires Valid()
      ensures |list| == |entries| && Listed(list) == entries && NoKeyTwice(list)
    {
      list := [];
      var todo := entries.Keys;
      assert entries - todo == map[];
      while todo != {}
        invariant todo <= entries.Keys && NoKeyTwice(list)
        invariant Listed(list) == entries - todo && |list| + |todo| == |entries.Keys|
        decreases |todo|
      {
        var k :| k in todo;
        ListedOneMore(list, IndexEntry(k, entries[k]));
        list := list + [IndexEntry(k, entries[k])];
        OneLess(entries, todo, k);
        todo := todo - {k};
      }
      assert entries - todo == entries;
    }

    /** Replace the whole index, or change nothing. */
    method Restore(list: seq<IndexEntry>) returns (ok: bool)
      requires Valid()
      modifies this
      ensures Valid()
      ensures ok <==> Restorable(list, capacity)
      ensures entries == if ok then Listed(list) else old(entries)
    {
      var replacement := new DirTrie(capacity);
      ok := replacement.Fill(list);
      if ok {
        entries, selectors, bytes := replacement.entries, replacement.selectors, replacement.bytes;
      }
    }

    /** Enter a whole list into an empty index. */
    method Fill(list: seq<IndexEntry>) returns (ok: bool)
      requires Valid() && |entries| == 0
      modifies this
      ensures Valid() && (ok <==> Restorable(list, capacity)) && (ok ==> entries == Listed(list))
    {
      var i := 0;
      NothingListed(list, entries);
      while i < |list|
        invariant i <= |list| && Valid() && Filled(list, i)
      {
        ok := FillNext(list, i);
        if !ok {
          return;
        }
        i := i + 1;
      }
      assert list[..i] == list;
      ok := true;
    }

    ghost predicate Filled(list: seq<IndexEntry>, i: nat)
      requires i <= |list|
      reads this
    {
      && NoKeyTwice(list[..i]) && entries == Listed(list[..i]) && |entries| == i
      && forall j | 0 <= j < i :: IdentityOk(list[j].key, list[j].selector)
    }

    method FillNext(list: seq<IndexEntry>, i: nat) returns (ok: bool)
      requires Valid() && i < |list| && Filled(list, i)
      modifies this
      ensures Valid() && (!ok ==> !Restorable(list, capacity)) && (ok ==> Filled(list, i + 1))
    {
      if Restorable(list, capacity) {
        PrefixRestorable(list, i, capacity);
      }
      PrefixOfList(list, i);
      if list[i].key in entries {
        return false;
      }
      ok := SetIdentity(list[i].key, list[i].selector);
    }
  }

  lemma KeysOneMore(entries: map<Name, Name>, selectors: map<Name, set<Name>>, prefix: Name, done: set<Name>, s: Name)
    requires Inverse(entries, selectors) && s in selectors && s !in done
    ensures KeysWithPrefixIn(entries, prefix, done + {s}) ==
            KeysWithPrefixIn(entries, prefix, done) + if prefix <= s then selectors[s] else {}
    ensures KeysWithPrefixIn(entries, prefix, done) !! selectors[s]
    ensures prefix <= s ==>
      |KeysWithPrefixIn(entries, prefix, done + {s})| == |KeysWithPrefixIn(entries, prefix, done)| + |selectors[s]|
  {
  }

  lemma NoSelectors(entries: map<Name, Name>, prefix: Name, all: set<Name>)
    ensures KeysWithPrefixIn(entries, prefix, all - all) == {}
  {
  }

  lemma OneLess(entries: map<Name, Name>, todo: set<Name>, k: Name)
    requires k in todo && k in entries
    ensures entries - (todo - {k}) == (entries - todo)[k := entries[k]]
  {
  }

  lemma FewerInSome(entries: map<Name, Name>, prefix: Name, some: set<Name>)
    ensures |KeysWithPrefixIn(entries, prefix, some)| <= |KeysWithPrefix(entries, prefix)|
  {
    SubsetSize(KeysWithPrefixIn(entries, prefix, some), KeysWithPrefix(entries, prefix));
  }

  lemma AllSelectors(entries: map<Name, Name>, selectors: map<Name, set<Name>>, prefix: Name, todo: set<Name>)
    requires Inverse(entries, selectors) && todo == {}
    ensures KeysWithPrefixIn(entries, prefix, selectors.Keys - todo) == KeysWithPrefix(entries, prefix)
  {
    assert selectors.Keys - todo == selectors.Keys;
  }

  // ------------------------------------------------------------ lists of entries

  predicate NoKeyTwice(list: seq<IndexEntry>) {
    forall i, j | 0 <= i < j < |list| :: list[i].key != list[j].key
  }

  /** No repeated key, within all limits, and no malformed entry. */
  ghost predicate Restorable(list: seq<IndexEntry>, capacity: nat) {
    && NoKeyTwice(list) && |list| <= capacity && Bytes(Listed(list)) <= MAX_INDEX_BYTES
    && forall i | 0 <= i < |list| :: IdentityOk(list[i].key, list[i].selector)
  }

  function Listed(list: seq<IndexEntry>): map<Name, Name> {
    if list == [] then map[]
    else Listed(list[..|list| - 1])[list[|list| - 1].key := list[|list| - 1].selector]
  }

  lemma NothingListed(list: seq<IndexEntry>, m: map<Name, Name>)
    requires |m| == 0
    ensures NoKeyTwice(list[..0]) && m == Listed(list[..0])
  {
  }

  lemma {:induction false} ListedHas(list: seq<IndexEntry>, k: Name)
    ensures k in Listed(list) <==> exists i :: 0 <= i < |list| && list[i].key == k
  {
    if list != [] {
      var rest := list[..|list| - 1];
      ListedHas(rest, k);
      if k in Listed(rest) {
        var i :| 0 <= i < |rest| && rest[i].key == k;
        assert list[i].key == k;
      }
    }
  }

  lemma ListedOneMore(list: seq<IndexEntry>, e: IndexEntry)
    ensures Listed(list + [e]) == Listed(list)[e.key := e.selector]
    ensures e.key !in Listed(list) && NoKeyTwice(list) ==> NoKeyTwice(list + [e])
    ensures e.key in Listed(list) ==> !NoKeyTwice(list + [e])
  {
    assert (list + [e])[..|list|] == list;
    ListedHas(list, e.key);
    if e.key in Listed(list) {
      var i :| 0 <= i < |list| && list[i].key == e.key;
      assert (list + [e])[i].key == (list + [e])[|list|].key;
    }
  }

  lemma {:induction false} ListedBytes(list: seq<IndexEntry>, i: nat)
    requires i <= |list| && NoKeyTwice(list)
    ensures Bytes(Listed(list[..i])) <= Bytes(Listed(list))
    decreases |list|
  {
    if i == |list| {
      assert list[..i] == list;
    } else {
      var rest, last := list[..|list| - 1], list[|list| - 1];
      ListedBytes(rest, i);
      assert rest[..i] == list[..i] && list == rest + [last];
      ListedOneMore(rest, last);
      BytesWith(Listed(rest), last.key, last.selector);
    }
  }

  /** Adding one more entry of a list: it was there before exactly when the list repeats a key. */
  lemma PrefixOfList(list: seq<IndexEntry>, i: nat)
    requires i < |list| && NoKeyTwice(list[..i])
    ensures Listed(list[..i + 1]) == Listed(list[..i])[list[i].key := list[i].selector]
    ensures NoKeyTwice(list[..i + 1]) <==> list[i].key !in Listed(list[..i])
  {
    assert list[..i + 1] == list[..i] + [list[i]];
    ListedOneMore(list[..i], list[i]);
  }

  /** Every prefix of what can be restored can be restored. */
  lemma PrefixRestorable(list: seq<IndexEntry>, i: nat, capacity: nat)
    requires i < |list| && Restorable(list, capacity)
    ensures NoKeyTwice(list[..i + 1]) && i < capacity && Bytes(Listed(list[..i + 1])) <= MAX_INDEX_BYTES
    ensures IdentityOk(list[i].key, list[i].selector)
  {
    ListedBytes(list, i + 1);
  }

  lemma {:induction false} ListedAt(list: seq<IndexEntry>, i: nat)
    requires i < |list| && NoKeyTwice(list)
    ensures list[i].key in Listed(list) && Listed(list)[list[i].key] == list[i].selector
  {
    if i < |list| - 1 {
      var rest := list[..|list| - 1];
      ListedAt(rest, i);
      assert list[i].key != list[|list| - 1].key;
    }
  }

  /** What a snapshot lists can be restored. */
  method SaveAndRestore(t: DirTrie, u: DirTrie) returns (ok: bool)
    requires t.Valid() && u.Valid() && t != u && u.capacity == t.capacity
    modifies u
    ensures ok && u.Valid() && u.entries == t.entries
  {
    var list := t.Snapshot();
    forall i | 0 <= i < |list|
      ensures IdentityOk(list[i].key, list[i].selector)
    {
      ListedAt(list, i);
    }
    ok := u.Restore(list);
  }
}
