/** The benchmark's trie storage: changes collected in an overlay over a database, then flushed in one transaction. */
module SimpleTries {
  import opened Prelude

  type Hash = nat
  type Prefix = seq<nat>

  /** A key-value database; only column 0 is used. */
  class Database {
    var column: map<Bytes, Bytes>

    constructor (column: map<Bytes, Bytes>)
      ensures this.column == column
    {
      this.column := column;
    }

    /** Applies the operations of a transaction one after the other. */
    method Write(transaction: seq<DbOp>)
      modifies this
      ensures column == Applied(old(column), transaction)
    {
      for i := 0 to |transaction|
        invariant column == Applied(old(column), transaction[..i])
      {
        assert transaction[..i + 1][..i] == transaction[..i];
        match transaction[i]
        case Put(key, value) => column := column[key := value];
        case Delete(key) => column := column - {key};
      }
      assert transaction[..|transaction|] == transaction;
    }
  }

  datatype DbOp = Put(key: Bytes, value: Bytes) | Delete(key: Bytes)

  function Applied(m: map<Bytes, Bytes>, ops: seq<DbOp>): map<Bytes, Bytes> {
    if ops == [] then m
    else
      match ops[|ops| - 1]
      case Put(key, value) => Applied(m, ops[..|ops| - 1])[key := value]
      case Delete(key) => Applied(m, ops[..|ops| - 1]) - {key}
  }

  function Lookup(m: map<Bytes, Bytes>, key: Bytes): Option<Bytes> {
    if key in m then Some(m[key]) else None
  }

  type Overlay = map<Bytes, Option<Bytes>>

  /** The one plain map that an overlay over a database stands for. */
  ghost function View(column: map<Bytes, Bytes>, overlay: Overlay): (view: map<Bytes, Bytes>)
    ensures forall k :: Lookup(view, k) == if k in overlay then overlay[k] else Lookup(column, k)
  {
    map k | k in column.Keys + overlay.Keys && (k in overlay ==> overlay[k].Some?)
      :: if k in overlay then overlay[k].value else column[k]
  }

  /** A change asked of the trie storage. */
  datatype TrieOp =
    | Emplace(key: Hash, prefix: Prefix, value: Bytes)
    | Insert(prefix: Prefix, value: Bytes)
    | Remove(key: Hash, prefix: Prefix)

  /** How hashes and prefixes become database keys, and how values are hashed. */
  datatype Keying = Keying(prefixedKey: (Hash, Prefix) -> Bytes, hash: Bytes -> Hash)

  /** The same change made to a plain map. */
  function OnMap(keying: Keying, m: map<Bytes, Bytes>, op: TrieOp): map<Bytes, Bytes> {
    match op
    case Emplace(key, prefix, value) => m[keying.prefixedKey(key, prefix) := value]
    case Insert(prefix, value) => m[keying.prefixedKey(keying.hash(value), prefix) := value]
    case Remove(key, prefix) => m - {keying.prefixedKey(key, prefix)}
  }

  function AllOnMap(keying: Keying, m: map<Bytes, Bytes>, ops: seq<TrieOp>): map<Bytes, Bytes> {
    if ops == [] then m else OnMap(keying, AllOnMap(keying, m, ops[..|ops| - 1]), ops[|ops| - 1])
  }

  // ----- What a run of changes leaves behind, read by read -----

  function ChangedKey(keying: Keying, op: TrieOp): Bytes {
    match op
    case Emplace(key, prefix, value) => keying.prefixedKey(key, prefix)
    case Insert(prefix, value) => keying.prefixedKey(keying.hash(value), prefix)
    case Remove(key, prefix) => keying.prefixedKey(key, prefix)
  }

  ghost predicate NoChangeFrom(keying: Keying, ops: seq<TrieOp>, i: int, k: Bytes)
    requires 0 <= i
  {
    forall j :: i <= j < |ops| ==> ChangedKey(keying, ops[j]) != k
  }

  ghost predicate IsLastChange(keying: Keying, ops: seq<TrieOp>, i: int, k: Bytes) {
    0 <= i < |ops| && ChangedKey(keying, ops[i]) == k && NoChangeFrom(keying, ops, i + 1, k)
  }

  /**
   What m holds under every key after a run of changes: what the last change of the key put there, nothing if that was
   a removal, and what n holds if no change was about the key.
   */
  ghost predicate ShowsLastChanges(keying: Keying, ops: seq<TrieOp>, m: map<Bytes, Bytes>, n: map<Bytes, Bytes>) {
    && (forall k, i :: IsLastChange(keying, ops, i, k) ==>
          Lookup(m, k) == if ops[i].Remove? then None else Some(ops[i].value))
    && (forall k :: NoChangeFrom(keying, ops, 0, k) ==> Lookup(m, k) == Lookup(n, k))
  }

  lemma OneChange(keying: Keying, m: map<Bytes, Bytes>, op: TrieOp, k: Bytes)
    ensures Lookup(OnMap(keying, m, op), k)
         == if ChangedKey(keying, op) != k then Lookup(m, k) else if op.Remove? then None else Some(op.value)
  {
  }

  /** The last change of a key is in the last call, or the same as in the calls before it. */
  lemma LastChangeBefore(keying: Keying, ops: seq<TrieOp>, k: Bytes)
    requires ops != []
    ensures var n := |ops| - 1;
            && (forall i :: IsLastChange(keying, ops, i, k) ==>
                  if ChangedKey(keying, ops[n]) == k then i == n else IsLastChange(keying, ops[..n], i, k))
            && (NoChangeFrom(keying, ops, 0, k) ==>
                  ChangedKey(keying, ops[n]) != k && NoChangeFrom(keying, ops[..n], 0, k))
  {
    var n := |ops| - 1;
    forall i | IsLastChange(keying, ops, i, k)
      ensures if ChangedKey(keying, ops[n]) == k then i == n else IsLastChange(keying, ops[..n], i, k)
    {
      assert i < n ==> ChangedKey(keying, ops[n]) != k;
    }
  }

  lemma {:induction false} LastChangesShow(keying: Keying, m: map<Bytes, Bytes>, ops: seq<TrieOp>)
    ensures ShowsLastChanges(keying, ops, AllOnMap(keying, m, ops), m)
  {
    if ops != [] {
      var n := |ops| - 1;
      var before := AllOnMap(keying, m, ops[..n]);
      LastChangesShow(keying, m, ops[..n]);
      forall k, i | IsLastChange(keying, ops, i, k)
        ensures Lookup(AllOnMap(keying, m, ops), k) == if ops[i].Remove? then None else Some(ops[i].value)
      {
        LastChangeBefore(keying, ops, k);
        OneChange(keying, before, ops[n], k);
      }
      forall k | NoChangeFrom(keying, ops, 0, k)
        ensures Lookup(AllOnMap(keying, m, ops), k) == Lookup(m, k)
      {
        LastChangeBefore(keying, ops, k);
        OneChange(keying, before, ops[n], k);
      }
    }
  }

  /** A key that some change is about has a last one. */
  lemma {:induction false} LastChangeExists(keying: Keying, ops: seq<TrieOp>, k: Bytes)
    requires !NoChangeFrom(keying, ops, 0, k)
    ensures exists i :: IsLastChange(keying, ops, i, k)
  {
    var n := |ops| - 1;
    if ChangedKey(keying, ops[n]) == k {
      assert IsLastChange(keying, ops, n, k);
    } else {
      assert !NoChangeFrom(keying, ops[..n], 0, k);
      LastChangeExists(keying, ops[..n], k);
      var i :| IsLastChange(keying, ops[..n], i, k);
      assert IsLastChange(keying, ops, i, k);
    }
  }

  class SimpleTrie {
    const keying: Keying
    const db: Database
    var overlay: Overlay

    constructor (keying: Keying, db: Database, overlay: Overlay)
      ensures this.keying == keying && this.db == db && this.overlay == overlay
    {
      this.keying := keying;
      this.db := db;
      this.overlay := overlay;
    }

    ghost function Seen(): map<Bytes, Bytes>
      reads this, db
    {
      View(db.column, overlay)
    }

    method Get(key: Hash, prefix: Prefix) returns (value: Option<Bytes>)
      ensures value == Lookup(Seen(), keying.prefixedKey(key, prefix))
    {
      var k := keying.prefixedKey(key, prefix);
      if k in overlay {
        return overlay[k];
      }
      return if k in db.column then Some(db.column[k]) else None;
    }

    method Contains(key: Hash, prefix: Prefix) returns (present: bool)
      ensures present <==> keying.prefixedKey(key, prefix) in Seen()
    {
      var value := Get(key, prefix);
      return value.Some?;
    }

    method Insert(prefix: Prefix, value: Bytes) returns (key: Hash)
      modifies this
      ensures key == keying.hash(value)
      ensures Seen() == OnMap(keying, old(Seen()), TrieOp.Insert(prefix, value))
      ensures Lookup(Seen(), keying.prefixedKey(keying.hash(value), prefix)) == Some(value)
      ensures forall k :: k != keying.prefixedKey(keying.hash(value), prefix) ==>
                Lookup(Seen(), k) == old(Lookup(Seen(), k))
    {
      key := keying.hash(value);
      Emplace(key, prefix, value);
    }

    method Emplace(key: Hash, prefix: Prefix, value: Bytes)
      modifies this
      ensures Seen() == OnMap(keying, old(Seen()), TrieOp.Emplace(key, prefix, value))
      ensures Lookup(Seen(), keying.prefixedKey(key, prefix)) == Some(value)
      ensures forall k :: k != keying.prefixedKey(key, prefix) ==> Lookup(Seen(), k) == old(Lookup(Seen(), k))
    {
      var k := keying.prefixedKey(key, prefix);
      overlay := overlay[k := Some(value)];
      SameLookups(Seen(), old(Seen())[k := value]);
    }

    method Remove(key: Hash, prefix: Prefix)
      modifies this
      ensures Seen() == OnMap(keying, old(Seen()), TrieOp.Remove(key, prefix))
      ensures Lookup(Seen(), keying.prefixedKey(key, prefix)) == None
      ensures forall k :: k != keying.prefixedKey(key, prefix) ==> Lookup(Seen(), k) == old(Lookup(Seen(), k))
    {
      var k := keying.prefixedKey(key, prefix);
      overlay := overlay[k := None];
      SameLookups(Seen(), old(Seen()) - {k});
    }
  }

  lemma SameLookups(m: map<Bytes, Bytes>, n: map<Bytes, Bytes>)
    requires forall k :: Lookup(m, k) == Lookup(n, k)
    ensures m == n
  {
    assert forall k :: k in m <==> Lookup(m, k).Some?;
    assert forall k :: k in n <==> Lookup(n, k).Some?;
    forall k | k in m
      ensures m[k] == n[k]
    {
      assert Lookup(m, k) == Lookup(n, k);
    }
  }

  // ----- The flush -----

  /** The transaction lists every overlay entry once, in some order: a put for a value, a delete for a removal. */
  ghost predicate Flushes(ops: seq<DbOp>, overlay: Overlay) {
    && (forall i, j :: 0 <= i < j < |ops| ==> ops[i].key != ops[j].key)
    && (forall i :: 0 <= i < |ops| ==> ops[i].key in overlay && ops[i] == FlushOp(overlay, ops[i].key))
    && (forall k :: k in overlay ==> exists i :: 0 <= i < |ops| && ops[i].key == k)
  }

  function FlushOp(overlay: Overlay, key: Bytes): DbOp
    requires key in overlay
  {
    match overlay[key]
    case Some(value) => Put(key, value)
    case None => Delete(key)
  }

  lemma {:induction false} AppliedKeepsOthers(m: map<Bytes, Bytes>, ops: seq<DbOp>, key: Bytes)
    requires forall i :: 0 <= i < |ops| ==> ops[i].key != key
    ensures Lookup(Applied(m, ops), key) == Lookup(m, key)
  {
    if ops != [] {
      AppliedKeepsOthers(m, ops[..|ops| - 1], key);
    }
  }

  /** The last operation on a key decides what the database then holds under it. */
  lemma {:induction false} AppliedSets(m: map<Bytes, Bytes>, ops: seq<DbOp>, i: nat)
    requires i < |ops| && forall j :: i < j < |ops| ==> ops[j].key != ops[i].key
    ensures Lookup(Applied(m, ops), ops[i].key) == if ops[i].Put? then Some(ops[i].value) else None
  {
    if i < |ops| - 1 {
      AppliedSets(m, ops[..|ops| - 1], i);
    }
  }

  /** Whatever the order of the entries, the flushed database alone answers as the overlay view did. */
  lemma FlushIsTheView(column: map<Bytes, Bytes>, overlay: Overlay, ops: seq<DbOp>)
    requires Flushes(ops, overlay)
    ensures Applied(column, ops) == View(column, overlay)
  {
    forall k
      ensures Lookup(Applied(column, ops), k) == Lookup(View(column, overlay), k)
    {
      if k in overlay {
        var i :| 0 <= i < |ops| && ops[i].key == k;
        AppliedSets(column, ops, i);
      } else {
        AppliedKeepsOthers(column, ops, k);
      }
    }
    SameLookups(Applied(column, ops), View(column, overlay));
  }

  /** Two flushes of one overlay leave the same database, however differently they order the entries. */
  lemma {:induction false} FlushOrderDoesNotMatter(column: map<Bytes, Bytes>, overlay: Overlay,
                                                  ops: seq<DbOp>, reordered: seq<DbOp>)
    requires Flushes(ops, overlay) && multiset(ops) == multiset(reordered)
    ensures Applied(column, reordered) == Applied(column, ops) == View(column, overlay)
  {
    forall i | 0 <= i < |reordered|
      ensures reordered[i] in ops
    {
      assert reordered[i] in multiset(reordered);
    }
    forall i, j | 0 <= i < j < |reordered|
      ensures reordered[i].key != reordered[j].key
    {
      if reordered[i].key == reordered[j].key {
        RepeatedTwice(reordered, i, j);
        var a, b := TwiceRepeated(ops, reordered[i]);
      }
    }
    forall k | k in overlay
      ensures exists i :: 0 <= i < |reordered| && reordered[i].key == k
    {
      var i :| 0 <= i < |ops| && ops[i].key == k;
      assert ops[i] in multiset(ops);
      var j :| 0 <= j < |reordered| && reordered[j] == ops[i];
    }
    FlushIsTheView(column, overlay, ops);
    FlushIsTheView(column, overlay, reordered);
  }

  /** Writes every overlay entry in one transaction, taking the entries in no particular order. */
  method Flush(db: Database, overlay: Overlay)
    modifies db
    ensures db.column == View(old(db.column), overlay)
  {
    var transaction: seq<DbOp> := [];
    var left := overlay.Keys;
    while left != {}
      invariant left <= overlay.Keys
      invariant forall i, j :: 0 <= i < j < |transaction| ==> transaction[i].key != transaction[j].key
      invariant forall i :: 0 <= i < |transaction| ==>
                  && transaction[i].key in overlay && transaction[i].key !in left
                  && transaction[i] == FlushOp(overlay, transaction[i].key)
      invariant forall k :: k in overlay && k !in left ==> exists i :: 0 <= i < |transaction| && transaction[i].key == k
    {
      var key :| key in left;
      ghost var before := transaction;
      match overlay[key] {
        case Some(value) => transaction := transaction + [Put(key, value)];
        case None => transaction := transaction + [Delete(key)];
      }
      left := left - {key};
      forall k | k in overlay && k !in left
        ensures exists i :: 0 <= i < |transaction| && transaction[i].key == k
      {
        if k == key {
          assert transaction[|before|].key == k;
        } else {
          var i :| 0 <= i < |before| && before[i].key == k;
          assert transaction[i].key == k;
        }
      }
    }
    FlushIsTheView(db.column, overlay, transaction);
    db.Write(transaction);
  }

  // ----- Generating a trie -----

  /** The entry every generated overlay starts with. */
  function WithNullKey(column: map<Bytes, Bytes>, nullKey: Bytes): map<Bytes, Bytes> {
    column[nullKey := [0]]
  }

  /**
   Fills the database with what the trie code does to its storage, given here as any sequence of changes: the
   database ends up as if the null key and then the changes had been applied to it directly.
   */
  method GenerateTrie(keying: Keying, db: Database, nullKey: Bytes, ops: seq<TrieOp>)
    modifies db
    ensures db.column == AllOnMap(keying, WithNullKey(old(db.column), nullKey), ops)
    ensures ShowsLastChanges(keying, ops, db.column, old(db.column)[nullKey := [0]])
  {
    LastChangesShow(keying, WithNullKey(db.column, nullKey), ops);
    var overlay: Overlay := map[nullKey := Some([0])];
    var trie := new SimpleTrie(keying, db, overlay);
    SameLookups(trie.Seen(), WithNullKey(db.column, nullKey));
    for i := 0 to |ops|
      invariant db.column == old(db.column) && trie.db == db && trie.keying == keying
      invariant trie.Seen() == AllOnMap(keying, WithNullKey(old(db.column), nullKey), ops[..i])
    {
      assert ops[..i + 1][..i] == ops[..i];
      match ops[i]
      case Emplace(key, prefix, value) => trie.Emplace(key, prefix, value);
      case Insert(prefix, value) => var _ := trie.Insert(prefix, value);
      case Remove(key, prefix) => trie.Remove(key, prefix);
    }
    assert ops[..|ops|] == ops;
    Flush(db, trie.overlay);
  }
}
