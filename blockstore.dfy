/**
 The in-memory content-addressed block store that the file-sync engine is
 wired against: a table from the key string of a content identifier to the
 block stored under it, updated in place by `Add` and `Delete` and read by
 `Get`, `GetMany`, `ExistsCids` and `NotExistsBlocks`.
 */
module BlockStore {
  import opened Wrappers

  /** A content identifier, opaque to the store. */
  datatype Cid = Cid(hash: string)

  /** The key under which the store files a block; the key determines the identifier. */
  function KeyString(c: Cid): (k: string)
    ensures Cid(k) == c
  {
    c.hash
  }

  /** A block is an immutable payload that carries its own identifier. */
  datatype Block = Block(cid: Cid, rawData: seq<bv8>)

  /** Errors the store reports. */
  datatype StoreError = ErrCIDNotFound

  /** The store's contents. */
  type Table = map<string, Block>

  /** Every block is filed under the key of its own identifier. */
  ghost predicate Keyed(m: Table) {
    forall k :: k in m ==> KeyString(m[k].cid) == k
  }

  /** The store holds a block under the key of `c`; in a keyed table, that block carries `c`. */
  predicate Present(m: Table, c: Cid): (b: bool)
    ensures (b <==> KeyString(c) in m) && (b && Keyed(m) ==> m[KeyString(c)].cid == c)
  {
    KeyString(c) in m
  }

  /** The identifiers of the blocks of `bs`, in order. */
  function CidsOf(bs: seq<Block>): (cs: seq<Cid>)
    ensures |cs| == |bs|
    ensures forall j :: 0 <= j < |bs| ==> cs[j] == bs[j].cid
  {
    if bs == [] then [] else [bs[0].cid] + CidsOf(bs[1..])
  }

  /** The set of keys the blocks of `bs` are filed under. */
  ghost function KeysOf(bs: seq<Block>): set<string> {
    set b | b in bs :: KeyString(b.cid)
  }

  // ---------------------------------------------------------------------------
  // Specifications of the queries
  // ---------------------------------------------------------------------------

  /** The elements of `ks` that are present in `m`, in order, duplicates kept. */
  function ExistsIn(m: Table, ks: seq<Cid>): (r: seq<Cid>)
    ensures |r| <= |ks|
  {
    if ks == [] then []
    else (if Present(m, ks[0]) then [ks[0]] else []) + ExistsIn(m, ks[1..])
  }

  /** The blocks of `bs` whose identifier is absent from `m`, in order. */
  function MissingFrom(m: Table, bs: seq<Block>): (r: seq<Block>)
    ensures |r| <= |bs|
  {
    if bs == [] then []
    else (if Present(m, bs[0].cid) then [] else [bs[0]]) + MissingFrom(m, bs[1..])
  }

  /** The stored blocks for the present keys of `ks`, in order; missing keys are skipped. */
  function Fetched(m: Table, ks: seq<Cid>): (r: seq<Block>)
    ensures |r| <= |ks|
  {
    if ks == [] then []
    else (if Present(m, ks[0]) then [m[KeyString(ks[0])]] else []) + Fetched(m, ks[1..])
  }

  /** `m` after storing each block of `bs` in turn under its own key. */
  function Inserted(m: Table, bs: seq<Block>): (r: Table)
    ensures m.Keys <= r.Keys
    ensures forall b :: b in bs ==> KeyString(b.cid) in r
    decreases |bs|
  {
    if bs == [] then m
    else
      var last := bs[|bs| - 1];
      Inserted(m, bs[..|bs| - 1])[KeyString(last.cid) := last]
  }

  /** No block after position `j` of `bs` has the key of `bs[j]`. */
  ghost predicate LastWithKey(bs: seq<Block>, j: int)
    requires 0 <= j < |bs|
  {
    forall j' :: j < j' < |bs| ==> KeyString(bs[j'].cid) != KeyString(bs[j].cid)
  }

  // ---------------------------------------------------------------------------
  // Lemmas about the specifications
  // ---------------------------------------------------------------------------

  lemma {:induction false} CidsOfAppend(a: seq<Block>, b: seq<Block>)
    ensures CidsOf(a + b) == CidsOf(a) + CidsOf(b)
  {
    var l, r := CidsOf(a + b), CidsOf(a) + CidsOf(b);
    assert |l| == |r|;
    forall j | 0 <= j < |l| ensures l[j] == r[j] {
      assert (a + b)[j] == if j < |a| then a[j] else b[j - |a|];
    }
  }

  /** Filtering a concatenation filters each part: `ExistsIn` keeps input order. */
  lemma {:induction false} ExistsInAppend(m: Table, a: seq<Cid>, b: seq<Cid>)
    ensures ExistsIn(m, a + b) == ExistsIn(m, a) + ExistsIn(m, b)
  {
    if a == [] {
      assert a + b == b;
    } else {
      assert (a + b)[0] == a[0];
      assert (a + b)[1..] == a[1..] + b;
      ExistsInAppend(m, a[1..], b);
    }
  }

  /** `ExistsIn` keeps every occurrence of a present key and none of an absent one. */
  lemma {:induction false} ExistsInCount(m: Table, ks: seq<Cid>, c: Cid)
    ensures multiset(ExistsIn(m, ks))[c] == if Present(m, c) then multiset(ks)[c] else 0
    ensures c in ExistsIn(m, ks) <==> c in ks && Present(m, c)
  {
    if ks != [] {
      assert ks == [ks[0]] + ks[1..];
      ExistsInCount(m, ks[1..], c);
    }
  }

  lemma {:induction false} MissingFromAppend(m: Table, a: seq<Block>, b: seq<Block>)
    ensures MissingFrom(m, a + b) == MissingFrom(m, a) + MissingFrom(m, b)
  {
    if a == [] {
      assert a + b == b;
    } else {
      assert (a + b)[0] == a[0];
      assert (a + b)[1..] == a[1..] + b;
      MissingFromAppend(m, a[1..], b);
    }
  }

  /** `MissingFrom` keeps every occurrence of a block with an absent key and no other. */
  lemma {:induction false} MissingFromCount(m: Table, bs: seq<Block>, b: Block)
    ensures multiset(MissingFrom(m, bs))[b] == if Present(m, b.cid) then 0 else multiset(bs)[b]
    ensures b in MissingFrom(m, bs) <==> b in bs && !Present(m, b.cid)
  {
    if bs != [] {
      assert bs == [bs[0]] + bs[1..];
      MissingFromCount(m, bs[1..], b);
    }
  }

  lemma ExistsInCons(m: Table, c: Cid, ks: seq<Cid>)
    ensures ExistsIn(m, [c] + ks) == (if Present(m, c) then [c] else []) + ExistsIn(m, ks)
  {
    assert ([c] + ks)[0] == c && ([c] + ks)[1..] == ks;
  }

  /**
   For one store state, `ExistsIn` over the identifiers of `bs` and
   `MissingFrom` over `bs` split those identifiers between them: together
   they hold each exactly as often as `bs` does, and no identifier reported
   missing is present.
   */
  lemma ExistsMissingPartition(m: Table, bs: seq<Block>)
    ensures multiset(ExistsIn(m, CidsOf(bs))) + multiset(CidsOf(MissingFrom(m, bs)))
         == multiset(CidsOf(bs))
    ensures |ExistsIn(m, CidsOf(bs))| + |MissingFrom(m, bs)| == |bs|
    ensures forall c :: c in CidsOf(MissingFrom(m, bs)) ==> !Present(m, c)
  {
    ExistsMissingMultiset(m, bs);
    var e, ms := ExistsIn(m, CidsOf(bs)), MissingFrom(m, bs);
    assert |multiset(e) + multiset(CidsOf(ms))| == |e| + |ms|;
    forall c | c in CidsOf(ms) ensures !Present(m, c) {
      var j :| 0 <= j < |ms| && CidsOf(ms)[j] == c;
      MissingFromCount(m, bs, ms[j]);
    }
  }

  lemma {:induction false} ExistsMissingMultiset(m: Table, bs: seq<Block>)
    ensures multiset(ExistsIn(m, CidsOf(bs))) + multiset(CidsOf(MissingFrom(m, bs)))
         == multiset(CidsOf(bs))
  {
    if bs != [] {
      var head, tail := bs[0], bs[1..];
      ExistsMissingMultiset(m, tail);
      var e, ms := ExistsIn(m, CidsOf(tail)), CidsOf(MissingFrom(m, tail));
      assert multiset(e) + multiset(ms) == multiset(CidsOf(tail));
      assert CidsOf(bs) == [head.cid] + CidsOf(tail);
      ExistsInCons(m, head.cid, CidsOf(tail));
      if Present(m, head.cid) {
        assert ExistsIn(m, CidsOf(bs)) == [head.cid] + e;
        assert MissingFrom(m, bs) == MissingFrom(m, tail);
        assert multiset([head.cid] + e) == multiset([head.cid]) + multiset(e);
      } else {
        assert ExistsIn(m, CidsOf(bs)) == e;
        assert MissingFrom(m, bs) == [head] + MissingFrom(m, tail);
        CidsOfAppend([head], MissingFrom(m, tail));
        assert CidsOf(MissingFrom(m, bs)) == [head.cid] + ms;
        assert multiset([head.cid] + ms) == multiset([head.cid]) + multiset(ms);
      }
      assert multiset([head.cid] + CidsOf(tail)) == multiset([head.cid]) + multiset(CidsOf(tail));
    }
  }

  lemma {:induction false} FetchedAppend(m: Table, a: seq<Cid>, b: seq<Cid>)
    ensures Fetched(m, a + b) == Fetched(m, a) + Fetched(m, b)
  {
    if a == [] {
      assert a + b == b;
    } else {
      assert (a + b)[0] == a[0];
      assert (a + b)[1..] == a[1..] + b;
      FetchedAppend(m, a[1..], b);
      var h := if Present(m, a[0]) then [m[KeyString(a[0])]] else [];
      assert Fetched(m, a + b) == h + Fetched(m, a[1..] + b);
      assert Fetched(m, a) == h + Fetched(m, a[1..]);
      assert h + (Fetched(m, a[1..]) + Fetched(m, b)) == (h + Fetched(m, a[1..])) + Fetched(m, b);
    }
  }

  /**
   `Fetched` yields, position by position, the stored block of each key that
   `ExistsIn` reports.
   */
  lemma {:induction false} FetchedMatchesExists(m: Table, ks: seq<Cid>)
    ensures |Fetched(m, ks)| == |ExistsIn(m, ks)|
    ensures forall j :: 0 <= j < |Fetched(m, ks)| ==>
      KeyString(ExistsIn(m, ks)[j]) in m && Fetched(m, ks)[j] == m[KeyString(ExistsIn(m, ks)[j])]
  {
    if ks != [] {
      FetchedMatchesExists(m, ks[1..]);
      var e, f := ExistsIn(m, ks), Fetched(m, ks);
      var e', f' := ExistsIn(m, ks[1..]), Fetched(m, ks[1..]);
      if Present(m, ks[0]) {
        assert e == [ks[0]] + e';
        assert f == [m[KeyString(ks[0])]] + f';
        forall j | 0 <= j < |f| ensures KeyString(e[j]) in m && f[j] == m[KeyString(e[j])] {
          if j > 0 { assert f[j] == f'[j - 1] && e[j] == e'[j - 1]; }
        }
      } else {
        assert e == e' && f == f';
      }
    }
  }

  /** In a keyed table the blocks `Fetched` yields carry exactly the identifiers `ExistsIn` reports. */
  lemma FetchedCids(m: Table, ks: seq<Cid>)
    requires Keyed(m)
    ensures CidsOf(Fetched(m, ks)) == ExistsIn(m, ks)
  {
    FetchedMatchesExists(m, ks);
    var e, f := ExistsIn(m, ks), Fetched(m, ks);
    forall j | 0 <= j < |e| ensures CidsOf(f)[j] == e[j] {
      assert KeyString(m[KeyString(e[j])].cid) == KeyString(e[j]);
    }
  }

  lemma KeysOfSnoc(bs: seq<Block>, b: Block)
    ensures KeysOf(bs + [b]) == KeysOf(bs) + {KeyString(b.cid)}
  {
    var all := bs + [b];
    forall x | x in all ensures x in bs || x == b {
      var j :| 0 <= j < |all| && all[j] == x;
      if j < |bs| { assert bs[j] == x; }
    }
    assert all[|bs|] == b;
    forall x | x in bs ensures x in all {
      var j :| 0 <= j < |bs| && bs[j] == x;
      assert all[j] == x;
    }
  }

  /** After storing a batch the keys are those of `m` plus those of `bs`. */
  lemma {:induction false} InsertedKeys(m: Table, bs: seq<Block>)
    ensures Inserted(m, bs).Keys == m.Keys + KeysOf(bs)
    decreases |bs|
  {
    if bs != [] {
      var n := |bs|;
      InsertedKeys(m, bs[..n - 1]);
      assert bs == bs[..n - 1] + [bs[n - 1]];
      KeysOfSnoc(bs[..n - 1], bs[n - 1]);
    }
  }

  /** Storing a batch leaves the block of every key outside the batch as it was. */
  lemma {:induction false} InsertedUntouched(m: Table, bs: seq<Block>)
    ensures forall k :: k in m && k !in KeysOf(bs) ==> k in Inserted(m, bs) && Inserted(m, bs)[k] == m[k]
    decreases |bs|
  {
    if bs != [] {
      var n := |bs|;
      InsertedUntouched(m, bs[..n - 1]);
      assert bs == bs[..n - 1] + [bs[n - 1]];
      KeysOfSnoc(bs[..n - 1], bs[n - 1]);
    }
  }

  /** After storing a batch, a key of the batch holds the LAST block of `bs` filed under it. */
  lemma {:induction false} InsertedLastWins(m: Table, bs: seq<Block>)
    ensures forall j :: 0 <= j < |bs| && LastWithKey(bs, j) ==>
      KeyString(bs[j].cid) in Inserted(m, bs) && Inserted(m, bs)[KeyString(bs[j].cid)] == bs[j]
    decreases |bs|
  {
    if bs != [] {
      var n := |bs|;
      var init, last := bs[..n - 1], bs[n - 1];
      InsertedLastWins(m, init);
      forall j | 0 <= j < n && LastWithKey(bs, j)
        ensures KeyString(bs[j].cid) in Inserted(m, bs) && Inserted(m, bs)[KeyString(bs[j].cid)] == bs[j]
      {
        if j < n - 1 {
          assert init[j] == bs[j];
          assert KeyString(last.cid) != KeyString(bs[j].cid);
          assert LastWithKey(init, j) by {
            forall j' | j < j' < n - 1 ensures KeyString(init[j'].cid) != KeyString(init[j].cid) {
              assert init[j'] == bs[j'];
            }
          }
        }
      }
    }
  }

  /** Storing a batch keeps the table keyed, and leaves every block of the batch retrievable. */
  lemma {:induction false} InsertedKeyed(m: Table, bs: seq<Block>)
    requires Keyed(m)
    ensures Keyed(Inserted(m, bs))
    ensures forall b :: b in bs ==> Present(Inserted(m, bs), b.cid)
    decreases |bs|
  {
    if bs != [] {
      var n := |bs|;
      InsertedKeyed(m, bs[..n - 1]);
      forall b | b in bs ensures Present(Inserted(m, bs), b.cid) {
        var j :| 0 <= j < n && bs[j] == b;
        if j < n - 1 { assert bs[..n - 1][j] == b; }
      }
    }
  }

  // ---------------------------------------------------------------------------
  // The store
  // ---------------------------------------------------------------------------

  class InMemBlockStore {
    var data: Table

    ghost predicate Valid()
      reads this
    {
      Keyed(data)
    }

    constructor ()
      ensures Valid() && data == map[]
    {
      data := map[];
    }

    /** The block stored under `k`'s key, or `ErrCIDNotFound`. */
    method Get(k: Cid) returns (r: Result<Block, StoreError>)
      ensures Present(data, k) ==> r == Ok(data[KeyString(k)])
      ensures !Present(data, k) ==> r == Err(ErrCIDNotFound)
      ensures Valid() && r.Ok? ==> r.value.cid == k
    {
      var key := KeyString(k);
      if key in data {
        return Ok(data[key]);
      }
      return Err(ErrCIDNotFound);
    }

    /** The stored blocks for the present keys of `ks`, in order (the blocks Go's `GetMany` sends on its buffered channel). */
    method GetMany(ks: seq<Cid>) returns (result: seq<Block>)
      ensures result == Fetched(data, ks)
      ensures |result| <= |ks|
      ensures Valid() ==> CidsOf(result) == ExistsIn(data, ks)
    {
      result := [];
      for i := 0 to |ks|
        invariant result == Fetched(data, ks[..i])
      {
        var r := Get(ks[i]);
        FetchedAppend(data, ks[..i], [ks[i]]);
        assert ks[..i + 1] == ks[..i] + [ks[i]];
        if r.Ok? {
          result := result + [r.value];
        }
      }
      assert ks[..|ks|] == ks;
      if Valid() {
        FetchedCids(data, ks);
      }
    }

    /** Stores every block of `bs` under its own key; never fails. */
    method Add(bs: seq<Block>) returns (err: Option<StoreError>)
      requires Valid()
      modifies this
      ensures Valid()
      ensures data == Inserted(old(data), bs)
      ensures err == None
    {
      for i := 0 to |bs|
        invariant data == Inserted(old(data), bs[..i])
      {
        assert bs[..i + 1][..i] == bs[..i];
        data := data[KeyString(bs[i].cid) := bs[i]];
      }
      assert bs[..|bs|] == bs;
      InsertedKeyed(old(data), bs);
      return None;
    }

    /** Removes `c`'s key, whether or not it was present; never fails. */
    method Delete(c: Cid) returns (err: Option<StoreError>)
      requires Valid()
      modifies this
      ensures Valid()
      ensures data == old(data) - {KeyString(c)}
      ensures !Present(data, c)
      ensures forall k :: k != KeyString(c) ==> (k in data <==> k in old(data))
      ensures forall k :: k in data ==> data[k] == old(data)[k]
      ensures err == None
    {
      data := data - {KeyString(c)};
      return None;
    }

    /** The elements of `ks` that are present, in order, duplicates kept; never fails. */
    method ExistsCids(ks: seq<Cid>) returns (found: seq<Cid>, err: Option<StoreError>)
      ensures found == ExistsIn(data, ks)
      ensures err == None
    {
      found := [];
      for i := 0 to |ks|
        invariant found == ExistsIn(data, ks[..i])
      {
        var r := Get(ks[i]);
        ExistsInAppend(data, ks[..i], [ks[i]]);
        assert ks[..i + 1] == ks[..i] + [ks[i]];
        if r.Ok? {
          found := found + [ks[i]];
        }
      }
      assert ks[..|ks|] == ks;
      err := None;
    }

    /** The blocks of `bs` whose identifier is absent, in order; never fails. */
    method NotExistsBlocks(bs: seq<Block>) returns (notExists: seq<Block>, err: Option<StoreError>)
      ensures notExists == MissingFrom(data, bs)
      ensures err == None
    {
      notExists := [];
      for i := 0 to |bs|
        invariant notExists == MissingFrom(data, bs[..i])
      {
        var r := Get(bs[i].cid);
        MissingFromAppend(data, bs[..i], [bs[i]]);
        assert bs[..i + 1] == bs[..i] + [bs[i]];
        if r.Err? {
          notExists := notExists + [bs[i]];
        }
      }
      assert bs[..|bs|] == bs;
      err := None;
    }
  }
}
