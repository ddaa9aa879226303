/** The dictionary of key and value pairs, hashed into lists, and the node descriptions kept in one. */
module Dict {
  import opened Bits
  import opened Options

  datatype Pair<V> = Pair(key: uint32, val: V)

  /** hash_32_to_n, in 32-bit arithmetic; the result has n bits. */
  function Hash32ToN(k0: uint32, n: nat): (h: nat)
    requires n <= 32
    ensures h < Pow2(n)
  {
    var k1 := Wrap(k0 + 0x479ab41d + k0 * 0x100);
    var k2 := Xor32(Xor32(k1, 0xe4aa10ce), Shift32(k1, 5));
    var k3 := Wrap(k2 + 0x9942f0a6 - k2 * 0x4000);
    var k4 := Xor32(Xor32(k3, 0x5aedd67d), Shift32(k3, 3));
    var k5 := Wrap(k4 + 0x17bea992 + k4 * 0x80);
    Pow2Word();
    ShrFits(k5, 32 - n, 32);
    Shr(k5, 32 - n)
  }

  /** The position of the first pair with the key, from i on. */
  function Find<V>(s: seq<Pair<V>>, k: uint32, i: nat): (r: nat)
    requires i <= |s|
    ensures i <= r <= |s| && (r < |s| ==> s[r].key == k)
    ensures forall j | i <= j < r :: s[j].key != k
    decreases |s| - i
  {
    if i == |s| || s[i].key == k then i else Find(s, k, i + 1)
  }

  function Lookup<V>(s: seq<Pair<V>>, k: uint32): Option<V> {
    var r := Find(s, k, 0);
    if r == |s| then None else Some(s[r].val)
  }

  ghost predicate Unique<V>(s: seq<Pair<V>>) {
    forall i, j | 0 <= i < j < |s| :: s[i].key != s[j].key
  }

  lemma LookupAdd<V>(s: seq<Pair<V>>, k: uint32, v: V, x: uint32)
    ensures Lookup(s + [Pair(k, v)], x) == if x == k && Lookup(s, k).None? then Some(v) else Lookup(s, x)
  {
    hide Find;
    var t := s + [Pair(k, v)];
    var i, j := Find(s, x, 0), Find(t, x, 0);
    assert forall m | 0 <= m < |s| :: t[m] == s[m];
    if i < |s| {
      assert t[i].key == x;
    } else if x == k {
      assert t[|s|].key == x;
    }
    assert j == if i < |s| then i else if x == k then |s| else |t|;
  }

  lemma LookupSet<V>(s: seq<Pair<V>>, k: uint32, v: V, x: uint32)
    requires Find(s, k, 0) < |s|
    ensures Lookup(s[Find(s, k, 0) := Pair(k, v)], x) == if x == k then Some(v) else Lookup(s, x)
  {
    hide Find;
    var t := s[Find(s, k, 0) := Pair(k, v)];
    var i, j := Find(s, x, 0), Find(t, x, 0);
    assert forall m | 0 <= m < |s| :: t[m].key == s[m].key;
    assert i == j;
  }

  lemma LookupDel<V>(s: seq<Pair<V>>, k: uint32, x: uint32)
    requires Find(s, k, 0) < |s| && x != k
    ensures var r := Find(s, k, 0); Lookup(s[..r] + s[r + 1..], x) == Lookup(s, x)
  {
    hide Find;
    var r, i := Find(s, k, 0), Find(s, x, 0);
    var t := s[..r] + s[r + 1..];
    var j := if i < r then i else i - 1;
    forall m | 0 <= m < j ensures t[m].key != x { CutAt(s, r, m); }
    if i < |s| { CutAt(s, r, j); }
    FindIs(t, x, j);
  }

  lemma CutAt<V>(s: seq<Pair<V>>, r: nat, m: nat)
    requires r < |s| && m < |s| - 1
    ensures (s[..r] + s[r + 1..])[m] == if m < r then s[m] else s[m + 1]
  {
  }

  lemma FindIs<V>(s: seq<Pair<V>>, k: uint32, r: nat)
    requires r <= |s| && (r < |s| ==> s[r].key == k)
    requires forall j | 0 <= j < r :: s[j].key != k
    ensures Find(s, k, 0) == r
  {
    hide Find;
  }

  /** Without the first pair of a key that occurs once, the key is gone. */
  lemma LookupGone<V>(s: seq<Pair<V>>, k: uint32)
    requires Unique(s) && Find(s, k, 0) < |s|
    ensures var r := Find(s, k, 0); Lookup(s[..r] + s[r + 1..], k) == None && Unique(s[..r] + s[r + 1..])
  {
    hide Find;
    var r := Find(s, k, 0);
    var t := s[..r] + s[r + 1..];
    assert forall m | 0 <= m < |t| :: t[m] == s[if m < r then m else m + 1];
  }

  lemma UniqueAdd<V>(s: seq<Pair<V>>, k: uint32, v: V)
    requires Unique(s) && Lookup(s, k).None?
    ensures Unique(s + [Pair(k, v)])
  {
    hide Find;
  }

  class Dictionary<V> {
    const log2_nlist: nat
    const lists: array<seq<Pair<V>>>

    /** Every pair is in the list of its hash. */
    ghost predicate Valid()
      reads lists
    {
      && 0 < log2_nlist <= 30 && lists.Length == Pow2(log2_nlist)
      && forall h, i | 0 <= h < lists.Length && 0 <= i < |lists[h]| :: Hash32ToN(lists[h][i].key, log2_nlist) == h
    }

    /** Every key occurs at most once. */
    ghost predicate KeysUnique()
      reads lists
    {
      forall h | 0 <= h < lists.Length :: Unique(lists[h])
    }

    /** The dictionary as a map. */
    ghost function At(k: uint32): Option<V>
      requires Valid()
      reads lists
    {
      Lookup(lists[Hash32ToN(k, log2_nlist)], k)
    }

    /** bano_dict_init_with_nlist; a shift of a 32-bit number leaves sense only for 1 to 30 bits. */
    constructor (log2_nlist: nat)
      requires 0 < log2_nlist <= 30
      ensures Valid() && KeysUnique() && fresh(lists) && forall k: uint32 :: At(k) == None
    {
      this.log2_nlist := log2_nlist;
      lists := new seq<Pair<V>>[Pow2(log2_nlist)](_ => []);
    }

    /** find_pair */
    method FindPair(k: uint32) returns (found: bool, h: nat, i: nat)
      requires Valid()
      ensures h == Hash32ToN(k, log2_nlist) && h < lists.Length && i == Find(lists[h], k, 0)
      ensures found <==> i < |lists[h]|
      ensures found <==> At(k).Some?
    {
      h := Hash32ToN(k, log2_nlist);
      i := 0;
      while i < |lists[h]| && lists[h][i].key != k
        invariant i <= |lists[h]| && Find(lists[h], k, 0) == Find(lists[h], k, i)
      {
        i := i + 1;
      }
      found := i < |lists[h]|;
    }

    /** bano_dict_add: a pair that comes last, so that it does not hide an earlier one with its key. */
    method Add(k: uint32, v: V)
      requires Valid()
      modifies lists
      ensures Valid()
      ensures forall h | 0 <= h < lists.Length ::
                lists[h] == if h == Hash32ToN(k, log2_nlist) then old(lists[h]) + [Pair(k, v)] else old(lists[h])
      ensures forall x: uint32 :: At(x) == if x == k && old(At(k)).None? then Some(v) else old(At(x))
      ensures old(KeysUnique()) && old(At(k)).None? ==> KeysUnique()
    {
      hide Hash32ToN, Lookup, Find, Unique;
      var h := Hash32ToN(k, log2_nlist);
      ghost var s := lists[h];
      lists[h] := lists[h] + [Pair(k, v)];
      forall x: uint32 ensures At(x) == if x == k && old(At(k)).None? then Some(v) else old(At(x)) {
        LookupAdd(s, k, v, x);
      }
      if old(KeysUnique()) && old(At(k)).None? { UniqueAdd(s, k, v); }
    }

    /** bano_dict_set: only for a key that exists */
    method Set(k: uint32, v: V) returns (error: int)
      requires Valid()
      modifies lists
      ensures Valid() && (old(KeysUnique()) ==> KeysUnique())
      ensures error == if old(At(k)).Some? then 0 else -1
      ensures forall x: uint32 :: At(x) == if x == k && old(At(k)).Some? then Some(v) else old(At(x))
    {
      hide Hash32ToN, Lookup, Find;
      var found, h, i := FindPair(k);
      if !found { return -1; }
      ghost var s := lists[h];
      lists[h] := lists[h][i := Pair(k, v)];
      forall x: uint32 ensures At(x) == if x == k then Some(v) else old(At(x)) {
        LookupSet(s, k, v, x);
      }
      error := 0;
    }

    /** bano_dict_set_or_add */
    method SetOrAdd(k: uint32, v: V)
      requires Valid()
      modifies lists
      ensures Valid() && (old(KeysUnique()) ==> KeysUnique())
      ensures forall x: uint32 :: At(x) == if x == k then Some(v) else old(At(x))
    {
      var error := Set(k, v);
      if error != 0 { Add(k, v); }
    }

    /** bano_dict_get */
    method Get(k: uint32) returns (error: int, v: Option<V>)
      requires Valid()
      ensures v == At(k) && error == if v.Some? then 0 else -1
    {
      var found, h, i := FindPair(k);
      if !found { return -1, None; }
      return 0, Some(lists[h][i].val);
    }

    /** bano_dict_del: the first pair with the key goes. */
    method Del(k: uint32) returns (error: int)
      requires Valid()
      modifies lists
      ensures Valid() && (old(KeysUnique()) ==> KeysUnique())
      ensures error == if old(At(k)).Some? then 0 else -1
      ensures forall x: uint32 | x != k :: At(x) == old(At(x))
      ensures old(KeysUnique()) ==> At(k) == None
    {
      hide Hash32ToN, Lookup, Find, Unique;
      var found, h, i := FindPair(k);
      if !found { return -1; }
      ghost var s := lists[h];
      lists[h] := lists[h][..i] + lists[h][i + 1..];
      assert forall m | 0 <= m < |lists[h]| :: lists[h][m] == s[if m < i then m else m + 1];
      forall x: uint32 | x != k ensures At(x) == old(At(x)) {
        LookupDel(s, k, x);
      }
      if old(KeysUnique()) { LookupGone(s, k); }
      error := 0;
    }
  }

  // ---------------------------------------------------------------- visiting all pairs

  /** The pairs of the first n lists, in the order in which bano_dict_foreach visits them. */
  ghost function Visited<V>(d: Dictionary<V>, n: nat): (s: seq<Pair<V>>)
    requires n <= d.lists.Length
    reads d.lists
  {
    if n == 0 then [] else Visited(d, n - 1) + d.lists[n - 1]
  }

  /** bano_dict_foreach with a callback that goes on */
  method ForEach<V>(d: Dictionary<V>) returns (visited: seq<Pair<V>>)
    requires d.Valid()
    ensures visited == Visited(d, d.lists.Length)
  {
    visited := [];
    for i := 0 to d.lists.Length
      invariant visited == Visited(d, i)
    {
      visited := visited + d.lists[i];
    }
  }

  lemma {:induction false} VisitedHashes<V>(d: Dictionary<V>, n: nat, i: nat)
    requires d.Valid() && n <= d.lists.Length && i < |Visited(d, n)|
    ensures Hash32ToN(Visited(d, n)[i].key, d.log2_nlist) < n
    decreases n
  {
    hide Hash32ToN;
    if i < |Visited(d, n - 1)| { VisitedHashes(d, n - 1, i); }
  }

  /** Every pair is visited once: no key comes up twice. */
  lemma {:induction false} VisitedOnce<V>(d: Dictionary<V>, n: nat)
    requires d.Valid() && d.KeysUnique() && n <= d.lists.Length
    ensures Unique(Visited(d, n))
  {
    hide Hash32ToN;
    if n > 0 {
      VisitedOnce(d, n - 1);
      var front, s := Visited(d, n - 1), Visited(d, n);
      forall i, j | 0 <= i < j < |s| ensures s[i].key != s[j].key {
        if i < |front| && j >= |front| {
          VisitedHashes(d, n - 1, i);
          assert s[i] == front[i] && s[j] == d.lists[n - 1][j - |front|];
        }
      }
    }
  }

  /** What is visited is what is stored, also with duplicate keys: the first pair of a key is the one found. */
  lemma {:induction false} VisitedFinds<V>(d: Dictionary<V>, n: nat, k: uint32)
    requires d.Valid() && n <= d.lists.Length
    ensures Lookup(Visited(d, n), k) == if Hash32ToN(k, d.log2_nlist) < n then d.At(k) else None
  {
    hide Hash32ToN, Lookup, Find;
    if n == 0 {
      LookupEmpty<V>(k);
    } else {
      VisitedFinds(d, n - 1, k);
      LookupConcat(Visited(d, n - 1), d.lists[n - 1], k);
      if Hash32ToN(k, d.log2_nlist) != n - 1 {
        LookupNone(d.lists[n - 1], k);
      }
    }
  }

  lemma LookupEmpty<V>(k: uint32)
    ensures Lookup<V>([], k) == None
  {
  }

  lemma LookupNone<V>(s: seq<Pair<V>>, k: uint32)
    requires forall i | 0 <= i < |s| :: s[i].key != k
    ensures Lookup(s, k) == None
  {
    FindIs(s, k, |s|);
  }

  lemma LookupConcat<V>(a: seq<Pair<V>>, b: seq<Pair<V>>, k: uint32)
    ensures Lookup(a + b, k) == if Lookup(a, k).Some? then Lookup(a, k) else Lookup(b, k)
  {
    hide Find;
    var i, j := Find(a, k, 0), Find(b, k, 0);
    FindIs(a + b, k, if i < |a| then i else |a| + j);
  }

  // ---------------------------------------------------------------- node descriptions

  /** bano_nodl_keyval_t */
  datatype KeyVal = KeyVal(key: uint32, flags: nat, name: string)

  /** The entries of a node description are filed under their own keys. */
  ghost predicate NodlOk(d: Dictionary<KeyVal>)
    reads d.lists
  {
    forall h, i | 0 <= h < d.lists.Length && 0 <= i < |d.lists[h]| :: d.lists[h][i].val.key == d.lists[h][i].key
  }

  /** Filing an entry of the description, as bano_base.c does it with bano_dict_add. */
  method AddKeyVal(d: Dictionary<KeyVal>, kv: KeyVal)
    requires d.Valid() && NodlOk(d)
    modifies d.lists
    ensures d.Valid() && NodlOk(d)
    ensures forall x: uint32 :: d.At(x) == if x == kv.key && old(d.At(kv.key)).None? then Some(kv) else old(d.At(x))
  {
    hide Hash32ToN, Lookup, Find;
    d.Add(kv.key, kv);
  }

  /**
   * bano_nodl_find_key: a scan of all lists for the key inside the values. It agrees with the hashed
   * lookup, also when keys have been added twice.
   */
  method FindKey(d: Dictionary<KeyVal>, key: uint32) returns (kv: Option<KeyVal>)
    requires d.Valid() && NodlOk(d)
    ensures kv == d.At(key)
  {
    hide Hash32ToN, Lookup, Find;
    LookupEmpty<KeyVal>(key);
    for i := 0 to d.lists.Length
      invariant Lookup(Visited(d, i), key) == None
    {
      var s := d.lists[i];
      for j := 0 to |s|
        invariant forall m | 0 <= m < j :: s[m].key != key
      {
        if s[j].val.key == key {
          FoundIs(s, key, j);
          LookupConcat(Visited(d, i), s, key);
          VisitedFinds(d, i + 1, key);
          return Some(s[j].val);
        }
      }
      LookupNone(s, key);
      LookupConcat(Visited(d, i), s, key);
    }
    VisitedFinds(d, d.lists.Length, key);
    return None;
  }

  lemma FoundIs<V>(s: seq<Pair<V>>, k: uint32, j: nat)
    requires j < |s| && s[j].key == k && forall m | 0 <= m < j :: s[m].key != k
    ensures Lookup(s, k) == Some(s[j].val)
  {
    FindIs(s, k, j);
  }
}
