/** The string dictionary: parallel slot arrays with cached hashes, for any hash function. */
module Dictionaries {
  import opened Bytes

  type Str = seq<byte>

  const DICTMINSZ: nat := 128

  // ----- slots as sequences -----

  function Count(keys: seq<Option<Str>>): (n: nat)
    ensures n <= |keys|
  {
    if keys == [] then 0 else (if keys[0].Some? then 1 else 0) + Count(keys[1..])
  }

  lemma {:induction false} CountUpdate(keys: seq<Option<Str>>, i: nat, k: Option<Str>)
    requires i < |keys|
    ensures Count(keys[i := k]) == Count(keys) - (if keys[i].Some? then 1 else 0) + (if k.Some? then 1 else 0)
  {
    if i == 0 {
      assert keys[0 := k][1..] == keys[1..];
    } else {
      CountUpdate(keys[1..], i - 1, k);
      assert keys[i := k][1..] == keys[1..][i - 1 := k];
    }
  }

  lemma {:induction false} CountFull(keys: seq<Option<Str>>)
    ensures Count(keys) < |keys| ==> exists i :: 0 <= i < |keys| && keys[i].None?
    ensures Count(keys) == 0 ==> forall i :: 0 <= i < |keys| ==> keys[i].None?
  {
    if keys != [] {
      CountFull(keys[1..]);
      if keys[0].None? {
        assert keys[0].None?;
      } else if Count(keys) < |keys| {
        var i :| 0 <= i < |keys[1..]| && keys[1..][i].None?;
        assert keys[i + 1].None?;
      }
    }
  }

  lemma {:induction false} CountAppendNone(keys: seq<Option<Str>>, more: seq<Option<Str>>)
    requires forall i :: 0 <= i < |more| ==> more[i].None?
    ensures Count(keys + more) == Count(keys)
    decreases |keys| + |more|
  {
    if keys != [] {
      assert (keys + more)[1..] == keys[1..] + more;
      CountAppendNone(keys[1..], more);
    } else if more != [] {
      assert keys + more == more;
      assert [] + more[1..] == more[1..];
      CountAppendNone([], more[1..]);
    }
  }

  lemma CountNone(keys: seq<Option<Str>>)
    requires forall i :: 0 <= i < |keys| ==> keys[i].None?
    ensures Count(keys) == 0
  {
    CountAppendNone([], keys);
    assert [] + keys == keys;
  }

  /** Distinct keys, each with its cached hash, and the slots hold exactly the entries of `m`. */
  ghost predicate Represents(keys: seq<Option<Str>>, vals: seq<Option<Str>>, hashes: seq<nat>,
                             hashOf: Str -> nat, m: map<Str, Option<Str>>) {
    && |keys| == |vals| == |hashes|
    && (forall i, j :: 0 <= i < j < |keys| && keys[i].Some? ==> keys[i] != keys[j])
    && (forall i :: 0 <= i < |keys| && keys[i].Some? ==>
          hashes[i] == hashOf(keys[i].value) && keys[i].value in m && m[keys[i].value] == vals[i])
    && (forall k :: k in m ==> Some(k) in keys)
  }

  lemma NothingStored(keys: seq<Option<Str>>, vals: seq<Option<Str>>, hashes: seq<nat>,
                      hashOf: Str -> nat, m: map<Str, Option<Str>>)
    requires Represents(keys, vals, hashes, hashOf, m) && Count(keys) == 0
    ensures m == map[]
  {
    CountFull(keys);
    assert forall k :: k in m ==> Some(k) in keys;
  }

  lemma RepresentsSet(keys: seq<Option<Str>>, vals: seq<Option<Str>>, hashes: seq<nat>,
                      hashOf: Str -> nat, m: map<Str, Option<Str>>, i: nat, k: Str, v: Option<Str>)
    requires Represents(keys, vals, hashes, hashOf, m) && i < |keys|
    requires keys[i] == Some(k) || (keys[i].None? && k !in m)
    ensures Represents(keys[i := Some(k)], vals[i := v], hashes[i := hashOf(k)], hashOf, m[k := v])
  {
    var keys' := keys[i := Some(k)];
    forall x | x in m[k := v] ensures Some(x) in keys' {
      if x == k {
        assert keys'[i] == Some(x);
      } else {
        var j :| 0 <= j < |keys| && keys[j] == Some(x);
        assert keys'[j] == Some(x);
      }
    }
  }

  lemma RepresentsUnset(keys: seq<Option<Str>>, vals: seq<Option<Str>>, hashes: seq<nat>,
                        hashOf: Str -> nat, m: map<Str, Option<Str>>, i: nat, k: Str)
    requires Represents(keys, vals, hashes, hashOf, m) && i < |keys| && keys[i] == Some(k)
    ensures Represents(keys[i := None], vals[i := None], hashes[i := 0], hashOf, m - {k})
  {
    var keys' := keys[i := None];
    forall x | x in m - {k} ensures Some(x) in keys' {
      var j :| 0 <= j < |keys| && keys[j] == Some(x);
      assert keys'[j] == Some(x);
    }
  }

  lemma RepresentsGrow(keys: seq<Option<Str>>, vals: seq<Option<Str>>, hashes: seq<nat>, hashOf: Str -> nat,
                       m: map<Str, Option<Str>>, ks: seq<Option<Str>>, vs: seq<Option<Str>>, hs: seq<nat>)
    requires Represents(keys, vals, hashes, hashOf, m) && |ks| == |vs| == |hs|
    requires forall i :: 0 <= i < |ks| ==> ks[i].None?
    ensures Represents(keys + ks, vals + vs, hashes + hs, hashOf, m)
  {
    forall x | x in m ensures Some(x) in keys + ks {
      var j :| 0 <= j < |keys| && keys[j] == Some(x);
      assert (keys + ks)[j] == Some(x);
    }
  }

  function Fill<T>(n: nat, x: T): (r: seq<T>)
    ensures |r| == n && forall i :: 0 <= i < n ==> r[i] == x
  {
    seq(n, _ => x)
  }

  /** calloc of twice the size and memcpy of the old part. */
  method Doubled<T>(a: array<T>, zero: T) returns (b: array<T>)
    ensures fresh(b) && b[..] == a[..] + Fill(a.Length, zero)
  {
    b := new T[2 * a.Length](_ => zero);
    forall i | 0 <= i < a.Length {
      b[i] := a[i];
    }
  }

  // ----- the dictionary -----

  class Dictionary {
    const hashOf: Str -> nat
    var n: nat
    var size: nat
    var key: array<Option<Str>>
    var val: array<Option<Str>>
    var hash: array<nat>
    ghost var contents: map<Str, Option<Str>>

    ghost predicate Valid()
      reads this, key, val, hash
    {
      && size == key.Length == val.Length == hash.Length > 0
      && key != val
      && n == Count(key[..])
      && Represents(key[..], val[..], hash[..], hashOf, contents)
    }

    /** dictionary_new */
    constructor (size: nat, hashOf: Str -> nat)
      ensures Valid() && contents == map[] && n == 0 && this.hashOf == hashOf
      ensures this.size == if size < 128 then 128 else size
      ensures fresh(key) && fresh(val) && fresh(hash)
    {
      var s := if size < DICTMINSZ then DICTMINSZ else size;
      var none: Option<Str> := None;
      var k := new Option<Str>[s](_ => none);
      var v := new Option<Str>[s](_ => none);
      var h := new nat[s](_ => 0);
      CountNone(k[..]);
      hide Count;
      this.hashOf, this.size, n, key, val, hash, contents := hashOf, s, 0, k, v, h, map[];
    }

    /** The search loop of get, set and unset: the key's slot, or `size`. */
    method FindSlot(k: Str) returns (i: nat)
      requires Valid()
      ensures i <= size
      ensures i < size ==> key[i] == Some(k) && k in contents && val[i] == contents[k]
      ensures i == size ==> k !in contents
    {
      var h := hashOf(k);
      i := 0;
      while i < size
        invariant i <= size
        invariant forall j :: 0 <= j < i ==> key[j] != Some(k)
      {
        if key[i].Some? && h == hash[i] && key[i].value == k {
          assert key[..][i] == key[i];
          return;
        }
        assert key[..][i] == key[i] && hash[..][i] == hash[i];
        i := i + 1;
      }
      assert Some(k) !in key[..];
    }

    /** dictionary_get */
    method Get(k: Str, def: Option<Str>) returns (v: Option<Str>)
      requires Valid()
      ensures v == if k in contents then contents[k] else def
    {
      var i := FindSlot(k);
      v := if i < size then val[i] else def;
    }

    /** dictionary_grow: twice the slots, the old entries in place. */
    method Grow()
      requires Valid()
      modifies this`size, this`key, this`val, this`hash
      ensures Valid() && size == 2 * old(size)
      ensures fresh(key) && fresh(val) && fresh(hash)
      ensures key[..] == old(key[..]) + Fill(old(size), None)
      ensures val[..] == old(val[..]) + Fill(old(size), None)
    {
      hide Represents, Count;
      var k := Doubled(key, None);
      var v := Doubled(val, None);
      var h := Doubled(hash, 0);
      RepresentsGrow(key[..], val[..], hash[..], hashOf, contents, Fill(size, None), Fill(size, None), Fill(size, 0));
      CountAppendNone(key[..], Fill(size, None));
      size, key, val, hash := 2 * size, k, v, h;
    }

    /** The wrapping search for an empty slot from slot n on. */
    method FreeSlot() returns (i: nat)
      requires Valid() && n < size
      ensures i < size && key[i].None?
    {
      CountFull(key[..]);
      ghost var e :| 0 <= e < |key[..]| && key[..][e].None?;
      i := n;
      while key[i].Some?
        invariant i < size
        decreases if i <= e then e - i else e + size - i
      {
        i := i + 1;
        if i == size {
          i := 0;
        }
      }
    }

    /** dictionary_set */
    method Set(k: Str, v: Option<Str>)
      requires Valid()
      modifies this, key, val, hash
      ensures Valid() && contents == old(contents)[k := v]
      ensures n == old(n) + (if k in old(contents) then 0 else 1)
      ensures size == if k !in old(contents) && old(n) == old(size) then 2 * old(size) else old(size)
      ensures key == old(key) || fresh(key)
      ensures val == old(val) || fresh(val)
      ensures hash == old(hash) || fresh(hash)
    {
      hide Represents, Count;
      if n > 0 {
        var i := FindSlot(k);
        if i < size {
          Put(i, k, v);
          return;
        }
      } else {
        NothingStored(key[..], val[..], hash[..], hashOf, contents);
      }
      if n == size {
        Grow();
      }
      var i := FreeSlot();
      Put(i, k, v);
      n := n + 1;
    }

    /** Write one slot. */
    method Put(i: nat, k: Str, v: Option<Str>)
      requires Valid() && i < size && (key[i] == Some(k) || (key[i].None? && k !in contents))
      modifies this`contents, key, val, hash
      ensures size == key.Length == val.Length == hash.Length > 0 && contents == old(contents)[k := v]
      ensures Represents(key[..], val[..], hash[..], hashOf, contents)
      ensures Count(key[..]) == n + (if old(key[i]).Some? then 0 else 1)
    {
      RepresentsSet(key[..], val[..], hash[..], hashOf, contents, i, k, v);
      CountUpdate(key[..], i, Some(k));
      ghost var ks, vs, hs := key[..], val[..], hash[..];
      key[i], val[i], hash[i] := Some(k), v, hashOf(k);
      contents := contents[k := v];
      assert key[..] == ks[i := Some(k)] && val[..] == vs[i := v] && hash[..] == hs[i := hashOf(k)];
    }

    /** dictionary_unset */
    method Unset(k: Str)
      requires Valid()
      modifies this`n, this`contents, key, val, hash
      ensures Valid() && contents == old(contents) - {k}
      ensures n == old(n) - (if k in old(contents) then 1 else 0) && size == old(size)
    {
      hide Represents, Count;
      var i := FindSlot(k);
      if i >= size {
        return;
      }
      RepresentsUnset(key[..], val[..], hash[..], hashOf, contents, i, k);
      CountUpdate(key[..], i, None);
      ghost var ks, vs, hs := key[..], val[..], hash[..];
      key[i], val[i], hash[i] := None, None, 0;
      n, contents := n - 1, contents - {k};
      assert key[..] == ks[i := None] && val[..] == vs[i := None] && hash[..] == hs[i := 0];
    }
  }
}
