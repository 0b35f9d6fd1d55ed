/** Lists of records identified by a key (a member's `hostname_timestamp`
    identity): lookup by key, positional insert and removal, the ring walk,
    and the key-indexed map a duplicate-free list stands for. The key
    function is a parameter, so the lemmas hold for any identity. */
module KeyedLists {

  function KeysOf<T>(key: T -> string, s: seq<T>): set<string>
  {
    set i | 0 <= i < |s| :: key(s[i])
  }

  predicate NoDupKeys<T>(key: T -> string, s: seq<T>)
  {
    forall i, j :: 0 <= i < j < |s| ==> key(s[i]) != key(s[j])
  }

  lemma KeysOfCons<T>(key: T -> string, s: seq<T>)
    requires s != []
    ensures KeysOf(key, s) == {key(s[0])} + KeysOf(key, s[1..])
  {
    forall x | x in KeysOf(key, s) ensures x in {key(s[0])} + KeysOf(key, s[1..]) {
      var i :| 0 <= i < |s| && key(s[i]) == x;
      if i > 0 { assert key(s[1..][i - 1]) == x; }
    }
    forall x | x in KeysOf(key, s[1..]) ensures x in KeysOf(key, s) {
      var i :| 0 <= i < |s[1..]| && key(s[1..][i]) == x;
      assert key(s[i + 1]) == x;
    }
  }

  /** A list without repeated keys has as many keys as entries. */
  lemma {:induction false} KeysOfCount<T>(key: T -> string, s: seq<T>)
    ensures NoDupKeys(key, s) ==> |KeysOf(key, s)| == |s|
    decreases |s|
  {
    if s != [] && NoDupKeys(key, s) {
      KeysOfCons(key, s);
      NoDupKeysTail(key, s);
      KeysOfCount(key, s[1..]);
    }
  }

  /** The first index whose key is `k`, or -1. */
  function PosOf<T>(key: T -> string, s: seq<T>, k: string): (p: int)
    ensures -1 <= p < |s|
    ensures p >= 0 ==> key(s[p]) == k
    ensures p >= 0 ==> forall j :: 0 <= j < p ==> key(s[j]) != k
    ensures p == -1 <==> k !in KeysOf(key, s)
    decreases |s|
  {
    if s == [] then -1
    else if key(s[0]) == k then 0
    else
      var p := PosOf(key, s[1..], k);
      KeysOfCons(key, s);
      if p == -1 then -1 else p + 1
  }

  /** `list.pop(p)`. */
  function RemoveAt<T>(s: seq<T>, p: int): (r: seq<T>)
    requires 0 <= p < |s|
    ensures |r| == |s| - 1
    ensures forall i :: 0 <= i < |r| ==> r[i] == s[if i < p then i else i + 1]
  {
    s[..p] + s[p + 1..]
  }

  /** `list.insert(p, x)`. */
  function InsertAt<T>(s: seq<T>, p: int, x: T): (r: seq<T>)
    requires 0 <= p <= |s|
    ensures |r| == |s| + 1
    ensures forall i :: 0 <= i < |r| ==> r[i] == if i < p then s[i] else if i == p then x else s[i - 1]
  {
    s[..p] + [x] + s[p..]
  }

  /** The `k` entries that follow position `pos` cyclically. */
  function Following<T>(ring: seq<T>, pos: int, k: nat): (r: seq<T>)
    requires pos >= -1
    requires k == 0 || |ring| > 0
    ensures |r| == k
  {
    seq(k, i requires 0 <= i < k => ring[(pos + i + 1) % |ring|])
  }

  /** The entries whose key is not in `ks`, in list order. */
  function FilterOut<T>(key: T -> string, s: seq<T>, ks: set<string>): (r: seq<T>)
    ensures |r| <= |s|
    ensures forall i :: 0 <= i < |r| ==> r[i] in s
    decreases |s|
  {
    if s == [] then []
    else (if key(s[0]) in ks then [] else [s[0]]) + FilterOut(key, s[1..], ks)
  }

  /** The key-indexed map a duplicate-free list stands for. */
  ghost function AsMap<T>(key: T -> string, s: seq<T>): (m: map<string, T>)
    ensures m.Keys == KeysOf(key, s)
  {
    map k | k in KeysOf(key, s) :: s[PosOf(key, s, k)]
  }

  lemma AsMapAt<T>(key: T -> string, s: seq<T>, i: int)
    requires NoDupKeys(key, s) && 0 <= i < |s|
    ensures key(s[i]) in AsMap(key, s) && AsMap(key, s)[key(s[i])] == s[i]
  {
    var p := PosOf(key, s, key(s[i]));
    assert p == i;
  }

  lemma RemoveAtKeys<T>(key: T -> string, s: seq<T>, p: int)
    requires NoDupKeys(key, s) && 0 <= p < |s|
    ensures NoDupKeys(key, RemoveAt(s, p))
    ensures KeysOf(key, RemoveAt(s, p)) == KeysOf(key, s) - {key(s[p])}
  {
    var r := RemoveAt(s, p);
    forall x | x in KeysOf(key, s) - {key(s[p])} ensures x in KeysOf(key, r) {
      var i :| 0 <= i < |s| && key(s[i]) == x;
      assert key(r[if i < p then i else i - 1]) == x;
    }
  }

  lemma RemoveAtView<T>(key: T -> string, s: seq<T>, p: int)
    requires NoDupKeys(key, s) && 0 <= p < |s|
    ensures NoDupKeys(key, RemoveAt(s, p))
    ensures KeysOf(key, RemoveAt(s, p)) == KeysOf(key, s) - {key(s[p])}
    ensures AsMap(key, RemoveAt(s, p)) == AsMap(key, s) - {key(s[p])}
  {
    RemoveAtKeys(key, s, p);
    var m, m0 := AsMap(key, RemoveAt(s, p)), AsMap(key, s) - {key(s[p])};
    assert m.Keys == m0.Keys;
    forall x | x in m ensures m[x] == m0[x] {
      RemoveAtEntry(key, s, p, x);
    }
  }

  lemma RemoveAtEntry<T>(key: T -> string, s: seq<T>, p: int, x: string)
    requires NoDupKeys(key, s) && 0 <= p < |s|
    requires x in KeysOf(key, RemoveAt(s, p))
    ensures x in AsMap(key, s) && AsMap(key, RemoveAt(s, p))[x] == AsMap(key, s)[x]
  {
    var r := RemoveAt(s, p);
    RemoveAtKeys(key, s, p);
    var i :| 0 <= i < |r| && key(r[i]) == x;
    AsMapAt(key, r, i);
    AsMapAt(key, s, if i < p then i else i + 1);
  }

  lemma InsertAtKeys<T>(key: T -> string, s: seq<T>, p: int, x: T)
    requires NoDupKeys(key, s) && 0 <= p <= |s| && key(x) !in KeysOf(key, s)
    ensures NoDupKeys(key, InsertAt(s, p, x))
    ensures KeysOf(key, InsertAt(s, p, x)) == KeysOf(key, s) + {key(x)}
  {
    var r := InsertAt(s, p, x);
    assert forall i :: 0 <= i < |s| ==> key(s[i]) in KeysOf(key, s);
    forall y | y in KeysOf(key, s) + {key(x)} ensures y in KeysOf(key, r) {
      if y == key(x) {
        assert key(r[p]) == y;
      } else {
        var i :| 0 <= i < |s| && key(s[i]) == y;
        assert key(r[if i < p then i else i + 1]) == y;
      }
    }
  }

  lemma InsertAtView<T>(key: T -> string, s: seq<T>, p: int, x: T)
    requires NoDupKeys(key, s) && 0 <= p <= |s| && key(x) !in KeysOf(key, s)
    ensures NoDupKeys(key, InsertAt(s, p, x))
    ensures KeysOf(key, InsertAt(s, p, x)) == KeysOf(key, s) + {key(x)}
    ensures AsMap(key, InsertAt(s, p, x)) == AsMap(key, s)[key(x) := x]
  {
    var r := InsertAt(s, p, x);
    InsertAtKeys(key, s, p, x);
    var m, m0 := AsMap(key, r), AsMap(key, s)[key(x) := x];
    assert m.Keys == m0.Keys;
    forall y | y in m ensures m[y] == m0[y] {
      var i :| 0 <= i < |r| && key(r[i]) == y;
      AsMapAt(key, r, i);
      if i < p {
        assert r[i] == s[i] && key(s[i]) in KeysOf(key, s);
        AsMapAt(key, s, i);
      } else if i > p {
        assert r[i] == s[i - 1] && key(s[i - 1]) in KeysOf(key, s);
        AsMapAt(key, s, i - 1);
      } else {
        assert r[i] == x;
      }
    }
  }

  lemma ReplaceKeys<T>(key: T -> string, s: seq<T>, p: int, x: T)
    requires NoDupKeys(key, s) && 0 <= p < |s| && key(x) == key(s[p])
    ensures NoDupKeys(key, s[p := x])
    ensures KeysOf(key, s[p := x]) == KeysOf(key, s)
  {
    var r := s[p := x];
    forall y | y in KeysOf(key, s) ensures y in KeysOf(key, r) {
      var i :| 0 <= i < |s| && key(s[i]) == y;
      assert key(r[i]) == y;
    }
  }

  lemma ReplaceView<T>(key: T -> string, s: seq<T>, p: int, x: T)
    requires NoDupKeys(key, s) && 0 <= p < |s| && key(x) == key(s[p])
    ensures NoDupKeys(key, s[p := x])
    ensures KeysOf(key, s[p := x]) == KeysOf(key, s)
    ensures AsMap(key, s[p := x]) == AsMap(key, s)[key(x) := x]
  {
    var r := s[p := x];
    ReplaceKeys(key, s, p, x);
    var m, m0 := AsMap(key, r), AsMap(key, s)[key(x) := x];
    assert m.Keys == m0.Keys;
    forall y | y in m ensures m[y] == m0[y] {
      ReplaceAt(key, s, p, x, y);
    }
  }

  lemma ReplaceAt<T>(key: T -> string, s: seq<T>, p: int, x: T, y: string)
    requires NoDupKeys(key, s) && 0 <= p < |s| && key(x) == key(s[p])
    requires y in KeysOf(key, s[p := x])
    ensures NoDupKeys(key, s[p := x])
    ensures AsMap(key, s[p := x])[y] == AsMap(key, s)[key(x) := x][y]
  {
    var r := s[p := x];
    ReplaceKeys(key, s, p, x);
    var i :| 0 <= i < |r| && key(r[i]) == y;
    AsMapAt(key, r, i);
    if i != p { AsMapAt(key, s, i); }
  }

  lemma FollowingSnoc<T>(ring: seq<T>, pos: int, k: nat)
    requires pos >= -1 && |ring| > 0
    ensures Following(ring, pos, k + 1) == Following(ring, pos, k) + [ring[(pos + k + 1) % |ring|]]
  {
  }

  lemma FollowingIn<T>(ring: seq<T>, pos: int, k: nat)
    requires pos >= -1 && (k == 0 || |ring| > 0)
    ensures forall i :: 0 <= i < k ==> Following(ring, pos, k)[i] in ring
  {
    forall i | 0 <= i < k ensures Following(ring, pos, k)[i] in ring {
      var j := (pos + i + 1) % |ring|;
      assert Following(ring, pos, k)[i] == ring[j];
    }
  }

  lemma ModBelowTwice(x: int, n: int)
    requires n > 0 && 0 <= x < 2 * n
    ensures x % n == if x < n then x else x - n
  {
    if x >= n {
      assert x == 1 * n + (x - n);
    }
  }

  /** The ring walk from a member of a duplicate-free list visits distinct
      members, never the starting one, as long as it takes fewer steps than
      there are members. */
  lemma FollowingDistinct<T>(key: T -> string, ring: seq<T>, pos: int, k: nat)
    requires NoDupKeys(key, ring) && 0 <= pos < |ring| && k < |ring|
    ensures NoDupKeys(key, Following(ring, pos, k))
    ensures forall i :: 0 <= i < k ==> key(Following(ring, pos, k)[i]) != key(ring[pos])
  {
    var n := |ring|;
    var r := Following(ring, pos, k);
    forall i | 0 <= i < k
      ensures r[i] == ring[if pos + i + 1 < n then pos + i + 1 else pos + i + 1 - n]
    {
      ModBelowTwice(pos + i + 1, n);
    }
  }

  lemma FilterOutNoop<T>(key: T -> string, s: seq<T>, ks: set<string>, k: string)
    requires k !in KeysOf(key, s)
    ensures FilterOut(key, s, ks + {k}) == FilterOut(key, s, ks)
    decreases |s|
  {
    if s != [] {
      KeysOfCons(key, s);
      FilterOutNoop(key, s[1..], ks, k);
    }
  }

  lemma RemoveAtCons<T>(x: T, s: seq<T>, p: int)
    requires 0 <= p < |s|
    ensures RemoveAt([x] + s, p + 1) == [x] + RemoveAt(s, p)
  {
    assert ([x] + s)[..p + 1] == [x] + s[..p];
    assert ([x] + s)[p + 2..] == s[p + 1..];
  }

  lemma NoDupKeysTail<T>(key: T -> string, s: seq<T>)
    requires NoDupKeys(key, s) && s != []
    ensures NoDupKeys(key, s[1..])
    ensures key(s[0]) !in KeysOf(key, s[1..])
  {
    var t := s[1..];
    forall i, j | 0 <= i < j < |t| ensures key(t[i]) != key(t[j]) {
      assert t[i] == s[i + 1] && t[j] == s[j + 1];
    }
    forall i | 0 <= i < |t| ensures key(t[i]) != key(s[0]) {
      assert t[i] == s[i + 1];
    }
  }

  /** The case of `FilterOutRemove` where the head carries the key. */
  lemma FilterOutRemoveHead<T>(key: T -> string, s: seq<T>, ks: set<string>)
    requires NoDupKeys(key, s) && s != [] && key(s[0]) !in ks
    ensures RemoveAt(FilterOut(key, s, ks), 0) == FilterOut(key, s, ks + {key(s[0])})
  {
    NoDupKeysTail(key, s);
    FilterOutNoop(key, s[1..], ks, key(s[0]));
  }

  /** Popping the entry with key `k` from the filtered list filters `k` out
      as well. */
  lemma {:induction false} FilterOutRemove<T>(key: T -> string, s: seq<T>, ks: set<string>, k: string)
    requires NoDupKeys(key, s)
    requires PosOf(key, FilterOut(key, s, ks), k) >= 0
    ensures RemoveAt(FilterOut(key, s, ks), PosOf(key, FilterOut(key, s, ks), k)) == FilterOut(key, s, ks + {k})
    decreases |s|
  {
    var f := FilterOut(key, s, ks);
    var t := s[1..];
    NoDupKeysTail(key, s);
    if key(s[0]) in ks {
      assert f == FilterOut(key, t, ks);
      FilterOutRemove(key, t, ks, k);
    } else if key(s[0]) == k {
      assert PosOf(key, f, k) == 0;
      FilterOutRemoveHead(key, s, ks);
    } else {
      var g := FilterOut(key, t, ks);
      assert f == [s[0]] + g;
      assert f[1..] == g;
      var p := PosOf(key, g, k);
      assert PosOf(key, f, k) == p + 1;
      FilterOutRemove(key, t, ks, k);
      RemoveAtCons(s[0], g, p);
    }
  }

  lemma {:induction false} FilterOutKeys<T>(key: T -> string, s: seq<T>, ks: set<string>)
    ensures KeysOf(key, FilterOut(key, s, ks)) == KeysOf(key, s) - ks
    decreases |s|
  {
    if s != [] {
      FilterOutKeys(key, s[1..], ks);
      KeysOfCons(key, s);
      var f := FilterOut(key, s, ks);
      var g := FilterOut(key, s[1..], ks);
      if key(s[0]) in ks {
        assert f == g;
      } else {
        assert f == [s[0]] + g;
        KeysOfCons(key, f);
        assert f[1..] == g;
      }
    }
  }

  lemma {:induction false} FilterOutNone<T>(key: T -> string, s: seq<T>)
    ensures FilterOut(key, s, {}) == s
    decreases |s|
  {
    if s != [] {
      FilterOutNone(key, s[1..]);
      assert s == [s[0]] + s[1..];
    }
  }

  /** Filtering distributes over concatenation. */
  lemma {:induction false} FilterOutAppend<T>(key: T -> string, s: seq<T>, t: seq<T>, ks: set<string>)
    ensures FilterOut(key, s + t, ks) == FilterOut(key, s, ks) + FilterOut(key, t, ks)
    decreases |s|
  {
    if s != [] {
      assert (s + t)[1..] == s[1..] + t;
      FilterOutAppend(key, s[1..], t, ks);
    } else {
      assert s + t == t;
    }
  }

  lemma KeysOfSnoc<T>(key: T -> string, s: seq<T>, x: T)
    ensures KeysOf(key, s + [x]) == KeysOf(key, s) + {key(x)}
  {
    var t := s + [x];
    assert key(t[|s|]) == key(x);
    forall y | y in KeysOf(key, s) ensures y in KeysOf(key, t) {
      var i :| 0 <= i < |s| && key(s[i]) == y;
      assert t[i] == s[i];
    }
  }

  lemma TakeSnoc<T>(s: seq<T>, i: int)
    requires 0 <= i < |s|
    ensures s[..i + 1] == s[..i] + [s[i]]
  {
  }

  /** One step of a filtering loop over `s`: the prefix grows by `s[i]`,
      kept when its key is not in `ks`. */
  lemma FilterOutStep<T>(key: T -> string, s: seq<T>, i: int, ks: set<string>)
    requires 0 <= i < |s|
    ensures FilterOut(key, s[..i + 1], ks)
            == FilterOut(key, s[..i], ks) + (if key(s[i]) in ks then [] else [s[i]])
  {
    TakeSnoc(s, i);
    FilterOutAppend(key, s[..i], [s[i]], ks);
    assert [s[i]][1..] == [];
  }

  lemma KeysOfAppend<T>(key: T -> string, s: seq<T>, t: seq<T>)
    ensures KeysOf(key, s + t) == KeysOf(key, s) + KeysOf(key, t)
  {
    var u := s + t;
    forall y | y in KeysOf(key, u) ensures y in KeysOf(key, s) + KeysOf(key, t) {
      var i :| 0 <= i < |u| && key(u[i]) == y;
      if i < |s| { assert u[i] == s[i]; } else { assert u[i] == t[i - |s|]; }
    }
    forall y | y in KeysOf(key, s) + KeysOf(key, t) ensures y in KeysOf(key, u) {
      if y in KeysOf(key, s) {
        var i :| 0 <= i < |s| && key(s[i]) == y;
        assert u[i] == s[i];
      } else {
        var i :| 0 <= i < |t| && key(t[i]) == y;
        assert u[|s| + i] == t[i];
      }
    }
  }
}
