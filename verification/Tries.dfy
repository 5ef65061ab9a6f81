/** The label-compressed binary trie that SerializeDict builds from a flat
    dictionary. */
module Tries {
  import opened BitStrings
  import opened Wrappers

  datatype Tree<V> = Edge(path: Bits, node: Node<V>)

  datatype Node<V> = Leaf(value: V) | Fork(left: Tree<V>, right: Tree<V>)

  /** Every key has n bits; a leaf ends its key and a fork does not. */
  predicate WellFormed<V>(t: Tree<V>, n: nat)
    decreases t
  {
    |t.path| <= n &&
    match t.node
    case Leaf(_) => |t.path| == n
    case Fork(l, r) => |t.path| < n && WellFormed(l, n - |t.path| - 1) && WellFormed(r, n - |t.path| - 1)
  }

  /** Follows a key's bits through labels and forks. */
  function Lookup<V>(t: Tree<V>, key: Bits): Option<V>
    decreases t
  {
    if !(t.path <= key) then None
    else match t.node
      case Leaf(v) => if key == t.path then Some(v) else None
      case Fork(l, r) =>
        var rest := key[|t.path|..];
        if rest == [] then None
        else if rest[0] then Lookup(r, rest[1..])
        else Lookup(l, rest[1..])
  }

  function ForkDepth<V>(t: Tree<V>): nat {
    match t.node
    case Leaf(_) => 0
    case Fork(l, r) => 1 + if ForkDepth(l) < ForkDepth(r) then ForkDepth(r) else ForkDepth(l)
  }

  lemma {:induction false} DepthBound<V>(t: Tree<V>, n: nat)
    requires WellFormed(t, n)
    ensures ForkDepth(t) <= n
    decreases t
  {
    match t.node
    case Leaf(_) =>
    case Fork(l, r) =>
      DepthBound(l, n - |t.path| - 1);
      DepthBound(r, n - |t.path| - 1);
  }

  // ----- dictionaries: entries in insertion order

  type Dict<V> = seq<(Bits, V)>

  predicate DistinctKeys<V>(d: Dict<V>) {
    forall i, j :: 0 <= i < j < |d| ==> d[i].0 != d[j].0
  }

  predicate KeysOfLength<V>(d: Dict<V>, n: nat) {
    forall i :: 0 <= i < |d| ==> |d[i].0| == n
  }

  /** The trie finds v at k exactly when the dictionary maps k to v. */
  ghost predicate Agrees<V(!new)>(t: Tree<V>, d: Dict<V>) {
    forall k: Bits, v: V :: Lookup(t, k) == Some(v) <==> (k, v) in d
  }

  // ----- lexicographic order, and the common prefix

  predicate Leq(a: Bits, b: Bits) {
    if a == [] then true
    else if b == [] then false
    else if a[0] == b[0] then Leq(a[1..], b[1..])
    else b[0]
  }

  lemma {:induction false} LeqTotal(a: Bits, b: Bits)
    ensures Leq(a, b) || Leq(b, a)
  {
    if a != [] && b != [] {
      LeqTotal(a[1..], b[1..]);
    }
  }

  lemma {:induction false} LeqTransitive(a: Bits, b: Bits, c: Bits)
    requires Leq(a, b) && Leq(b, c)
    ensures Leq(a, c)
  {
    if a != [] && a[0] == b[0] && b[0] == c[0] {
      LeqTransitive(a[1..], b[1..], c[1..]);
    }
  }

  predicate IsSorted(s: seq<Bits>) {
    forall i, j :: 0 <= i < j < |s| ==> Leq(s[i], s[j])
  }

  function Insert(x: Bits, s: seq<Bits>): (r: seq<Bits>)
    requires IsSorted(s)
    ensures IsSorted(r) && multiset(r) == multiset(s) + multiset{x}
  {
    if s == [] then [x]
    else if Leq(x, s[0]) then
      BelowAll(x, s);
      [x] + s
    else
      LeqTotal(x, s[0]);
      var tail := Insert(x, s[1..]);
      AboveHead(x, s, tail);
      [s[0]] + tail
  }

  lemma BelowAll(x: Bits, s: seq<Bits>)
    requires IsSorted(s) && s != [] && Leq(x, s[0])
    ensures IsSorted([x] + s)
  {
    forall j | 0 <= j < |s| ensures Leq(x, s[j]) {
      if j > 0 {
        LeqTransitive(x, s[0], s[j]);
      }
    }
  }

  lemma AboveHead(x: Bits, s: seq<Bits>, tail: seq<Bits>)
    requires IsSorted(s) && s != [] && Leq(s[0], x)
    requires IsSorted(tail) && multiset(tail) == multiset(s[1..]) + multiset{x}
    ensures IsSorted([s[0]] + tail) && multiset([s[0]] + tail) == multiset(s) + multiset{x}
  {
    assert s == [s[0]] + s[1..];
    forall j | 0 <= j < |tail| ensures Leq(s[0], tail[j]) {
      assert tail[j] in multiset(tail);
    }
  }

  function Sort(s: seq<Bits>): (r: seq<Bits>)
    ensures IsSorted(r) && multiset(r) == multiset(s)
  {
    if s == [] then []
    else
      assert s == [s[0]] + s[1..];
      Insert(s[0], Sort(s[1..]))
  }

  /** Array.Sort, in place. */
  method SortArray(a: array<Bits>)
    modifies a
    ensures IsSorted(a[..]) && multiset(a[..]) == multiset(old(a[..]))
  {
    var s := Sort(a[..]);
    assert |multiset(s)| == |multiset(a[..])|;
    forall i | 0 <= i < a.Length {
      a[i] := s[i];
    }
    assert a[..] == s;
  }

  /** p is common to all keys and cannot be longer: either it is every key, or
      both bits follow it. */
  ghost predicate LongestCommonPrefix(p: Bits, keys: seq<Bits>) {
    && (forall k :: k in keys ==> p <= k)
    && ((forall k :: k in keys ==> k == p) || BothFollow(p, keys))
  }

  ghost predicate BothFollow(p: Bits, keys: seq<Bits>) {
    && (exists k :: k in keys && p + [false] <= k)
    && (exists k :: k in keys && p + [true] <= k)
  }

  /** Whatever the first and the last key share, every key between them has. */
  lemma {:induction false} SharedByBetween(p: Bits, first: Bits, key: Bits, last: Bits)
    requires Leq(first, key) && Leq(key, last)
    requires p <= first && p <= last
    requires |first| == |key| == |last|
    ensures p <= key
  {
    if p == [] {
    } else {
      assert p[1..] <= first[1..] && p[1..] <= last[1..];
      SharedByBetween(p[1..], first[1..], key[1..], last[1..]);
    }
  }

  lemma {:induction false} LeqAtDifference(a: Bits, b: Bits, i: nat)
    requires Leq(a, b) && i < |a| && i < |b| && a[..i] == b[..i] && a[i] != b[i]
    ensures !a[i] && b[i]
  {
    if i == 0 {
    } else {
      assert a[0] == a[..i][0] == b[..i][0] == b[0];
      assert a[1..][..i - 1] == a[..i][1..] && b[1..][..i - 1] == b[..i][1..];
      LeqAtDifference(a[1..], b[1..], i - 1);
    }
  }

  /** Sorts the given array, then compares only its first and last element. */
  method FindCommonPrefix(src: array<Bits>, ghost n: nat) returns (p: Bits)
    requires forall i :: 0 <= i < src.Length ==> |src[i]| == n
    modifies src
    ensures src.Length == 0 ==> p == []
    ensures src.Length == 1 ==> p == old(src[0])
    ensures src.Length > 0 ==> LongestCommonPrefix(p, old(src[..])) && |p| <= n
  {
    if src.Length == 0 {
      return [];
    }
    if src.Length == 1 {
      assert src[0] in src[..];
      return src[0];
    }
    ghost var keys := src[..];
    SortArray(src);
    SameMembers(src[..], keys);
    assert forall i :: 0 <= i < src.Length ==> src[..][i] in keys;
    var first, last := src[0], src[src.Length - 1];
    var size := 0;
    while size < |first| && first[size] == last[size]
      invariant size <= n && first[..size] == last[..size]
    {
      size := size + 1;
    }
    p := first[..size];
    PrefixOfSorted(src[..], n, size);
  }

  /** What the ends of a sorted list share is the longest common prefix. */
  lemma PrefixOfSorted(s: seq<Bits>, n: nat, size: nat)
    requires s != [] && IsSorted(s) && forall i :: 0 <= i < |s| ==> |s[i]| == n
    requires size <= n && s[0][..size] == s[|s| - 1][..size]
    requires size < n ==> s[0][size] != s[|s| - 1][size]
    ensures LongestCommonPrefix(s[0][..size], s)
  {
    var first, last, p := s[0], s[|s| - 1], s[0][..size];
    assert p <= last;
    forall k | k in s ensures p <= k && (size == n ==> k == p) {
      var i :| 0 <= i < |s| && s[i] == k;
      EndsBound(s, i);
      SharedByBetween(p, first, k, last);
    }
    if size < n {
      EndsBound(s, |s| - 1);
      LeqAtDifference(first, last, size);
      assert first in s && p + [false] <= first;
      assert last in s && p + [true] <= last;
    }
  }

  lemma SameMembers(s: seq<Bits>, t: seq<Bits>)
    requires multiset(s) == multiset(t)
    ensures forall k :: k in s <==> k in t
  {
    forall k ensures k in s <==> k in t {
      assert k in s <==> k in multiset(s);
      assert k in t <==> k in multiset(t);
    }
  }

  lemma EndsBound(s: seq<Bits>, i: nat)
    requires IsSorted(s) && i < |s|
    ensures Leq(s[0], s[i]) && Leq(s[i], s[|s| - 1])
  {
    LeqTotal(s[i], s[i]);
  }

  // ----- building

  method RemovePrefixMap<V>(src: Dict<V>, count: nat) returns (res: Dict<V>)
    requires forall i :: 0 <= i < |src| ==> count <= |src[i].0|
    ensures |res| == |src|
    ensures forall i :: 0 <= i < |src| ==> res[i] == (src[i].0[count..], src[i].1)
  {
    if count == 0 {
      return src;
    }
    res := [];
    for i := 0 to |src|
      invariant |res| == i
      invariant forall j :: 0 <= j < i ==> res[j] == (src[j].0[count..], src[j].1)
    {
      res := res + [(src[i].0[count..], src[i].1)];
    }
  }

  /** The entries whose key starts with bit b, without that bit. */
  function Side<V>(d: Dict<V>, b: bool): (r: Dict<V>)
    requires forall i :: 0 <= i < |d| ==> d[i].0 != []
  {
    if d == [] then []
    else
      var k, v := d[|d| - 1].0, d[|d| - 1].1;
      Side(d[..|d| - 1], b) + (if k[0] == b then [(k[1..], v)] else [])
  }

  lemma {:induction false} SideMembers<V(!new)>(d: Dict<V>, b: bool, n: nat)
    requires n > 0 && KeysOfLength(d, n)
    ensures forall k: Bits, v: V :: (k, v) in Side(d, b) <==> ([b] + k, v) in d
    ensures KeysOfLength(Side(d, b), n - 1)
  {
    if d == [] {
    } else {
      var front, last := d[..|d| - 1], d[|d| - 1];
      SideMembers(front, b, n);
      forall k: Bits, v: V ensures (k, v) in Side(d, b) <==> ([b] + k, v) in d {
        assert d == front + [last];
        assert ([b] + k, v) == last <==> last.0[0] == b && (k, v) == (last.0[1..], last.1) by {
          assert last.0 == [last.0[0]] + last.0[1..];
          assert ([b] + k)[0] == b && ([b] + k)[1..] == k;
        }
      }
    }
  }

  lemma {:induction false} SideDistinct<V(!new)>(d: Dict<V>, b: bool, n: nat)
    requires n > 0 && KeysOfLength(d, n) && DistinctKeys(d)
    ensures DistinctKeys(Side(d, b))
  {
    if d == [] {
    } else {
      var front, last := d[..|d| - 1], d[|d| - 1];
      SideDistinct(front, b, n);
      SideMembers(front, b, n);
      if last.0[0] == b {
        forall i | 0 <= i < |Side(front, b)| ensures Side(front, b)[i].0 != last.0[1..] {
          var e := Side(front, b)[i];
          assert (e.0, e.1) in Side(front, b);
          assert ([b] + e.0, e.1) in front;
          assert last.0 == [b] + last.0[1..];
        }
      }
    }
  }

  method ForkMap<V>(src: Dict<V>) returns (r: Result<(Dict<V>, Dict<V>)>)
    requires forall i :: 0 <= i < |src| ==> src[i].0 != []
    ensures src == [] ==> r == Failure("Internal inconsistency")
    ensures src != [] && Side(src, false) == [] ==> r == Failure("Internal inconsistency. Left emtpy.")
    ensures Side(src, false) != [] && Side(src, true) == [] ==> r == Failure("Internal inconsistency. Right emtpy.")
    ensures Side(src, false) != [] && Side(src, true) != [] ==> r == Success((Side(src, false), Side(src, true)))
  {
    if |src| == 0 {
      return Failure("Internal inconsistency");
    }
    var left, right := [], [];
    for i := 0 to |src|
      invariant left == Side(src[..i], false) && right == Side(src[..i], true)
    {
      var (k, d) := src[i];
      assert src[..i + 1][..i] == src[..i];
      if k[0] == false {
        left := left + [(k[1..], d)];
      } else {
        right := right + [(k[1..], d)];
      }
    }
    assert src[..|src|] == src;
    if |left| == 0 {
      return Failure("Internal inconsistency. Left emtpy.");
    }
    if |right| == 0 {
      return Failure("Internal inconsistency. Right emtpy.");
    }
    return Success((left, right));
  }

  ghost function KeysOf<V>(d: Dict<V>): seq<Bits> {
    seq(|d|, i requires 0 <= i < |d| => d[i].0)
  }

  method GetKeys<V>(src: Dict<V>) returns (keys: array<Bits>)
    ensures fresh(keys) && keys[..] == KeysOf(src)
  {
    keys := new Bits[|src|](i requires 0 <= i < |src| => src[i].0);
  }

  /** What buildNode is handed: no key bit is common to all entries any more. */
  ghost predicate PrefixRemoved<V>(d: Dict<V>) {
    && (|d| == 1 ==> d[0].0 == [])
    && (|d| >= 2 ==> (exists i :: 0 <= i < |d| && [false] <= d[i].0) && (exists i :: 0 <= i < |d| && [true] <= d[i].0))
  }

  lemma LookupBelowPath<V>(path: Bits, node: Node<V>, k: Bits)
    ensures Lookup(Edge(path, node), path + k) == Lookup(Edge([], node), k)
    ensures !(path <= k) ==> Lookup(Edge(path, node), k) == None
  {
    assert (path + k)[|path|..] == k && k[0..] == k;
    if node.Leaf? && path + k == path {
      assert |path + k| == |path| + |k|;
    }
  }

  ghost predicate Shortened<V(!new)>(src: Dict<V>, p: Bits, rest: Dict<V>) {
    && |rest| == |src|
    && forall i :: 0 <= i < |src| ==> p <= src[i].0 && rest[i] == (src[i].0[|p|..], src[i].1)
  }

  /** Removing the longest common prefix keeps keys distinct, of one length, and
      leaves nothing more to remove. */
  lemma ShortenedEntries<V(!new)>(src: Dict<V>, p: Bits, rest: Dict<V>, n: nat)
    requires Shortened(src, p, rest) && KeysOfLength(src, n) && DistinctKeys(src) && |p| <= n
    ensures KeysOfLength(rest, n - |p|) && DistinctKeys(rest)
    ensures forall k: Bits, v: V :: (k, v) in rest <==> (p + k, v) in src
  {
    forall i | 0 <= i < |src| ensures src[i].0 == p + rest[i].0 {
    }
    forall k: Bits, v: V ensures (k, v) in rest <==> (p + k, v) in src {
      if (p + k, v) in src {
        var i :| 0 <= i < |src| && src[i] == (p + k, v);
        assert rest[i] == (k, v);
      }
      if (k, v) in rest {
        var i :| 0 <= i < |src| && rest[i] == (k, v);
        assert src[i] == (p + k, v);
      }
    }
  }

  lemma ShortenedIsPrefixRemoved<V(!new)>(src: Dict<V>, p: Bits, rest: Dict<V>)
    requires Shortened(src, p, rest) && DistinctKeys(src)
    requires LongestCommonPrefix(p, KeysOf(src))
    requires |src| == 1 ==> p == src[0].0
    ensures PrefixRemoved(rest)
  {
    if |src| >= 2 {
      var keys := KeysOf(src);
      assert keys[0] in keys && keys[1] in keys;
      assert keys[0] != keys[1];
      assert BothFollow(p, keys);
      var k0 :| k0 in keys && p + [false] <= k0;
      var k1 :| k1 in keys && p + [true] <= k1;
      var i :| 0 <= i < |keys| && keys[i] == k0;
      var j :| 0 <= j < |keys| && keys[j] == k1;
      assert [false] <= rest[i].0 && [true] <= rest[j].0;
    }
  }

  /** The step that buildNode relies on. */
  lemma RestIsReady<V(!new)>(src: Dict<V>, p: Bits, rest: Dict<V>, n: nat)
    requires Shortened(src, p, rest) && DistinctKeys(src) && KeysOfLength(src, n) && |p| <= n
    requires src != [] ==> LongestCommonPrefix(p, KeysOf(src))
    requires |src| == 1 ==> p == src[0].0
    ensures DistinctKeys(rest) && KeysOfLength(rest, n - |p|) && PrefixRemoved(rest)
  {
    ShortenedEntries(src, p, rest, n);
    if src != [] {
      ShortenedIsPrefixRemoved(src, p, rest);
    }
  }

  /** On distinct keys of one length the trie is built, unless there is no
      entry; none of the other inconsistencies is reachable. */
  method BuildEdge<V(!new)>(src: Dict<V>, ghost n: nat) returns (r: Result<Tree<V>>)
    requires DistinctKeys(src) && KeysOfLength(src, n)
    ensures r.Success? <==> src != []
    ensures r.Success? ==> WellFormed(r.value, n) && Agrees(r.value, src)
    decreases n, 1
  {
    hide Lookup, Side, Agrees, LongestCommonPrefix;
    var keys := GetKeys(src);
    var path := FindCommonPrefix(keys, n);
    PathOfKeys(src, path);
    var rest := RemovePrefixMap(src, |path|);
    RestIsReady(src, path, rest, n);
    var node := BuildNode(rest, n - |path|);
    if node.Failure? {
      return Failure(node.error);
    }
    EdgeAgrees(src, path, rest, n, node.value);
    return Success(Edge(path, node.value));
  }

  lemma PathOfKeys<V(!new)>(src: Dict<V>, path: Bits)
    requires src != [] ==> LongestCommonPrefix(path, KeysOf(src))
    ensures forall i :: 0 <= i < |src| ==> path <= src[i].0
  {
    forall i | 0 <= i < |src| ensures path <= src[i].0 {
      assert KeysOf(src)[i] in KeysOf(src);
    }
  }

  lemma EdgeAgrees<V(!new)>(src: Dict<V>, path: Bits, rest: Dict<V>, n: nat, node: Node<V>)
    requires Shortened(src, path, rest) && KeysOfLength(src, n) && DistinctKeys(src) && |path| <= n
    requires WellFormed(Edge([], node), n - |path|) && Agrees(Edge([], node), rest)
    ensures WellFormed(Edge(path, node), n) && Agrees(Edge(path, node), src)
  {
    ShortenedEntries(src, path, rest, n);
    forall k: Bits, v: V ensures Lookup(Edge(path, node), k) == Some(v) <==> (k, v) in src {
      if path <= k {
        var k' := k[|path|..];
        assert k == path + k';
        LookupBelowPath(path, node, k');
        assert (k', v) in rest <==> (path + k', v) in src;
      } else {
        LookupBelowPath(path, node, k);
        assert (k, v) !in src;
      }
    }
  }

  method BuildNode<V(!new)>(src: Dict<V>, ghost n: nat) returns (r: Result<Node<V>>)
    requires DistinctKeys(src) && KeysOfLength(src, n) && PrefixRemoved(src)
    ensures r.Success? <==> src != []
    ensures r.Success? ==> WellFormed(Edge([], r.value), n) && Agrees(Edge([], r.value), src)
    decreases n, 0
  {
    hide Lookup, Side, Agrees;
    if |src| == 0 {
      return Failure("Internal inconsistency");
    }
    if |src| == 1 {
      LeafAgrees(src);
      return Success(Leaf(src[0].1));
    }
    BothSidesTaken(src, n);
    var sides := ForkMap(src);
    var left := BuildEdge(sides.value.0, n - 1);
    var right := BuildEdge(sides.value.1, n - 1);
    ForkAgrees(left.value, right.value, src, n);
    return Success(Fork(left.value, right.value));
  }

  lemma LeafAgrees<V(!new)>(d: Dict<V>)
    requires |d| == 1 && d[0].0 == []
    ensures WellFormed(Edge([], Leaf(d[0].1)), 0) && Agrees(Edge([], Leaf(d[0].1)), d)
  {
    assert d[0] == ([], d[0].1);
  }

  lemma EntryOnSide<V(!new)>(d: Dict<V>, i: nat, b: bool, n: nat)
    requires n > 0 && KeysOfLength(d, n) && i < |d| && [b] <= d[i].0
    ensures Side(d, b) != []
  {
    SideMembers(d, b, n);
    var k, v := d[i].0[1..], d[i].1;
    assert d[i].0 == [b] + k;
    assert ([b] + k, v) in d;
    assert (k, v) in Side(d, b);
  }

  lemma BothSidesTaken<V(!new)>(d: Dict<V>, n: nat)
    requires DistinctKeys(d) && KeysOfLength(d, n) && PrefixRemoved(d) && |d| >= 2
    ensures n > 0
    ensures forall b :: Side(d, b) != [] && DistinctKeys(Side(d, b)) && KeysOfLength(Side(d, b), n - 1)
  {
    var i :| 0 <= i < |d| && [false] <= d[i].0;
    var j :| 0 <= j < |d| && [true] <= d[j].0;
    EntryOnSide(d, i, false, n);
    EntryOnSide(d, j, true, n);
    forall b: bool ensures DistinctKeys(Side(d, b)) && KeysOfLength(Side(d, b), n - 1) {
      SideMembers(d, b, n);
      SideDistinct(d, b, n);
    }
  }

  lemma ForkAgrees<V(!new)>(l: Tree<V>, r: Tree<V>, d: Dict<V>, n: nat)
    requires n > 0 && KeysOfLength(d, n)
    requires Agrees(l, Side(d, false)) && Agrees(r, Side(d, true))
    ensures Agrees(Edge([], Fork(l, r)), d)
  {
    SideMembers(d, false, n);
    SideMembers(d, true, n);
    forall k: Bits, v: V ensures Lookup(Edge([], Fork(l, r)), k) == Some(v) <==> (k, v) in d {
      ForkLookup(l, r, k);
      if k != [] {
        assert k == [k[0]] + k[1..];
        assert (k[1..], v) in Side(d, k[0]) <==> (k, v) in d;
      }
    }
  }

  lemma ForkLookup<V>(l: Tree<V>, r: Tree<V>, k: Bits)
    ensures Lookup(Edge([], Fork(l, r)), k) == if k == [] then None else Lookup(if k[0] then r else l, k[1..])
  {
    assert k[0..] == k;
  }

  // ----- the trie is determined by the map

  function SomeKey<V>(t: Tree<V>, n: nat): (k: Bits)
    requires WellFormed(t, n)
    ensures |k| == n && Lookup(t, k).Some? && t.path <= k
    decreases t
  {
    match t.node
    case Leaf(_) => t.path
    case Fork(l, r) =>
      var rest := SomeKey(l, n - |t.path| - 1);
      LookupFork(t, false, rest);
      t.path + [false] + rest
  }

  lemma LookupFork<V>(t: Tree<V>, b: bool, k: Bits)
    requires t.node.Fork?
    ensures Lookup(t, t.path + [b] + k) == Lookup(if b then t.node.right else t.node.left, k)
  {
    var key := t.path + [b] + k;
    assert key[|t.path|..] == [b] + k && ([b] + k)[1..] == k;
  }

  /** Two keys of a fork that part right after its path. */
  lemma PartingKeys<V>(t: Tree<V>, n: nat) returns (k0: Bits, k1: Bits)
    requires WellFormed(t, n) && t.node.Fork?
    ensures |k0| == |k1| == n && Lookup(t, k0).Some? && Lookup(t, k1).Some?
    ensures |t.path| < n && !k0[|t.path|] && k1[|t.path|]
  {
    var m := n - |t.path| - 1;
    var left, right := SomeKey(t.node.left, m), SomeKey(t.node.right, m);
    k0, k1 := t.path + [false] + left, t.path + [true] + right;
    LookupFork(t, false, left);
    LookupFork(t, true, right);
  }

  lemma PathNotLonger<V>(s: Tree<V>, t: Tree<V>, n: nat)
    requires WellFormed(s, n) && WellFormed(t, n)
    requires forall k: Bits :: |k| == n ==> Lookup(s, k) == Lookup(t, k)
    ensures |s.path| >= |t.path|
  {
    if |s.path| < |t.path| {
      var k0, k1 := PartingKeys(s, n);
      assert false;
    }
  }

  lemma SamePath<V>(s: Tree<V>, t: Tree<V>, key: Bits)
    requires |s.path| == |t.path| && Lookup(s, key).Some? && Lookup(s, key) == Lookup(t, key)
    ensures s.path == t.path
    ensures s.node.Leaf? && t.node.Leaf? ==> s == t
  {
  }

  /** Two well-formed tries that answer every lookup alike are the same trie. */
  lemma {:induction false} TrieUnique<V(!new)>(s: Tree<V>, t: Tree<V>, n: nat)
    requires WellFormed(s, n) && WellFormed(t, n)
    requires forall k: Bits :: |k| == n ==> Lookup(s, k) == Lookup(t, k)
    ensures s == t
    decreases n
  {
    hide SomeKey, Lookup;
    PathNotLonger(s, t, n);
    PathNotLonger(t, s, n);
    var key := SomeKey(s, n);
    SamePath(s, t, key);
    if |s.path| < n {
      var m := n - |s.path| - 1;
      forall k: Bits | |k| == m
        ensures Lookup(s.node.left, k) == Lookup(t.node.left, k)
        ensures Lookup(s.node.right, k) == Lookup(t.node.right, k)
      {
        LookupFork(s, false, k);
        LookupFork(t, false, k);
        LookupFork(s, true, k);
        LookupFork(t, true, k);
      }
      TrieUnique(s.node.left, t.node.left, m);
      TrieUnique(s.node.right, t.node.right, m);
    }
  }

  // ----- from integer keys

  const TWO64: nat := 0x1_0000_0000_0000_0000

  function Digits(v: nat): Bits {
    if v < 2 then [v == 1] else Digits(v / 2) + [v % 2 == 1]
  }

  function Unsigned(k: int): nat
    requires IsLong(k)
  {
    if k < 0 then k + TWO64 else k
  }

  /** Convert.ToString(k, 2): no leading zeros, two's complement if negative. */
  function BinaryString(k: int): Bits
    requires IsLong(k)
  {
    Digits(Unsigned(k))
  }

  function Zeros(n: nat): (r: Bits)
    ensures |r| == n
  {
    if n == 0 then [] else [false] + Zeros(n - 1)
  }

  method Pad(src: Bits, size: nat) returns (r: Bits)
    ensures r == Zeros(if |src| < size then size - |src| else 0) + src
  {
    r := src;
    while |r| < size
      invariant |src| <= |r| && (|r| <= size || r == src)
      invariant r == Zeros(|r| - |src|) + src
    {
      assert Zeros(|r| + 1 - |src|) == [false] + Zeros(|r| - |src|);
      r := [false] + r;
    }
  }

  /** The keys a keyLength of n has room for. Width 0 has room for none: even 0
      is written as one digit. A negative key takes 64 digits. */
  predicate KeyFits(k: int, n: nat) {
    IsLong(k) && n >= 1 && if k < 0 then n >= 64 else k < Pow2(n)
  }

  lemma {:induction false} DigitsCode(v: nat)
    ensures Digits(v) == ToBits(v, |Digits(v)|)
    ensures |Digits(v)| >= 1 && v < Pow2(|Digits(v)|)
    ensures v >= 1 ==> Pow2(|Digits(v)| - 1) <= v
  {
    if v >= 2 {
      DigitsCode(v / 2);
    } else {
      assert ToBits(v, 1) == ToBits(v / 2, 0) + [v % 2 == 1];
    }
  }

  lemma OneZeroBit()
    ensures ToBits(0, 1) == [false]
  {
  }

  lemma {:induction false} ZerosAreLeading(v: nat, w: nat, z: nat)
    requires v < Pow2(w)
    ensures Zeros(z) + ToBits(v, w) == ToBits(v, z + w)
    decreases z
  {
    hide ToBits;
    if z == 0 {
    } else {
      ZerosAreLeading(v, w, z - 1);
      Pow2Monotone(w, z - 1 + w);
      ToBitsSplit(v, 1, z - 1 + w);
      DivModUnique(v, Pow2(z - 1 + w), 0, v);
      OneZeroBit();
    }
  }

  lemma DigitCount(v: nat, n: nat)
    ensures |Digits(v)| <= n <==> n >= 1 && v < Pow2(n)
  {
    DigitsCode(v);
    if |Digits(v)| <= n {
      Pow2Monotone(|Digits(v)|, n);
    } else if n >= 1 {
      assert v >= 1;
      Pow2Monotone(n, |Digits(v)| - 1);
    }
  }

  function Padded(k: int, n: nat): Bits
    requires IsLong(k)
  {
    var src := BinaryString(k);
    Zeros(if |src| < n then n - |src| else 0) + src
  }

  /** A padded key has exactly n bits if and only if the key fits; then it is
      the n-bit code of the key. */
  lemma PaddedKey(k: int, n: nat)
    requires IsLong(k)
    ensures |Padded(k, n)| == n <==> KeyFits(k, n)
    ensures KeyFits(k, n) ==> Padded(k, n) == ToBits(Unsigned(k), n) && Unsigned(k) < Pow2(n)
  {
    hide Digits, ToBits;
    var v := Unsigned(k);
    Pow2Values();
    DigitCount(v, n);
    DigitsCode(v);
    if k < 0 {
      Pow2Add(63, 1);
      if n >= 64 {
        Pow2Monotone(64, n);
      } else {
        Pow2Monotone(n, 63);
      }
    }
    if |Digits(v)| <= n {
      ZerosAreLeading(v, |Digits(v)|, n - |Digits(v)|);
    }
  }

  /** The bits of a fitting key are the n-bit code of its number, taken as the
      64-bit pattern of a long: a key that is not negative reads back as itself. */
  lemma PaddedReadsBack(k: int, n: nat)
    requires KeyFits(k, n)
    ensures Padded(k, n) == ToBits(k % Pow2(64), n)
    ensures FromBits(Padded(k, n)) == k % Pow2(64)
    ensures FromBits(Padded(k, n)) == if k >= 0 then k else k + Pow2(64)
  {
    PaddedKey(k, n);
    SmallRoundTrip(Unsigned(k), n);
    Pow2Values();
    if k < 0 {
      DivModUnique(k, Pow2(64), -1, k + Pow2(64));
    } else {
      DivModUnique(k, Pow2(64), 0, k);
    }
  }

  lemma PaddedInjective(j: int, k: int, n: nat)
    requires KeyFits(j, n) && KeyFits(k, n) && Padded(j, n) == Padded(k, n)
    ensures j == k
  {
    PaddedKey(j, n);
    PaddedKey(k, n);
    SmallRoundTrip(Unsigned(j), n);
    SmallRoundTrip(Unsigned(k), n);
  }

  type IntDict<V> = seq<(int, V)>

  predicate DistinctIntKeys<V>(src: IntDict<V>) {
    forall i, j :: 0 <= i < j < |src| ==> src[i].0 != src[j].0
  }

  predicate AllKeysFit<V>(src: IntDict<V>, n: nat) {
    forall i :: 0 <= i < |src| ==> KeyFits(src[i].0, n)
  }

  /** Looking up the n-bit code of a key's 64-bit pattern finds exactly what the
      dictionary holds for the key. */
  ghost predicate AgreesWithInts<V(!new)>(t: Tree<V>, src: IntDict<V>, n: nat) {
    && (forall i :: 0 <= i < |src| ==>
          KeyFits(src[i].0, n) && Lookup(t, ToBits(src[i].0 % Pow2(64), n)) == Some(src[i].1))
    && (forall k: Bits :: Lookup(t, k).Some? ==> exists i :: 0 <= i < |src| && ToBits(src[i].0 % Pow2(64), n) == k)
  }

  lemma SameEntriesSameLookups<V(!new)>(s: Tree<V>, d: IntDict<V>, t: Tree<V>, e: IntDict<V>, n: nat, k: Bits)
    requires AgreesWithInts(s, d, n) && AgreesWithInts(t, e, n) && multiset(d) == multiset(e)
    requires Lookup(s, k).Some?
    ensures Lookup(t, k) == Lookup(s, k)
  {
    hide Lookup, KeyFits;
    var i :| 0 <= i < |d| && ToBits(d[i].0 % Pow2(64), n) == k;
    assert d[i] in multiset(d);
    assert d[i] in multiset(e);
    var j :| 0 <= j < |e| && e[j] == d[i];
  }

  /** The trie does not depend on the order in which entries were inserted. */
  lemma InsertionOrderIrrelevant<V(!new)>(s: Tree<V>, d: IntDict<V>, t: Tree<V>, e: IntDict<V>, n: nat)
    requires WellFormed(s, n) && AgreesWithInts(s, d, n)
    requires WellFormed(t, n) && AgreesWithInts(t, e, n)
    requires multiset(d) == multiset(e)
    ensures s == t
  {
    forall k: Bits | |k| == n ensures Lookup(s, k) == Lookup(t, k) {
      if Lookup(s, k).Some? {
        SameEntriesSameLookups(s, d, t, e, n, k);
      } else if Lookup(t, k).Some? {
        SameEntriesSameLookups(t, e, s, d, n, k);
      }
    }
    TrieUnique(s, t, n);
  }

  method BuildTree<V(!new)>(src: IntDict<V>, n: nat) returns (r: Result<Tree<V>>)
    requires DistinctIntKeys(src) && AllKeysFit(src, n)
    ensures r.Success? <==> src != []
    ensures r.Success? ==> WellFormed(r.value, n) && AgreesWithInts(r.value, src, n)
  {
    var converted := [];
    for i := 0 to |src|
      invariant |converted| == i
      invariant forall j :: 0 <= j < i ==> converted[j] == (Padded(src[j].0, n), src[j].1)
    {
      var (index, value) := src[i];
      var padded := Pad(BinaryString(index), n);
      converted := converted + [(padded, value)];
    }
    forall i | 0 <= i < |src| ensures |converted[i].0| == n && converted[i].0 == ToBits(src[i].0 % Pow2(64), n) {
      PaddedKey(src[i].0, n);
      PaddedReadsBack(src[i].0, n);
    }
    forall i, j | 0 <= i < j < |src| ensures converted[i].0 != converted[j].0 {
      if converted[i].0 == converted[j].0 {
        PaddedInjective(src[i].0, src[j].0, n);
      }
    }
    r := BuildEdge(converted, n);
    if r.Success? {
      ConvertedAgrees(src, converted, r.value, n);
    }
  }

  lemma ConvertedAgrees<V(!new)>(src: IntDict<V>, converted: Dict<V>, t: Tree<V>, n: nat)
    requires AllKeysFit(src, n) && |converted| == |src| && Agrees(t, converted)
    requires forall i :: 0 <= i < |src| ==> converted[i] == (ToBits(src[i].0 % Pow2(64), n), src[i].1)
    ensures AgreesWithInts(t, src, n)
  {
    hide Lookup, ToBits, Pow2;
    forall i | 0 <= i < |src| ensures Lookup(t, ToBits(src[i].0 % Pow2(64), n)) == Some(src[i].1) {
      assert converted[i] in converted;
    }
    forall k: Bits | Lookup(t, k).Some? ensures exists i :: 0 <= i < |src| && ToBits(src[i].0 % Pow2(64), n) == k {
      assert (k, Lookup(t, k).value) in converted;
      var i :| 0 <= i < |converted| && converted[i] == (k, Lookup(t, k).value);
      assert ToBits(src[i].0 % Pow2(64), n) == k;
    }
  }
}
