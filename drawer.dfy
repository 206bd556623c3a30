/**
 * Typed views over DRAWER and PROPERTY_DRAWER nodes: the drawer's name, the
 * byte offsets bounding its content, its raw content, and the key/value pairs
 * of a property drawer collected in several ways.
 *
 * A drawer is passed as its node `d` together with the absolute offset
 * `start` at which the node begins, which is what a cursor carries.
 */
module DrawerView {
  import opened Wrappers
  import opened Syntax

  // ---------------------------------------------------------------------------
  // Content offsets (shared by Drawer and PropertyDrawer, whose code is identical)

  /** `content_start`: the end of the first child node's range, or the drawer's own start. */
  function ContentStart(d: Elem, start: nat): (r: nat)
    requires d.Node?
    ensures start <= r <= start + Len(d)
    ensures FirstNodeIndex(d.children).None? ==> r == start
  {
    match FirstNodeIndex(d.children)
    case None => start
    case Some(i) =>
      ChildRange(start, d.children, i);
      ChildStart(start, d.children, i) + Len(d.children[i])
  }

  /** `content_end`: the start of the last child node's range, or the drawer's own end. */
  function ContentEnd(d: Elem, start: nat): (r: nat)
    requires d.Node?
    ensures start <= r <= start + Len(d)
    ensures LastNodeIndex(d.children).None? ==> r == start + Len(d)
  {
    match LastNodeIndex(d.children)
    case None => start + Len(d)
    case Some(i) =>
      ChildRange(start, d.children, i);
      ChildStart(start, d.children, i)
  }

  /** With two or more child nodes the content offsets are in order. */
  lemma ContentOrdered(d: Elem, start: nat, i: nat, j: nat)
    requires d.Node? && i < j < |d.children|
    requires d.children[i].Node? && d.children[j].Node?
    ensures ContentStart(d, start) <= ContentEnd(d, start)
  {
    var a := FirstNodeIndex(d.children).value;
    var b := LastNodeIndex(d.children).value;
    assert a <= i && j <= b;
    ChildRange(start, d.children, a);
    ChildStartMonotone(start, d.children, a + 1, b);
  }

  /**
   * With a single non-empty child node the two offsets cross: the content
   * "range" starts after it ends.
   */
  lemma SingleNodeContentInverted(d: Elem, start: nat, i: nat)
    requires d.Node? && i < |d.children| && d.children[i].Node? && Len(d.children[i]) > 0
    requires forall j :: 0 <= j < |d.children| && j != i ==> !d.children[j].Node?
    ensures ContentEnd(d, start) < ContentStart(d, start)
  {
    assert FirstNodeIndex(d.children) == Some(i);
    assert LastNodeIndex(d.children) == Some(i);
  }

  // ---------------------------------------------------------------------------
  // Drawer name and raw content

  /**
   * `Drawer::name`: the first TEXT token inside the first child node; `None`
   * stands for the absent (default) token.
   */
  function Name(d: Elem): (r: Option<string>)
    requires d.Node?
    ensures r.Some? ==> FirstNodeIndex(d.children).Some? &&
                        Tok(Text, r.value) in d.children[FirstNodeIndex(d.children).value].children
    ensures FirstNodeIndex(d.children).None? ==> r.None?
  {
    match FirstNodeIndex(d.children)
    case None => None
    case Some(i) => FindToken(d.children[i].children, Text)
  }

  /** The name as displayed: the absent token shows as the empty string. */
  function NameText(d: Elem): string
    requires d.Node?
  {
    match Name(d)
    case None => ""
    case Some(t) => t
  }

  /**
   * `content_raw`: the text of the first DRAWER_CONTENT child, which is the
   * slice of the drawer's text between that child's earlier and later siblings.
   */
  function ContentRaw(d: Elem): (r: string)
    requires d.Node?
    ensures FindNodeIndex(d.children, DrawerContent).None? ==> r == ""
    ensures FindNodeIndex(d.children, DrawerContent).Some? ==>
              var i := FindNodeIndex(d.children, DrawerContent).value;
              TextOf(d) == Concat(d.children[..i]) + r + Concat(d.children[i + 1..]) &&
              Utf8Len(r) == Len(d.children[i])
  {
    match FindNode(d.children, DrawerContent)
    case None => ""
    case Some(n) =>
      var i := FindNodeIndex(d.children, DrawerContent).value;
      ChildTextSplit(d.children, i);
      LenIsTextLen(n);
      TextOf(n)
  }

  // ---------------------------------------------------------------------------
  // Property drawer

  /** The pair made of a property's first two TEXT tokens, if it has two. */
  function PropertyPair(p: Elem): Option<(string, string)>
    requires p.Node?
  {
    var texts := TokensOf(p.children, Text);
    if |texts| >= 2 then Some((texts[0], texts[1])) else None
  }

  /** `filter_map` of `PropertyPair` over the property nodes, in order. */
  function PairsOf(props: seq<Elem>): (r: seq<(string, string)>)
    requires forall p :: p in props ==> p.Node?
    ensures |r| <= |props|
  {
    if props == [] then []
    else
      var rest := PairsOf(props[1..]);
      match PropertyPair(props[0])
      case None => rest
      case Some(kv) => [kv] + rest
  }

  /** The pairs listed are exactly those of the properties that have one. */
  lemma {:induction false} PairsOfMembers(props: seq<Elem>)
    requires forall p :: p in props ==> p.Node?
    ensures forall kv :: kv in PairsOf(props) <==> exists p :: p in props && PropertyPair(p) == Some(kv)
  {
    if props != [] {
      assert forall p :: p in props <==> p == props[0] || p in props[1..];
      PairsOfMembers(props[1..]);
    }
  }

  /** One pair per property that has one, in property order: the map distributes over `+`. */
  lemma {:induction false} PairsOfAppend(a: seq<Elem>, b: seq<Elem>)
    requires forall p :: p in a ==> p.Node?
    requires forall p :: p in b ==> p.Node?
    ensures PairsOf(a + b) == PairsOf(a) + PairsOf(b)
  {
    if a == [] {
      assert a + b == b;
    } else {
      assert (a + b)[0] == a[0] && (a + b)[1..] == a[1..] + b;
      assert forall p :: p in a[1..] ==> p in a;
      PairsOfAppend(a[1..], b);
    }
  }

  /** `PropertyDrawer::iter`: the (key, value) pairs of the drawer's property nodes. */
  function Iter(d: Elem): seq<(string, string)>
    requires d.Node?
  {
    PairsOf(NodesOf(d.children, NodeProperty))
  }

  /** The pairs a single child contributes: its own pair when it is a NODE_PROPERTY that has one. */
  function ChildPairs(c: Elem): seq<(string, string)>
  {
    if IsNodeOf(c, NodeProperty) then
      match PropertyPair(c)
      case None => []
      case Some(kv) => [kv]
    else []
  }

  /**
   * `iter` walks the drawer's children in order: the pairs of children
   * `a + b` are those of `a` followed by those of `b`, and a single child
   * contributes exactly its own pair, if any.
   */
  lemma IterChildren(kind: Kind, a: seq<Elem>, b: seq<Elem>)
    ensures Iter(Node(kind, a + b)) == Iter(Node(kind, a)) + Iter(Node(kind, b))
    ensures |a| == 1 ==> Iter(Node(kind, a)) == ChildPairs(a[0])
  {
    NodesOfAppend(a, b, NodeProperty);
    PairsOfAppend(NodesOf(a, NodeProperty), NodesOf(b, NodeProperty));
    if |a| == 1 {
      assert a[1..] == [];
    }
  }

  /** The value of the first pair whose key is `key`. */
  function FindValue(ps: seq<(string, string)>, key: string): (r: Option<string>)
    ensures r.None? <==> forall i :: 0 <= i < |ps| ==> ps[i].0 != key
    ensures r.Some? ==> exists i :: 0 <= i < |ps| && ps[i] == (key, r.value) &&
                                    forall j :: 0 <= j < i ==> ps[j].0 != key
  {
    if ps == [] then None
    else if ps[0].0 == key then Some(ps[0].1)
    else
      var r := FindValue(ps[1..], key);
      assert forall i :: 1 <= i < |ps| ==> ps[i] == ps[1..][i - 1];
      r
  }

  /** `PropertyDrawer::get`: the value of the first property whose key is `key`. */
  function Get(d: Elem, key: string): Option<string>
    requires d.Node?
  {
    FindValue(Iter(d), key)
  }

  /** The first match in `xs + ys` is the first in `xs`, or else the first in `ys`. */
  lemma {:induction false} FindValueAppend(xs: seq<(string, string)>, ys: seq<(string, string)>, key: string)
    ensures FindValue(xs + ys, key) == if FindValue(xs, key).Some? then FindValue(xs, key) else FindValue(ys, key)
  {
    if xs == [] {
      assert xs + ys == ys;
    } else {
      assert (xs + ys)[0] == xs[0] && (xs + ys)[1..] == xs[1..] + ys;
      FindValueAppend(xs[1..], ys, key);
    }
  }

  /**
   * `get` on a drawer whose children are `a + b`: a property in `a` with the
   * key wins over any in `b`; only when `a` has none does `b` answer.
   */
  lemma GetChildren(kind: Kind, a: seq<Elem>, b: seq<Elem>, key: string)
    ensures Get(Node(kind, a + b), key) ==
              if Get(Node(kind, a), key).Some? then Get(Node(kind, a), key) else Get(Node(kind, b), key)
  {
    IterChildren(kind, a, b);
    FindValueAppend(Iter(Node(kind, a)), Iter(Node(kind, b)), key);
  }

  /** The set of distinct keys of `ps`. */
  function KeySet(ps: seq<(string, string)>): set<string>
  {
    set i | 0 <= i < |ps| :: ps[i].0
  }

  lemma KeySetSnoc(ps: seq<(string, string)>)
    requires ps != []
    ensures KeySet(ps) == KeySet(ps[..|ps| - 1]) + {ps[|ps| - 1].0}
  {
    var n := |ps| - 1;
    forall i | 0 <= i < |ps| ensures ps[i].0 in KeySet(ps[..n]) + {ps[n].0} {
      if i < n { assert ps[..n][i].0 in KeySet(ps[..n]); }
    }
    forall k | k in KeySet(ps[..n]) ensures k in KeySet(ps) {
      var i :| 0 <= i < n && ps[..n][i].0 == k;
      assert ps[i].0 == k;
    }
  }

  /**
   * `iter().collect()` into a hash map: a left fold that overwrites, so a
   * duplicated key keeps its last value.
   */
  function Collect(ps: seq<(string, string)>): map<string, string>
  {
    if ps == [] then map[]
    else Collect(ps[..|ps| - 1])[ps[|ps| - 1].0 := ps[|ps| - 1].1]
  }

  /**
   * The collected map has one entry per distinct key, and each key maps to the
   * value of its last occurrence.
   */
  lemma {:induction false} CollectLastWins(ps: seq<(string, string)>)
    ensures Collect(ps).Keys == KeySet(ps)
    ensures |Collect(ps)| == |KeySet(ps)|
    ensures forall k :: k in Collect(ps) ==>
              exists i :: 0 <= i < |ps| && ps[i] == (k, Collect(ps)[k]) &&
                          forall j :: i < j < |ps| ==> ps[j].0 != k
  {
    if ps != [] {
      var n := |ps| - 1;
      var pre := ps[..n];
      CollectLastWins(pre);
      KeySetSnoc(ps);
      var m := Collect(ps);
      forall k | k in m
        ensures exists i :: 0 <= i < |ps| && ps[i] == (k, m[k]) &&
                            forall j :: i < j < |ps| ==> ps[j].0 != k
      {
        if k == ps[n].0 {
          assert ps[n] == (k, m[k]);
        } else {
          var i :| 0 <= i < n && pre[i] == (k, Collect(pre)[k]) &&
                   forall j :: i < j < n ==> pre[j].0 != k;
          assert ps[i] == (k, m[k]);
          forall j | i < j < |ps| ensures ps[j].0 != k {
            if j < n { assert pre[j] == ps[j]; }
          }
        }
      }
    }
  }

  /** `PropertyDrawer::to_hash_map`. */
  function ToHashMap(d: Elem): map<string, string>
    requires d.Node?
  {
    Collect(Iter(d))
  }

  /**
   * `get` and the collected map know the same keys; they agree on a key that
   * occurs once (`get` keeps the first value, the map the last).
   */
  lemma {:induction false} FindValueVsCollect(ps: seq<(string, string)>, key: string)
    ensures FindValue(ps, key).Some? <==> key in Collect(ps)
    ensures (forall i, j :: 0 <= i < j < |ps| && ps[i].0 == key ==> ps[j].0 != key) ==>
              FindValue(ps, key) == if key in Collect(ps) then Some(Collect(ps)[key]) else None
  {
    CollectLastWins(ps);
    if key in Collect(ps) {
      assert key in KeySet(ps);
    }
  }

  // ---------------------------------------------------------------------------
  // Insertion-ordered map

  /** Index of the entry whose key is `k`, if any. */
  function IndexOfKey(m: seq<(string, string)>, k: string): (r: Option<nat>)
    ensures r.None? <==> forall i :: 0 <= i < |m| ==> m[i].0 != k
    ensures r.Some? ==> r.value < |m| && m[r.value].0 == k
  {
    if m == [] then None
    else if m[|m| - 1].0 == k then Some(|m| - 1)
    else IndexOfKey(m[..|m| - 1], k)
  }

  predicate DistinctKeys(m: seq<(string, string)>)
  {
    forall i, j :: 0 <= i < j < |m| ==> m[i].0 != m[j].0
  }

  /**
   * Insertion into an insertion-ordered map: a new key is appended, an
   * existing key keeps its position and takes the new value.
   */
  function Insert(m: seq<(string, string)>, k: string, v: string): seq<(string, string)>
  {
    match IndexOfKey(m, k)
    case Some(j) => m[j := (k, v)]
    case None => m + [(k, v)]
  }

  lemma InsertKeys(m: seq<(string, string)>, k: string, v: string)
    requires DistinctKeys(m)
    ensures DistinctKeys(Insert(m, k, v))
    ensures KeySet(Insert(m, k, v)) == KeySet(m) + {k}
    ensures |Insert(m, k, v)| == if k in KeySet(m) then |m| else |m| + 1
    ensures forall i :: 0 <= i < |m| ==> Insert(m, k, v)[i].0 == m[i].0
    ensures k !in KeySet(m) ==> Insert(m, k, v)[|m|].0 == k
  {
    var r := Insert(m, k, v);
    match IndexOfKey(m, k)
    case Some(j) =>
      assert k in KeySet(m);
      assert forall i :: 0 <= i < |m| ==> r[i].0 == m[i].0;
      assert KeySet(r) == KeySet(m) by {
        forall x | x in KeySet(r) ensures x in KeySet(m) {
          var i :| 0 <= i < |r| && r[i].0 == x;
          assert m[i].0 == x;
        }
        forall x | x in KeySet(m) ensures x in KeySet(r) {
          var i :| 0 <= i < |m| && m[i].0 == x;
          assert r[i].0 == x;
        }
      }
    case None =>
      assert k !in KeySet(m);
      assert r[..|m|] == m;
      KeySetSnoc(r);
  }

  /**
   * `iter().collect()` into an insertion-ordered map: the pairs are inserted
   * one after the other.
   */
  function CollectIndexed(ps: seq<(string, string)>): seq<(string, string)>
  {
    if ps == [] then []
    else Insert(CollectIndexed(ps[..|ps| - 1]), ps[|ps| - 1].0, ps[|ps| - 1].1)
  }

  /** The insertion-ordered map holds each distinct key of `ps` exactly once. */
  lemma {:induction false} CollectIndexedKeys(ps: seq<(string, string)>)
    ensures DistinctKeys(CollectIndexed(ps))
    ensures KeySet(CollectIndexed(ps)) == KeySet(ps)
    ensures |CollectIndexed(ps)| == |KeySet(ps)|
  {
    if ps != [] {
      var n := |ps| - 1;
      CollectIndexedKeys(ps[..n]);
      KeySetSnoc(ps);
      InsertKeys(CollectIndexed(ps[..n]), ps[n].0, ps[n].1);
      if ps[n].0 in KeySet(ps[..n]) {
        assert KeySet(ps) == KeySet(ps[..n]);
      } else {
        assert |KeySet(ps[..n]) + {ps[n].0}| == |KeySet(ps[..n])| + 1;
      }
    }
  }

  /** Each entry of the insertion-ordered map carries the value the hash map gives its key. */
  lemma {:induction false} CollectIndexedValues(ps: seq<(string, string)>)
    ensures forall i :: 0 <= i < |CollectIndexed(ps)| ==>
              CollectIndexed(ps)[i].0 in Collect(ps) &&
              CollectIndexed(ps)[i].1 == Collect(ps)[CollectIndexed(ps)[i].0]
  {
    if ps != [] {
      var n := |ps| - 1;
      var pre := ps[..n];
      CollectIndexedValues(pre);
      CollectIndexedKeys(pre);
      var m := CollectIndexed(pre);
      var (k, v) := ps[n];
      assert Collect(ps) == Collect(pre)[k := v];
      if IndexOfKey(m, k).None? {
        var r := m + [(k, v)];
        assert forall i :: 0 <= i < |m| ==> r[i] == m[i];
      }
    }
  }

  /** The entries of the insertion-ordered map follow the first occurrences of their keys. */
  lemma {:induction false} CollectIndexedOrder(ps: seq<(string, string)>)
    ensures forall i, j :: 0 <= i < j < |CollectIndexed(ps)| ==>
              FirstIndexOf(ps, CollectIndexed(ps)[i].0) < FirstIndexOf(ps, CollectIndexed(ps)[j].0)
  {
    if ps != [] {
      var n := |ps| - 1;
      var pre := ps[..n];
      CollectIndexedOrder(pre);
      CollectIndexedKeys(pre);
      var m := CollectIndexed(pre);
      var (k, v) := ps[n];
      var r := CollectIndexed(ps);
      InsertKeys(m, k, v);
      forall i | 0 <= i < |m| ensures FirstIndexOf(ps, r[i].0) == FirstIndexOf(pre, m[i].0) < n {
        assert m[i].0 in KeySet(pre) by { assert m[i].0 in KeySet(m); }
        FirstIndexOfShared(ps, n, m[i].0);
      }
      if k !in KeySet(pre) {
        forall i | 0 <= i < n ensures ps[i].0 != k {
          assert pre[i] == ps[i];
          assert pre[i].0 in KeySet(pre);
        }
        FirstIndexOfUnique(ps, k, n);
      }
    }
  }

  /** Position of the first pair of `ps` whose key is `k` (`|ps|` when there is none). */
  function FirstIndexOf(ps: seq<(string, string)>, k: string): (r: nat)
    ensures r <= |ps|
    ensures r < |ps| ==> ps[r].0 == k
    ensures forall j :: 0 <= j < r ==> ps[j].0 != k
  {
    if ps == [] then 0
    else if ps[0].0 == k then 0
    else
      var r := 1 + FirstIndexOf(ps[1..], k);
      assert forall j :: 1 <= j < |ps| ==> ps[j] == ps[1..][j - 1];
      r
  }

  lemma FirstIndexOfUnique(ps: seq<(string, string)>, k: string, f: nat)
    requires f < |ps| && ps[f].0 == k
    requires forall j :: 0 <= j < f ==> ps[j].0 != k
    ensures FirstIndexOf(ps, k) == f
  {
  }

  lemma FirstIndexOfBound(ps: seq<(string, string)>, k: string)
    requires k in KeySet(ps)
    ensures FirstIndexOf(ps, k) < |ps|
  {
    var i :| 0 <= i < |ps| && ps[i].0 == k;
    assert FirstIndexOf(ps, k) <= i;
  }

  /** A key that occurs in the prefix `ps[..n]` has the same first position in `ps`. */
  lemma FirstIndexOfShared(ps: seq<(string, string)>, n: nat, k: string)
    requires n <= |ps| && k in KeySet(ps[..n])
    ensures FirstIndexOf(ps, k) == FirstIndexOf(ps[..n], k) < n
  {
    var pre := ps[..n];
    var f := FirstIndexOf(pre, k);
    FirstIndexOfBound(pre, k);
    assert pre[f] == ps[f];
    assert forall j :: 0 <= j < f ==> pre[j] == ps[j];
    FirstIndexOfUnique(ps, k, f);
  }

  /** `PropertyDrawer::to_index_map`. */
  function ToIndexMap(d: Elem): seq<(string, string)>
    requires d.Node?
  {
    CollectIndexed(Iter(d))
  }

  // ---------------------------------------------------------------------------
  // The documented drawers

  /** The children of the NODE_PROPERTY node for the line ":key: value". */
  function PropertyChildren(key: string, value: string): seq<Elem>
  {
    [Tok(Colon, ":"), Tok(Text, key), Tok(Colon, ":")] + [Tok(Whitespace, " "), Tok(Text, value), Tok(NewLine, "\n")]
  }

  function PropertyNode(key: string, value: string): Elem
  {
    Node(NodeProperty, PropertyChildren(key, value))
  }

  /** The TEXT tokens of a property line are its key and its value. */
  lemma PropertyTexts(key: string, value: string)
    ensures TokensOf(PropertyChildren(key, value), Text) == [key, value]
  {
    var head := [Tok(Colon, ":"), Tok(Text, key), Tok(Colon, ":")];
    var tail := [Tok(Whitespace, " "), Tok(Text, value), Tok(NewLine, "\n")];
    TokensOfAppend(head, tail, Text);
    ThreeTexts(head, key);
    ThreeTexts(tail, value);
  }

  /** Three children whose middle one alone is a TEXT token give that token's text. */
  lemma ThreeTexts(cs: seq<Elem>, t: string)
    requires |cs| == 3 && cs[1] == Tok(Text, t)
    requires !IsTokenOf(cs[0], Text) && !IsTokenOf(cs[2], Text)
    ensures TokensOf(cs, Text) == [t]
  {
    TokensOfCons(cs[0], cs[1..], Text);
    assert cs == [cs[0]] + cs[1..];
    TokensOfCons(cs[1], cs[2..], Text);
    assert cs[1..] == [cs[1]] + cs[2..];
    TokensOfCons(cs[2], [], Text);
    assert cs[2..] == [cs[2]] + [];
  }

  /** A property line contributes its key and value, in that order. */
  lemma PropertyNodePair(key: string, value: string)
    ensures PropertyPair(PropertyNode(key, value)) == Some((key, value))
    ensures ChildPairs(PropertyNode(key, value)) == [(key, value)]
  {
    PropertyTexts(key, value);
  }

  /** No NODE_PROPERTY node among `cs` (the ":PROPERTIES:" and ":END:" lines, say). */
  predicate NoProperty(cs: seq<Elem>)
  {
    forall e :: e in cs ==> !IsNodeOf(e, NodeProperty)
  }

  /** A property drawer: the lines `pre`, two property lines, then the lines `post`. */
  function TwoPropertyDrawer(pre: seq<Elem>, k1: string, v1: string, k2: string, v2: string, post: seq<Elem>): Elem
  {
    Node(PropertyDrawer, pre + [PropertyNode(k1, v1), PropertyNode(k2, v2)] + post)
  }

  /** Children holding no property contribute no pair, wherever they stand. */
  lemma IterAround(kind: Kind, pre: seq<Elem>, mid: seq<Elem>, post: seq<Elem>)
    requires NoProperty(pre) && NoProperty(post)
    ensures Iter(Node(kind, pre + mid + post)) == Iter(Node(kind, mid))
  {
    IterChildren(kind, pre, mid + post);
    IterChildren(kind, mid, post);
    assert pre + mid + post == pre + (mid + post);
    NodesOfNone(pre, NodeProperty);
    NodesOfNone(post, NodeProperty);
  }

  /**
   * The `iter` doc-test: a drawer of two property lines between its
   * begin and end lines yields their two pairs, in order, so it counts 2.
   */
  lemma TwoPropertyIter(pre: seq<Elem>, k1: string, v1: string, k2: string, v2: string, post: seq<Elem>)
    requires NoProperty(pre) && NoProperty(post)
    ensures Iter(TwoPropertyDrawer(pre, k1, v1, k2, v2, post)) == [(k1, v1), (k2, v2)]
  {
    IterAround(PropertyDrawer, pre, [PropertyNode(k1, v1), PropertyNode(k2, v2)], post);
    IterOfTwo(PropertyDrawer, PropertyNode(k1, v1), PropertyNode(k2, v2));
    PropertyNodePair(k1, v1);
    PropertyNodePair(k2, v2);
  }

  lemma IterOfTwo(kind: Kind, p1: Elem, p2: Elem)
    ensures Iter(Node(kind, [p1, p2])) == ChildPairs(p1) + ChildPairs(p2)
  {
    IterChildren(kind, [p1], [p2]);
    IterChildren(kind, [p2], []);
    assert [p1] + [p2] == [p1, p2];
    assert [p2] + [] == [p2];
  }

  /**
   * Two property lines with the same key (":CUSTOM_ID: someid" followed by
   * ":CUSTOM_ID: id"): `iter` yields both, `get` returns the first value, and
   * the hash map keeps a single entry holding the second.
   */
  lemma DuplicateKeyExample(pre: seq<Elem>, k: string, v1: string, v2: string, post: seq<Elem>)
    requires NoProperty(pre) && NoProperty(post)
    ensures var d := TwoPropertyDrawer(pre, k, v1, k, v2, post);
            |Iter(d)| == 2 && Get(d, k) == Some(v1) &&
            ToHashMap(d) == map[k := v2] && |ToHashMap(d)| == 1
  {
    TwoPropertyIter(pre, k, v1, k, v2, post);
    var ps := [(k, v1), (k, v2)];
    assert ps[..1] == [(k, v1)];
    assert ps[..1][..0] == [];
    assert Collect(ps[..1]) == map[k := v1];
    assert Collect(ps) == map[k := v1][k := v2];
  }

  /**
   * Two property lines with different keys (":CUSTOM_ID: someid" then
   * ":ID: id"): `iter` counts two, `get` finds each value, and the
   * insertion-ordered map holds both in order, so entry 1 is the second line.
   */
  lemma TwoKeysIndexExample(pre: seq<Elem>, k1: string, v1: string, k2: string, v2: string, post: seq<Elem>)
    requires NoProperty(pre) && NoProperty(post)
    requires k1 != k2
    ensures var d := TwoPropertyDrawer(pre, k1, v1, k2, v2, post);
            |Iter(d)| == 2 && Get(d, k1) == Some(v1) && Get(d, k2) == Some(v2) &&
            ToIndexMap(d) == [(k1, v1), (k2, v2)] && ToIndexMap(d)[1] == (k2, v2)
  {
    TwoPropertyIter(pre, k1, v1, k2, v2, post);
    var ps := [(k1, v1), (k2, v2)];
    assert ps[..1] == [(k1, v1)];
    assert ps[..1][..0] == [];
    assert CollectIndexed(ps[..1]) == [(k1, v1)];
    assert IndexOfKey([(k1, v1)], k2).None?;
    assert ps[1..] == [(k2, v2)];
    assert FindValue(ps[1..], k2) == Some(v2);
  }
}
