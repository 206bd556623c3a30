/** Small failure-compatible wrapper used throughout the model. */
module Wrappers {
  datatype Option<+T> = None | Some(value: T)
}

/**
 * A minimal stand-in for the lossless syntax tree.
 *
 * Every element carries a kind tag; a token holds a piece of the source text,
 * a node holds its children in source order.  Text is a sequence of Unicode
 * scalar values; lengths and offsets are counted in UTF-8 bytes, as the tree's
 * text ranges are.
 */
module Syntax {
  import opened Wrappers

  /** The closed kind taxonomy (the subset of tags the modelled code looks at). */
  datatype Kind =
    | Document | Section | Paragraph | BlankLine
    | Headline | HeadlineStars | HeadlineKeywordTodo | HeadlineKeywordDone
    | HeadlinePriority | HeadlineTitle | HeadlineTags | Planning
    | Drawer | DrawerBegin | DrawerContent | DrawerEnd | PropertyDrawer | NodeProperty | Clock
    | Snippet | At2 | Text | Whitespace | NewLine | Colon

  datatype Elem = Tok(kind: Kind, text: string) | Node(kind: Kind, children: seq<Elem>)

  predicate IsTokenOf(e: Elem, k: Kind) { e.Tok? && e.kind == k }

  predicate IsNodeOf(e: Elem, k: Kind) { e.Node? && e.kind == k }

  // ---------------------------------------------------------------------------
  // Text and byte lengths

  /** Number of bytes of the UTF-8 encoding of `c`. */
  function Utf8Width(c: char): (w: nat)
    ensures 1 <= w <= 4
    ensures w == 1 <==> (c as int) < 0x80
  {
    if (c as int) < 0x80 then 1
    else if (c as int) < 0x800 then 2
    else if (c as int) < 0x10000 then 3
    else 4
  }

  /** Number of bytes of the UTF-8 encoding of `s`. */
  function Utf8Len(s: string): nat
  {
    if s == [] then 0 else Utf8Width(s[0]) + Utf8Len(s[1..])
  }

  predicate IsAscii(s: string) { forall i :: 0 <= i < |s| ==> (s[i] as int) < 0x80 }

  lemma {:induction false} Utf8LenAppend(a: string, b: string)
    ensures Utf8Len(a + b) == Utf8Len(a) + Utf8Len(b)
  {
    if a == [] {
      assert a + b == b;
    } else {
      assert (a + b)[0] == a[0] && (a + b)[1..] == a[1..] + b;
      Utf8LenAppend(a[1..], b);
    }
  }

  /** For ASCII text the byte length is the character count. */
  lemma {:induction false} AsciiUtf8Len(s: string)
    requires IsAscii(s)
    ensures Utf8Len(s) == |s|
  {
    if s != [] {
      AsciiUtf8Len(s[1..]);
    }
  }

  /** The text of an element: the in-order concatenation of its tokens' text. */
  function TextOf(e: Elem): string
    decreases e, 1
  {
    match e
    case Tok(_, t) => t
    case Node(_, cs) => Concat(cs)
  }

  function Concat(cs: seq<Elem>): string
    decreases cs, 0
  {
    if cs == [] then [] else TextOf(cs[0]) + Concat(cs[1..])
  }

  /** The cached length of an element: a token's byte length, a node's sum of children. */
  function Len(e: Elem): nat
    decreases e, 1
  {
    match e
    case Tok(_, t) => Utf8Len(t)
    case Node(_, cs) => SumLen(cs)
  }

  function SumLen(cs: seq<Elem>): nat
    decreases cs, 0
  {
    if cs == [] then 0 else Len(cs[0]) + SumLen(cs[1..])
  }

  lemma {:induction false} ConcatAppend(a: seq<Elem>, b: seq<Elem>)
    ensures Concat(a + b) == Concat(a) + Concat(b)
  {
    if a == [] {
      assert a + b == b;
    } else {
      assert (a + b)[0] == a[0] && (a + b)[1..] == a[1..] + b;
      ConcatAppend(a[1..], b);
    }
  }

  lemma {:induction false} SumLenAppend(a: seq<Elem>, b: seq<Elem>)
    ensures SumLen(a + b) == SumLen(a) + SumLen(b)
  {
    if a == [] {
      assert a + b == b;
    } else {
      assert (a + b)[0] == a[0] && (a + b)[1..] == a[1..] + b;
      SumLenAppend(a[1..], b);
    }
  }

  /** The cached length never disagrees with the byte length of the element's text. */
  lemma {:induction false} LenIsTextLen(e: Elem)
    ensures Len(e) == Utf8Len(TextOf(e))
    decreases e, 1
  {
    match e
    case Tok(_, _) =>
    case Node(_, cs) => SumLenIsConcatLen(cs);
  }

  lemma {:induction false} SumLenIsConcatLen(cs: seq<Elem>)
    ensures SumLen(cs) == Utf8Len(Concat(cs))
    decreases cs, 0
  {
    if cs != [] {
      LenIsTextLen(cs[0]);
      SumLenIsConcatLen(cs[1..]);
      Utf8LenAppend(TextOf(cs[0]), Concat(cs[1..]));
    }
  }

  lemma ConcatSplit(pre: seq<Elem>, e: Elem, post: seq<Elem>)
    ensures Concat(pre + [e] + post) == Concat(pre) + TextOf(e) + Concat(post)
  {
    ConcatAppend(pre + [e], post);
    ConcatAppend(pre, [e]);
    ConcatSingleton(e);
  }

  /** The text of child `i` sits between the text of its earlier and later siblings. */
  lemma ChildTextSplit(cs: seq<Elem>, i: nat)
    requires i < |cs|
    ensures Concat(cs) == Concat(cs[..i]) + TextOf(cs[i]) + Concat(cs[i + 1..])
  {
    ConcatSplit(cs[..i], cs[i], cs[i + 1..]);
    assert cs[..i] + [cs[i]] + cs[i + 1..] == cs;
  }

  lemma ConcatSingleton(e: Elem)
    ensures Concat([e]) == TextOf(e)
  {
    assert [e][1..] == [];
  }

  // ---------------------------------------------------------------------------
  // Child queries: `children_with_tokens()` / `children()` filters

  /**
   * `children_with_tokens().find_map(filter_token(k))`: the text of the first
   * direct token child of kind `k`.
   */
  function FindToken(cs: seq<Elem>, k: Kind): (r: Option<string>)
    ensures r.None? <==> forall i :: 0 <= i < |cs| ==> !IsTokenOf(cs[i], k)
    ensures r.Some? ==> exists i :: 0 <= i < |cs| && cs[i] == Tok(k, r.value) &&
                                    forall j :: 0 <= j < i ==> !IsTokenOf(cs[j], k)
  {
    if cs == [] then None
    else if IsTokenOf(cs[0], k) then Some(cs[0].text)
    else
      var r := FindToken(cs[1..], k);
      assert forall i :: 1 <= i < |cs| ==> cs[i] == cs[1..][i - 1];
      r
  }

  /** `children_with_tokens().filter_map(filter_token(k))`: texts of all direct tokens of kind `k`. */
  function TokensOf(cs: seq<Elem>, k: Kind): (r: seq<string>)
    ensures |r| <= |cs|
  {
    if cs == [] then []
    else if IsTokenOf(cs[0], k) then [cs[0].text] + TokensOf(cs[1..], k)
    else TokensOf(cs[1..], k)
  }

  /** Exactly the texts of the direct tokens of kind `k` are listed. */
  lemma {:induction false} TokensOfMembers(cs: seq<Elem>, k: Kind)
    ensures forall t :: t in TokensOf(cs, k) <==> Tok(k, t) in cs
  {
    if cs != [] {
      TokensOfMembers(cs[1..], k);
      assert cs == [cs[0]] + cs[1..];
    }
  }

  /** `find_map` and `filter_map(..).next()` pick the same token. */
  lemma {:induction false} FindTokenIsFirstOfTokens(cs: seq<Elem>, k: Kind)
    ensures FindToken(cs, k) == if TokensOf(cs, k) == [] then None else Some(TokensOf(cs, k)[0])
  {
    if cs != [] && !IsTokenOf(cs[0], k) {
      FindTokenIsFirstOfTokens(cs[1..], k);
    }
  }

  /** One step of the filter: the first child contributes its text when it is a token of kind `k`. */
  lemma TokensOfCons(e: Elem, rest: seq<Elem>, k: Kind)
    ensures TokensOf([e] + rest, k) == (if IsTokenOf(e, k) then [e.text] else []) + TokensOf(rest, k)
  {
    assert ([e] + rest)[1..] == rest;
  }

  lemma {:induction false} TokensOfAppend(a: seq<Elem>, b: seq<Elem>, k: Kind)
    ensures TokensOf(a + b, k) == TokensOf(a, k) + TokensOf(b, k)
  {
    if a == [] {
      assert a + b == b;
    } else {
      assert (a + b)[0] == a[0] && (a + b)[1..] == a[1..] + b;
      TokensOfAppend(a[1..], b, k);
    }
  }

  /**
   * The `n`-th token of kind `k` (`filter_map(..).nth(n)`) is a direct child
   * preceded by exactly `n` tokens of that kind.
   */
  lemma {:induction false} NthTokenPosition(cs: seq<Elem>, k: Kind, n: nat) returns (j: nat)
    requires n < |TokensOf(cs, k)|
    ensures j < |cs| && cs[j] == Tok(k, TokensOf(cs, k)[n])
    ensures |TokensOf(cs[..j], k)| == n
  {
    var tail := TokensOf(cs[1..], k);
    if IsTokenOf(cs[0], k) {
      assert TokensOf(cs, k) == [cs[0].text] + tail;
      if n == 0 {
        j := 0;
        assert cs[..j] == [];
        return;
      }
      var j' := NthTokenPosition(cs[1..], k, n - 1);
      j := j' + 1;
      assert cs[..j][1..] == cs[1..][..j'];
    } else {
      assert TokensOf(cs, k) == tail;
      var j' := NthTokenPosition(cs[1..], k, n);
      j := j' + 1;
      assert cs[..j][1..] == cs[1..][..j'];
    }
  }

  /** Index of the first direct child node of kind `k` (`children().find(..)`). */
  function FindNodeIndex(cs: seq<Elem>, k: Kind): (r: Option<nat>)
    ensures r.None? <==> forall i :: 0 <= i < |cs| ==> !IsNodeOf(cs[i], k)
    ensures r.Some? ==> r.value < |cs| && IsNodeOf(cs[r.value], k) &&
                        forall j :: 0 <= j < r.value ==> !IsNodeOf(cs[j], k)
  {
    if cs == [] then None
    else if IsNodeOf(cs[0], k) then Some(0)
    else
      match FindNodeIndex(cs[1..], k)
      case None => None
      case Some(i) => Some(i + 1)
  }

  function FindNode(cs: seq<Elem>, k: Kind): (r: Option<Elem>)
    ensures r.Some? ==> IsNodeOf(r.value, k) && r.value in cs
  {
    match FindNodeIndex(cs, k)
    case None => None
    case Some(i) => Some(cs[i])
  }

  /** `children().filter_map(X::cast)`: the direct child nodes of kind `k`, in order. */
  function NodesOf(cs: seq<Elem>, k: Kind): (r: seq<Elem>)
    ensures |r| <= |cs|
    ensures forall e :: e in r <==> e in cs && IsNodeOf(e, k)
  {
    if cs == [] then []
    else if IsNodeOf(cs[0], k) then [cs[0]] + NodesOf(cs[1..], k)
    else NodesOf(cs[1..], k)
  }

  /** One step of the filter: the first child is kept when it is a node of kind `k`. */
  lemma NodesOfCons(e: Elem, rest: seq<Elem>, k: Kind)
    ensures NodesOf([e] + rest, k) == (if IsNodeOf(e, k) then [e] else []) + NodesOf(rest, k)
  {
    assert ([e] + rest)[1..] == rest;
  }

  /** Without a node of kind `k` among the children, the filter is empty. */
  lemma {:induction false} NodesOfNone(cs: seq<Elem>, k: Kind)
    requires forall e :: e in cs ==> !IsNodeOf(e, k)
    ensures NodesOf(cs, k) == []
  {
    if cs != [] {
      assert forall e :: e in cs[1..] ==> e in cs;
      NodesOfNone(cs[1..], k);
    }
  }

  /** The nodes of kind `k` keep the children's order and multiplicity: the filter distributes over `+`. */
  lemma {:induction false} NodesOfAppend(a: seq<Elem>, b: seq<Elem>, k: Kind)
    ensures NodesOf(a + b, k) == NodesOf(a, k) + NodesOf(b, k)
  {
    if a == [] {
      assert a + b == b;
    } else {
      assert (a + b)[0] == a[0] && (a + b)[1..] == a[1..] + b;
      NodesOfAppend(a[1..], b, k);
    }
  }

  // ---------------------------------------------------------------------------
  // Absolute positions

  /** Absolute start of child `i` of a node that starts at `start`. */
  function ChildStart(start: nat, cs: seq<Elem>, i: nat): nat
    requires i <= |cs|
  {
    start + SumLen(cs[..i])
  }

  /** Each child's range is contiguous with the next and lies inside the parent's range. */
  lemma ChildRange(start: nat, cs: seq<Elem>, i: nat)
    requires i < |cs|
    ensures start <= ChildStart(start, cs, i)
    ensures ChildStart(start, cs, i) + Len(cs[i]) == ChildStart(start, cs, i + 1)
    ensures ChildStart(start, cs, i + 1) <= start + SumLen(cs)
  {
    assert cs[..i + 1] == cs[..i] + [cs[i]];
    SumLenAppend(cs[..i], [cs[i]]);
    assert cs == cs[..i + 1] + cs[i + 1..];
    SumLenAppend(cs[..i + 1], cs[i + 1..]);
  }

  lemma ChildStartMonotone(start: nat, cs: seq<Elem>, i: nat, j: nat)
    requires i <= j <= |cs|
    ensures ChildStart(start, cs, i) <= ChildStart(start, cs, j)
  {
    assert cs[..j] == cs[..i] + cs[i..j];
    SumLenAppend(cs[..i], cs[i..j]);
  }

  /** `first_child()`: the index of the first child that is a node. */
  function FirstNodeIndex(cs: seq<Elem>): (r: Option<nat>)
    ensures r.None? <==> forall i :: 0 <= i < |cs| ==> !cs[i].Node?
    ensures r.Some? ==> r.value < |cs| && cs[r.value].Node? &&
                        forall j :: 0 <= j < r.value ==> !cs[j].Node?
  {
    if cs == [] then None
    else if cs[0].Node? then Some(0)
    else
      match FirstNodeIndex(cs[1..])
      case None => None
      case Some(i) => Some(i + 1)
  }

  /** `last_child()`: the index of the last child that is a node. */
  function LastNodeIndex(cs: seq<Elem>): (r: Option<nat>)
    ensures r.None? <==> forall i :: 0 <= i < |cs| ==> !cs[i].Node?
    ensures r.Some? ==> r.value < |cs| && cs[r.value].Node? &&
                        forall j :: r.value < j < |cs| ==> !cs[j].Node?
  {
    if cs == [] then None
    else if cs[|cs| - 1].Node? then Some(|cs| - 1)
    else LastNodeIndex(cs[..|cs| - 1])
  }
}
