/**
 * Typed view over an export snippet `@@BACKEND:VALUE@@`: its backend and its
 * value are the first and the second TEXT token among the node's direct
 * children.
 */
module SnippetView {
  import opened Syntax

  predicate IsSnippet(s: Elem) { IsNodeOf(s, Snippet) }

  /**
   * `backend`: the first TEXT token.  A snippet without one is a broken
   * invariant of the parser (the accessor panics), hence the precondition.
   */
  function Backend(s: Elem): (r: string)
    requires IsSnippet(s) && |TokensOf(s.children, Text)| >= 1
    ensures Tok(Text, r) in s.children
    ensures exists i :: 0 <= i < |s.children| && s.children[i] == Tok(Text, r) &&
                        forall j :: 0 <= j < i ==> !IsTokenOf(s.children[j], Text)
  {
    FindTokenIsFirstOfTokens(s.children, Text);
    FindToken(s.children, Text).value
  }

  /** `value`: the second TEXT token; a snippet with fewer than two is a broken parser invariant. */
  function Value(s: Elem): (r: string)
    requires IsSnippet(s) && |TokensOf(s.children, Text)| >= 2
    ensures Tok(Text, r) in s.children
  {
    TokensOfMembers(s.children, Text);
    TokensOf(s.children, Text)[1]
  }

  /**
   * The value token is a later child than the backend token, and the backend
   * is the only TEXT token before it.
   */
  lemma ValueFollowsBackend(s: Elem) returns (i: nat, j: nat)
    requires IsSnippet(s) && |TokensOf(s.children, Text)| >= 2
    ensures i < j < |s.children|
    ensures s.children[i] == Tok(Text, Backend(s))
    ensures s.children[j] == Tok(Text, Value(s))
    ensures TokensOf(s.children[..j], Text) == [Backend(s)]
  {
    var cs := s.children;
    FindTokenIsFirstOfTokens(cs, Text);
    i := NthTokenPosition(cs, Text, 0);
    j := NthTokenPosition(cs, Text, 1);
    if j <= i {
      assert cs[..i] == cs[..j] + cs[j..i];
      TokensOfAppend(cs[..j], cs[j..i], Text);
      assert false;
    }
    TokensOfSplit(cs[..j], i, Text);
    assert cs[..j][..i] == cs[..i] && cs[..j][i] == cs[i];
  }

  lemma TokensOfSplit(cs: seq<Elem>, i: nat, k: Kind)
    requires i < |cs|
    ensures TokensOf(cs, k) == TokensOf(cs[..i], k) + TokensOf([cs[i]], k) + TokensOf(cs[i + 1..], k)
  {
    assert cs == cs[..i] + ([cs[i]] + cs[i + 1..]);
    TokensOfAppend(cs[..i], [cs[i]] + cs[i + 1..], k);
    TokensOfAppend([cs[i]], cs[i + 1..], k);
  }

  /** The children of the snippet `@@b:v@@`. */
  function SnippetChildren(b: string, v: string): seq<Elem>
  {
    [Tok(At2, "@@"), Tok(Text, b), Tok(Colon, ":"), Tok(Text, v), Tok(At2, "@@")]
  }

  /**
   * In `@@b:v@@` the backend is `b` and the value is `v`, even when `v` is
   * empty: "@@BACKEND:VALUE@@" and "@@BACKEND:@@" are instances.
   */
  lemma SnippetExample(b: string, v: string)
    ensures TokensOf(SnippetChildren(b, v), Text) == [b, v]
    ensures Backend(Node(Snippet, SnippetChildren(b, v))) == b
    ensures Value(Node(Snippet, SnippetChildren(b, v))) == v
  {
    var cs := SnippetChildren(b, v);
    var t4 := [Tok(At2, "@@")];
    var t3 := [Tok(Text, v)] + t4;
    var t2 := [Tok(Colon, ":")] + t3;
    var t1 := [Tok(Text, b)] + t2;
    assert cs == [Tok(At2, "@@")] + t1;
    assert TokensOf(t4, Text) == [] by { assert t4[1..] == []; }
    assert TokensOf(t3, Text) == [v] by { assert t3[1..] == t4; }
    assert TokensOf(t2, Text) == [v] by { assert t2[1..] == t3; }
    assert TokensOf(t1, Text) == [b, v] by { assert t1[1..] == t2; }
    assert cs[1..] == t1;
    FindTokenIsFirstOfTokens(cs, Text);
  }
}
